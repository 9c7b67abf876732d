/*
 * The punctuators the JavaScript lexer recognises and the reserved words it
 * recognises depending on strict mode. Only the lexer's ordinary grammar
 * contexts are modelled, in which a regular expression either may or may
 * not start; the Flow type and JSX contexts are not part of this model.
 */
module JSLexerTokens {
  import opened Unicode
  import opened JSLexerSpec

  /** The byte at `k` as a character. */
  function Ch(s: seq<Byte>, k: int): char
  {
    At(s, k) as char
  }

  /** The punctuator that starts at `i`, spelled as written, or none when
      the byte there starts something else: a comment, a regular expression
      where one may start, a number such as `.5`, or no punctuator at all. */
  function PunctuatorAt(s: seq<Byte>, i: int, regExpAllowed: bool): Option<string>
  {
    PunctuatorOf(Ch(s, i), Ch(s, i + 1), Ch(s, i + 2), Ch(s, i + 3), regExpAllowed)
  }

  /** The punctuator chosen by its first four characters. */
  function PunctuatorOf(c: char, c1: char, c2: char, c3: char, regExpAllowed: bool): Option<string>
  {
    if c in "}()[];,~:{" then Some([c])
    else if c == '=' then Some(if c1 == '>' then "=>" else if c1 != '=' then "=" else if c2 == '=' then "===" else "==")
    else if c == '!' then Some(if c1 != '=' then "!" else if c2 == '=' then "!==" else "!=")
    else if c == '+' || c == '-' then Some(if c1 == c then [c, c] else if c1 == '=' then [c, '='] else [c])
    else if c == '&' || c == '|' then
      Some(if c1 == c then (if c2 == '=' then [c, c, '='] else [c, c]) else if c1 == '=' then [c, '='] else [c])
    else if c == '?' then
      Some(if c1 == '.' && !IsDecimalDigit(c2 as int) then "?." else if c1 == '?' then (if c2 == '=' then "??=" else "??") else "?")
    else if c == '*' then Some(if c1 == '=' then "*=" else if c1 != '*' then "*" else if c2 == '=' then "**=" else "**")
    else if c == '^' || c == '%' then Some(if c1 == '=' then [c, '='] else [c])
    else if c == '/' then
      if c1 == '/' || c1 == '*' || regExpAllowed then None else Some(if c1 == '=' then "/=" else "/")
    else if c == '<' then Some(if c1 == '=' then "<=" else if c1 == '<' then (if c2 == '=' then "<<=" else "<<") else "<")
    else if c == '>' then
      Some(if c1 == '=' then ">=" else if c1 == '>' then (if c2 == '=' then ">>=" else if c2 == '>' then (if c3 == '=' then ">>>=" else ">>>") else ">>") else ">")
    else if c == '.' then
      if IsDecimalDigit(c1 as int) then None else Some(if c1 == '.' && c2 == '.' then "..." else ".")
    else None
  }

  /** The punctuators of ECMAScript 2021 (section 12.7) outside type and
      JSX contexts. */
  predicate IsPunctuator(q: string)
  {
    && 1 <= |q|
    && var c := q[0];
    if c in "{}()[];,~:" then q == [c]
    else if c == '=' then q == "=" || q == "=>" || q == "==" || q == "==="
    else if c == '!' then q == "!" || q == "!=" || q == "!=="
    else if c == '+' || c == '-' then q == [c] || q == [c, c] || q == [c, '=']
    else if c == '&' || c == '|' then q == [c] || q == [c, c] || q == [c, '='] || q == [c, c, '=']
    else if c == '?' then q == "?" || q == "?." || q == "??" || q == "??="
    else if c == '*' then q == "*" || q == "*=" || q == "**" || q == "**="
    else if c == '^' || c == '%' || c == '/' then q == [c] || q == [c, '=']
    else if c == '<' then q == "<" || q == "<=" || q == "<<" || q == "<<="
    else if c == '>' then q == ">" || q == ">=" || q == ">>" || q == ">>=" || q == ">>>" || q == ">>>="
    else if c == '.' then q == "." || q == "..."
    else false
  }

  /** `p` is written at `i`. */
  ghost predicate WrittenAt(s: seq<Byte>, i: int, p: string)
  {
    forall k :: 0 <= k < |p| ==> Ch(s, i + k) == p[k]
  }

  /** `q`, at most four characters long, begins the characters `c`, `c1`,
      `c2`, `c3`. */
  predicate Spells(q: string, c: char, c1: char, c2: char, c3: char)
  {
    && 1 <= |q| <= 4 && q[0] == c
    && (|q| > 1 ==> q[1] == c1) && (|q| > 2 ==> q[2] == c2) && (|q| > 3 ==> q[3] == c3)
  }

  /** The lexer takes the longest punctuator written at `i`, with the one
      exception that `?.` followed by a digit is read as `?` (so that
      `x?.3:y` is a conditional); and it finds one whenever one is written
      there, except for a slash that starts a comment or a regular
      expression and a dot that starts a number. */
  lemma PunctuatorLongestMatch(s: seq<Byte>, i: int, regExpAllowed: bool, q: string)
    ensures var r := PunctuatorAt(s, i, regExpAllowed);
      && (r.Some? ==> IsPunctuator(r.value) && WrittenAt(s, i, r.value))
      && (r.Some? && IsPunctuator(q) && WrittenAt(s, i, q) ==>
            |q| <= |r.value| || (r.value == "?" && q == "?." && IsDecimalDigit(At(s, i + 2))))
      && (r.None? && IsPunctuator(q) && WrittenAt(s, i, q) ==>
            Ch(s, i) == '/' || (Ch(s, i) == '.' && IsDecimalDigit(At(s, i + 1))))
  {
    var c, c1, c2, c3 := Ch(s, i), Ch(s, i + 1), Ch(s, i + 2), Ch(s, i + 3);
    var r := PunctuatorAt(s, i, regExpAllowed);
    if r.Some? {
      PunctuatorSpelled(c, c1, c2, c3, regExpAllowed);
      var p := r.value;
      forall k | 0 <= k < |p| ensures Ch(s, i + k) == p[k] {
        if k == 0 {} else if k == 1 {} else if k == 2 {} else {}
      }
    }
    if IsPunctuator(q) && WrittenAt(s, i, q) {
      PunctuatorLength(q);
      assert Ch(s, i) == q[0];
      if |q| > 1 {
        assert Ch(s, i + 1) == q[1];
      }
      if |q| > 2 {
        assert Ch(s, i + 2) == q[2];
      }
      if |q| > 3 {
        assert Ch(s, i + 3) == q[3];
      }
      LongestOf(c, c1, c2, c3, regExpAllowed, q);
    }
  }

  lemma PunctuatorLength(q: string)
    requires IsPunctuator(q)
    ensures 1 <= |q| <= 4
  {
  }

  /** What the lexer takes is a punctuator spelled by the characters. */
  lemma PunctuatorSpelled(c: char, c1: char, c2: char, c3: char, regExpAllowed: bool)
    requires PunctuatorOf(c, c1, c2, c3, regExpAllowed).Some?
    ensures var p := PunctuatorOf(c, c1, c2, c3, regExpAllowed).value;
      IsPunctuator(p) && Spells(p, c, c1, c2, c3)
  {
  }

  /** No punctuator the characters spell is longer than the one taken. */
  lemma LongestOf(c: char, c1: char, c2: char, c3: char, regExpAllowed: bool, q: string)
    requires IsPunctuator(q) && Spells(q, c, c1, c2, c3)
    ensures var r := PunctuatorOf(c, c1, c2, c3, regExpAllowed);
      && (r.Some? ==> |q| <= |r.value| || (r.value == "?" && q == "?." && IsDecimalDigit(c2 as int)))
      && (r.None? ==> c == '/' || (c == '.' && IsDecimalDigit(c1 as int)))
  {
  }

  // ---------------------------------------------------------------------------
  // Reserved words.
  // ---------------------------------------------------------------------------

  /** The words ECMAScript reserves only in strict mode (ECMAScript 2015,
      section 11.6.2.2), and `yield`. */
  const FutureReservedWords: set<string> := {"implements", "interface", "package", "private", "protected", "public", "static", "yield"}

  datatype WordKind = Identifier | ReservedWord(word: string)

  /** The kind of an identifier-shaped word, given the lexer's table of
      reserved words: reserved if the table holds it, unless it is reserved
      only in strict mode and the lexer is not in strict mode. */
  function ScanReservedWord(word: string, strictMode: bool, reservedWords: set<string>): (k: WordKind)
    ensures k.ReservedWord? ==> k.word == word
  {
    var rw := if word in reservedWords then ReservedWord(word) else Identifier;
    if !strictMode && rw != Identifier && word in FutureReservedWords then Identifier else rw
  }

  /** A word is reserved exactly when the table holds it and either the
      lexer is in strict mode or the word is reserved in every mode. */
  lemma ReservedWordMeaning(word: string, strictMode: bool, reservedWords: set<string>)
    ensures ScanReservedWord(word, strictMode, reservedWords).ReservedWord? <==>
      word in reservedWords && (strictMode || word !in FutureReservedWords)
    ensures strictMode ==> ScanReservedWord(word, strictMode, reservedWords) == ScanReservedWord(word, true, reservedWords)
  {
  }

  /** Going into strict mode only ever turns identifiers into reserved
      words, and only future reserved words. */
  lemma StrictModeReservesMore(word: string, reservedWords: set<string>)
    ensures ScanReservedWord(word, false, reservedWords).ReservedWord? ==> ScanReservedWord(word, true, reservedWords).ReservedWord?
    ensures ScanReservedWord(word, false, reservedWords) != ScanReservedWord(word, true, reservedWords) <==>
      word in reservedWords && word in FutureReservedWords
  {
  }
}
