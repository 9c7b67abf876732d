/*
 * The Windows Intl platform layer: canonicalization of a locale list
 * (section 9.2.1 of ECMA-402, CanonicalizeLocaleList) and the collator,
 * which compares strings by their UTF-16 code units. Canonicalizing one
 * tag goes through ICU, which is not part of this model: it appears as a
 * partial function `normalizer` given by the caller.
 */
module Intl {
  import opened Unicode

  type U16String = seq<CodeUnit>

  datatype Option<T> = None | Some(value: T)

  /** The RangeError raised for a tag: the empty tag has its own message,
      any other tag is named in the message. */
  datatype IntlError = EmptyTag | InvalidTag(tag: U16String)

  datatype Result<T> = Success(value: T) | Failure(error: IntlError)

  /** An ASCII literal as UTF-16 code units. */
  function Units(s: string): (u: U16String)
    requires forall i :: 0 <= i < |s| ==> s[i] as int < 0x80
    ensures |u| == |s| && forall i :: 0 <= i < |s| ==> u[i] == s[i] as int
  {
    seq(|s|, i requires 0 <= i < |s| => s[i] as int)
  }

  // ---------------------------------------------------------------------------
  // NormalizeLangugeTag and CanonicalizeLocaleList
  // ---------------------------------------------------------------------------

  /** `NormalizeLangugeTag`: the empty tag is rejected before ICU is asked;
      any other tag is canonicalized by ICU or rejected naming it. */
  function NormalizeLanguageTag(normalizer: U16String -> Option<U16String>, locale: U16String): (r: Result<U16String>)
    ensures |locale| == 0 ==> r == Failure(EmptyTag)
    ensures |locale| > 0 ==> (r.Success? <==> normalizer(locale).Some?)
    ensures r.Failure? && |locale| > 0 ==> r.error == InvalidTag(locale)
    ensures r.Success? ==> Some(r.value) == normalizer(locale)
  {
    if |locale| == 0 then Failure(EmptyTag)
    else match normalizer(locale)
      case None => Failure(InvalidTag(locale))
      case Some(c) => Success(c)
  }

  /** The canonical forms of a list of tags, in order, or the error of the
      first tag that does not canonicalize. */
  function CanonicalForms(normalizer: U16String -> Option<U16String>, locales: seq<U16String>): Result<seq<U16String>>
  {
    if |locales| == 0 then Success([])
    else match CanonicalForms(normalizer, locales[..|locales| - 1])
      case Failure(e) => Failure(e)
      case Success(cs) =>
        match NormalizeLanguageTag(normalizer, locales[|locales| - 1])
          case Failure(e) => Failure(e)
          case Success(c) => Success(cs + [c])
  }

  /** A list with each element kept at its first appearance only. */
  function FirstOccurrences(cs: seq<U16String>): seq<U16String>
  {
    if |cs| == 0 then []
    else
      var r := FirstOccurrences(cs[..|cs| - 1]);
      if cs[|cs| - 1] in r then r else r + [cs[|cs| - 1]]
  }

  /** What `CanonicalizeLocaleList` returns: the empty list for no tags,
      otherwise the canonical forms without repetitions, or the first
      error. */
  function CanonicalLocales(normalizer: U16String -> Option<U16String>, locales: seq<U16String>): Result<seq<U16String>>
  {
    if |locales| == 0 then Success([])
    else match CanonicalForms(normalizer, locales)
      case Failure(e) => Failure(e)
      case Success(cs) => Success(FirstOccurrences(cs))
  }

  /** `CanonicalizeLocaleList`: canonicalizes the tags in order and appends
      each canonical form not seen yet; the first tag that fails makes the
      whole call fail. */
  method CanonicalizeLocaleList(normalizer: U16String -> Option<U16String>, locales: seq<U16String>)
    returns (r: Result<seq<U16String>>)
    ensures r == CanonicalLocales(normalizer, locales)
  {
    if |locales| == 0 {
      return Success([]);
    }
    var seen: seq<U16String> := [];
    ghost var cs: seq<U16String> := [];
    var k := 0;
    while k < |locales|
      invariant 0 <= k <= |locales|
      invariant CanonicalForms(normalizer, locales[..k]) == Success(cs)
      invariant seen == FirstOccurrences(cs)
    {
      var tag := locales[k];
      var canonicalizedTag := NormalizeLanguageTag(normalizer, tag);
      assert locales[..k + 1][..k] == locales[..k];
      if canonicalizedTag.Failure? {
        FailurePersists(normalizer, locales, k + 1);
        return Failure(canonicalizedTag.error);
      }
      if canonicalizedTag.value !in seen {
        seen := seen + [canonicalizedTag.value];
      }
      cs := cs + [canonicalizedTag.value];
      assert cs[..|cs| - 1] == cs[..|cs| - 1];
      k := k + 1;
    }
    assert locales[..k] == locales;
    return Success(seen);
  }

  /** Once a prefix of the tags fails, the whole list fails with the same
      error. */
  lemma {:induction false} FailurePersists(normalizer: U16String -> Option<U16String>, locales: seq<U16String>, n: nat)
    requires n <= |locales| && CanonicalForms(normalizer, locales[..n]).Failure?
    ensures CanonicalForms(normalizer, locales) == CanonicalForms(normalizer, locales[..n])
    decreases |locales| - n
  {
    if n < |locales| {
      assert locales[..n + 1][..n] == locales[..n];
      FailurePersists(normalizer, locales, n + 1);
    } else {
      assert locales[..n] == locales;
    }
  }

  // ---------------------------------------------------------------------------
  // What the canonical list means.
  // ---------------------------------------------------------------------------

  predicate NoDuplicates(s: seq<U16String>)
  {
    forall i, j :: 0 <= i < j < |s| ==> s[i] != s[j]
  }

  /** Where x first appears in cs. */
  function IndexOf(cs: seq<U16String>, x: U16String): (k: nat)
    requires x in cs
    ensures k < |cs| && cs[k] == x && x !in cs[..k]
  {
    if cs[0] == x then 0
    else
      var k := 1 + IndexOf(cs[1..], x);
      assert cs[..k] == [cs[0]] + cs[1..][..k - 1];
      k
  }

  /** Canonicalization succeeds exactly when every tag canonicalizes; then
      the forms are those of the tags, one for one; otherwise the error is
      that of the first tag that fails. */
  lemma {:induction false} CanonicalFormsMeaning(normalizer: U16String -> Option<U16String>, locales: seq<U16String>)
    ensures var r := CanonicalForms(normalizer, locales);
      && (r.Success? <==> forall k :: 0 <= k < |locales| ==> NormalizeLanguageTag(normalizer, locales[k]).Success?)
      && (r.Success? ==>
            && |r.value| == |locales|
            && forall k :: 0 <= k < |locales| ==> NormalizeLanguageTag(normalizer, locales[k]) == Success(r.value[k]))
      && (r.Failure? ==>
            exists j ::
              && 0 <= j < |locales|
              && NormalizeLanguageTag(normalizer, locales[j]) == Failure(r.error)
              && forall k :: 0 <= k < j ==> NormalizeLanguageTag(normalizer, locales[k]).Success?)
  {
    if |locales| > 0 {
      var front := locales[..|locales| - 1];
      CanonicalFormsMeaning(normalizer, front);
      assert forall k :: 0 <= k < |front| ==> front[k] == locales[k];
    }
  }

  /** Keeping first occurrences keeps exactly the elements of the list. */
  lemma {:induction false} FirstOccurrencesElements(cs: seq<U16String>)
    ensures forall x :: x in FirstOccurrences(cs) <==> x in cs
  {
    if |cs| > 0 {
      var front := cs[..|cs| - 1];
      FirstOccurrencesElements(front);
      assert cs == front + [cs[|cs| - 1]];
    }
  }

  /** Keeping first occurrences leaves no element twice and never lengthens
      the list. */
  lemma {:induction false} FirstOccurrencesDistinct(cs: seq<U16String>)
    ensures NoDuplicates(FirstOccurrences(cs)) && |FirstOccurrences(cs)| <= |cs|
  {
    if |cs| > 0 {
      FirstOccurrencesDistinct(cs[..|cs| - 1]);
    }
  }

  /** Appending an element that already appears leaves every first
      appearance where it was; a new one first appears at the end. */
  lemma IndexOfSnoc(cs: seq<U16String>, c: U16String, x: U16String)
    requires x in cs + [c]
    ensures x in cs ==> IndexOf(cs + [c], x) == IndexOf(cs, x)
    ensures x !in cs ==> x == c && IndexOf(cs + [c], x) == |cs|
  {
    var k := IndexOf(cs + [c], x);
    assert forall i :: 0 <= i < k ==> (cs + [c])[i] != x by {
      forall i | 0 <= i < k
        ensures (cs + [c])[i] != x
      {
        assert (cs + [c])[..k][i] == (cs + [c])[i];
      }
    }
    if x in cs {
      var j := IndexOf(cs, x);
      assert forall i :: 0 <= i < j ==> cs[i] != x by {
        forall i | 0 <= i < j
          ensures cs[i] != x
        {
          assert cs[..j][i] == cs[i];
        }
      }
      assert (cs + [c])[j] == x;
    }
  }

  /** The elements of r appear in cs, in the order of their first
      appearance there. */
  ghost predicate InFirstAppearanceOrder(cs: seq<U16String>, r: seq<U16String>)
  {
    forall i, j :: 0 <= i < j < |r| ==> r[i] in cs && r[j] in cs && IndexOf(cs, r[i]) < IndexOf(cs, r[j])
  }

  /** The kept elements come in the order of their first appearance. */
  lemma {:induction false} FirstOccurrencesOrder(cs: seq<U16String>)
    ensures InFirstAppearanceOrder(cs, FirstOccurrences(cs))
  {
    if |cs| > 0 {
      var front := cs[..|cs| - 1];
      var c := cs[|cs| - 1];
      assert cs == front + [c];
      FirstOccurrencesOrder(front);
      FirstOccurrencesElements(front);
      var r := FirstOccurrences(cs);
      var rf := FirstOccurrences(front);
      forall i, j | 0 <= i < j < |r|
        ensures r[i] in cs && r[j] in cs && IndexOf(cs, r[i]) < IndexOf(cs, r[j])
      {
        OrderStep(front, c, rf, i, j);
      }
    }
  }

  /** One pair of kept elements after one more list element. */
  lemma OrderStep(front: seq<U16String>, c: U16String, rf: seq<U16String>, i: nat, j: nat)
    requires rf == FirstOccurrences(front) && InFirstAppearanceOrder(front, rf)
    requires forall x :: x in rf <==> x in front
    requires var r := FirstOccurrences(front + [c]); i < j < |r|
    ensures var r := FirstOccurrences(front + [c]);
      r[i] in front + [c] && r[j] in front + [c] && IndexOf(front + [c], r[i]) < IndexOf(front + [c], r[j])
  {
    var cs := front + [c];
    assert cs[..|cs| - 1] == front;
    var r := FirstOccurrences(cs);
    assert r[i] == rf[i] && rf[i] in front;
    IndexOfSnoc(front, c, r[i]);
    IndexOfSnoc(front, c, r[j]);
    if j < |rf| {
      assert r[j] == rf[j];
    }
  }

  /** The list `CanonicalizeLocaleList` returns: empty for no tags; failing
      exactly when some tag fails; otherwise free of repetitions, no longer
      than the input, holding exactly the canonical forms of the tags, in
      the order in which their canonical forms first appear. */
  lemma CanonicalLocalesMeaning(normalizer: U16String -> Option<U16String>, locales: seq<U16String>)
    ensures var r := CanonicalLocales(normalizer, locales);
      && (|locales| == 0 ==> r == Success([]))
      && (r.Success? <==> forall k :: 0 <= k < |locales| ==> NormalizeLanguageTag(normalizer, locales[k]).Success?)
      && (r.Failure? ==> exists j :: 0 <= j < |locales| && NormalizeLanguageTag(normalizer, locales[j]) == Failure(r.error))
      && (r.Success? ==> NoDuplicates(r.value) && |r.value| <= |locales|)
      && (r.Success? ==> forall x :: x in r.value <==>
            exists k :: 0 <= k < |locales| && NormalizeLanguageTag(normalizer, locales[k]) == Success(x))
      && (r.Success? ==>
            && CanonicalForms(normalizer, locales).Success?
            && InFirstAppearanceOrder(CanonicalForms(normalizer, locales).value, r.value))
  {
    CanonicalFormsMeaning(normalizer, locales);
    var forms := CanonicalForms(normalizer, locales);
    if |locales| > 0 && forms.Success? {
      var cs := forms.value;
      FirstOccurrencesOrder(cs);
      FirstOccurrencesDistinct(cs);
      FirstOccurrencesElements(cs);
      forall x
        ensures x in cs <==> exists k :: 0 <= k < |locales| && NormalizeLanguageTag(normalizer, locales[k]) == Success(x)
      {
        if x in cs {
          var k := IndexOf(cs, x);
          assert NormalizeLanguageTag(normalizer, locales[k]) == Success(x);
        }
      }
    }
  }

  /** An empty tag anywhere in the list fails the call with the empty-tag
      RangeError unless an earlier tag fails first. */
  lemma EmptyTagRejected(normalizer: U16String -> Option<U16String>, locales: seq<U16String>, j: nat)
    requires j < |locales| && |locales[j]| == 0
    requires forall k :: 0 <= k < j ==> NormalizeLanguageTag(normalizer, locales[k]).Success?
    ensures CanonicalLocales(normalizer, locales) == Failure(EmptyTag)
  {
    CanonicalFormsMeaning(normalizer, locales);
    var r := CanonicalForms(normalizer, locales);
    if r.Failure? {
      var i :| 0 <= i < |locales| && NormalizeLanguageTag(normalizer, locales[i]) == Failure(r.error) &&
            forall k :: 0 <= k < i ==> NormalizeLanguageTag(normalizer, locales[k]).Success?;
      assert i == j;
    }
  }

  // ---------------------------------------------------------------------------
  // Collator
  // ---------------------------------------------------------------------------

  /** The value of one resolved option. */
  datatype OptionValue = BoolOption(b: bool) | NumberOption(n: real) | StringOption(s: U16String)

  /** x comes before y in code-unit order: at the first position where
      they differ x has the smaller unit, or x is a proper prefix of y. */
  ghost predicate LexLess(x: U16String, y: U16String)
  {
    exists k :: 0 <= k <= |x| && k <= |y| && x[..k] == y[..k] &&
      ((k == |x| && k < |y|) || (k < |x| && k < |y| && x[k] < y[k]))
  }

  class Collator {
    var locale: U16String

    constructor()
      ensures locale == []
    {
      locale := [];
    }

    /** `Collator::initialize`: whatever locales and options are asked for,
        the collator takes "en-US". */
    method Initialize(locales: seq<U16String>, options: map<U16String, OptionValue>)
      modifies this
      ensures locale == Units("en-US")
    {
      locale := Units("en-US");
    }

    /** `Collator::resolvedOptions`: the locale and numeric = false,
        nothing else. */
    method ResolvedOptions() returns (options: map<U16String, OptionValue>)
      ensures options.Keys == {Units("locale"), Units("numeric")}
      ensures options[Units("locale")] == StringOption(locale)
      ensures options[Units("numeric")] == BoolOption(false)
    {
      options := map[];
      options := options[Units("locale") := StringOption(locale)];
      options := options[Units("numeric") := BoolOption(false)];
    }

    /** `Collator::compare`: `std::u16string::compare`, whose sign is that
        of the first differing code unit, or of the lengths when one string
        is a prefix of the other (only the sign is modelled). */
    static function Compare(x: U16String, y: U16String): (r: int)
      ensures -1 <= r <= 1
      decreases |x|
    {
      if |x| == 0 || |y| == 0 then (if |x| < |y| then -1 else if |x| == |y| then 0 else 1)
      else if x[0] < y[0] then -1
      else if x[0] > y[0] then 1
      else Compare(x[1..], y[1..])
    }
  }

  /** The comparison is zero exactly for equal strings, and swapping the
      strings flips its sign. */
  lemma {:induction false} CompareEqualAndAntisymmetric(x: U16String, y: U16String)
    ensures Collator.Compare(x, y) == 0 <==> x == y
    ensures Collator.Compare(y, x) == -Collator.Compare(x, y)
    decreases |x|
  {
    if |x| > 0 && |y| > 0 {
      CompareEqualAndAntisymmetric(x[1..], y[1..]);
      if x[0] == y[0] && x[1..] == y[1..] {
        assert x == [x[0]] + x[1..] && y == [y[0]] + y[1..];
      }
    }
  }

  /** The comparison is negative exactly when x comes first in code-unit
      order. */
  lemma CompareIsCodeUnitOrder(x: U16String, y: U16String)
    ensures Collator.Compare(x, y) < 0 <==> LexLess(x, y)
  {
    if LexLess(x, y) {
      var k :| 0 <= k <= |x| && k <= |y| && x[..k] == y[..k] &&
        ((k == |x| && k < |y|) || (k < |x| && k < |y| && x[k] < y[k]));
      WitnessOrdersFirst(x, y, k);
    }
    if Collator.Compare(x, y) < 0 {
      FirstHasWitness(x, y);
    }
  }

  /** A position where x and y first differ with x smaller there (or x
      ending there) makes the comparison negative. */
  lemma {:induction false} WitnessOrdersFirst(x: U16String, y: U16String, k: nat)
    requires k <= |x| && k <= |y| && x[..k] == y[..k]
    requires (k == |x| && k < |y|) || (k < |x| && k < |y| && x[k] < y[k])
    ensures Collator.Compare(x, y) == -1
    decreases k
  {
    if k > 0 {
      assert x[0] == x[..k][0] == y[..k][0] == y[0];
      assert x[1..][..k - 1] == x[..k][1..] && y[1..][..k - 1] == y[..k][1..];
      WitnessOrdersFirst(x[1..], y[1..], k - 1);
    }
  }

  /** A negative comparison has such a position. */
  lemma {:induction false} FirstHasWitness(x: U16String, y: U16String)
    requires Collator.Compare(x, y) < 0
    ensures LexLess(x, y)
    decreases |x|
  {
    if |x| == 0 || |y| == 0 {
      assert x[..0] == y[..0];
    } else if x[0] < y[0] {
      assert x[..0] == y[..0];
    } else if x[0] == y[0] {
      FirstHasWitness(x[1..], y[1..]);
      var k :| 0 <= k <= |x[1..]| && k <= |y[1..]| && x[1..][..k] == y[1..][..k] &&
        ((k == |x[1..]| && k < |y[1..]|) || (k < |x[1..]| && k < |y[1..]| && x[1..][k] < y[1..][k]));
      assert x[..k + 1] == [x[0]] + x[1..][..k];
      assert y[..k + 1] == [y[0]] + y[1..][..k];
    }
  }
}
