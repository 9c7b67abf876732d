/*
 * The sorted set of unsigned 32-bit integers that a Node-API environment
 * uses to remember which values it has seen: items stay strictly ascending,
 * and inserting finds the place with a lower-bound binary search.
 */
module NodeApiOrderedSet {

  /** One more than the largest unsigned 32-bit value. */
  const Uint32Limit: int := 0x1_0000_0000

  predicate IsUint32(x: int)
  {
    0 <= x < Uint32Limit
  }

  /** Strictly ascending, hence free of duplicates. */
  ghost predicate StrictlyAscending(s: seq<int>)
  {
    forall i, j :: 0 <= i < j < |s| ==> s[i] < s[j]
  }

  /** `i` is the lower bound of `value` in `s`: everything before it is
      smaller, everything from it on is at least `value`. */
  ghost predicate IsLowerBound(s: seq<int>, value: int, i: int)
  {
    && 0 <= i <= |s|
    && (forall k :: 0 <= k < i ==> s[k] < value)
    && (forall k :: i <= k < |s| ==> value <= s[k])
  }

  /** The first position whose item is not less than `value`, found by
      halving the range as `lower_bound` does. */
  method LowerBound(s: seq<int>, value: int) returns (i: int)
    requires StrictlyAscending(s)
    ensures IsLowerBound(s, value, i)
  {
    var lo, hi := 0, |s|;
    while lo < hi
      invariant 0 <= lo <= hi <= |s|
      invariant forall k :: 0 <= k < lo ==> s[k] < value
      invariant forall k :: hi <= k < |s| ==> value <= s[k]
    {
      var mid := lo + (hi - lo) / 2;
      if s[mid] < value {
        lo := mid + 1;
      } else {
        hi := mid;
      }
    }
    i := lo;
  }

  /** The lower bound of a value names the value's position when the value
      is present, and the value is absent otherwise. */
  lemma LowerBoundFindsMember(s: seq<int>, value: int, i: int)
    requires StrictlyAscending(s) && IsLowerBound(s, value, i)
    ensures value in s <==> i < |s| && s[i] == value
  {
    if value in s {
      var k :| 0 <= k < |s| && s[k] == value;
      assert i <= k;
      assert s[i] <= s[k];
    }
  }

  /** Placing a value at its lower bound, when it is not already there, keeps
      the items strictly ascending. */
  lemma InsertAtLowerBoundKeepsAscending(s: seq<int>, value: int, i: int)
    requires StrictlyAscending(s) && IsLowerBound(s, value, i)
    requires i == |s| || s[i] != value
    ensures StrictlyAscending(s[..i] + [value] + s[i..])
  {
    var t := s[..i] + [value] + s[i..];
    assert forall k :: 0 <= k < |t| ==> t[k] == if k < i then s[k] else if k == i then value else s[k - 1];
    forall a, b | 0 <= a < b < |t| ensures t[a] < t[b] {
      if b == i {
        assert t[a] == s[a];
      } else if a == i {
        assert t[b] == s[b - 1] && value <= s[b - 1];
        assert s[b - 1] != value by {
          if b - 1 > i {
            assert s[i] < s[b - 1];
          }
        }
      }
    }
  }

  class OrderedSet {
    /** The items, strictly ascending. */
    var items: seq<int>

    ghost predicate Valid()
      reads this
    {
      StrictlyAscending(items) && forall k :: 0 <= k < |items| ==> IsUint32(items[k])
    }

    constructor ()
      ensures Valid() && items == []
    {
      items := [];
    }

    /** Adds `value` unless it is already present; reports whether it was
        added. A present value leaves the set as it was. */
    method Insert(value: int) returns (inserted: bool)
      requires Valid() && IsUint32(value)
      modifies this
      ensures Valid()
      ensures inserted <==> value !in old(items)
      ensures !inserted ==> items == old(items)
      ensures multiset(items) == multiset(old(items)) + if inserted then multiset{value} else multiset{}
    {
      var i := LowerBound(items, value);
      LowerBoundFindsMember(items, value, i);
      if i < |items| && items[i] == value {
        return false;
      }
      InsertAtLowerBoundKeepsAscending(items, value, i);
      assert items == items[..i] + items[i..];
      items := items[..i] + [value] + items[i..];
      return true;
    }
  }
}
