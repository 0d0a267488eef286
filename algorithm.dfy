/**
 * `ft::lexicographical_compare` and `ft::equal` (algorithm.hpp).
 *
 * Both walk two ranges side by side.  A range is the sequence of values
 * its iterators visit from `first` up to `last`; the elements' `<` is
 * passed in as a function and their `!=` is Dafny's disequality.
 */
module Algorithm {

  /** Reference definition: `a` comes before `b` in dictionary order, the
      first position where the elements differ deciding, and a proper
      prefix coming first. */
  ghost function LexLess<T>(a: seq<T>, b: seq<T>, lt: (T, T) -> bool): bool
    decreases |a|
  {
    if a == [] || b == [] then a == [] && b != []
    else if lt(a[0], b[0]) then true
    else if lt(b[0], a[0]) then false
    else LexLess(a[1..], b[1..], lt)
  }

  /** Neither element is below the other. */
  ghost predicate Tie<T>(x: T, y: T, lt: (T, T) -> bool) {
    !lt(x, y) && !lt(y, x)
  }

  /** `lexicographical_compare(first1, last1, first2, last2)`. */
  method LexicographicalCompare<T>(a: seq<T>, b: seq<T>, lt: (T, T) -> bool) returns (r: bool)
    ensures r == LexLess(a, b, lt)
  {
    var i := 0;
    while i < |a| && i < |b|
      invariant 0 <= i <= |a| && i <= |b|
      invariant LexLess(a, b, lt) == LexLess(a[i..], b[i..], lt)
    {
      if lt(a[i], b[i]) {
        return true;
      }
      if lt(b[i], a[i]) {
        return false;
      }
      assert a[i..][1..] == a[i + 1..] && b[i..][1..] == b[i + 1..];
      i := i + 1;
    }
    return i == |a| && i != |b|;
  }

  /** `equal(first1, last1, first2, last2)`: the lengths are compared
      first, then the elements one by one. */
  method Equal<T(==)>(a: seq<T>, b: seq<T>) returns (r: bool)
    ensures r <==> a == b
  {
    if |a| != |b| {
      return false;
    }
    var i := 0;
    while i < |a|
      invariant 0 <= i <= |a|
      invariant a[..i] == b[..i]
    {
      if a[i] != b[i] {
        return false;
      }
      assert a[..i + 1] == a[..i] + [a[i]] && b[..i + 1] == b[..i] + [b[i]];
      i := i + 1;
    }
    assert a == a[..i] && b == b[..i];
    return true;
  }

  // ---------------------------------------------------------------------

  /** The first position where the elements differ decides: everything
      before `i` ties, and at `i` the smaller element's range is the
      smaller one. */
  lemma {:induction false} FirstDifferenceDecides<T>(a: seq<T>, b: seq<T>, lt: (T, T) -> bool, i: nat)
    requires i < |a| && i < |b|
    requires forall j :: 0 <= j < i ==> Tie(a[j], b[j], lt)
    ensures lt(a[i], b[i]) ==> LexLess(a, b, lt)
    ensures lt(b[i], a[i]) && !lt(a[i], b[i]) ==> !LexLess(a, b, lt)
  {
    if i > 0 {
      assert Tie(a[0], b[0], lt);
      forall j | 0 <= j < i - 1 ensures Tie(a[1..][j], b[1..][j], lt) {
        assert a[1..][j] == a[j + 1] && b[1..][j] == b[j + 1];
      }
      FirstDifferenceDecides(a[1..], b[1..], lt, i - 1);
    }
  }

  /** A range whose elements all tie with the start of a longer range comes
      first; of two tied ranges of the same length neither comes first. */
  lemma {:induction false} PrefixComesFirst<T>(a: seq<T>, b: seq<T>, lt: (T, T) -> bool)
    requires |a| <= |b|
    requires forall j :: 0 <= j < |a| ==> Tie(a[j], b[j], lt)
    ensures LexLess(a, b, lt) <==> |a| < |b|
    ensures |a| == |b| ==> !LexLess(b, a, lt)
  {
    if a != [] {
      forall j | 0 <= j < |a| - 1 ensures Tie(a[1..][j], b[1..][j], lt) {
        assert a[1..][j] == a[j + 1] && b[1..][j] == b[j + 1];
      }
      PrefixComesFirst(a[1..], b[1..], lt);
    }
  }

  /** With an irreflexive `<`, no range comes before itself. */
  lemma {:induction false} LexIrreflexive<T>(a: seq<T>, lt: (T, T) -> bool)
    requires forall x :: !lt(x, x)
    ensures !LexLess(a, a, lt)
  {
    if a != [] {
      LexIrreflexive(a[1..], lt);
    }
  }

  /** With an asymmetric `<`, two ranges never come before each other. */
  lemma {:induction false} LexAsymmetric<T>(a: seq<T>, b: seq<T>, lt: (T, T) -> bool)
    requires forall x, y :: lt(x, y) ==> !lt(y, x)
    ensures !(LexLess(a, b, lt) && LexLess(b, a, lt))
  {
    if a != [] && b != [] && Tie(a[0], b[0], lt) {
      LexAsymmetric(a[1..], b[1..], lt);
    }
  }

  /** With a strict total `<`, two different ranges are ordered one way or
      the other. */
  lemma {:induction false} LexTotal<T>(a: seq<T>, b: seq<T>, lt: (T, T) -> bool)
    requires forall x, y :: x != y ==> lt(x, y) || lt(y, x)
    requires a != b
    ensures LexLess(a, b, lt) || LexLess(b, a, lt)
  {
    if a != [] && b != [] && Tie(a[0], b[0], lt) {
      assert a[0] == b[0];
      assert a == [a[0]] + a[1..] && b == [b[0]] + b[1..];
      LexTotal(a[1..], b[1..], lt);
    }
  }

  /** With a strict total `<` on the elements, exactly one of "before",
      "equal" and "after" holds between two ranges. */
  lemma LexTrichotomy<T>(a: seq<T>, b: seq<T>, lt: (T, T) -> bool)
    requires forall x :: !lt(x, x)
    requires forall x, y :: lt(x, y) ==> !lt(y, x)
    requires forall x, y :: x != y ==> lt(x, y) || lt(y, x)
    ensures LexLess(a, b, lt) || a == b || LexLess(b, a, lt)
    ensures !(LexLess(a, b, lt) && LexLess(b, a, lt))
    ensures a == b ==> !LexLess(a, b, lt)
  {
    LexAsymmetric(a, b, lt);
    if a == b {
      LexIrreflexive(a, lt);
    } else {
      LexTotal(a, b, lt);
    }
  }
}
