/**
 * Reference definitions for the ordered queries of the red-black tree
 * engine (RBT.hpp), stated on the in-order sequence of payloads and a key
 * extractor: membership of a key, the first position whose key is not below
 * (`lower_bound`) or above (`upper_bound`) a key, and the sequence an insert
 * must produce (equal keys go after the ones already present).
 */
module KeyOrder {
  import opened RbShape

  /** The comparator of keys: `std::less<int>`. */
  function KeyLess(a: int, b: int): bool {
    a < b
  }

  /** Some payload of `vs` has key `k`. */
  ghost predicate HasKey<T>(vs: seq<T>, key: T -> int, k: int) {
    exists i :: 0 <= i < |vs| && key(vs[i]) == k
  }

  /** Position of the first payload whose key is not below `k` (`|vs|` when
      there is none). */
  ghost function LowerIndex<T>(vs: seq<T>, key: T -> int, k: int): nat {
    if vs == [] then 0
    else if key(vs[0]) >= k then 0
    else 1 + LowerIndex(vs[1..], key, k)
  }

  /** Position of the first payload whose key is above `k` (`|vs|` when there
      is none). */
  ghost function UpperIndex<T>(vs: seq<T>, key: T -> int, k: int): nat {
    if vs == [] then 0
    else if key(vs[0]) > k then 0
    else 1 + UpperIndex(vs[1..], key, k)
  }

  /** The slot at position `i`, or the sentinel past the end. */
  ghost function SlotAt(ids: seq<nat>, i: nat): nat {
    if i < |ids| then ids[i] else 0
  }

  /** `vs` with `v` placed after every payload whose key is not above
      `v`'s. */
  ghost function InsertSorted<T>(vs: seq<T>, v: T, key: T -> int): seq<T> {
    if vs == [] then [v]
    else if key(v) < key(vs[0]) then [v] + vs
    else [vs[0]] + InsertSorted(vs[1..], v, key)
  }

  // ---------------------------------------------------------------------

  /** `LowerIndex` is the first position whose key is not below `k`. */
  lemma {:induction false} LowerIndexSpec<T>(vs: seq<T>, key: T -> int, k: int)
    ensures LowerIndex(vs, key, k) <= |vs|
    ensures forall j :: 0 <= j < LowerIndex(vs, key, k) ==> key(vs[j]) < k
    ensures LowerIndex(vs, key, k) < |vs| ==> key(vs[LowerIndex(vs, key, k)]) >= k
  {
    if vs != [] && key(vs[0]) < k {
      LowerIndexSpec(vs[1..], key, k);
      forall j | 0 <= j < LowerIndex(vs, key, k) ensures key(vs[j]) < k {
        if j > 0 { assert vs[j] == vs[1..][j - 1]; }
      }
    }
  }

  /** `UpperIndex` is the first position whose key is above `k`. */
  lemma {:induction false} UpperIndexSpec<T>(vs: seq<T>, key: T -> int, k: int)
    ensures UpperIndex(vs, key, k) <= |vs|
    ensures forall j :: 0 <= j < UpperIndex(vs, key, k) ==> key(vs[j]) <= k
    ensures UpperIndex(vs, key, k) < |vs| ==> key(vs[UpperIndex(vs, key, k)]) > k
  {
    if vs != [] && key(vs[0]) <= k {
      UpperIndexSpec(vs[1..], key, k);
      forall j | 0 <= j < UpperIndex(vs, key, k) ensures key(vs[j]) <= k {
        if j > 0 { assert vs[j] == vs[1..][j - 1]; }
      }
    }
  }

  /** In key order, everything from the lower bound on is not below `k` and
      everything from the upper bound on is above it; the lower bound never
      comes after the upper bound. */
  lemma BoundsOrdered<T>(vs: seq<T>, key: T -> int, k: int)
    requires SortedBy(vs, key)
    ensures LowerIndex(vs, key, k) <= UpperIndex(vs, key, k)
    ensures forall j :: LowerIndex(vs, key, k) <= j < |vs| ==> key(vs[j]) >= k
    ensures forall j :: UpperIndex(vs, key, k) <= j < |vs| ==> key(vs[j]) > k
    ensures forall j :: LowerIndex(vs, key, k) <= j < UpperIndex(vs, key, k) <= |vs| ==> key(vs[j]) == k
  {
    LowerIndexSpec(vs, key, k);
    UpperIndexSpec(vs, key, k);
  }

  /** The split point of a sequence whose front is below `k` and whose back
      starts at or above `k`. */
  lemma {:induction false} LowerIndexAt<T>(b: seq<T>, a: seq<T>, key: T -> int, k: int)
    requires AllBelow(b, key, k) && (a != [] ==> key(a[0]) >= k)
    ensures LowerIndex(b + a, key, k) == |b|
  {
    if b != [] {
      assert (b + a)[1..] == b[1..] + a;
      assert b[0] == (b + a)[0];
      LowerIndexAt(b[1..], a, key, k);
    } else {
      assert b + a == a;
    }
  }

  lemma {:induction false} UpperIndexAt<T>(b: seq<T>, a: seq<T>, key: T -> int, k: int)
    requires AllAtMost(b, key, k) && (a != [] ==> key(a[0]) > k)
    ensures UpperIndex(b + a, key, k) == |b|
  {
    if b != [] {
      assert (b + a)[1..] == b[1..] + a;
      assert b[0] == (b + a)[0];
      UpperIndexAt(b[1..], a, key, k);
    } else {
      assert b + a == a;
    }
  }

  /** In key order, a key is present exactly when the lower bound holds it. */
  lemma HasKeyAtLower<T>(vs: seq<T>, key: T -> int, k: int)
    requires SortedBy(vs, key)
    ensures HasKey(vs, key, k) <==>
            LowerIndex(vs, key, k) < |vs| && key(vs[LowerIndex(vs, key, k)]) == k
  {
    LowerIndexSpec(vs, key, k);
    BoundsOrdered(vs, key, k);
  }

  /** Placing `v` between the payloads not above its key and those above it
      is what `InsertSorted` does. */
  lemma {:induction false} InsertSortedAt<T>(b: seq<T>, a: seq<T>, v: T, key: T -> int)
    requires AllAtMost(b, key, key(v)) && AllAbove(a, key, key(v))
    ensures InsertSorted(b + a, v, key) == b + [v] + a
  {
    if b == [] {
      assert b + a == a;
    } else {
      assert (b + a)[0] == b[0] && (b + a)[1..] == b[1..] + a;
      InsertSortedAt(b[1..], a, v, key);
    }
  }

  /** `InsertSorted` puts `v` at the upper bound of its own key. */
  lemma {:induction false} InsertSortedSplit<T>(vs: seq<T>, v: T, key: T -> int)
    ensures var i := UpperIndex(vs, key, key(v));
      i <= |vs| && InsertSorted(vs, v, key) == vs[..i] + [v] + vs[i..]
  {
    UpperIndexSpec(vs, key, key(v));
    if vs != [] && key(v) >= key(vs[0]) {
      InsertSortedSplit(vs[1..], v, key);
      var i := UpperIndex(vs[1..], key, key(v));
      assert vs[..i + 1] == [vs[0]] + vs[1..][..i];
      assert vs[i + 1..] == vs[1..][i..];
    }
  }

  /** In key order, inserting the next payload after a prefix appends it:
      walking a sorted sequence front to back and inserting each payload
      rebuilds it. */
  lemma AppendInOrder<T>(vs: seq<T>, i: nat, key: T -> int)
    requires SortedBy(vs, key) && i < |vs|
    ensures InsertSorted(vs[..i], vs[i], key) == vs[..i + 1]
  {
    InsertSortedSplit(vs[..i], vs[i], key);
    UpperIndexSpec(vs[..i], key, key(vs[i]));
    assert vs[..i + 1] == vs[..i] + [vs[i]];
  }

  /** A payload whose key lies between two sorted halves can go between
      them. */
  lemma SortedInsertAt<T>(b: seq<T>, v: T, a: seq<T>, key: T -> int)
    requires SortedBy(b + a, key) && AllAtMost(b, key, key(v)) && AllAbove(a, key, key(v))
    ensures SortedBy(b + [v] + a, key)
  {
    var r := b + [v] + a;
    forall i, j | 0 <= i < j < |r| ensures key(r[i]) <= key(r[j]) {
      if j < |b| {
        assert r[i] == (b + a)[i] && r[j] == (b + a)[j];
      } else if i > |b| {
        assert r[i] == (b + a)[i - 1] && r[j] == (b + a)[j - 1];
      } else if i < |b| {
        assert r[i] == b[i];
      }
    }
  }

  /** Inserting adds exactly `v`. */
  lemma InsertSortedCount<T>(vs: seq<T>, v: T, key: T -> int)
    ensures multiset(InsertSorted(vs, v, key)) == multiset(vs) + multiset{v}
    ensures |InsertSorted(vs, v, key)| == |vs| + 1
  {
    InsertSortedSplit(vs, v, key);
    var i := UpperIndex(vs, key, key(v));
    assert vs == vs[..i] + vs[i..];
  }

  /** Inserting keeps the payloads in key order and adds exactly `v`. */
  lemma InsertSortedSpec<T>(vs: seq<T>, v: T, key: T -> int)
    requires SortedBy(vs, key)
    ensures SortedBy(InsertSorted(vs, v, key), key)
    ensures multiset(InsertSorted(vs, v, key)) == multiset(vs) + multiset{v}
    ensures |InsertSorted(vs, v, key)| == |vs| + 1
  {
    InsertSortedCount(vs, v, key);
    InsertSortedSplit(vs, v, key);
    var i := UpperIndex(vs, key, key(v));
    SplitAtUpper(vs, key, key(v));
    assert vs == vs[..i] + vs[i..];
    SortedInsertAt(vs[..i], v, vs[i..], key);
  }

  /** In key order, the upper bound of `k` splits the sequence into the keys
      not above `k` and those above it. */
  lemma SplitAtUpper<T>(vs: seq<T>, key: T -> int, k: int)
    requires SortedBy(vs, key)
    ensures UpperIndex(vs, key, k) <= |vs|
    ensures AllAtMost(vs[..UpperIndex(vs, key, k)], key, k)
    ensures AllAbove(vs[UpperIndex(vs, key, k)..], key, k)
  {
    UpperIndexSpec(vs, key, k);
    BoundsOrdered(vs, key, k);
    var i := UpperIndex(vs, key, k);
    var b, a := vs[..i], vs[i..];
    forall j | 0 <= j < |b| ensures key(b[j]) <= k { assert b[j] == vs[j]; }
    forall j | 0 <= j < |a| ensures key(a[j]) > k { assert a[j] == vs[i + j]; }
  }

  /** A key is in a concatenation exactly when it is in one of the parts. */
  lemma HasKeySplit<T>(l: seq<T>, v: T, r: seq<T>, key: T -> int, k: int)
    ensures HasKey(l + [v] + r, key, k) <==> HasKey(l, key, k) || key(v) == k || HasKey(r, key, k)
  {
    var s := l + [v] + r;
    if HasKey(s, key, k) {
      var i :| 0 <= i < |s| && key(s[i]) == k;
      if i < |l| { assert s[i] == l[i]; }
      else if i > |l| { assert s[i] == r[i - |l| - 1]; }
    }
    if HasKey(l, key, k) {
      var i :| 0 <= i < |l| && key(l[i]) == k;
      assert s[i] == l[i];
    }
    if HasKey(r, key, k) {
      var i :| 0 <= i < |r| && key(r[i]) == k;
      assert s[|l| + 1 + i] == r[i];
    }
    if key(v) == k { assert s[|l|] == v; }
  }

  /** Concatenations keep the key bounds of their parts. */
  lemma AllBelowConcat<T>(a: seq<T>, b: seq<T>, key: T -> int, k: int)
    requires AllBelow(a, key, k) && AllBelow(b, key, k)
    ensures AllBelow(a + b, key, k)
  {
  }

  lemma AllAtLeastConcat<T>(a: seq<T>, b: seq<T>, key: T -> int, k: int)
    requires AllAtLeast(a, key, k) && AllAtLeast(b, key, k)
    ensures AllAtLeast(a + b, key, k)
  {
  }

  lemma AllAtMostConcat<T>(a: seq<T>, b: seq<T>, key: T -> int, k: int)
    requires AllAtMost(a, key, k) && AllAtMost(b, key, k)
    ensures AllAtMost(a + b, key, k)
  {
  }

  lemma AllAboveConcat<T>(a: seq<T>, b: seq<T>, key: T -> int, k: int)
    requires AllAbove(a, key, k) && AllAbove(b, key, k)
    ensures AllAbove(a + b, key, k)
  {
  }
}
