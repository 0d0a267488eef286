/**
 * Reference definitions for the unique-key containers `set` and `map`
 * (set.hpp, map.hpp), stated on the in-order sequence of payloads and a key
 * extractor: keys that strictly increase, the sequence a unique insert and a
 * run of them leave, removal of a key, and where the key-comparing loop of
 * `erase(first, last)` stops.
 */
module UniqueKeys {
  import opened RbShape
  import opened KeyOrder
  import opened RbRemove

  /** Keys strictly increase: no key appears twice. */
  ghost predicate Strict<T>(vs: seq<T>, key: T -> int) {
    forall i, j :: 0 <= i < j < |vs| ==> key(vs[i]) < key(vs[j])
  }

  /** Two sequences whose keys strictly increase are equal exactly when
      they hold the same payloads: order and multiplicity are fixed by the
      keys. */
  lemma {:induction false} StrictSameMembers<T>(a: seq<T>, b: seq<T>, key: T -> int)
    requires Strict(a, key) && Strict(b, key)
    ensures a == b <==> forall x :: x in a <==> x in b
  {
    if forall x :: x in a <==> x in b {
      SameMembersEmpty(a, b);
      if a != [] && b != [] {
        SameHead(a, b, key);
        forall x
          ensures x in a[1..] <==> x in b[1..]
        {
          TailMember(a, b, key, x);
          TailMember(b, a, key, x);
        }
        StrictSameMembers(a[1..], b[1..], key);
        assert a == [a[0]] + a[1..] && b == [b[0]] + b[1..];
      }
    }
  }

  /** With the same members and strictly increasing keys, the first
      elements agree: each is the member with the least key. */
  lemma SameHead<T>(a: seq<T>, b: seq<T>, key: T -> int)
    requires Strict(a, key) && Strict(b, key) && a != [] && b != []
    requires forall x :: x in a <==> x in b
    ensures a[0] == b[0]
  {
    assert b[0] in b && a[0] in a;
    var j :| 0 <= j < |a| && a[j] == b[0];
    var k :| 0 <= k < |b| && b[k] == a[0];
    assert key(a[0]) <= key(b[0]) && key(b[0]) <= key(a[0]);
    assert k == 0;
  }

  /** A member of the tail of `a` is a member of the tail of `b` when the
      two agree on their members and their first element. */
  lemma TailMember<T>(a: seq<T>, b: seq<T>, key: T -> int, x: T)
    requires Strict(a, key) && Strict(b, key) && a != [] && b != [] && a[0] == b[0]
    requires forall y :: y in a <==> y in b
    ensures x in a[1..] ==> x in b[1..]
  {
    if x in a[1..] {
      var m :| 0 <= m < |a[1..]| && a[1..][m] == x;
      assert a[m + 1] == x && key(a[0]) < key(x) && x in a;
      var n :| 0 <= n < |b| && b[n] == x;
      assert n != 0 && b[1..][n - 1] == x;
    }
  }

  /** Sequences with the same members are empty together. */
  lemma SameMembersEmpty<T>(a: seq<T>, b: seq<T>)
    requires forall x :: x in a <==> x in b
    ensures a == [] <==> b == []
  {
    if a != [] {
      assert a[0] in a;
    }
    if b != [] {
      assert b[0] in b;
    }
  }

  /** `vs` without the payloads whose key is `k`. */
  ghost function WithoutKey<T>(vs: seq<T>, key: T -> int, k: int): seq<T>
    decreases |vs|
  {
    if vs == [] then []
    else (if key(vs[0]) == k then [] else [vs[0]]) + WithoutKey(vs[1..], key, k)
  }

  /** What an insert that first looks the key up leaves: `vs` itself when
      the key is present, otherwise `v` in key order. */
  ghost function AddUnique<T>(vs: seq<T>, v: T, key: T -> int): seq<T> {
    if HasKey(vs, key, key(v)) then vs else InsertSorted(vs, v, key)
  }

  /** What unique inserts of `items`, front to back, leave. */
  ghost function AddAll<T>(vs: seq<T>, items: seq<T>, key: T -> int): seq<T>
    decreases |items|
  {
    if items == [] then vs
    else AddUnique(AddAll(vs, items[..|items| - 1], key), items[|items| - 1], key)
  }

  /** The first position from `i` on that holds `stop`, or `|vs|` when none
      does. */
  ghost function StopAt<T>(vs: seq<T>, i: nat, stop: T): (r: nat)
    ensures r <= |vs| && (i <= |vs| ==> i <= r)
    ensures forall m :: i <= m < r ==> vs[m] != stop
    ensures r < |vs| ==> vs[r] == stop
    decreases |vs| - i
  {
    if i >= |vs| then |vs|
    else if vs[i] == stop then i
    else StopAt(vs, i + 1, stop)
  }

  // ---------------------------------------------------------------------

  lemma StrictSorted<T>(vs: seq<T>, key: T -> int)
    requires Strict(vs, key)
    ensures SortedBy(vs, key)
  {
  }

  /** Removing a key that is absent changes nothing. */
  lemma {:induction false} WithoutAbsent<T>(vs: seq<T>, key: T -> int, k: int)
    requires !HasKey(vs, key, k)
    ensures WithoutKey(vs, key, k) == vs
  {
    if vs != [] {
      assert key(vs[0]) != k;
      assert !HasKey(vs[1..], key, k) by {
        forall m | 0 <= m < |vs[1..]| ensures key(vs[1..][m]) != k {
          assert vs[1..][m] == vs[m + 1];
        }
      }
      WithoutAbsent(vs[1..], key, k);
      assert vs == [vs[0]] + vs[1..];
    }
  }

  /** What removing key `k` keeps: the payloads of other keys. */
  lemma {:induction false} WithoutKeyMembers<T>(vs: seq<T>, key: T -> int, k: int, x: T)
    ensures x in WithoutKey(vs, key, k) <==> x in vs && key(x) != k
    decreases |vs|
  {
    if vs != [] {
      WithoutKeyMembers(vs[1..], key, k, x);
      assert vs == [vs[0]] + vs[1..];
    }
  }

  /** With unique keys, dropping the payload at `i` is removing its key,
      and the keys stay unique. */
  lemma {:induction false} DropIsWithout<T>(vs: seq<T>, key: T -> int, i: nat)
    requires Strict(vs, key) && i < |vs|
    ensures DropAt(vs, i) == WithoutKey(vs, key, key(vs[i]))
    ensures Strict(DropAt(vs, i), key)
  {
    var k := key(vs[i]);
    if i == 0 {
      assert !HasKey(vs[1..], key, k) by {
        forall m | 0 <= m < |vs[1..]| ensures key(vs[1..][m]) != k {
          assert vs[1..][m] == vs[m + 1];
        }
      }
      WithoutAbsent(vs[1..], key, k);
      assert DropAt(vs, 0) == vs[1..];
    } else {
      assert Strict(vs[1..], key) by {
        forall a, b | 0 <= a < b < |vs[1..]| ensures key(vs[1..][a]) < key(vs[1..][b]) {
          assert vs[1..][a] == vs[a + 1] && vs[1..][b] == vs[b + 1];
        }
      }
      DropIsWithout(vs[1..], key, i - 1);
      assert vs[1..][i - 1] == vs[i];
      assert DropAt(vs, i) == [vs[0]] + DropAt(vs[1..], i - 1);
      assert key(vs[0]) < k;
    }
    DropKeepsStrict(vs, key, i);
  }

  /** Dropping one payload keeps the keys strictly increasing. */
  lemma DropKeepsStrict<T>(vs: seq<T>, key: T -> int, i: nat)
    requires Strict(vs, key) && i < |vs|
    ensures Strict(DropAt(vs, i), key)
  {
    var d := DropAt(vs, i);
    forall a, b | 0 <= a < b < |d| ensures key(d[a]) < key(d[b]) {
      var a', b' := if a < i then a else a + 1, if b < i then b else b + 1;
      assert d[a] == vs[a'] && d[b] == vs[b'];
    }
  }

  /** Inserting a payload whose key is absent keeps the keys unique and adds
      exactly that payload and that key. */
  lemma InsertUniqueSpec<T>(vs: seq<T>, v: T, key: T -> int)
    requires Strict(vs, key) && !HasKey(vs, key, key(v))
    ensures Strict(InsertSorted(vs, v, key), key)
    ensures forall x :: x in InsertSorted(vs, v, key) <==> x in vs || x == v
    ensures forall k :: HasKey(InsertSorted(vs, v, key), key, k) <==> HasKey(vs, key, k) || k == key(v)
  {
    InsertSortedSplit(vs, v, key);
    UpperIndexSpec(vs, key, key(v));
    var i := UpperIndex(vs, key, key(v));
    SpliceStrict(vs, v, key, i);
    SpliceMembers(vs, v, key, i);
  }

  /** A payload whose key lies strictly between the keys before `i` and
      those from `i` on keeps the keys strictly increasing when it goes in at
      `i`. */
  lemma SpliceStrict<T>(vs: seq<T>, v: T, key: T -> int, i: nat)
    requires Strict(vs, key) && i <= |vs|
    requires forall j :: 0 <= j < i ==> key(vs[j]) <= key(v)
    requires i < |vs| ==> key(v) < key(vs[i])
    requires !HasKey(vs, key, key(v))
    ensures Strict(vs[..i] + [v] + vs[i..], key)
  {
    var r := vs[..i] + [v] + vs[i..];
    assert |r| == |vs| + 1 && r[i] == v;
    forall a, b | 0 <= a < b < |r| ensures key(r[a]) < key(r[b]) {
      if b < i {
        assert r[a] == vs[a] && r[b] == vs[b];
      } else if a > i {
        assert r[a] == vs[a - 1] && r[b] == vs[b - 1];
      } else if a == i {
        assert r[b] == vs[b - 1];
        if b - 1 > i {
          assert key(vs[i]) < key(vs[b - 1]);
        }
      } else {
        assert r[a] == vs[a] && key(vs[a]) != key(v);
        if b > i {
          assert r[b] == vs[b - 1];
        }
      }
    }
  }

  /** Putting `v` in at `i` adds exactly that payload and its key. */
  lemma SpliceMembers<T>(vs: seq<T>, v: T, key: T -> int, i: nat)
    requires i <= |vs|
    ensures forall x :: x in vs[..i] + [v] + vs[i..] <==> x in vs || x == v
    ensures forall k :: HasKey(vs[..i] + [v] + vs[i..], key, k) <==> HasKey(vs, key, k) || k == key(v)
  {
    var r := vs[..i] + [v] + vs[i..];
    assert vs == vs[..i] + vs[i..];
    assert |r| == |vs| + 1 && r[i] == v;
    forall k ensures HasKey(r, key, k) <==> HasKey(vs, key, k) || k == key(v) {
      if HasKey(r, key, k) {
        var m :| 0 <= m < |r| && key(r[m]) == k;
        if m < i {
          assert r[m] == vs[m];
        } else if m > i {
          assert r[m] == vs[m - 1];
        }
      }
      if HasKey(vs, key, k) {
        var m :| 0 <= m < |vs| && key(vs[m]) == k;
        if m < i {
          assert r[m] == vs[m];
        } else {
          assert r[m + 1] == vs[m];
        }
      }
      if k == key(v) {
        assert key(r[i]) == k;
      }
    }
  }

  /** Inserting a payload whose key is absent and then removing that key
      gives back what there was. */
  lemma InsertThenRemove<T>(vs: seq<T>, v: T, key: T -> int)
    requires Strict(vs, key) && !HasKey(vs, key, key(v))
    ensures WithoutKey(AddUnique(vs, v, key), key, key(v)) == vs
  {
    var i := UpperIndex(vs, key, key(v));
    var r := InsertSorted(vs, v, key);
    assert AddUnique(vs, v, key) == r;
    assert Strict(r, key) by { InsertUniqueSpec(vs, v, key); }
    InsertSortedSplit(vs, v, key);
    var p, q := vs[..i], vs[i..];
    assert r == p + [v] + q && |p| == i;
    DropMiddle(p, v, q);
    DropIsWithout(r, key, i);
    assert p + q == vs;
  }

  /** Some element of `pre + [last]` has key `k` exactly when one of `pre`
      has or `last` has. */
  lemma HasKeySnoc<T>(items: seq<T>, key: T -> int, k: int)
    requires items != []
    ensures HasKey(items, key, k) <==>
      HasKey(items[..|items| - 1], key, k) || key(items[|items| - 1]) == k
  {
    var pre := items[..|items| - 1];
    if HasKey(items, key, k) {
      var m :| 0 <= m < |items| && key(items[m]) == k;
      if m < |pre| {
        assert pre[m] == items[m];
      }
    }
    if HasKey(pre, key, k) {
      var m :| 0 <= m < |pre| && key(pre[m]) == k;
      assert items[m] == pre[m];
    }
  }

  /** A run of unique inserts keeps the keys unique, holds exactly the keys
      that were there or were offered, keeps every payload that was there,
      and for a key that was absent keeps the first payload offered with it. */
  lemma {:induction false} AddAllSpec<T>(vs: seq<T>, items: seq<T>, key: T -> int)
    requires Strict(vs, key)
    ensures Strict(AddAll(vs, items, key), key)
    ensures forall k :: HasKey(AddAll(vs, items, key), key, k) <==> HasKey(vs, key, k) || HasKey(items, key, k)
    ensures forall x :: x in vs ==> x in AddAll(vs, items, key)
    ensures forall j ::
      && 0 <= j < |items| && !HasKey(vs, key, key(items[j]))
      && (forall m :: 0 <= m < j ==> key(items[m]) != key(items[j]))
      ==> items[j] in AddAll(vs, items, key)
  {
    if items != [] {
      var n := |items|;
      var pre, last := items[..n - 1], items[n - 1];
      AddAllSpec(vs, pre, key);
      var a := AddAll(vs, pre, key);
      assert AddAll(vs, items, key) == AddUnique(a, last, key);
      if !HasKey(a, key, key(last)) {
        InsertUniqueSpec(a, last, key);
      }
      forall k ensures HasKey(AddAll(vs, items, key), key, k) <==> HasKey(vs, key, k) || HasKey(items, key, k) {
        HasKeySnoc(items, key, k);
      }
      forall j | 0 <= j < n && !HasKey(vs, key, key(items[j])) &&
        (forall m :: 0 <= m < j ==> key(items[m]) != key(items[j]))
        ensures items[j] in AddAll(vs, items, key)
      {
        if j < n - 1 {
          assert pre[j] == items[j];
          assert forall m :: 0 <= m < j ==> key(pre[m]) != key(pre[j]);
        } else {
          assert !HasKey(pre, key, key(last)) by {
            forall m | 0 <= m < |pre| ensures key(pre[m]) != key(last) {
              assert pre[m] == items[m];
            }
          }
        }
      }
    }
  }

  /** `StopAt` is the first position from `i` on holding `stop`. */
  lemma {:induction false} StopAtIs<T>(vs: seq<T>, i: nat, stop: T, j: nat)
    requires i <= j <= |vs|
    requires forall m :: i <= m < j ==> vs[m] != stop
    requires j < |vs| ==> vs[j] == stop
    ensures StopAt(vs, i, stop) == j
    decreases j - i
  {
    if i < j {
      StopAtIs(vs, i + 1, stop, j);
    }
  }

  /** With unique keys the stop payload, when it is the one at `il`, is
      first met at `il`. */
  lemma StopAtUnique<T>(vs: seq<T>, key: T -> int, i: nat, il: nat)
    requires Strict(vs, key) && i <= il < |vs|
    ensures StopAt(vs, i, vs[il]) == il
  {
    forall m | i <= m < il ensures vs[m] != vs[il] {
      assert key(vs[m]) < key(vs[il]);
    }
    StopAtIs(vs, i, vs[il], il);
  }

  /** With unique keys the payloads of key `k` span at most one position:
      the upper bound is one past the lower bound when `k` is present and
      equal to it otherwise. */
  lemma UniqueRange<T>(vs: seq<T>, key: T -> int, k: int)
    requires Strict(vs, key)
    ensures UpperIndex(vs, key, k) == LowerIndex(vs, key, k) + (if HasKey(vs, key, k) then 1 else 0)
  {
    var lo, hi := LowerIndex(vs, key, k), UpperIndex(vs, key, k);
    BoundsOrdered(vs, key, k);
    HasKeyAtLower(vs, key, k);
    UpperIndexSpec(vs, key, k);
    if HasKey(vs, key, k) {
      assert hi != lo;
    }
  }

  /** Dropping the payload at `i` of a sequence with unique keys leaves
      its upper bound at `i`: the next payload moves into its place. */
  lemma UpperAfterDrop<T>(vs: seq<T>, key: T -> int, i: nat)
    requires Strict(vs, key) && i < |vs|
    ensures UpperIndex(DropAt(vs, i), key, key(vs[i])) == i
  {
    var k := key(vs[i]);
    assert AllAtMost(vs[..i], key, k) by {
      forall m | 0 <= m < |vs[..i]| ensures key(vs[..i][m]) <= k {
        assert vs[..i][m] == vs[m];
      }
    }
    if i + 1 < |vs| {
      assert vs[i + 1..][0] == vs[i + 1];
    }
    UpperIndexAt(vs[..i], vs[i + 1..], key, k);
  }
}
