/**
 * `ft::set` (set.hpp) over `int` keys ordered by `<`: an engine whose key
 * extractor is the identity, holding each key at most once.  Iterators
 * are positions of the engine: slots of its nodes, and the sentinel for
 * `end()`.
 */
module Sets {
  import opened RbShape
  import opened Traversal
  import opened KeyOrder
  import opened RbRemove
  import opened RedBlackTree
  import opened TreeIterator
  import opened UniqueKeys
  import UniqueTree
  import Algorithm

  /** The key extractor of a set: an element is its own key. */
  function Identity(x: int): int {
    x
  }

  /** For a set, having the key is holding the element. */
  lemma IdentityHasKey(vs: seq<int>, k: int)
    ensures HasKey(vs, Identity, k) <==> k in vs
  {
    if k in vs {
      var j :| 0 <= j < |vs| && vs[j] == k;
      assert Identity(vs[j]) == k;
    }
  }

  class Set {
    const tree: Rbt<int>

    /** The engine holds each key once, uses the identity as key, and its
        sentinel holds `int()`, that is 0. */
    ghost predicate Valid()
      reads this, tree
    {
      UniqueTree.Unique(tree) && tree.access == Identity && tree.nodes[0].key == 0
    }

    /** The elements, in increasing order. */
    ghost function Contents(): seq<int>
      requires Valid()
      reads this, tree
    {
      tree.Elements()
    }

    /** `set()`: empty. */
    constructor ()
      ensures Valid() && fresh(tree) && Contents() == []
    {
      tree := new Rbt(Identity, 0);
    }

    /** `set(first, last)`: each item inserted in turn, so the set holds
        exactly the items, without repeats, in increasing order. */
    constructor Range(items: seq<int>)
      ensures Valid() && fresh(tree)
      ensures Contents() == AddAll([], items, Identity)
      ensures forall x :: x in Contents() <==> x in items
    {
      var t := new Rbt(Identity, 0);
      UniqueTree.InsertRange(t, items);
      tree := t;
      new;
      AddAllSpec([], items, Identity);
      forall x ensures x in Contents() <==> x in items {
        IdentityHasKey(Contents(), x);
        IdentityHasKey(items, x);
        IdentityHasKey([], x);
      }
    }

    /** `set(other)`: an engine copied from the other's. */
    constructor Copy(other: Set)
      requires other.Valid()
      ensures Valid() && fresh(tree) && Contents() == other.Contents()
    {
      tree := new Rbt.Copy(other.tree);
    }

    /** `operator=`: the engine's own assignment, which leaves a set
        assigned to itself as it was. */
    method Assign(other: Set)
      requires Valid() && other.Valid()
      modifies tree
      ensures Valid() && Contents() == old(other.Contents())
    {
      tree.Assign(other.tree);
    }

    /** `begin()`: the position of the least element, `end()` when empty. */
    method Begin() returns (it: nat)
      requires Valid()
      ensures PositionOf(tree, it) && Index(tree, it) == 0
      ensures it == 0 <==> Contents() == []
      ensures it != 0 ==> tree.nodes[it].key == Contents()[0]
    {
      it := UniqueTree.Begin(tree);
      IndexOfPosition(tree, it);
    }

    /** `end()`: the sentinel, one past the greatest element. */
    function End(): (it: nat)
      requires Valid()
      reads this, tree
      ensures PositionOf(tree, it) && Index(tree, it) == |Contents()|
    {
      UniqueTree.End(tree)
    }

    /** `empty()`. */
    function Empty(): (e: bool)
      requires Valid()
      reads this, tree
      ensures e <==> Contents() == []
    {
      tree.Size() == 0
    }

    /** `size()`. */
    function Size(): (n: nat)
      requires Valid()
      reads this, tree
      ensures n == |Contents()|
    {
      tree.Size()
    }

    /** `clear()`. */
    method Clear()
      requires Valid()
      modifies tree
      ensures Valid() && Contents() == []
    {
      tree.DeleteAll();
    }

    /** `insert(value)`: adds `v` unless it is already there; the position
        returned holds `v` either way. */
    method Insert(v: int) returns (it: nat, inserted: bool)
      requires Valid()
      modifies tree
      ensures Valid()
      ensures inserted <==> v !in old(Contents())
      ensures Contents() == AddUnique(old(Contents()), v, Identity)
      ensures forall x :: x in Contents() <==> x in old(Contents()) || x == v
      ensures it in IdSet(tree.tree) && it < |tree.nodes| && tree.nodes[it].key == v
    {
      IdentityHasKey(Contents(), v);
      if v !in Contents() {
        InsertUniqueSpec(Contents(), v, Identity);
      }
      it, inserted := UniqueTree.Insert(tree, v);
    }

    /** `insert(pos, value)`: the hint is not used; as `insert(value)`. */
    method InsertHint(pos: nat, v: int) returns (it: nat)
      requires Valid()
      modifies tree
      ensures Valid()
      ensures Contents() == AddUnique(old(Contents()), v, Identity)
      ensures it in IdSet(tree.tree) && it < |tree.nodes| && tree.nodes[it].key == v
    {
      var inserted;
      it, inserted := UniqueTree.Insert(tree, v);
    }

    /** `insert(first, last)`: each item in turn. */
    method InsertRange(items: seq<int>)
      requires Valid()
      modifies tree
      ensures Valid()
      ensures Contents() == AddAll(old(Contents()), items, Identity)
      ensures forall x :: x in Contents() <==> x in old(Contents()) || x in items
    {
      AddAllSpec(Contents(), items, Identity);
      forall x ensures x in AddAll(Contents(), items, Identity) <==> x in Contents() || x in items {
        IdentityHasKey(AddAll(Contents(), items, Identity), x);
        IdentityHasKey(Contents(), x);
        IdentityHasKey(items, x);
      }
      UniqueTree.InsertRange(tree, items);
    }

    /** `erase(pos)`: the element with the key held at `pos` goes; at a
        node that is the element at `pos`. */
    method ErasePos(pos: nat)
      requires Valid() && PositionOf(tree, pos)
      modifies tree
      ensures Valid()
      ensures Contents() == WithoutKey(old(Contents()), Identity, Identity(old(tree.nodes[pos].key)))
      ensures pos != 0 ==> old(Index(tree, pos)) < |old(Contents())|
      ensures pos != 0 ==> Contents() == DropAt(old(Contents()), old(Index(tree, pos)))
    {
      UniqueTree.ErasePos(tree, pos);
    }

    /** `erase(first, last)` as the source writes it: elements go from
        `first` on until one equal to the element at `last` is reached;
        at `end()` that is the sentinel's 0. */
    method EraseRangeAsWritten(first: nat, last: nat)
      requires Valid() && PositionOf(tree, first) && PositionOf(tree, last)
      requires Index(tree, first) <= Index(tree, last)
      modifies tree
      ensures Valid()
      ensures var E, i := old(Contents()), old(Index(tree, first));
        i <= |E| && Contents() == E[..i] + E[StopAt(E, i, old(tree.nodes[last].key))..]
    {
      UniqueTree.EraseRangeAsWritten(tree, first, last);
    }

    /** One pass of the loop of `erase(first, last)` as written, at any
        position, `end()` included: the element with the key held at `tmp`
        goes, and the walk moves to the upper bound of the key read again
        from `tmp`, which the release leaves in place. */
    method ErasePass(tmp: nat) returns (next: nat)
      requires Valid() && PositionOf(tree, tmp)
      modifies tree
      ensures Valid() && PositionOf(tree, next)
      ensures Contents() == WithoutKey(old(Contents()), Identity, old(tree.nodes[tmp].key))
      ensures var i, k := Index(tree, next), old(tree.nodes[tmp].key);
        i <= |Contents()| && (forall j :: 0 <= j < i ==> Contents()[j] <= k) && (i < |Contents()| ==> k < Contents()[i])
    {
      UniqueTree.ErasePos(tree, tmp);
      next := UpperBound(tree.nodes[tmp].key);
    }

    /** `erase(first, last)`: the elements from `first` up to, not
        including, `last` go. */
    method EraseRange(first: nat, last: nat)
      requires Valid() && PositionOf(tree, first) && PositionOf(tree, last)
      requires Index(tree, first) <= Index(tree, last)
      modifies tree
      ensures Valid()
      ensures var E, i, il := old(Contents()), old(Index(tree, first)), old(Index(tree, last));
        i <= il <= |E| && Contents() == E[..i] + E[il..]
    {
      UniqueTree.EraseRange(tree, first, last);
    }

    /** `erase(key)`: removes `k` if present and says how many went. */
    method EraseKey(k: int) returns (n: nat)
      requires Valid()
      modifies tree
      ensures Valid()
      ensures n == (if k in old(Contents()) then 1 else 0)
      ensures forall x :: x in Contents() <==> x in old(Contents()) && x != k
    {
      IdentityHasKey(Contents(), k);
      ghost var E := Contents();
      n := UniqueTree.EraseKey(tree, k);
      forall x ensures x in Contents() <==> x in E && x != k {
        WithoutKeyMembers(E, Identity, k, x);
      }
    }

    /** `swap(other)`: the two sets exchange their elements. */
    method Swap(other: Set)
      requires Valid() && other.Valid()
      modifies tree, other.tree
      ensures Valid() && other.Valid()
      ensures Contents() == old(other.Contents()) && other.Contents() == old(Contents())
    {
      tree.Swap(other.tree);
    }

    /** `count(key)`. */
    function Count(k: int): (c: nat)
      requires Valid()
      reads this, tree
      ensures c == if k in Contents() then 1 else 0
    {
      IdentityHasKey(Contents(), k);
      UniqueTree.Count(tree, k)
    }

    /** `find(key)`: the position holding `k`, or `end()`. */
    function Find(k: int): (it: nat)
      requires Valid()
      reads this, tree
      ensures PositionOf(tree, it)
      ensures it == 0 <==> k !in Contents()
      ensures it != 0 ==> tree.nodes[it].key == k
    {
      IdentityHasKey(Contents(), k);
      tree.Search(k)
    }

    /** `lower_bound(key)`: the position of the least element not below
        `k`, or `end()`. */
    method LowerBound(k: int) returns (it: nat)
      requires Valid()
      ensures PositionOf(tree, it)
      ensures var i := Index(tree, it);
        i <= |Contents()| && (forall j :: 0 <= j < i ==> Contents()[j] < k) && (i < |Contents()| ==> k <= Contents()[i])
    {
      it := tree.LowerBound(k);
      LowerIndexSpec(Contents(), Identity, k);
      BoundsOrdered(Contents(), Identity, k);
      UniqueTree.PositionAt(tree, LowerIndex(Contents(), Identity, k));
    }

    /** `upper_bound(key)`: the position of the least element above `k`,
        or `end()`. */
    method UpperBound(k: int) returns (it: nat)
      requires Valid()
      ensures PositionOf(tree, it)
      ensures var i := Index(tree, it);
        i <= |Contents()| && (forall j :: 0 <= j < i ==> Contents()[j] <= k) && (i < |Contents()| ==> k < Contents()[i])
    {
      it := tree.UpperBound(k);
      UpperIndexSpec(Contents(), Identity, k);
      BoundsOrdered(Contents(), Identity, k);
      UniqueTree.PositionAt(tree, UpperIndex(Contents(), Identity, k));
    }

    /** `equal_range(key)`: `lower_bound(key)` and `upper_bound(key)`,
        which enclose `k` when it is present and coincide otherwise. */
    method EqualRange(k: int) returns (lo: nat, hi: nat)
      requires Valid()
      ensures PositionOf(tree, lo) && PositionOf(tree, hi)
      ensures Index(tree, hi) == Index(tree, lo) + (if k in Contents() then 1 else 0)
      ensures k in Contents() ==> lo != 0 && tree.nodes[lo].key == k
    {
      lo, hi := UniqueTree.EqualRange(tree, k);
      IdentityHasKey(Contents(), k);
      HasKeyAtLower(Contents(), Identity, k);
      LowerIndexSpec(Contents(), Identity, k);
      UpperIndexSpec(Contents(), Identity, k);
      UniqueTree.PositionAt(tree, LowerIndex(Contents(), Identity, k));
      UniqueTree.PositionAt(tree, UpperIndex(Contents(), Identity, k));
    }

  }

  // ---------------------------------------------------------------------
  // The free comparison operators: `ft::equal` and
  // `ft::lexicographical_compare` over the walks from `begin()` to `end()`.

  /** `lhs == rhs`: the same elements in the same order, which for sets is
      holding the same elements. */
  method SetEqual(lhs: Set, rhs: Set) returns (r: bool)
    requires lhs.Valid() && rhs.Valid()
    ensures r <==> lhs.Contents() == rhs.Contents()
    ensures r <==> forall x :: x in lhs.Contents() <==> x in rhs.Contents()
  {
    var a := UniqueTree.Walk(lhs.tree);
    var b := UniqueTree.Walk(rhs.tree);
    r := Algorithm.Equal(a, b);
    StrictSameMembers(a, b, Identity);
  }

  /** `lhs != rhs`: not `==`. */
  method SetNotEqual(lhs: Set, rhs: Set) returns (r: bool)
    requires lhs.Valid() && rhs.Valid()
    ensures r <==> lhs.Contents() != rhs.Contents()
    ensures r <==> exists x :: x in lhs.Contents() <==> x !in rhs.Contents()
  {
    var e := SetEqual(lhs, rhs);
    r := !e;
  }

  /** `lhs < rhs`: dictionary order of the elements in key order. */
  method SetLess(lhs: Set, rhs: Set) returns (r: bool)
    requires lhs.Valid() && rhs.Valid()
    ensures r == Algorithm.LexLess(lhs.Contents(), rhs.Contents(), KeyLess)
  {
    var a := UniqueTree.Walk(lhs.tree);
    var b := UniqueTree.Walk(rhs.tree);
    r := Algorithm.LexicographicalCompare(a, b, KeyLess);
  }

  /** `lhs > rhs`: `rhs < lhs`. */
  method SetGreater(lhs: Set, rhs: Set) returns (r: bool)
    requires lhs.Valid() && rhs.Valid()
    ensures r == Algorithm.LexLess(rhs.Contents(), lhs.Contents(), KeyLess)
  {
    r := SetLess(rhs, lhs);
  }

  /** `lhs <= rhs`: not `lhs > rhs`. */
  method SetLessEq(lhs: Set, rhs: Set) returns (r: bool)
    requires lhs.Valid() && rhs.Valid()
    ensures r == !Algorithm.LexLess(rhs.Contents(), lhs.Contents(), KeyLess)
  {
    var g := SetGreater(lhs, rhs);
    r := !g;
  }

  /** `lhs >= rhs`: not `lhs < rhs`. */
  method SetGreaterEq(lhs: Set, rhs: Set) returns (r: bool)
    requires lhs.Valid() && rhs.Valid()
    ensures r == !Algorithm.LexLess(lhs.Contents(), rhs.Contents(), KeyLess)
  {
    var l := SetLess(lhs, rhs);
    r := !l;
  }

  /** The operators order sets totally: exactly one of `<`, `==` and `>`
      holds, so `<=` is `<` or `==`. */
  lemma SetTrichotomy(lhs: Set, rhs: Set)
    requires lhs.Valid() && rhs.Valid()
    ensures Algorithm.LexLess(lhs.Contents(), rhs.Contents(), KeyLess)
      || lhs.Contents() == rhs.Contents()
      || Algorithm.LexLess(rhs.Contents(), lhs.Contents(), KeyLess)
    ensures !(Algorithm.LexLess(lhs.Contents(), rhs.Contents(), KeyLess)
      && Algorithm.LexLess(rhs.Contents(), lhs.Contents(), KeyLess))
    ensures lhs.Contents() == rhs.Contents() ==> !Algorithm.LexLess(lhs.Contents(), rhs.Contents(), KeyLess)
  {
    Algorithm.LexTrichotomy(lhs.Contents(), rhs.Contents(), KeyLess);
  }

  /** The set {a, b, c}, for `a < b < c`, built by three inserts. */
  method ThreeElements(a: int, b: int, c: int) returns (s: Set)
    requires a < b < c
    ensures s.Valid() && fresh(s.tree) && s.Contents() == [a, b, c]
  {
    s := new Set();
    var it, ins := s.Insert(a);
    it, ins := s.Insert(b);
    it, ins := s.Insert(c);
    ThreeInserts(a, b, c);
  }

  lemma ThreeInserts(a: int, b: int, c: int)
    requires a < b < c
    ensures AddUnique(AddUnique(AddUnique([], a, Identity), b, Identity), c, Identity) == [a, b, c]
  {
    assert AddUnique([], a, Identity) == [a];
    IdentityHasKey([a], b);
    assert InsertSorted([a], b, Identity) == [a] + InsertSorted([], b, Identity);
    IdentityHasKey([a, b], c);
    assert InsertSorted([a, b], c, Identity) == [a] + InsertSorted([b], c, Identity);
    assert [a, b][1..] == [b];
    assert InsertSorted([b], c, Identity) == [b] + InsertSorted([], c, Identity);
  }

  /** `erase(begin(), end())` as written on the set {-1, 0, 1}: the loop
      stops at 0, the sentinel's payload, and leaves {0, 1}. */
  method EraseToEndCounterexample() returns (s: Set)
    ensures s.Valid() && s.Contents() == [0, 1] && s.Size() == 2
  {
    s := ThreeElements(-1, 0, 1);
    var first := s.Begin();
    var last := s.End();
    ghost var E := s.Contents();
    assert last == 0 && s.tree.nodes[last].key == 0;
    StopAtIs(E, 0, 0, 1);
    s.EraseRangeAsWritten(first, last);
    assert E[..0] + E[1..] == [0, 1];
  }

  /** `erase(begin(), end())` stopping at the position `end()` empties the
      set {-1, 0, 1}. */
  method EraseToEndIntended() returns (s: Set)
    ensures s.Valid() && s.Contents() == [] && s.Size() == 0
  {
    s := ThreeElements(-1, 0, 1);
    var first := s.Begin();
    s.EraseRange(first, s.End());
  }

  /** A pass of the loop as written at a position whose key no element is
      above: that key goes, and the walk reaches `end()`. */
  method PassToEnd(s: Set, tmp: nat) returns (next: nat)
    requires s.Valid() && PositionOf(s.tree, tmp)
    requires forall x :: x in s.Contents() ==> x <= s.tree.nodes[tmp].key
    modifies s.tree
    ensures s.Valid() && s.Contents() == WithoutKey(old(s.Contents()), Identity, old(s.tree.nodes[tmp].key))
    ensures next == s.End()
  {
    ghost var E := s.Contents();
    ghost var k := s.tree.nodes[tmp].key;
    next := s.ErasePass(tmp);
    ghost var i := Index(s.tree, next);
    if i < |s.Contents()| {
      WithoutKeyMembers(E, Identity, k, s.Contents()[i]);
      assert false;
    }
    IndexOfPosition(s.tree, next);
    IndexOfPosition(s.tree, s.End());
  }

  /** The first pass of `erase(find(7), find(-5))` as written on the set
      {-5, 3, 7}, where `first` comes after `last` and the loop waits for
      -5: 7 goes and the walk reaches `end()`, whose payload, the
      sentinel's 0, is not -5. */
  method EraseBackwardStart() returns (s: Set, tmp: nat)
    ensures s.Valid() && fresh(s.tree) && s.Contents() == [-5, 3]
    ensures tmp == s.End() && s.tree.nodes[tmp].key != -5
  {
    s := ThreeElements(-5, 3, 7);
    var first := s.Find(7);
    var last := s.Find(-5);
    var stop := s.tree.nodes[last].key;
    tmp := first;
    assert s.tree.nodes[tmp].key == 7 != stop;
    assert WithoutKey([-5, 3, 7], Identity, 7) == [-5, 3] by {
      DropIsWithout([-5, 3, 7], Identity, 2);
      assert DropAt([-5, 3, 7], 2) == [-5, 3];
    }
    tmp := PassToEnd(s, tmp);
  }

  /** A pass at `end()` on {-5, 3}: the sentinel's key 0 is removed, which
      takes nothing, and the walk moves up to 3. */
  method PassFromEnd(s: Set) returns (next: nat)
    requires s.Valid() && s.Contents() == [-5, 3]
    modifies s.tree
    ensures s.Valid() && s.Contents() == [-5, 3]
    ensures PositionOf(s.tree, next) && next != 0 && s.tree.nodes[next].key == 3
  {
    assert WithoutKey([-5, 3], Identity, 0) == [-5, 3] by {
      IdentityHasKey([-5, 3], 0);
      WithoutAbsent([-5, 3], Identity, 0);
    }
    var tmp := s.End();
    assert tmp == 0 && s.tree.nodes[tmp].key == 0 by {
      IndexOfPosition(s.tree, tmp);
    }
    next := s.ErasePass(tmp);
    IndexOfPosition(s.tree, next);
  }

  /** `erase(find(7), find(-5))` as written on {-5, 3, 7} goes on from
      `EraseBackwardStart`: `PassFromEnd` moves the walk up to 3, 3 goes,
      and the walk is at `end()` again, on {-5}, still short of -5. */
  method EraseBackwardCounterexample() returns (s: Set, tmp: nat)
    ensures s.Valid() && s.Contents() == [-5]
    ensures tmp == s.End() && s.tree.nodes[tmp].key != -5
  {
    s, tmp := EraseBackwardStart();
    tmp := PassFromEnd(s);
    assert WithoutKey([-5, 3], Identity, 3) == [-5] by {
      DropIsWithout([-5, 3], Identity, 1);
      assert DropAt([-5, 3], 1) == [-5];
    }
    tmp := PassToEnd(s, tmp);
  }

  /** Where `EraseBackwardCounterexample` leaves the loop, on {-5} at
      `end()` waiting for -5, one more pass leaves the set and the walk as
      they were, and the sentinel's 0 still is not -5: the loop as written
      never ends. */
  method EraseStuckAtEnd(s: Set) returns (next: nat)
    requires s.Valid() && s.Contents() == [-5]
    modifies s.tree
    ensures s.Valid() && s.Contents() == [-5]
    ensures next == s.End() && s.tree.nodes[next].key != -5
  {
    var tmp := s.End();
    assert tmp == 0 && s.tree.nodes[tmp].key == 0 by {
      IndexOfPosition(s.tree, tmp);
    }
    assert WithoutKey([-5], Identity, 0) == [-5] by {
      IdentityHasKey([-5], 0);
      WithoutAbsent([-5], Identity, 0);
    }
    next := PassToEnd(s, tmp);
  }
}
