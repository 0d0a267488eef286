/**
 * `ft::map` (map.hpp) over `int` keys ordered by `<`: an engine of
 * key/value pairs whose key extractor is `first`, holding each key at most
 * once.  `dflt` stands for `T()`, the value-initialised mapped value that
 * `operator[]` inserts and that the sentinel's default pair `(0, T())`
 * carries.  Iterators are positions of the engine.
 */
module Maps {
  import opened Utility
  import opened RbShape
  import opened Traversal
  import opened KeyOrder
  import opened RbRemove
  import opened RedBlackTree
  import opened TreeIterator
  import opened UniqueKeys
  import UniqueTree
  import Algorithm

  /** The key extractor of a map: a pair's `first`. */
  function KeyOf<V>(p: Pair<int, V>): int {
    p.first
  }

  datatype Result<V> = Ok(value: V) | OutOfRange

  class Map<V(==)> {
    const tree: Rbt<Pair<int, V>>
    const dflt: V

    /** The engine holds each key once, uses `first` as key, and its
        sentinel holds the default pair `(0, T())`. */
    ghost predicate Valid()
      reads this, tree
    {
      UniqueTree.Unique(tree) && tree.access == KeyOf && tree.nodes[0].key == Pair(0, dflt)
    }

    /** The pairs, in increasing key order. */
    ghost function Contents(): seq<Pair<int, V>>
      requires Valid()
      reads this, tree
    {
      tree.Elements()
    }

    /** `map()`: empty; `dflt` is the mapped type's `T()`. */
    constructor (dflt: V)
      ensures Valid() && fresh(tree) && Contents() == [] && this.dflt == dflt
    {
      this.dflt := dflt;
      tree := new Rbt(KeyOf, Pair(0, dflt));
    }

    /** `map(first, last)`: each pair inserted in turn; the first pair of
        each key wins. */
    constructor Range(dflt: V, items: seq<Pair<int, V>>)
      ensures Valid() && fresh(tree) && this.dflt == dflt
      ensures Contents() == AddAll([], items, KeyOf)
      ensures forall k :: HasKey(Contents(), KeyOf, k) <==> HasKey(items, KeyOf, k)
    {
      var t := new Rbt(KeyOf, Pair(0, dflt));
      UniqueTree.InsertRange(t, items);
      this.dflt := dflt;
      tree := t;
      new;
      AddAllSpec([], items, KeyOf);
    }

    /** `at(key)`: the value stored under `k`, or `out_of_range` when there
        is none. */
    function At(k: int): (r: Result<V>)
      requires Valid()
      reads this, tree
      ensures r.Ok? <==> HasKey(Contents(), KeyOf, k)
      ensures r.Ok? ==> Pair(k, r.value) in Contents()
      ensures r.Ok? ==> forall j :: 0 <= j < |Contents()| && Contents()[j].first == k ==> Contents()[j].second == r.value
    {
      var ret := tree.Search(k);
      if ret == tree.GetNil() then OutOfRange
      else
        InStore(ret);
        assert Pair(k, tree.nodes[ret].key.second) == tree.nodes[ret].key;
        Ok(tree.nodes[ret].key.second)
    }

    /** A node's pair is one of the contents. */
    lemma InStore(n: nat)
      requires Valid() && n in IdSet(tree.tree) && n < |tree.nodes|
      ensures tree.nodes[n].key in Contents()
    {
      IndexOfPosition(tree, n);
    }

    /** `operator[](key)`: inserts `(k, T())` when `k` is absent, then
        yields the value stored under `k`. */
    method Subscript(k: int) returns (v: V)
      requires Valid()
      modifies tree
      ensures Valid()
      ensures Contents() == AddUnique(old(Contents()), Pair(k, dflt), KeyOf)
      ensures Pair(k, v) in Contents()
      ensures HasKey(old(Contents()), KeyOf, k) ==> Contents() == old(Contents()) && Pair(k, v) in old(Contents())
      ensures !HasKey(old(Contents()), KeyOf, k) ==> v == dflt
    {
      var it, inserted := UniqueTree.Insert(tree, MakePair(k, dflt));
      InStore(it);
      v := tree.nodes[it].key.second;
      assert tree.nodes[it].key == Pair(k, v);
    }

    /** `map(other)`: an engine copied from the other's. */
    constructor Copy(other: Map<V>)
      requires other.Valid()
      ensures Valid() && fresh(tree) && this.dflt == other.dflt
      ensures Contents() == other.Contents()
    {
      dflt := other.dflt;
      tree := new Rbt.Copy(other.tree);
    }

    /** `operator=`: the engine's own assignment, which leaves a map
        assigned to itself as it was. */
    method Assign(other: Map<V>)
      requires Valid() && other.Valid() && other.dflt == dflt
      modifies tree
      ensures Valid() && Contents() == old(other.Contents())
    {
      tree.Assign(other.tree);
    }

    /** `begin()`: the position of the least key, `end()` when empty. */
    method Begin() returns (it: nat)
      requires Valid()
      ensures PositionOf(tree, it) && Index(tree, it) == 0
      ensures it == 0 <==> Contents() == []
      ensures it != 0 ==> tree.nodes[it].key == Contents()[0]
    {
      it := UniqueTree.Begin(tree);
      IndexOfPosition(tree, it);
    }

    /** `end()`: the sentinel, one past the greatest key. */
    function End(): (it: nat)
      requires Valid()
      reads this, tree
      ensures PositionOf(tree, it) && Index(tree, it) == |Contents()|
    {
      UniqueTree.End(tree)
    }

    /** `empty()`. */
    function Empty(): (e: bool)
      requires Valid()
      reads this, tree
      ensures e <==> Contents() == []
    {
      tree.Size() == 0
    }

    /** `size()`. */
    function Size(): (n: nat)
      requires Valid()
      reads this, tree
      ensures n == |Contents()|
    {
      tree.Size()
    }

    /** `clear()`. */
    method Clear()
      requires Valid()
      modifies tree
      ensures Valid() && Contents() == []
    {
      tree.DeleteAll();
    }

    /** `insert(value)`: adds the pair unless its key is already there; the
        position returned holds the key either way. */
    method Insert(p: Pair<int, V>) returns (it: nat, inserted: bool)
      requires Valid()
      modifies tree
      ensures Valid()
      ensures inserted <==> !HasKey(old(Contents()), KeyOf, p.first)
      ensures Contents() == AddUnique(old(Contents()), p, KeyOf)
      ensures !inserted ==> Contents() == old(Contents())
      ensures it in IdSet(tree.tree) && it < |tree.nodes| && tree.nodes[it].key.first == p.first
      ensures inserted ==> tree.nodes[it].key == p
    {
      it, inserted := UniqueTree.Insert(tree, p);
    }

    /** `insert(pos, value)`: the hint is not used; as `insert(value)`. */
    method InsertHint(pos: nat, p: Pair<int, V>) returns (it: nat)
      requires Valid()
      modifies tree
      ensures Valid()
      ensures Contents() == AddUnique(old(Contents()), p, KeyOf)
      ensures it in IdSet(tree.tree) && it < |tree.nodes| && tree.nodes[it].key.first == p.first
    {
      var inserted;
      it, inserted := UniqueTree.Insert(tree, p);
    }

    /** `insert(first, last)`: each pair in turn; a key already present,
        or met earlier in `items`, keeps its value. */
    method InsertRange(items: seq<Pair<int, V>>)
      requires Valid()
      modifies tree
      ensures Valid()
      ensures Contents() == AddAll(old(Contents()), items, KeyOf)
      ensures forall k :: HasKey(Contents(), KeyOf, k) <==> HasKey(old(Contents()), KeyOf, k) || HasKey(items, KeyOf, k)
      ensures forall x :: x in old(Contents()) ==> x in Contents()
    {
      AddAllSpec(Contents(), items, KeyOf);
      UniqueTree.InsertRange(tree, items);
    }

    /** `erase(pos)`: the pair with the key held at `pos` goes; at a node
        that is the pair at `pos`. */
    method ErasePos(pos: nat)
      requires Valid() && PositionOf(tree, pos)
      modifies tree
      ensures Valid()
      ensures Contents() == WithoutKey(old(Contents()), KeyOf, KeyOf(old(tree.nodes[pos].key)))
      ensures pos != 0 ==> old(Index(tree, pos)) < |old(Contents())|
      ensures pos != 0 ==> Contents() == DropAt(old(Contents()), old(Index(tree, pos)))
    {
      UniqueTree.ErasePos(tree, pos);
    }

    /** `erase(first, last)` as the source writes it: pairs go from `first`
        on until one equal to the pair at `last` is reached; at `end()`
        that is the sentinel's `(0, T())`. */
    method EraseRangeAsWritten(first: nat, last: nat)
      requires Valid() && PositionOf(tree, first) && PositionOf(tree, last)
      requires Index(tree, first) <= Index(tree, last)
      modifies tree
      ensures Valid()
      ensures var E, i := old(Contents()), old(Index(tree, first));
        i <= |E| && Contents() == E[..i] + E[StopAt(E, i, old(tree.nodes[last].key))..]
    {
      UniqueTree.EraseRangeAsWritten(tree, first, last);
    }

    /** One pass of the loop of `erase(first, last)` as written, at any
        position, `end()` included: the pair with the key held at `tmp`
        goes, and the walk moves to the upper bound of the key read again
        from `tmp`, which the release leaves in place. */
    method ErasePass(tmp: nat) returns (next: nat)
      requires Valid() && PositionOf(tree, tmp)
      modifies tree
      ensures Valid() && PositionOf(tree, next)
      ensures Contents() == WithoutKey(old(Contents()), KeyOf, old(tree.nodes[tmp].key.first))
      ensures var i, k := Index(tree, next), old(tree.nodes[tmp].key.first);
        i <= |Contents()| && (forall j :: 0 <= j < i ==> Contents()[j].first <= k)
        && (i < |Contents()| ==> k < Contents()[i].first)
    {
      UniqueTree.ErasePos(tree, tmp);
      next := UpperBound(tree.nodes[tmp].key.first);
    }

    /** `erase(first, last)`: the pairs from `first` up to, not including,
        `last` go. */
    method EraseRange(first: nat, last: nat)
      requires Valid() && PositionOf(tree, first) && PositionOf(tree, last)
      requires Index(tree, first) <= Index(tree, last)
      modifies tree
      ensures Valid()
      ensures var E, i, il := old(Contents()), old(Index(tree, first)), old(Index(tree, last));
        i <= il <= |E| && Contents() == E[..i] + E[il..]
    {
      UniqueTree.EraseRange(tree, first, last);
    }

    /** `erase(key)`: removes the pair of key `k` if there is one and says
        how many went. */
    method EraseKey(k: int) returns (n: nat)
      requires Valid()
      modifies tree
      ensures Valid()
      ensures n == (if HasKey(old(Contents()), KeyOf, k) then 1 else 0)
      ensures Contents() == WithoutKey(old(Contents()), KeyOf, k)
      ensures forall x :: x in Contents() <==> x in old(Contents()) && x.first != k
    {
      ghost var E := Contents();
      n := UniqueTree.EraseKey(tree, k);
      forall x ensures x in Contents() <==> x in E && x.first != k {
        WithoutKeyMembers(E, KeyOf, k, x);
      }
    }

    /** `swap(other)`: the two maps exchange their pairs. */
    method Swap(other: Map<V>)
      requires Valid() && other.Valid() && other.dflt == dflt
      modifies tree, other.tree
      ensures Valid() && other.Valid()
      ensures Contents() == old(other.Contents()) && other.Contents() == old(Contents())
    {
      tree.Swap(other.tree);
    }

    /** `count(key)`. */
    function Count(k: int): (c: nat)
      requires Valid()
      reads this, tree
      ensures c == if HasKey(Contents(), KeyOf, k) then 1 else 0
    {
      UniqueTree.Count(tree, k)
    }

    /** `find(key)`: the position of the pair with key `k`, or `end()`. */
    function Find(k: int): (it: nat)
      requires Valid()
      reads this, tree
      ensures PositionOf(tree, it)
      ensures it == 0 <==> !HasKey(Contents(), KeyOf, k)
      ensures it != 0 ==> tree.nodes[it].key.first == k && tree.nodes[it].key in Contents()
    {
      var r := tree.Search(k);
      if r == 0 then r
      else
        InStore(r);
        r
    }

    /** `lower_bound(key)`: the position of the least key not below `k`,
        or `end()`. */
    method LowerBound(k: int) returns (it: nat)
      requires Valid()
      ensures PositionOf(tree, it)
      ensures var i := Index(tree, it);
        i <= |Contents()| && (forall j :: 0 <= j < i ==> Contents()[j].first < k)
        && (i < |Contents()| ==> k <= Contents()[i].first)
    {
      it := tree.LowerBound(k);
      LowerIndexSpec(Contents(), KeyOf, k);
      UniqueTree.PositionAt(tree, LowerIndex(Contents(), KeyOf, k));
    }

    /** `upper_bound(key)`: the position of the least key above `k`, or
        `end()`. */
    method UpperBound(k: int) returns (it: nat)
      requires Valid()
      ensures PositionOf(tree, it)
      ensures var i := Index(tree, it);
        i <= |Contents()| && (forall j :: 0 <= j < i ==> Contents()[j].first <= k)
        && (i < |Contents()| ==> k < Contents()[i].first)
    {
      it := tree.UpperBound(k);
      UpperIndexSpec(Contents(), KeyOf, k);
      UniqueTree.PositionAt(tree, UpperIndex(Contents(), KeyOf, k));
    }

    /** `equal_range(key)`: `lower_bound(key)` and `upper_bound(key)`,
        which enclose the pair of key `k` when there is one and coincide
        otherwise. */
    method EqualRange(k: int) returns (lo: nat, hi: nat)
      requires Valid()
      ensures PositionOf(tree, lo) && PositionOf(tree, hi)
      ensures Index(tree, hi) == Index(tree, lo) + (if HasKey(Contents(), KeyOf, k) then 1 else 0)
      ensures HasKey(Contents(), KeyOf, k) ==> lo != 0 && tree.nodes[lo].key.first == k
    {
      lo, hi := UniqueTree.EqualRange(tree, k);
      HasKeyAtLower(Contents(), KeyOf, k);
      LowerIndexSpec(Contents(), KeyOf, k);
      UpperIndexSpec(Contents(), KeyOf, k);
      UniqueTree.PositionAt(tree, LowerIndex(Contents(), KeyOf, k));
      UniqueTree.PositionAt(tree, UpperIndex(Contents(), KeyOf, k));
    }
  }

  // ---------------------------------------------------------------------
  // The free comparison operators: `ft::equal` and
  // `ft::lexicographical_compare` over the walks from `begin()` to `end()`,
  // comparing pairs with the pair operators.  The mapped values' `<` is
  // passed in.

  /** The pairs' `operator<` with `int` keys. */
  function PairLess<V>(ltV: (V, V) -> bool): (Pair<int, V>, Pair<int, V>) -> bool {
    (p: Pair<int, V>, q: Pair<int, V>) => Utility.Less(p, q, KeyLess, ltV)
  }

  /** `lhs == rhs`: the same pairs in the same order, which for maps is
      holding the same pairs. */
  method MapEqual<V(==)>(lhs: Map<V>, rhs: Map<V>) returns (r: bool)
    requires lhs.Valid() && rhs.Valid()
    ensures r <==> lhs.Contents() == rhs.Contents()
    ensures r <==> forall p :: p in lhs.Contents() <==> p in rhs.Contents()
  {
    var a := UniqueTree.Walk(lhs.tree);
    var b := UniqueTree.Walk(rhs.tree);
    r := Algorithm.Equal(a, b);
    StrictSameMembers(a, b, KeyOf);
  }

  /** `lhs != rhs`: not `==`. */
  method MapNotEqual<V(==)>(lhs: Map<V>, rhs: Map<V>) returns (r: bool)
    requires lhs.Valid() && rhs.Valid()
    ensures r <==> lhs.Contents() != rhs.Contents()
    ensures r <==> exists p :: p in lhs.Contents() <==> p !in rhs.Contents()
  {
    var e := MapEqual(lhs, rhs);
    r := !e;
  }

  /** `lhs < rhs`: dictionary order of the pairs in key order. */
  method MapLess<V(==)>(lhs: Map<V>, rhs: Map<V>, ltV: (V, V) -> bool) returns (r: bool)
    requires lhs.Valid() && rhs.Valid()
    ensures r == Algorithm.LexLess(lhs.Contents(), rhs.Contents(), PairLess(ltV))
  {
    var a := UniqueTree.Walk(lhs.tree);
    var b := UniqueTree.Walk(rhs.tree);
    r := Algorithm.LexicographicalCompare(a, b, PairLess(ltV));
  }

  /** `lhs > rhs`: `rhs < lhs`. */
  method MapGreater<V(==)>(lhs: Map<V>, rhs: Map<V>, ltV: (V, V) -> bool) returns (r: bool)
    requires lhs.Valid() && rhs.Valid()
    ensures r == Algorithm.LexLess(rhs.Contents(), lhs.Contents(), PairLess(ltV))
  {
    r := MapLess(rhs, lhs, ltV);
  }

  /** `lhs <= rhs`: not `lhs > rhs`. */
  method MapLessEq<V(==)>(lhs: Map<V>, rhs: Map<V>, ltV: (V, V) -> bool) returns (r: bool)
    requires lhs.Valid() && rhs.Valid()
    ensures r == !Algorithm.LexLess(rhs.Contents(), lhs.Contents(), PairLess(ltV))
  {
    var g := MapGreater(lhs, rhs, ltV);
    r := !g;
  }

  /** `lhs >= rhs`: not `lhs < rhs`. */
  method MapGreaterEq<V(==)>(lhs: Map<V>, rhs: Map<V>, ltV: (V, V) -> bool) returns (r: bool)
    requires lhs.Valid() && rhs.Valid()
    ensures r == !Algorithm.LexLess(lhs.Contents(), rhs.Contents(), PairLess(ltV))
  {
    var l := MapLess(lhs, rhs, ltV);
    r := !l;
  }

  /** With a strict total order on the mapped values the operators order
      maps totally: exactly one of `<`, `==` and `>` holds. */
  lemma MapTrichotomy<V(!new)>(lhs: Map<V>, rhs: Map<V>, ltV: (V, V) -> bool)
    requires lhs.Valid() && rhs.Valid() && StrictTotal(ltV)
    ensures Algorithm.LexLess(lhs.Contents(), rhs.Contents(), PairLess(ltV))
      || lhs.Contents() == rhs.Contents()
      || Algorithm.LexLess(rhs.Contents(), lhs.Contents(), PairLess(ltV))
    ensures !(Algorithm.LexLess(lhs.Contents(), rhs.Contents(), PairLess(ltV))
      && Algorithm.LexLess(rhs.Contents(), lhs.Contents(), PairLess(ltV)))
    ensures lhs.Contents() == rhs.Contents() ==> !Algorithm.LexLess(lhs.Contents(), rhs.Contents(), PairLess(ltV))
  {
    assert StrictTotal(KeyLess);
    LessIsStrictTotal(KeyLess, ltV);
    assert PairLess(ltV) == (p: Pair<int, V>, q: Pair<int, V>) => Utility.Less(p, q, KeyLess, ltV);
    Algorithm.LexTrichotomy(lhs.Contents(), rhs.Contents(), PairLess(ltV));
  }

  /** The map {a: d, b: d, c: d}, for `a < b < c`, built by three
      `operator[]` calls. */
  method ThreeDefaults<V(==)>(d: V, a: int, b: int, c: int) returns (m: Map<V>)
    requires a < b < c
    ensures m.Valid() && fresh(m.tree) && m.dflt == d
    ensures m.Contents() == [Pair(a, d), Pair(b, d), Pair(c, d)]
  {
    m := new Map(d);
    var v := m.Subscript(a);
    v := m.Subscript(b);
    v := m.Subscript(c);
    ThreeSubscripts(d, a, b, c);
  }

  lemma ThreeSubscripts<V>(d: V, a: int, b: int, c: int)
    requires a < b < c
    ensures AddUnique(AddUnique(AddUnique([], Pair(a, d), KeyOf), Pair(b, d), KeyOf), Pair(c, d), KeyOf)
         == [Pair(a, d), Pair(b, d), Pair(c, d)]
  {
    var pa, pb, pc := Pair(a, d), Pair(b, d), Pair(c, d);
    assert AddUnique([], pa, KeyOf) == [pa];
    assert !HasKey([pa], KeyOf, b) by {
      forall j | 0 <= j < 1 ensures KeyOf([pa][j]) != b { }
    }
    assert InsertSorted([pa], pb, KeyOf) == [pa] + InsertSorted([], pb, KeyOf);
    assert !HasKey([pa, pb], KeyOf, c) by {
      forall j | 0 <= j < 2 ensures KeyOf([pa, pb][j]) != c { }
    }
    assert InsertSorted([pa, pb], pc, KeyOf) == [pa] + InsertSorted([pb], pc, KeyOf);
    assert [pa, pb][1..] == [pb];
    assert InsertSorted([pb], pc, KeyOf) == [pb] + InsertSorted([], pc, KeyOf);
  }

  /** `erase(begin(), end())` as written on a map whose key 0 maps to `T()`:
      the loop stops at `(0, T())`, the sentinel's pair, and two pairs
      stay. */
  method EraseToEndCounterexample<V(==)>(d: V) returns (m: Map<V>)
    ensures m.Valid() && m.Contents() == [Pair(0, d), Pair(1, d)] && m.Size() == 2
  {
    m := ThreeDefaults(d, -1, 0, 1);
    var first := m.Begin();
    var last := m.End();
    ghost var E := m.Contents();
    assert last == 0 && m.tree.nodes[last].key == Pair(0, d);
    StopAtIs(E, 0, Pair(0, d), 1);
    m.EraseRangeAsWritten(first, last);
    assert E[..0] + E[1..] == [Pair(0, d), Pair(1, d)];
  }

  /** `erase(begin(), end())` stopping at the position `end()` empties the
      same map. */
  method EraseToEndIntended<V(==)>(d: V) returns (m: Map<V>)
    ensures m.Valid() && m.Contents() == [] && m.Size() == 0
  {
    m := ThreeDefaults(d, -1, 0, 1);
    var first := m.Begin();
    m.EraseRange(first, m.End());
  }

  /** A pass of the loop as written at a position whose key no pair's key
      is above: the pair of that key goes, and the walk reaches `end()`. */
  method PassToEnd<V(==)>(m: Map<V>, tmp: nat) returns (next: nat)
    requires m.Valid() && PositionOf(m.tree, tmp)
    requires forall x :: x in m.Contents() ==> x.first <= m.tree.nodes[tmp].key.first
    modifies m.tree
    ensures m.Valid() && m.Contents() == WithoutKey(old(m.Contents()), KeyOf, old(m.tree.nodes[tmp].key.first))
    ensures next == m.End()
  {
    ghost var E := m.Contents();
    ghost var k := m.tree.nodes[tmp].key.first;
    next := m.ErasePass(tmp);
    ghost var i := Index(m.tree, next);
    if i < |m.Contents()| {
      WithoutKeyMembers(E, KeyOf, k, m.Contents()[i]);
      assert false;
    }
    IndexOfPosition(m.tree, next);
    IndexOfPosition(m.tree, m.End());
  }

  /** The first pass of `erase(find(7), find(-5))` as written on the map
      {-5: d, 3: d, 7: d}, where `first` comes after `last` and the loop
      waits for the pair `(-5, d)`: the pair of key 7 goes and the walk
      reaches `end()`, whose payload, the sentinel's `(0, d)`, is not
      `(-5, d)`. */
  method EraseBackwardStart<V(==)>(d: V) returns (m: Map<V>, tmp: nat)
    ensures m.Valid() && fresh(m.tree) && m.dflt == d
    ensures m.Contents() == [Pair(-5, d), Pair(3, d)]
    ensures tmp == m.End() && m.tree.nodes[tmp].key != Pair(-5, d)
  {
    m := ThreeDefaults(d, -5, 3, 7);
    var first := m.Find(7);
    var last := m.Find(-5);
    var stop := m.tree.nodes[last].key;
    tmp := first;
    assert m.tree.nodes[tmp].key.first == 7 && m.tree.nodes[tmp].key != stop;
    assert WithoutKey([Pair(-5, d), Pair(3, d), Pair(7, d)], KeyOf, 7) == [Pair(-5, d), Pair(3, d)] by {
      DropIsWithout([Pair(-5, d), Pair(3, d), Pair(7, d)], KeyOf, 2);
      assert DropAt([Pair(-5, d), Pair(3, d), Pair(7, d)], 2) == [Pair(-5, d), Pair(3, d)];
    }
    tmp := PassToEnd(m, tmp);
  }

  /** A pass at `end()` on {-5: d, 3: d}: the key 0 of the sentinel's pair
      is removed, which takes nothing, and the walk moves up to key 3. */
  method PassFromEnd<V(==)>(m: Map<V>) returns (next: nat)
    requires m.Valid() && m.Contents() == [Pair(-5, m.dflt), Pair(3, m.dflt)]
    modifies m.tree
    ensures m.Valid() && m.Contents() == [Pair(-5, m.dflt), Pair(3, m.dflt)]
    ensures PositionOf(m.tree, next) && next != 0 && m.tree.nodes[next].key == Pair(3, m.dflt)
  {
    var d := m.dflt;
    var tmp := m.End();
    assert tmp == 0 && m.tree.nodes[tmp].key == Pair(0, d) by {
      IndexOfPosition(m.tree, tmp);
    }
    assert WithoutKey([Pair(-5, d), Pair(3, d)], KeyOf, 0) == [Pair(-5, d), Pair(3, d)] by {
      assert !HasKey([Pair(-5, d), Pair(3, d)], KeyOf, 0) by {
        forall j | 0 <= j < 2 ensures KeyOf([Pair(-5, d), Pair(3, d)][j]) != 0 { }
      }
      WithoutAbsent([Pair(-5, d), Pair(3, d)], KeyOf, 0);
    }
    next := m.ErasePass(tmp);
    IndexOfPosition(m.tree, next);
  }

  /** `erase(find(7), find(-5))` as written on {-5: d, 3: d, 7: d} goes on
      from `EraseBackwardStart`: `PassFromEnd` moves the walk up to key 3,
      that pair goes, and the walk is at `end()` again, on {-5: d}, still
      short of `(-5, d)`. */
  method EraseBackwardCounterexample<V(==)>(d: V) returns (m: Map<V>, tmp: nat)
    ensures m.Valid() && m.dflt == d && m.Contents() == [Pair(-5, d)]
    ensures tmp == m.End() && m.tree.nodes[tmp].key != Pair(-5, d)
  {
    m, tmp := EraseBackwardStart(d);
    tmp := PassFromEnd(m);
    assert WithoutKey([Pair(-5, d), Pair(3, d)], KeyOf, 3) == [Pair(-5, d)] by {
      DropIsWithout([Pair(-5, d), Pair(3, d)], KeyOf, 1);
      assert DropAt([Pair(-5, d), Pair(3, d)], 1) == [Pair(-5, d)];
    }
    tmp := PassToEnd(m, tmp);
  }

  /** Where `EraseBackwardCounterexample` leaves the loop, on {-5: d} at
      `end()` waiting for `(-5, d)`, one more pass leaves the map and the
      walk as they were, and the sentinel's `(0, d)` still is not `(-5, d)`:
      the loop as written never ends. */
  method EraseStuckAtEnd<V(==)>(m: Map<V>) returns (next: nat)
    requires m.Valid() && m.Contents() == [Pair(-5, m.dflt)]
    modifies m.tree
    ensures m.Valid() && m.Contents() == [Pair(-5, m.dflt)]
    ensures next == m.End() && m.tree.nodes[next].key != Pair(-5, m.dflt)
  {
    var d := m.dflt;
    var tmp := m.End();
    assert tmp == 0 && m.tree.nodes[tmp].key == Pair(0, d) by {
      IndexOfPosition(m.tree, tmp);
    }
    assert WithoutKey([Pair(-5, d)], KeyOf, 0) == [Pair(-5, d)] by {
      assert !HasKey([Pair(-5, d)], KeyOf, 0) by {
        forall j | 0 <= j < 1 ensures KeyOf([Pair(-5, d)][j]) != 0 { }
      }
      WithoutAbsent([Pair(-5, d)], KeyOf, 0);
    }
    next := PassToEnd(m, tmp);
  }
}
