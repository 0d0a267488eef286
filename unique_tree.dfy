/**
 * The operations `ft::set` (set.hpp) and `ft::map` (map.hpp) build the same
 * way on their engine: each keeps at most one element per key, searches
 * before inserting, and erases by key.  They are written once here, over
 * an engine whose key extractor is the identity for a set and `first` for
 * a map.
 */
module UniqueTree {
  import opened RbShape
  import opened Arena
  import opened Traversal
  import opened KeyOrder
  import opened RbRemove
  import opened RedBlackTree
  import opened TreeIterator
  import opened UniqueKeys

  /** The engine of a set or a map: valid, and no key twice. */
  ghost predicate Unique<T>(t: Rbt<T>)
    reads t
  {
    t.Valid() && Strict(t.Elements(), t.access)
  }

  /** Two nodes of a set or map with the same key are the same node. */
  lemma SameKeySameSlot<T>(t: Rbt<T>, a: nat, b: nat)
    requires Unique(t) && a in IdSet(t.tree) && b in IdSet(t.tree)
    requires a < |t.nodes| && b < |t.nodes|
    requires t.access(t.nodes[a].key) == t.access(t.nodes[b].key)
    ensures a == b
  {
    IndexOfPosition(t, a);
    IndexOfPosition(t, b);
  }

  /** `begin()`: the sentinel when empty, otherwise the minimum; either
      way the position with in-order index 0. */
  method Begin<T>(t: Rbt<T>) returns (it: nat)
    requires t.Valid()
    ensures it == Head0(Ids(t.tree)) && PositionOf(t, it) && Index(t, it) == 0
    ensures it == 0 <==> t.Elements() == []
  {
    if t.Size() == 0 {
      it := t.GetNil();
      assert Ids(t.tree) == [] by { IdsLength(t.tree); }
    } else {
      it := t.Minimum();
      IdsLength(t.tree);
      IdsMembership(t.tree);
      MatchKeys(t.tree, 0, t.nodes);
    }
  }

  /** `end()`: the sentinel, whose in-order index is the element count. */
  function End<T>(t: Rbt<T>): (it: nat)
    requires t.Valid()
    reads t
    ensures PositionOf(t, it) && Index(t, it) == |t.Elements()|
  {
    var n := t.GetNil();
    IndexOfPosition(t, 0);
    n
  }

  /** The walk `ft::equal` and `ft::lexicographical_compare` make from
      `begin()` to `end()` with `++`: the payloads met, in key order. */
  method Walk<T>(t: Rbt<T>) returns (s: seq<T>)
    requires t.Valid()
    ensures s == t.Elements()
  {
    var it := Begin(t);
    s := WalkFrom(t.nodes, t.tree, it);
  }

  /** The loop of `Walk` over the node store: from the first position,
      `++` until the sentinel collects the payloads in order. */
  method WalkFrom<T>(ns: seq<Node<T>>, ghost tr: Tree<T>, start: nat) returns (s: seq<T>)
    requires Linked(tr, ns) && ns[0].p == Root(tr)
    requires start == SlotAt(Ids(tr), 0)
    ensures s == Vals(tr)
  {
    ghost var E, I := Vals(tr), Ids(tr);
    IdsLength(tr);
    DistinctNoDup(tr);
    var it := start;
    s := [];
    while it != 0
      invariant |s| <= |E| && s == E[..|s|] && it == SlotAt(I, |s|)
      decreases |E| - |s|
    {
      WalkStep(ns, tr, |s|);
      assert E[..|s| + 1] == s + [ns[it].key];
      s := s + [ns[it].key];
      it := Traversal.Increment(ns, it, tr);
    }
    assert s == E;
  }

  /** What one `++` of the walk needs at in-order index `n`: the slot there
      is a node holding the n-th payload, and its successor is the slot at
      index `n + 1`. */
  lemma WalkStep<T>(ns: seq<Node<T>>, tr: Tree<T>, n: nat)
    requires Linked(tr, ns) && n < |Ids(tr)|
    ensures Ids(tr)[n] != 0 && Ids(tr)[n] in IdSet(tr) && n < |Vals(tr)|
    ensures Ids(tr)[n] < |ns| && ns[Ids(tr)[n]].key == Vals(tr)[n]
    ensures Next(Ids(tr), Ids(tr)[n]) == SlotAt(Ids(tr), n + 1)
  {
    IdsLength(tr);
    IdsMembership(tr);
    DistinctNoDup(tr);
    MatchKeys(tr, 0, ns);
    NextAt(Ids(tr), n);
    assert Ids(tr)[n] in Ids(tr);
  }

  /** `insert(value)`: when no element has the key of `v`, `v` is added and
      the flag is set; otherwise nothing changes and the position is the
      element already there. */
  method Insert<T>(t: Rbt<T>, v: T) returns (it: nat, inserted: bool)
    requires Unique(t)
    modifies t
    ensures Unique(t)
    ensures inserted <==> !HasKey(old(t.Elements()), t.access, t.access(v))
    ensures t.Elements() == AddUnique(old(t.Elements()), v, t.access)
    ensures !inserted ==> t.nodes == old(t.nodes) && t.root == old(t.root) && t.tree == old(t.tree) && t.size == old(t.size)
    ensures it in IdSet(t.tree) && it < |t.nodes| && t.access(t.nodes[it].key) == t.access(v)
    ensures inserted ==> t.size == old(t.size) + 1 && t.nodes[it].key == v
    ensures old(|t.nodes|) <= |t.nodes| && forall j :: 0 <= j < old(|t.nodes|) ==> t.nodes[j].key == old(t.nodes[j].key)
  {
    var tmp := t.Search(t.access(v));
    if tmp == t.GetNil() {
      InsertUniqueSpec(t.Elements(), v, t.access);
      it := t.Insert(v);
      inserted := true;
      MatchBounds(t.tree, 0, t.nodes);
    } else {
      it, inserted := tmp, false;
    }
  }

  /** `insert(first, last)`: each item in turn, as by `insert(value)`. */
  method InsertRange<T>(t: Rbt<T>, items: seq<T>)
    requires Unique(t)
    modifies t
    ensures Unique(t)
    ensures t.Elements() == AddAll(old(t.Elements()), items, t.access)
    ensures old(|t.nodes|) <= |t.nodes| && forall j :: 0 <= j < old(|t.nodes|) ==> t.nodes[j].key == old(t.nodes[j].key)
  {
    var k := 0;
    while k < |items|
      invariant k <= |items| && Unique(t)
      invariant t.Elements() == AddAll(old(t.Elements()), items[..k], t.access)
      invariant old(|t.nodes|) <= |t.nodes| && forall j :: 0 <= j < old(|t.nodes|) ==> t.nodes[j].key == old(t.nodes[j].key)
    {
      var it, inserted := Insert(t, items[k]);
      assert items[..k + 1][..k] == items[..k] && items[..k + 1][k] == items[k];
      k := k + 1;
    }
    assert items[..k] == items;
  }

  /** `erase(key)`: the element with that key goes, if there is one; the
      count of elements erased is returned. */
  method EraseKey<T>(t: Rbt<T>, k: int) returns (n: nat)
    requires Unique(t)
    modifies t
    ensures Unique(t)
    ensures n == (if HasKey(old(t.Elements()), t.access, k) then 1 else 0)
    ensures t.Elements() == WithoutKey(old(t.Elements()), t.access, k)
    ensures n == 0 ==> t.nodes == old(t.nodes) && t.root == old(t.root) && t.tree == old(t.tree)
    ensures t.size == old(t.size) - n
    ensures |t.nodes| == old(|t.nodes|) && forall j :: 0 <= j < |t.nodes| ==> t.nodes[j].key == old(t.nodes[j].key)
  {
    ghost var E := t.Elements();
    if t.Search(k) != t.GetNil() {
      ghost var i := IndexOf(Ids(t.tree), t.Search(k));
      t.Remove(k);
      DropIsWithout(E, t.access, i);
      n := 1;
    } else {
      WithoutAbsent(E, t.access, k);
      n := 0;
    }
  }

  /** `erase(position)`: the element whose key is the one held at the
      position goes. At a node that is the element at the position's
      in-order index; at `end()` it is the key of the sentinel's default
      payload, so an element with that key goes too. */
  method ErasePos<T>(t: Rbt<T>, pos: nat)
    requires Unique(t) && PositionOf(t, pos)
    modifies t
    ensures Unique(t)
    ensures t.Elements() == WithoutKey(old(t.Elements()), t.access, t.access(old(t.nodes[pos].key)))
    ensures pos != 0 ==> old(Index(t, pos)) < |old(t.Elements())|
    ensures pos != 0 ==> t.Elements() == DropAt(old(t.Elements()), old(Index(t, pos)))
    ensures |t.nodes| == old(|t.nodes|) && forall j :: 0 <= j < |t.nodes| ==> t.nodes[j].key == old(t.nodes[j].key)
  {
    IndexOfPosition(t, pos);
    var k := t.access(t.nodes[pos].key);
    if pos != 0 {
      MatchBounds(t.tree, 0, t.nodes);
      DropIsWithout(t.Elements(), t.access, Index(t, pos));
    }
    var n := EraseKey(t, k);
  }

  /** `count(key)`: one when an element has the key, otherwise zero. */
  function Count<T>(t: Rbt<T>, k: int): (c: nat)
    requires Unique(t)
    reads t
    ensures c <= 1
    ensures c == 1 <==> HasKey(t.Elements(), t.access, k)
  {
    if t.Search(k) == t.GetNil() then 0 else 1
  }

  /** `equal_range(key)`: the lower and the upper bound, which enclose the
      one element with the key or, without one, coincide. */
  method EqualRange<T>(t: Rbt<T>, k: int) returns (lo: nat, hi: nat)
    requires Unique(t)
    ensures lo == SlotAt(Ids(t.tree), LowerIndex(t.Elements(), t.access, k))
    ensures hi == SlotAt(Ids(t.tree), UpperIndex(t.Elements(), t.access, k))
    ensures UpperIndex(t.Elements(), t.access, k)
         == LowerIndex(t.Elements(), t.access, k) + Count(t, k)
  {
    lo := t.LowerBound(k);
    hi := t.UpperBound(k);
    UniqueRange(t.Elements(), t.access, k);
  }

  /** One pass of the erase-range loop: the element at `tmp` goes, by its
      key, and the walk continues at the upper bound of that key, which is
      the node that followed it. */
  method EraseStep<T>(t: Rbt<T>, tmp: nat) returns (next: nat)
    requires Unique(t) && tmp in IdSet(t.tree)
    modifies t
    ensures Unique(t)
    ensures old(Index(t, tmp)) < |old(t.Elements())| && |old(t.Elements())| == |old(Ids(t.tree))|
    ensures t.Elements() == DropAt(old(t.Elements()), old(Index(t, tmp)))
    ensures Ids(t.tree) == DropAt(old(Ids(t.tree)), old(Index(t, tmp)))
    ensures next == SlotAt(Ids(t.tree), old(Index(t, tmp)))
    ensures |t.nodes| == old(|t.nodes|) && forall j :: 0 <= j < |t.nodes| ==> t.nodes[j].key == old(t.nodes[j].key)
  {
    MatchBounds(t.tree, 0, t.nodes);
    IndexOfPosition(t, tmp);
    ghost var E := t.Elements();
    ghost var i := Index(t, tmp);
    var k := t.access(t.nodes[tmp].key);
    SameKeySameSlot(t, t.Search(k), tmp);
    DropIsWithout(E, t.access, i);
    t.Remove(k);
    next := t.UpperBound(t.access(t.nodes[tmp].key));
    UpperAfterDrop(E, t.access, i);
  }

  /** One pass of either erase-range loop, stated on the element sequence
      `E` and slot sequence `I` the loop started from, of which `[i, j)`
      has gone so far: the walk is at the element `E[j]`, which goes
      next. */
  method EraseWithin<T>(t: Rbt<T>, tmp: nat, ghost E: seq<T>, ghost I: seq<nat>, ghost i: nat, ghost j: nat)
      returns (next: nat)
    requires Unique(t) && i <= j < |E| && |E| == |I|
    requires t.Elements() == Gap(E, i, j) && Ids(t.tree) == Gap(I, i, j)
    requires tmp == SlotAt(Ids(t.tree), i)
    modifies t
    ensures Unique(t) && tmp == I[j] && tmp < old(|t.nodes|) && old(t.nodes[tmp].key) == E[j]
    ensures t.Elements() == Gap(E, i, j + 1) && Ids(t.tree) == Gap(I, i, j + 1)
    ensures next == SlotAt(Ids(t.tree), i) && next < |t.nodes|
    ensures |t.nodes| == old(|t.nodes|) && t.nodes[0].key == old(t.nodes[0].key)
  {
    IdsLength(t.tree);
    WalkAt(t, tmp, i);
    SkipOne(E, i, j);
    SkipOne(I, i, j);
    next := EraseStep(t, tmp);
    if next != 0 {
      MatchKeys(t.tree, 0, t.nodes);
    }
  }

  /** The slot at in-order index `i` (the sentinel past the end) is a
      position, and its index is `i`. */
  lemma PositionAt<T>(t: Rbt<T>, i: nat)
    requires t.Valid() && i <= |t.Elements()|
    ensures PositionOf(t, SlotAt(Ids(t.tree), i))
    ensures Index(t, SlotAt(Ids(t.tree), i)) == i
    ensures i < |t.Elements()| ==> SlotAt(Ids(t.tree), i) != 0
    ensures i < |t.Elements()| ==> t.nodes[SlotAt(Ids(t.tree), i)].key == t.Elements()[i]
  {
    IdsLength(t.tree);
    if i < |t.Elements()| {
      WalkAt(t, Ids(t.tree)[i], i);
      IndexOfPosition(t, Ids(t.tree)[i]);
    } else {
      IndexOfPosition(t, 0);
    }
  }

  /** The node at in-order index `i` of a valid engine: a live slot whose
      payload is the element at `i`. */
  lemma WalkAt<T>(t: Rbt<T>, n: nat, i: nat)
    requires t.Valid() && i < |Ids(t.tree)| && n == Ids(t.tree)[i]
    ensures n in IdSet(t.tree) && n < |t.nodes| && Index(t, n) == i
    ensures i < |t.Elements()| && t.nodes[n].key == t.Elements()[i]
  {
    IdsMembership(t.tree);
    MatchKeys(t.tree, 0, t.nodes);
    DistinctNoDup(t.tree);
    IndexOfAt(Ids(t.tree), i);
  }

  /** `s` with the elements at positions `i` up to, not including, `j`
      removed: the state of an erase-range loop that has erased `[i, j)`. */
  ghost function Gap<X>(s: seq<X>, i: nat, j: nat): (g: seq<X>)
    requires i <= j <= |s|
    ensures |g| == |s| - (j - i)
  {
    s[..i] + s[j..]
  }

  /** Removing position `i` of `Gap(s, i, j)` removes `s[j]`. */
  lemma SkipOne<X>(s: seq<X>, i: nat, j: nat)
    requires i <= j < |s|
    ensures i < |Gap(s, i, j)| && Gap(s, i, j)[i] == s[j]
    ensures DropAt(Gap(s, i, j), i) == Gap(s, i, j + 1)
  {
    assert Gap(s, i, j) == s[..i] + [s[j]] + s[j + 1..];
    DropMiddle(s[..i], s[j], s[j + 1..]);
  }

  /** `erase(first, last)` as written: the loop runs until the payload under
      the walk equals the payload of `last`.  For `last` a node that is its
      own payload, but for `last == end()` it is the sentinel's payload, a
      default-constructed value, so the loop stops at the first element
      equal to that value, or at the end. */
  method EraseRangeAsWritten<T(==)>(t: Rbt<T>, first: nat, last: nat)
    requires Unique(t) && PositionOf(t, first) && PositionOf(t, last)
    requires Index(t, first) <= Index(t, last)
    modifies t
    ensures Unique(t)
    ensures var E, i := old(t.Elements()), old(Index(t, first));
      i <= |E| && t.Elements() == E[..i] + E[StopAt(E, i, old(t.nodes[last].key))..]
    ensures t.nodes[0].key == old(t.nodes[0].key)
  {
    IndexOfPosition(t, first);
    IndexOfPosition(t, last);
    EraseUntil(t, first, t.nodes[last].key, t.Elements(), Ids(t.tree), Index(t, first), Index(t, last));
  }

  /** The loop of `erase(first, last)` as written, from the walk at index
      `i` until the payload under it is `stop`; the payload at index `il`,
      or the sentinel's when `il` is the end, is `stop`, so the walk ends
      there at the latest. */
  method EraseUntil<T(==)>(t: Rbt<T>, first: nat, stop: T, ghost E: seq<T>, ghost I: seq<nat>, ghost i: nat, ghost il: nat)
    requires Unique(t) && t.Elements() == E && Ids(t.tree) == I
    requires i <= il <= |E| && first == SlotAt(I, i)
    requires il < |E| ==> E[il] == stop
    requires il == |E| ==> t.nodes[0].key == stop
    modifies t
    ensures Unique(t) && t.Elements() == E[..i] + E[StopAt(E, i, stop)..]
    ensures t.nodes[0].key == old(t.nodes[0].key)
  {
    IdsLength(t.tree);
    if first != 0 {
      WalkAt(t, first, i);
    }
    ghost var nilKey := t.nodes[0].key;
    Rejoin(E, i);
    Rejoin(I, i);
    var tmp := first;
    ghost var j := i;
    while t.nodes[tmp].key != stop
      invariant Unique(t) && i <= j <= il && |E| == |I|
      invariant t.Elements() == Gap(E, i, j) && Ids(t.tree) == Gap(I, i, j)
      invariant tmp == SlotAt(Ids(t.tree), i) && tmp < |t.nodes|
      invariant j == |E| ==> tmp == 0
      invariant t.nodes[0].key == nilKey
      invariant forall m :: i <= m < j ==> E[m] != stop
      decreases |E| - j
    {
      ghost var cur := t.nodes[tmp].key;
      tmp := EraseWithin(t, tmp, E, I, i, j);
      assert cur == E[j] && cur != stop;
      j := j + 1;
    }
    if j < |E| {
      SkipOne(E, i, j);
      WalkAt(t, tmp, i);
    }
    StopAtIs(E, i, stop, j);
  }

  /** `erase(first, last)` as intended: the loop runs until the walk reaches
      the position `last`, so exactly the elements from `first` up to, not
      including, `last` go. */
  method EraseRange<T>(t: Rbt<T>, first: nat, last: nat)
    requires Unique(t) && PositionOf(t, first) && PositionOf(t, last)
    requires Index(t, first) <= Index(t, last)
    modifies t
    ensures Unique(t)
    ensures var E, i, il := old(t.Elements()), old(Index(t, first)), old(Index(t, last));
      i <= il <= |E| && t.Elements() == E[..i] + E[il..]
    ensures t.nodes[0].key == old(t.nodes[0].key)
  {
    IndexOfPosition(t, first);
    IndexOfPosition(t, last);
    DistinctNoDup(t.tree);
    EraseTo(t, first, last, t.Elements(), Ids(t.tree), Index(t, first), Index(t, last));
  }

  /** The loop of `erase(first, last)` as intended, from the walk at index
      `i` until it reaches `last`, the slot at index `il` (the sentinel when
      `il` is the end). */
  method EraseTo<T>(t: Rbt<T>, first: nat, last: nat, ghost E: seq<T>, ghost I: seq<nat>, ghost i: nat, ghost il: nat)
    requires Unique(t) && t.Elements() == E && Ids(t.tree) == I
    requires NoDup(I) && 0 !in I
    requires i <= il <= |E| && first == SlotAt(I, i)
    requires il < |I| ==> I[il] == last
    requires il == |I| ==> last == 0
    modifies t
    ensures Unique(t) && t.Elements() == E[..i] + E[il..]
    ensures t.nodes[0].key == old(t.nodes[0].key)
  {
    IdsLength(t.tree);
    ghost var nilKey := t.nodes[0].key;
    Rejoin(E, i);
    Rejoin(I, i);
    var tmp := first;
    ghost var j := i;
    while tmp != last
      invariant Unique(t) && i <= j <= il && |E| == |I|
      invariant t.Elements() == Gap(E, i, j) && Ids(t.tree) == Gap(I, i, j)
      invariant tmp == SlotAt(Ids(t.tree), i)
      invariant t.nodes[0].key == nilKey
      decreases |E| - j
    {
      WalkAhead(I, i, j, il, last, tmp);
      tmp := EraseWithin(t, tmp, E, I, i, j);
      j := j + 1;
    }
    WalkStop(I, i, j, il, last);
  }

  /** Before the first pass nothing has gone. */
  lemma Rejoin<X>(s: seq<X>, i: nat)
    requires i <= |s|
    ensures Gap(s, i, i) == s
  {
    assert s[..i] + s[i..] == s;
  }

  /** The walk has not reached `last`, the slot at index `il` of `I` (the
      sentinel when `il` is the end), while the slot it is at is not
      `last`. */
  lemma WalkAhead(I: seq<nat>, i: nat, j: nat, il: nat, last: nat, tmp: nat)
    requires i <= j <= il <= |I|
    requires il < |I| ==> I[il] == last
    requires il == |I| ==> last == 0
    requires tmp == SlotAt(Gap(I, i, j), i) && tmp != last
    ensures j < il
  {
    if j < |I| {
      assert Gap(I, i, j)[i] == I[j];
    }
  }

  /** Once the walk is at `last`, it has reached index `il`: no slot comes
      twice and the sentinel is no node. */
  lemma WalkStop(I: seq<nat>, i: nat, j: nat, il: nat, last: nat)
    requires NoDup(I) && 0 !in I
    requires i <= j <= il <= |I|
    requires il < |I| ==> I[il] == last
    requires il == |I| ==> last == 0
    requires last == SlotAt(Gap(I, i, j), i)
    ensures j == il
  {
    if j < |I| {
      assert Gap(I, i, j)[i] == I[j];
    }
  }

  /** With `last` a node, the loop as written stops exactly where the
      intended one does: payloads of distinct keys are distinct. */
  lemma AsWrittenAtNode<T>(t: Rbt<T>, first: nat, last: nat)
    requires Unique(t) && PositionOf(t, first) && PositionOf(t, last) && last != 0
    requires Index(t, first) <= Index(t, last)
    ensures Index(t, last) < |t.Elements()|
    ensures StopAt(t.Elements(), Index(t, first), t.nodes[last].key) == Index(t, last)
  {
    IndexOfPosition(t, last);
    StopAtUnique(t.Elements(), t.access, Index(t, first), Index(t, last));
  }
}
