/**
 * The iterators of bidirectional_iterator.hpp over an engine: a position
 * is the slot of a node, or the sentinel for the past-the-end position.
 * `++` and `--` overwrite the position with what the free helpers
 * `increment` and `decrement` return, so a position walks the engine's
 * in-order sequence of slots; two iterators are equal when they hold the
 * same slot.
 */
module TreeIterator {
  import opened RbShape
  import opened Arena
  import opened Traversal
  import opened RedBlackTree

  /** A slot that is a position of engine `t`: one of its nodes or the
      sentinel, inside the store. */
  ghost predicate PositionOf<T>(t: Rbt<T>, n: nat)
    reads t
  {
    n < |t.nodes| && (n == 0 || n in IdSet(t.tree))
  }

  /** The in-order index of position `n` of `t` (the element count for the
      sentinel). */
  ghost function Index<T>(t: Rbt<T>, n: nat): nat
    reads t
  {
    IndexOf(Ids(t.tree), n)
  }

  /** Positions of a valid engine and their in-order indices determine each
      other: the sentinel sits at the element count, every node below it. */
  lemma IndexOfPosition<T>(t: Rbt<T>, n: nat)
    requires t.Valid() && PositionOf(t, n)
    ensures |Ids(t.tree)| == |t.Elements()| && Index(t, n) <= |t.Elements()| && 0 !in IdSet(t.tree)
    ensures Index(t, n) == |t.Elements()| <==> n == 0
    ensures n != 0 ==> n < |t.nodes| && Ids(t.tree)[Index(t, n)] == n
    ensures n != 0 ==> t.nodes[n].key == t.Elements()[Index(t, n)]
  {
    DistinctNoDup(t.tree);
    IdsMembership(t.tree);
    IndexOfBound(Ids(t.tree), n);
    MatchKeys(t.tree, 0, t.nodes);
  }

  class Iterator<T> {
    var ptr: nat

    /** `bidirectional_iterator(addr)`. */
    constructor (addr: nat)
      ensures ptr == addr
    {
      ptr := addr;
    }

    /** The copy constructor: the same position. */
    constructor Copy(other: Iterator<T>)
      ensures ptr == other.ptr
    {
      ptr := other.ptr;
    }

    /** `operator*`: the payload at the position. At a node that is the
        element at the position's in-order index; at `end()` it is the
        sentinel's default payload. */
    function Deref(t: Rbt<T>): (v: T)
      requires t.Valid() && PositionOf(t, ptr)
      reads this, t
      ensures ptr != 0 ==> Index(t, ptr) < |t.Elements()| && v == t.Elements()[Index(t, ptr)]
      ensures ptr == 0 ==> v == t.nodes[0].key
    {
      IndexOfPosition(t, ptr);
      t.nodes[ptr].key
    }

    /** Prefix `++`: the next position in key order; the last node leads to
        the sentinel and the sentinel to the first node. */
    method Increment(t: Rbt<T>)
      requires t.Valid() && PositionOf(t, ptr)
      modifies this
      ensures ptr == Next(Ids(t.tree), old(ptr)) && PositionOf(t, ptr)
    {
      ptr := Traversal.Increment(t.nodes, ptr, t.tree);
      StepStaysInside(t, old(ptr));
    }

    /** Prefix `--`: the previous position in key order; the first node
        leads to the sentinel and the sentinel to the last node. */
    method Decrement(t: Rbt<T>)
      requires t.Valid() && PositionOf(t, ptr)
      modifies this
      ensures ptr == Prev(Ids(t.tree), old(ptr)) && PositionOf(t, ptr)
    {
      ptr := Traversal.Decrement(t.nodes, ptr, t.tree);
      StepStaysInside(t, old(ptr));
    }

    /** Postfix `++`: a copy of the iterator as it was, then the step. */
    method PostIncrement(t: Rbt<T>) returns (prior: Iterator<T>)
      requires t.Valid() && PositionOf(t, ptr)
      modifies this
      ensures fresh(prior) && prior.ptr == old(ptr)
      ensures ptr == Next(Ids(t.tree), old(ptr)) && PositionOf(t, ptr)
    {
      prior := new Iterator.Copy(this);
      Increment(t);
    }

    /** Postfix `--`: a copy of the iterator as it was, then the step. */
    method PostDecrement(t: Rbt<T>) returns (prior: Iterator<T>)
      requires t.Valid() && PositionOf(t, ptr)
      modifies this
      ensures fresh(prior) && prior.ptr == old(ptr)
      ensures ptr == Prev(Ids(t.tree), old(ptr)) && PositionOf(t, ptr)
    {
      prior := new Iterator.Copy(this);
      Decrement(t);
    }

    /** `operator==`: node identity, which for two positions of the same
        engine is equality of their in-order indices. */
    function Equals(t: Rbt<T>, other: Iterator<T>): (r: bool)
      requires t.Valid() && PositionOf(t, ptr) && PositionOf(t, other.ptr)
      reads this, other, t
      ensures r <==> Index(t, ptr) == Index(t, other.ptr)
    {
      IndexOfPosition(t, ptr);
      IndexOfPosition(t, other.ptr);
      ptr == other.ptr
    }

    /** `operator!=`: different nodes, so different in-order indices. */
    function NotEquals(t: Rbt<T>, other: Iterator<T>): (r: bool)
      requires t.Valid() && PositionOf(t, ptr) && PositionOf(t, other.ptr)
      reads this, other, t
      ensures r <==> Index(t, ptr) != Index(t, other.ptr)
    {
      IndexOfPosition(t, ptr);
      IndexOfPosition(t, other.ptr);
      ptr != other.ptr
    }
  }

  /** A step from a position lands on a position. */
  lemma StepStaysInside<T>(t: Rbt<T>, n: nat)
    requires t.Valid() && PositionOf(t, n)
    ensures PositionOf(t, Next(Ids(t.tree), n)) && PositionOf(t, Prev(Ids(t.tree), n))
  {
    var ids := Ids(t.tree);
    IdsMembership(t.tree);
    MatchKeys(t.tree, 0, t.nodes);
    IndexOfBound(ids, n);
  }

  /** `--` undoes `++` and `++` undoes `--` at every position, the sentinel
      included. */
  lemma StepsUndo<T>(t: Rbt<T>, n: nat)
    requires t.Valid() && PositionOf(t, n)
    ensures Prev(Ids(t.tree), Next(Ids(t.tree), n)) == n
    ensures Next(Ids(t.tree), Prev(Ids(t.tree), n)) == n
  {
    DistinctNoDup(t.tree);
    IdsMembership(t.tree);
    PrevNext(Ids(t.tree), n);
    NextPrev(Ids(t.tree), n);
  }

  /** Stepping forward from a node moves one place along the in-order
      sequence: to the next element, or to the sentinel after the last
      one. */
  lemma StepIndex<T>(t: Rbt<T>, n: nat)
    requires t.Valid() && n in IdSet(t.tree)
    ensures Index(t, n) < |t.Elements()|
    ensures Index(t, Next(Ids(t.tree), n)) == Index(t, n) + 1
  {
    var ids := Ids(t.tree);
    DistinctNoDup(t.tree);
    IdsMembership(t.tree);
    MatchBounds(t.tree, 0, t.nodes);
    IndexOfPosition(t, n);
    var i := Index(t, n);
    NextAt(ids, i);
    if i + 1 < |ids| {
      IndexOfAt(ids, i + 1);
    } else {
      IndexOfBound(ids, 0);
    }
  }
}
