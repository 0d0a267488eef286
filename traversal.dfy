/**
 * In-order traversal over the node store: the free helpers `min_helper`,
 * `max_helper`, `increment` and `decrement` of bidirectional_iterator.hpp.
 *
 * Each one is proved against the in-order sequence of slots `Ids(t)` of the
 * ghost tree: `Next` and `Prev` step through that sequence, with the
 * sentinel (slot 0) standing for "past the end", reached after the last
 * node and leading back to the first one.
 */
module Traversal {
  import opened RbShape
  import opened Arena

  // ---------------------------------------------------------------------
  // Stepping through a sequence of slots

  ghost predicate NoDup(s: seq<nat>) {
    forall i, j :: 0 <= i < j < |s| ==> s[i] != s[j]
  }

  /** First slot, or the sentinel for an empty sequence. */
  ghost function Head0(s: seq<nat>): nat {
    if s == [] then 0 else s[0]
  }

  /** Last slot, or the sentinel for an empty sequence. */
  ghost function Last0(s: seq<nat>): nat {
    if s == [] then 0 else s[|s| - 1]
  }

  /** Position of the first occurrence of `x`, or `|s|` when it is absent. */
  ghost function IndexOf(s: seq<nat>, x: nat): nat {
    if s == [] then 0
    else if s[0] == x then 0
    else 1 + IndexOf(s[1..], x)
  }

  /** The slot after `n` in `ids`; after the last one comes the sentinel and
      after the sentinel the first one. */
  ghost function Next(ids: seq<nat>, n: nat): nat {
    if n == 0 then Head0(ids)
    else
      var i := IndexOf(ids, n);
      if i + 1 < |ids| then ids[i + 1] else 0
  }

  /** The slot before `n` in `ids`; before the first one comes the sentinel
      and before the sentinel the last one. */
  ghost function Prev(ids: seq<nat>, n: nat): nat {
    if n == 0 then Last0(ids)
    else
      var i := IndexOf(ids, n);
      if 0 < i < |ids| then ids[i - 1] else 0
  }

  lemma {:induction false} IndexOfBound(s: seq<nat>, x: nat)
    ensures IndexOf(s, x) <= |s|
    ensures IndexOf(s, x) < |s| <==> x in s
    ensures IndexOf(s, x) < |s| ==> s[IndexOf(s, x)] == x
  {
    if s != [] && s[0] != x {
      IndexOfBound(s[1..], x);
    }
  }

  /** In a sequence without repetitions every element is found where it is. */
  lemma {:induction false} IndexOfAt(s: seq<nat>, i: nat)
    requires NoDup(s) && i < |s|
    ensures IndexOf(s, s[i]) == i
  {
    if i > 0 {
      assert s[0] != s[i];
      assert s[1..][i - 1] == s[i];
      IndexOfAt(s[1..], i - 1);
    }
  }

  /** `Next` walks the sequence in order and ends at the sentinel. */
  lemma NextAt(ids: seq<nat>, i: nat)
    requires NoDup(ids) && i < |ids|
    ensures ids[i] != 0 ==> Next(ids, ids[i]) == if i + 1 < |ids| then ids[i + 1] else 0
  {
    IndexOfAt(ids, i);
  }

  /** `Prev` walks the sequence backwards and ends at the sentinel. */
  lemma PrevAt(ids: seq<nat>, i: nat)
    requires NoDup(ids) && i < |ids|
    ensures ids[i] != 0 ==> Prev(ids, ids[i]) == if i > 0 then ids[i - 1] else 0
  {
    IndexOfAt(ids, i);
  }

  /** Stepping back undoes stepping forward, the sentinel included. */
  lemma PrevNext(ids: seq<nat>, n: nat)
    requires NoDup(ids) && 0 !in ids
    requires n == 0 || n in ids
    ensures Prev(ids, Next(ids, n)) == n
  {
    if n == 0 {
      if ids != [] { IndexOfAt(ids, 0); }
    } else {
      IndexOfBound(ids, n);
      var i := IndexOf(ids, n);
      if i + 1 < |ids| {
        IndexOfAt(ids, i + 1);
      }
    }
  }

  /** Stepping forward undoes stepping back, the sentinel included. */
  lemma NextPrev(ids: seq<nat>, n: nat)
    requires NoDup(ids) && 0 !in ids
    requires n == 0 || n in ids
    ensures Next(ids, Prev(ids, n)) == n
  {
    if n == 0 {
      if ids != [] { IndexOfAt(ids, |ids| - 1); }
    } else {
      IndexOfBound(ids, n);
      var i := IndexOf(ids, n);
      if 0 < i {
        IndexOfAt(ids, i - 1);
      }
    }
  }

  lemma NoDupConcat(a: seq<nat>, b: seq<nat>)
    requires NoDup(a) && NoDup(b) && forall x :: x in a ==> x !in b
    ensures NoDup(a + b)
  {
    var s := a + b;
    forall i, j | 0 <= i < j < |s| ensures s[i] != s[j] {
      if j < |a| {
        assert s[i] == a[i] && s[j] == a[j];
      } else if i >= |a| {
        assert s[i] == b[i - |a|] && s[j] == b[j - |a|];
      } else {
        assert s[i] == a[i] && s[j] == b[j - |a|] && b[j - |a|] in b;
      }
    }
  }

  /** Distinct slots give an in-order sequence without repetitions that
      never mentions the sentinel. */
  lemma {:induction false} DistinctNoDup<T>(t: Tree<T>)
    requires Distinct(t)
    ensures NoDup(Ids(t)) && 0 !in Ids(t)
  {
    match t
    case Leaf =>
    case Br(l, id, _, _, r) =>
      DistinctNoDup(l);
      DistinctNoDup(r);
      IdsMembership(l);
      IdsMembership(r);
      NoDupConcat(Ids(l), [id]);
      NoDupConcat(Ids(l) + [id], Ids(r));
  }

  /** The path down to slot `n`, starting from path `acc` above `t`. */
  ghost function Locate<T>(t: Tree<T>, n: nat, acc: Ctx<T>): (r: (Ctx<T>, Tree<T>))
    requires n in IdSet(t)
    ensures Plug(r.0, r.1) == Plug(acc, t) && r.1.Br? && r.1.id == n
    decreases t
  {
    match t
    case Br(l, id, v, col, rt) =>
      if id == n then (acc, t)
      else if n in IdSet(l) then Locate(l, n, InLeft(acc, id, v, col, rt))
      else Locate(rt, n, InRight(l, id, v, col, acc))
  }

  /** The slot of the leftmost node under `x` (`x` itself when it is the
      sentinel). */
  method MinHelper<T>(ns: seq<Node<T>>, x: nat, ghost s: Tree<T>, ghost par: nat) returns (r: nat)
    requires |ns| > 0 && ns[0].isNil
    requires Match(s, par, ns) && Root(s) == x
    ensures r == Head0(Ids(s))
  {
    var tmp := x;
    if ns[tmp].isNil {
      return tmp;
    }
    ghost var cur, cpar := s, par;
    while !ns[ns[tmp].left].isNil
      invariant cur.Br? && Root(cur) == tmp && Match(cur, cpar, ns)
      invariant Head0(Ids(cur)) == Head0(Ids(s))
      decreases cur
    {
      tmp := ns[tmp].left;
      cur, cpar := cur.left, cur.id;
    }
    return tmp;
  }

  /** The slot of the rightmost node under `x` (`x` itself when it is the
      sentinel). */
  method MaxHelper<T>(ns: seq<Node<T>>, x: nat, ghost s: Tree<T>, ghost par: nat) returns (r: nat)
    requires |ns| > 0 && ns[0].isNil
    requires Match(s, par, ns) && Root(s) == x
    ensures r == Last0(Ids(s))
  {
    var tmp := x;
    if ns[tmp].isNil {
      return tmp;
    }
    ghost var cur, cpar := s, par;
    while !ns[ns[tmp].right].isNil
      invariant cur.Br? && Root(cur) == tmp && Match(cur, cpar, ns)
      invariant Last0(Ids(cur)) == Last0(Ids(s))
      decreases cur
    {
      tmp := ns[tmp].right;
      cur, cpar := cur.right, cur.id;
    }
    return tmp;
  }

  /** Where `n` sits in `t`: the last slot of the subtree below a left turn
      is followed by the node of that turn. */
  lemma AfterLastOfLeft<T>(t: Tree<T>, c: Ctx<T>, s: Tree<T>)
    requires Distinct(t) && Plug(c, s) == t && s.Br?
    ensures c.InLeft? ==> Next(Ids(t), Last0(Ids(s))) == c.id
    ensures c.Top? ==> Next(Ids(t), Last0(Ids(s))) == 0
  {
    PlugIds(c, s);
    DistinctNoDup(t);
    var i := |BeforeIds(c)| + |Ids(s)| - 1;
    assert Ids(t)[i] == Last0(Ids(s));
    NextAt(Ids(t), i);
    if c.InLeft? {
      assert Ids(t)[i + 1] == c.id;
    }
  }

  lemma BeforeFirstOfRight<T>(t: Tree<T>, c: Ctx<T>, s: Tree<T>)
    requires Distinct(t) && Plug(c, s) == t && s.Br?
    ensures c.InRight? ==> Prev(Ids(t), Head0(Ids(s))) == c.id
    ensures c.Top? ==> Prev(Ids(t), Head0(Ids(s))) == 0
  {
    PlugIds(c, s);
    DistinctNoDup(t);
    var i := |BeforeIds(c)|;
    assert Ids(t)[i] == Head0(Ids(s));
    PrevAt(Ids(t), i);
    if c.InRight? {
      assert Ids(t)[i - 1] == c.id;
    }
  }

  /** A node's successor is the leftmost node of its right subtree when it
      has one. */
  lemma NextIntoRight<T>(t: Tree<T>, c: Ctx<T>, s: Tree<T>)
    requires Distinct(t) && Plug(c, s) == t && s.Br? && s.right.Br?
    ensures Next(Ids(t), s.id) == Head0(Ids(s.right))
  {
    PlugIds(c, s);
    DistinctNoDup(t);
    var i := |BeforeIds(c)| + |Ids(s.left)|;
    assert Ids(t)[i] == s.id;
    assert Ids(t)[i + 1] == Head0(Ids(s.right));
    NextAt(Ids(t), i);
  }

  lemma PrevIntoLeft<T>(t: Tree<T>, c: Ctx<T>, s: Tree<T>)
    requires Distinct(t) && Plug(c, s) == t && s.Br? && s.left.Br?
    ensures Prev(Ids(t), s.id) == Last0(Ids(s.left))
  {
    PlugIds(c, s);
    DistinctNoDup(t);
    var i := |BeforeIds(c)| + |Ids(s.left)|;
    assert Ids(t)[i] == s.id;
    assert Ids(t)[i - 1] == Last0(Ids(s.left));
    PrevAt(Ids(t), i);
  }

  /** Climb from a node that has no right subtree while it is a right child;
      the parent reached last is the successor (the sentinel past the end). */
  method ClimbRight<T>(ns: seq<Node<T>>, n: nat, ghost t: Tree<T>, ghost c: Ctx<T>, ghost s: Tree<T>)
    returns (r: nat)
    requires Linked(t, ns) && Plug(c, s) == t && s.Br? && s.id == n && s.right.Leaf?
    ensures r == Next(Ids(t), n)
  {
    AtHole(c, s, ns);
    var base := n;
    var node := ns[base].p;
    ghost var bc, bs := c, s;
    while !ns[base].isNil && base == ns[node].right
      invariant Plug(bc, bs) == t && bs.Br? && bs.id == base && Last0(Ids(bs)) == n
      invariant node == UpOr(bc, 0) && base < |ns| && node < |ns|
      decreases Depth(bc)
    {
      AtHole(bc, bs, ns);
      if bc.InLeft? {
        assert false;
      }
      bs := Br(bc.left, bc.id, bc.val, bc.color, bs);
      bc := bc.up;
      base := node;
      node := ns[node].p;
    }
    AtHole(bc, bs, ns);
    AfterLastOfLeft(t, bc, bs);
    r := node;
  }

  /** Climb from a node that has no left subtree while it is a left child;
      the parent reached last is the predecessor (the sentinel before the
      beginning). */
  method ClimbLeft<T>(ns: seq<Node<T>>, n: nat, ghost t: Tree<T>, ghost c: Ctx<T>, ghost s: Tree<T>)
    returns (r: nat)
    requires Linked(t, ns) && Plug(c, s) == t && s.Br? && s.id == n && s.left.Leaf?
    ensures r == Prev(Ids(t), n)
  {
    AtHole(c, s, ns);
    var base := n;
    var node := ns[base].p;
    ghost var bc, bs := c, s;
    while !ns[base].isNil && base == ns[node].left
      invariant Plug(bc, bs) == t && bs.Br? && bs.id == base && Head0(Ids(bs)) == n
      invariant node == UpOr(bc, 0) && base < |ns| && node < |ns|
      decreases Depth(bc)
    {
      AtHole(bc, bs, ns);
      if bc.InRight? {
        assert false;
      }
      bs := Br(bs, bc.id, bc.val, bc.color, bc.right);
      bc := bc.up;
      base := node;
      node := ns[node].p;
    }
    AtHole(bc, bs, ns);
    BeforeFirstOfRight(t, bc, bs);
    r := node;
  }

  /** `increment`: the next node in key order; from the sentinel, the first
      node; after the last node, the sentinel. */
  method Increment<T>(ns: seq<Node<T>>, n: nat, ghost t: Tree<T>) returns (r: nat)
    requires Linked(t, ns) && ns[0].p == Root(t)
    requires n == 0 || n in IdSet(t)
    ensures r == Next(Ids(t), n)
  {
    MatchBounds(t, 0, ns);
    if ns[n].isNil {
      var base := ns[n].p;
      r := MinHelper(ns, base, t, 0);
    } else {
      ghost var (c, s) := Locate(t, n, Top);
      PlugMatch(c, s, 0, ns);
      if !ns[ns[n].right].isNil {
        r := MinHelper(ns, ns[n].right, s.right, n);
        NextIntoRight(t, c, s);
      } else {
        r := ClimbRight(ns, n, t, c, s);
      }
    }
  }

  /** `decrement`: the previous node in key order; from the sentinel, the
      last node; before the first node, the sentinel. */
  method Decrement<T>(ns: seq<Node<T>>, n: nat, ghost t: Tree<T>) returns (r: nat)
    requires Linked(t, ns) && ns[0].p == Root(t)
    requires n == 0 || n in IdSet(t)
    ensures r == Prev(Ids(t), n)
  {
    MatchBounds(t, 0, ns);
    if ns[n].isNil {
      var base := ns[n].p;
      r := MaxHelper(ns, base, t, 0);
    } else {
      ghost var (c, s) := Locate(t, n, Top);
      PlugMatch(c, s, 0, ns);
      if !ns[ns[n].left].isNil {
        r := MaxHelper(ns, ns[n].left, s.left, n);
        PrevIntoLeft(t, c, s);
      } else {
        r := ClimbLeft(ns, n, t, c, s);
      }
    }
  }
}
