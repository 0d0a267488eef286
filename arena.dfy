/**
 * The node store of the red-black tree engine.
 *
 * The engine links heap-allocated `Node` records (bidirectional_iterator.hpp)
 * by pointers.  Here the records live in a sequence and a pointer is an index
 * into it; index 0 is the sentinel NIL.  `Match` says that a ghost `Tree`
 * describes exactly the nodes reachable from one slot: every node stores
 * its payload, colour, parent and the slots of its two children.
 */
module Arena {
  import opened RbShape

  /** One node record: payload, parent, children, colour and the sentinel
      flag.  A new node is red and not the sentinel. */
  datatype Node<T> = Node(key: T, p: nat, left: nat, right: nat, c: Color, isNil: bool)

  /** `Node(key, p, left, right)`: a red record that is not the sentinel and
      holds the given payload and links. */
  function NewNode<T>(key: T, p: nat, left: nat, right: nat): (n: Node<T>)
    ensures n.c == Red && !n.isNil
    ensures n.key == key && n.p == p && n.left == left && n.right == right
  {
    Node(key, p, left, right, Red, false)
  }

  /** `t` is laid out in `ns`, and its top node's parent slot is `par`. */
  ghost predicate Match<T>(t: Tree<T>, par: nat, ns: seq<Node<T>>)
    decreases t
  {
    match t
    case Leaf => true
    case Br(l, id, v, col, r) =>
      && 0 < id < |ns|
      && ns[id] == Node(v, par, Root(l), Root(r), col, false)
      && Match(l, id, ns) && Match(r, id, ns)
  }

  /** The frames of `c` are laid out in `ns`, the innermost one holding slot
      `hole` as the child on its side, the outermost one having parent `par`. */
  ghost predicate MatchCtx<T>(c: Ctx<T>, hole: nat, par: nat, ns: seq<Node<T>>)
    decreases c
  {
    match c
    case Top => true
    case InLeft(up, id, v, col, r) =>
      && 0 < id < |ns|
      && ns[id] == Node(v, UpOr(up, par), hole, Root(r), col, false)
      && Match(r, id, ns) && MatchCtx(up, id, par, ns)
    case InRight(l, id, v, col, up) =>
      && 0 < id < |ns|
      && ns[id] == Node(v, UpOr(up, par), Root(l), hole, col, false)
      && Match(l, id, ns) && MatchCtx(up, id, par, ns)
  }

  /** The sentinel and a tree laid out below it with distinct slots. */
  ghost predicate Linked<T>(t: Tree<T>, ns: seq<Node<T>>) {
    && |ns| > 0 && ns[0].isNil && ns[0].c == Black
    && ns[0].left == 0 && ns[0].right == 0
    && Match(t, 0, ns) && Distinct(t)
  }

  /** `a` and `b` hold the same records at every slot of `s`. */
  ghost predicate Agree<T>(a: seq<Node<T>>, b: seq<Node<T>>, s: set<nat>) {
    forall j :: j in s ==> j < |a| && j < |b| && a[j] == b[j]
  }

  /** Between two states of the store: same length, same payloads, and every
      slot outside `live` untouched (the sentinel included). */
  ghost predicate Kept<T>(a: seq<Node<T>>, b: seq<Node<T>>, live: set<nat>) {
    && |b| == |a|
    && (forall j :: 0 <= j < |a| && j !in live ==> b[j] == a[j])
    && (forall j :: 0 <= j < |a| ==> b[j].key == a[j].key)
  }

  /** `Kept` composes. */
  lemma KeptTrans<T>(a: seq<Node<T>>, b: seq<Node<T>>, c: seq<Node<T>>, live: set<nat>)
    requires Kept(a, b, live) && Kept(b, c, live)
    ensures Kept(a, c, live)
  {
  }

  /** `Kept` allows more when more slots are live. */
  lemma KeptWiden<T>(a: seq<Node<T>>, b: seq<Node<T>>, live: set<nat>, live': set<nat>)
    requires Kept(a, b, live) && live <= live'
    ensures Kept(a, b, live')
  {
  }

  /** A whole tree is laid out exactly when its path and its subtree are. */
  lemma {:induction false} PlugMatch<T>(c: Ctx<T>, s: Tree<T>, par: nat, ns: seq<Node<T>>)
    ensures Match(Plug(c, s), par, ns) <==>
            MatchCtx(c, Root(s), par, ns) && Match(s, UpOr(c, par), ns)
    decreases c
  {
    match c
    case Top =>
    case InLeft(up, id, v, col, r) =>
      PlugMatch(up, Br(s, id, v, col, r), par, ns);
    case InRight(l, id, v, col, up) =>
      PlugMatch(up, Br(l, id, v, col, s), par, ns);
  }

  lemma {:induction false} MatchBounds<T>(t: Tree<T>, par: nat, ns: seq<Node<T>>)
    requires Match(t, par, ns)
    ensures forall j :: j in IdSet(t) ==> 0 < j < |ns| && !ns[j].isNil
  {
    match t
    case Leaf =>
    case Br(l, id, _, _, r) => MatchBounds(l, id, ns); MatchBounds(r, id, ns);
  }

  lemma {:induction false} MatchCtxBounds<T>(c: Ctx<T>, hole: nat, par: nat, ns: seq<Node<T>>)
    requires MatchCtx(c, hole, par, ns)
    ensures forall j :: j in CtxIds(c) ==> 0 < j < |ns| && !ns[j].isNil
  {
    match c
    case Top =>
    case InLeft(up, id, _, _, r) => MatchBounds(r, id, ns); MatchCtxBounds(up, id, par, ns);
    case InRight(l, id, _, _, up) => MatchBounds(l, id, ns); MatchCtxBounds(up, id, par, ns);
  }

  /** A layout only depends on the slots of the tree. */
  lemma {:induction false} MatchFrame<T>(t: Tree<T>, par: nat, a: seq<Node<T>>, b: seq<Node<T>>)
    requires Match(t, par, a) && Agree(a, b, IdSet(t))
    ensures Match(t, par, b)
  {
    match t
    case Leaf =>
    case Br(l, id, _, _, r) => MatchFrame(l, id, a, b); MatchFrame(r, id, a, b);
  }

  lemma {:induction false} MatchCtxFrame<T>(c: Ctx<T>, hole: nat, par: nat, a: seq<Node<T>>, b: seq<Node<T>>)
    requires MatchCtx(c, hole, par, a) && Agree(a, b, CtxIds(c))
    ensures MatchCtx(c, hole, par, b)
  {
    match c
    case Top =>
    case InLeft(up, id, _, _, r) => MatchFrame(r, id, a, b); MatchCtxFrame(up, id, par, a, b);
    case InRight(l, id, _, _, up) => MatchFrame(l, id, a, b); MatchCtxFrame(up, id, par, a, b);
  }

  /** Writing a slot outside a tree keeps its layout. */
  lemma MatchUpdate<T>(t: Tree<T>, par: nat, ns: seq<Node<T>>, j: nat, n: Node<T>)
    requires Match(t, par, ns) && j < |ns| && j !in IdSet(t)
    ensures Match(t, par, ns[j := n])
  {
    MatchBounds(t, par, ns);
    MatchFrame(t, par, ns, ns[j := n]);
  }

  lemma MatchCtxUpdate<T>(c: Ctx<T>, hole: nat, par: nat, ns: seq<Node<T>>, j: nat, n: Node<T>)
    requires MatchCtx(c, hole, par, ns) && j < |ns| && j !in CtxIds(c)
    ensures MatchCtx(c, hole, par, ns[j := n])
  {
    MatchCtxBounds(c, hole, par, ns);
    MatchCtxFrame(c, hole, par, ns, ns[j := n]);
  }

  /** Appending a slot keeps every layout. */
  lemma MatchAppend<T>(t: Tree<T>, par: nat, ns: seq<Node<T>>, n: Node<T>)
    requires Match(t, par, ns)
    ensures Match(t, par, ns + [n])
  {
    MatchBounds(t, par, ns);
    MatchFrame(t, par, ns, ns + [n]);
  }

  /** Changing only the parent slot of the top node moves the tree under
      another parent. */
  lemma Reparent<T>(t: Tree<T>, par: nat, ns: seq<Node<T>>, par': nat)
    requires Match(t, par, ns) && Distinct(t) && t.Br?
    ensures Match(t, par', ns[t.id := ns[t.id].(p := par')])
  {
    var ns' := ns[t.id := ns[t.id].(p := par')];
    MatchUpdate(t.left, t.id, ns, t.id, ns'[t.id]);
    MatchUpdate(t.right, t.id, ns, t.id, ns'[t.id]);
  }

  /** Changing only the hole's slot in the innermost frame hangs another
      subtree into the path. */
  lemma Rehang<T>(c: Ctx<T>, hole: nat, par: nat, ns: seq<Node<T>>, hole': nat)
    requires MatchCtx(c, hole, par, ns) && DistinctCtx(c) && !c.Top?
    ensures MatchCtx(c, hole', par, ns[c.id := if c.InLeft? then ns[c.id].(left := hole')
                                                               else ns[c.id].(right := hole')])
  {
    var n' := if c.InLeft? then ns[c.id].(left := hole') else ns[c.id].(right := hole');
    match c
    case InLeft(up, id, _, _, r) =>
      MatchUpdate(r, id, ns, id, n');
      MatchCtxUpdate(up, id, par, ns, id, n');
    case InRight(l, id, _, _, up) =>
      MatchUpdate(l, id, ns, id, n');
      MatchCtxUpdate(up, id, par, ns, id, n');
  }

  /** In a layout, the sentinel is not a node and every node is a real one. */
  lemma RootIsReal<T>(t: Tree<T>, par: nat, ns: seq<Node<T>>)
    requires Match(t, par, ns)
    ensures t.Br? <==> Root(t) != 0
    ensures t.Br? ==> Root(t) < |ns| && !ns[Root(t)].isNil
  {
  }

  /** What the store holds around the hole of a laid-out path: the subtree's
      top record (or the sentinel) and the record of the innermost frame. */
  lemma AtHole<T>(c: Ctx<T>, s: Tree<T>, ns: seq<Node<T>>)
    requires Linked(Plug(c, s), ns)
    ensures Root(s) < |ns| && (ns[Root(s)].c == Red <==> IsRed(s)) && (ns[Root(s)].isNil <==> s.Leaf?)
    ensures s.Br? ==> 0 < s.id && s.id !in CtxIds(c)
    ensures s.Br? ==> ns[s.id] == Node(s.val, UpOr(c, 0), Root(s.left), Root(s.right), s.color, false)
    ensures s.Br? ==> Root(s.left) < |ns| && (ns[Root(s.left)].isNil <==> s.left.Leaf?)
    ensures s.Br? ==> Root(s.right) < |ns| && (ns[Root(s.right)].isNil <==> s.right.Leaf?)
    ensures !c.Top? ==> 0 < c.id < |ns| && !ns[c.id].isNil && ns[c.id].c == c.color && ns[c.id].p == UpOr(c.up, 0)
    ensures !c.Top? ==> ns[c.id].key == c.val && c.id in IdSet(Plug(c, s))
    ensures !c.Top? ==> UpOr(c.up, 0) < |ns| && (ns[UpOr(c.up, 0)].isNil <==> c.up.Top?)
    ensures c.InLeft? ==> ns[c.id].left == Root(s) && ns[c.id].right == Root(c.right)
    ensures c.InRight? ==> ns[c.id].right == Root(s) && ns[c.id].left == Root(c.left)
    ensures c.InLeft? && s.Br? ==> ns[c.id].right != s.id
    ensures c.InRight? && s.Br? ==> ns[c.id].left != s.id
    ensures !c.Top? && s.Br? ==> c.id != s.id
  {
    PlugMatch(c, s, 0, ns);
    PlugDistinct(c, s);
    PlugIdSet(c, s);
    MatchBounds(s, UpOr(c, 0), ns);
    MatchCtxBounds(c, Root(s), 0, ns);
    if s.Br? {
      if s.left.Br? { assert s.left.id in IdSet(s); }
      if s.right.Br? { assert s.right.id in IdSet(s); }
    }
    if !c.Top? {
      assert c.id in CtxIds(c);
      if !c.up.Top? { assert c.up.id in CtxIds(c); }
      if c.InLeft? && c.right.Br? { assert c.right.id in CtxIds(c); }
      if c.InRight? && c.left.Br? { assert c.left.id in CtxIds(c); }
    }
  }

  /** The payload at each node's slot is the element at its in-order
      position. */
  lemma {:induction false} MatchKeys<T>(t: Tree<T>, par: nat, ns: seq<Node<T>>)
    requires Match(t, par, ns)
    ensures |Ids(t)| == |Vals(t)|
    ensures forall i :: 0 <= i < |Ids(t)| ==> 0 < Ids(t)[i] < |ns| && ns[Ids(t)[i]].key == Vals(t)[i]
  {
    match t
    case Leaf =>
    case Br(l, id, v, _, r) =>
      MatchKeys(l, id, ns);
      MatchKeys(r, id, ns);
      var L := |Ids(l)|;
      forall i | 0 <= i < |Ids(t)|
        ensures 0 < Ids(t)[i] < |ns| && ns[Ids(t)[i]].key == Vals(t)[i]
      {
        if i < L {
          assert Ids(t)[i] == Ids(l)[i] && Vals(t)[i] == Vals(l)[i];
        } else if i > L {
          assert Ids(t)[i] == Ids(r)[i - L - 1] && Vals(t)[i] == Vals(r)[i - L - 1];
        }
      }
  }
}
