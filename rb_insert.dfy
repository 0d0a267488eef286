/**
 * The shape-level argument behind `insert_helper` and `insert_fixup`
 * (RBT.hpp): where a new node hangs, and how each case of the fixup loop
 * moves the single possible red-red violation up the path until the tree
 * satisfies the red-black rules again.
 */
module RbInsert {
  import opened RbShape
  import opened Arena
  import opened Rotations
  import opened KeyOrder

  /** The subtree of the innermost frame of `c` with `s` in its hole. */
  ghost function Wrap<T>(c: Ctx<T>, s: Tree<T>): (r: Tree<T>)
    requires !c.Top?
    ensures r.Br? && r.id == c.id && r.val == c.val && r.color == c.color
    ensures Plug(c.up, r) == Plug(c, s)
  {
    match c
    case InLeft(_, id, v, col, rt) => Br(s, id, v, col, rt)
    case InRight(l, id, v, col, _) => Br(l, id, v, col, s)
  }

  /** The subtree hanging beside the hole of the innermost frame. */
  ghost function Sib<T>(c: Ctx<T>): Tree<T>
    requires !c.Top?
  {
    if c.InLeft? then c.right else c.left
  }

  /** The loop invariant of `insert_fixup`: the subtree `zs` under `z` is a
      red red-black tree, the path above accepts it were it black (the only
      possible violation is a red parent), and the overall root is black
      unless `z` is the root itself. */
  ghost predicate FixInv<T>(zc: Ctx<T>, zs: Tree<T>) {
    && zs.Br? && IsRed(zs) && RB(zs)
    && CtxOK(zc, BH(zs), false)
    && (!zc.Top? ==> !IsRed(Plug(zc, zs)))
  }

  /** A fresh red node hung into the empty hole of a red-black tree starts
      the loop. */
  lemma FixStart<T>(c: Ctx<T>, z: nat, v: T)
    requires RedBlack(Plug(c, Leaf))
    ensures FixInv(c, Br(Leaf, z, v, Red, Leaf))
  {
    PlugRB(c, Leaf);
    if !c.Top? { PlugTopColor(c, Leaf, Br(Leaf, z, v, Red, Leaf)); }
  }

  /** A red parent is never the root: there is a black grandparent. */
  lemma GrandParent<T>(zc: Ctx<T>, zs: Tree<T>)
    requires FixInv(zc, zs) && !zc.Top? && zc.color == Red
    ensures !zc.up.Top? && zc.up.color == Black
  {
    assert CtxOK(zc.up, BH(zs), true);
    var p := Wrap(zc, zs);
    assert Plug(zc.up, p) == Plug(zc, zs) && IsRed(p);
    if zc.up.Top? {
      assert false;
    }
  }

  /** Case 1 result: parent and uncle painted black, grandparent red. */
  ghost function Recolored<T>(zc: Ctx<T>, zs: Tree<T>): Tree<T>
    requires !zc.Top? && !zc.up.Top? && Sib(zc.up).Br?
  {
    var w := Wrap(zc, zs);
    var p1 := Br(w.left, w.id, w.val, Black, w.right);
    match zc.up
    case InLeft(_, g, gv, _, u) => Br(p1, g, gv, Red, u.(color := Black))
    case InRight(u, g, gv, _, _) => Br(u.(color := Black), g, gv, Red, p1)
  }

  /** Case 1 (red uncle) keeps the invariant two levels up. */
  lemma RecolorStep<T>(zc: Ctx<T>, zs: Tree<T>)
    requires FixInv(zc, zs) && !zc.Top? && zc.color == Red && !zc.up.Top?
    requires IsRed(Sib(zc.up))
    ensures FixInv(zc.up.up, Recolored(zc, zs))
  {
    GrandParent(zc, zs);
    var h := BH(zs);
    var gc := zc.up;
    assert CtxOK(gc, h, true);
    var p := Wrap(zc, zs);
    var p1 := Br(p.left, p.id, p.val, Black, p.right);
    assert RB(p1) && BH(p1) == h + 1 by {
      match zc
      case InLeft(_, _, _, _, r) => assert RB(r) && BH(r) == h;
      case InRight(l, _, _, _, _) => assert RB(l) && BH(l) == h;
    }
    var u := Sib(gc);
    assert RB(u) && BH(u) == h && CtxOK(gc.up, h + 1, false);
    BlackenRoot(u);
    var g' := Recolored(zc, zs);
    assert RB(g') && BH(g') == h + 1;
    if !gc.up.Top? {
      PlugTopColor(gc.up, Wrap(gc, p), g');
    }
  }

  /** Case 2 (black uncle, `z` on the inner side): after the rotation at
      the parent, the old parent is the new `z`, on the outer side. */
  ghost function Straightened<T>(zc: Ctx<T>, zs: Tree<T>): (r: (Ctx<T>, Tree<T>))
    requires !zc.Top? && zs.Br?
  {
    match zc
    case InRight(pl, p, pv, pcol, gc) =>
      (InLeft(gc, zs.id, zs.val, zs.color, zs.right), Br(pl, p, pv, pcol, zs.left))
    case InLeft(gc, p, pv, pcol, pr) =>
      (InRight(zs.left, zs.id, zs.val, zs.color, gc), Br(zs.right, p, pv, pcol, pr))
  }

  lemma InnerStep<T>(zc: Ctx<T>, zs: Tree<T>)
    requires FixInv(zc, zs) && !zc.Top? && zc.color == Red && !zc.up.Top?
    requires zc.InLeft? != zc.up.InLeft?
    ensures var (zc2, zs2) := Straightened(zc, zs);
      && FixInv(zc2, zs2) && !zc2.Top? && zc2.color == Red && zc2.up == zc.up
      && zc2.InLeft? == zc.up.InLeft? && Depth(zc2) == Depth(zc)
      && zs2.id == zc.id
      && Plug(zc2, zs2) == Plug(zc.up, if zc.InRight? then RotL(Wrap(zc, zs)) else RotR(Wrap(zc, zs)))
  {
    var (zc2, zs2) := Straightened(zc, zs);
    var h := BH(zs);
    assert CtxOK(zc.up, h, true);
    if zc.InRight? {
      assert Plug(zc2, zs2) == Plug(zc.up, RotL(Wrap(zc, zs)));
    } else {
      assert Plug(zc2, zs2) == Plug(zc.up, RotR(Wrap(zc, zs)));
    }
    PlugTopColor(zc.up, Wrap(zc, zs), Wrap(zc2, zs2));
  }

  /** Case 3 (black uncle, `z` on the outer side): after painting the parent
      black, the grandparent red and rotating at the grandparent, the parent
      is black and sits where the grandparent was. */
  ghost function Rotated<T>(zc: Ctx<T>): Ctx<T>
    requires !zc.Top? && !zc.up.Top? && zc.InLeft? == zc.up.InLeft?
  {
    match zc
    case InLeft(InLeft(ggc, g, gv, _, u), p, pv, _, pr) =>
      InLeft(ggc, p, pv, Black, Br(pr, g, gv, Red, u))
    case InRight(pl, p, pv, _, InRight(u, g, gv, _, ggc)) =>
      InRight(Br(u, g, gv, Red, pl), p, pv, Black, ggc)
  }

  /** The grandparent's subtree after painting the parent black and the
      grandparent red. */
  ghost function Repainted<T>(zc: Ctx<T>, zs: Tree<T>): (r: Tree<T>)
    requires !zc.Top? && !zc.up.Top?
    ensures r.Br? && r.id == zc.up.id && r.color == Red
  {
    var p := Wrap(zc, zs);
    var g := Wrap(zc.up, Br(p.left, p.id, p.val, Black, p.right));
    Br(g.left, g.id, g.val, Red, g.right)
  }

  /** Rotating the repainted grandparent's subtree gives the shape
      `Rotated` describes. */
  lemma RotatedPlug<T>(zc: Ctx<T>, zs: Tree<T>)
    requires !zc.Top? && !zc.up.Top? && zc.InLeft? == zc.up.InLeft?
    ensures zc.InLeft? ==> Repainted(zc, zs).left.Br?
    ensures zc.InRight? ==> Repainted(zc, zs).right.Br?
    ensures Plug(Rotated(zc), zs) ==
            Plug(zc.up.up, if zc.InLeft? then RotR(Repainted(zc, zs)) else RotL(Repainted(zc, zs)))
  {
  }

  lemma RotateStep<T>(zc: Ctx<T>, zs: Tree<T>)
    requires FixInv(zc, zs) && !zc.Top? && zc.color == Red && !zc.up.Top?
    requires !IsRed(Sib(zc.up)) && zc.InLeft? == zc.up.InLeft?
    ensures FixInv(Rotated(zc), zs) && Rotated(zc).color == Black
    ensures Depth(Rotated(zc)) < Depth(zc)
  {
    GrandParent(zc, zs);
    var h := BH(zs);
    var gc := zc.up;
    assert CtxOK(gc, h, true);
    RotatedPlug(zc, zs);
    if !gc.up.Top? {
      PlugTopColor(gc.up, Wrap(gc, Wrap(zc, zs)), Wrap(Rotated(zc), zs));
    }
  }

  /** When the parent is black (or there is none) the whole tree obeys the
      colour rules apart from the root's colour. */
  lemma FixDone<T>(zc: Ctx<T>, zs: Tree<T>)
    requires FixInv(zc, zs) && (zc.Top? || zc.color == Black)
    ensures RB(Plug(zc, zs)) && Plug(zc, zs).Br?
  {
    CtxOKRed(zc, BH(zs));
    PlugRB(zc, zs);
    if !zc.Top? { PlugTopColor(zc, zs, zs); }
  }

  /** The store after hanging node `z` (a slot outside the tree) into the
      empty hole of path `c` lays out the grown shape. */
  lemma HangLayout<T>(c: Ctx<T>, ns: seq<Node<T>>, ns': seq<Node<T>>, z: nat, v: T)
    requires Linked(Plug(c, Leaf), ns) && 0 < z < |ns| && z !in IdSet(Plug(c, Leaf))
    requires |ns'| == |ns|
    requires ns'[z] == Node(v, UpOr(c, 0), 0, 0, Red, false)
    requires !c.Top? ==> c.id < |ns| && ns'[c.id] == Rehung(c, ns[c.id], z)
    requires forall j :: 0 <= j < |ns| && j != z && (c.Top? || j != c.id) ==> ns'[j] == ns[j]
    ensures Linked(Plug(c, Br(Leaf, z, v, Red, Leaf)), ns')
  {
    PlugMatch(c, Leaf, 0, ns);
    PlugDistinct(c, Leaf);
    PlugIdSet(c, Leaf);
    MatchCtxBounds(c, 0, 0, ns);
    RehangAt(c, 0, ns, ns', z);
    PlugMatch(c, Br(Leaf, z, v, Red, Leaf), 0, ns');
    PlugDistinct(c, Br(Leaf, z, v, Red, Leaf));
  }

  /** Hanging a fresh node into an empty hole puts it in the in-order
      sequence exactly at the hole; the top of the tree changes only when the
      tree was empty. */
  lemma HangShape<T>(c: Ctx<T>, z: nat, v: T)
    ensures var t, t' := Plug(c, Leaf), Plug(c, Br(Leaf, z, v, Red, Leaf));
      && Ids(t) == BeforeIds(c) + AfterIds(c) && Ids(t') == BeforeIds(c) + [z] + AfterIds(c)
      && Vals(t) == BeforeVals(c) + AfterVals(c) && Vals(t') == BeforeVals(c) + [v] + AfterVals(c)
      && IdSet(t') == IdSet(t) + {z} && |Ids(t')| == |Ids(t)| + 1
      && Root(t') == (if c.Top? then z else Root(t))
  {
    var zs := Br(Leaf, z, v, Red, Leaf);
    PlugIds(c, Leaf); PlugIds(c, zs);
    PlugVals(c, Leaf); PlugVals(c, zs);
    PlugIdSet(c, Leaf); PlugIdSet(c, zs);
    assert Ids(zs) == [z] && Vals(zs) == [v];
    if !c.Top? { PlugTopColor(c, Leaf, zs); }
  }

  /** When every payload before the hole has a key not above `v`'s and
      every payload after it a key above, hanging `v` there is inserting it
      in key order. */
  lemma HangOrder<T>(c: Ctx<T>, z: nat, v: T, key: T -> int)
    requires SortedBy(Vals(Plug(c, Leaf)), key)
    requires AllAtMost(BeforeVals(c), key, key(v)) && AllAbove(AfterVals(c), key, key(v))
    ensures Vals(Plug(c, Br(Leaf, z, v, Red, Leaf))) == InsertSorted(Vals(Plug(c, Leaf)), v, key)
    ensures SortedBy(Vals(Plug(c, Br(Leaf, z, v, Red, Leaf))), key)
  {
    HangShape(c, z, v);
    InsertSortedAt(BeforeVals(c), AfterVals(c), v, key);
    InsertSortedSpec(Vals(Plug(c, Leaf)), v, key);
  }
}
