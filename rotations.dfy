/**
 * Rotations (`rotateLeft` / `rotateRight` of RBT.hpp) on the ghost shape,
 * and the facts that tie a rotation of the node store to a rotation of the
 * shape.
 */
module Rotations {
  import opened RbShape
  import opened Arena

  /** `rotateLeft` at the top of `s`: the right child moves up. */
  ghost function RotL<T>(s: Tree<T>): (r: Tree<T>)
    requires s.Br? && s.right.Br?
    ensures r.Br? && r.id == s.right.id && r.left.Br? && r.left.id == s.id
  {
    var Br(a, x, vx, cx, Br(b, y, vy, cy, g)) := s;
    Br(Br(a, x, vx, cx, b), y, vy, cy, g)
  }

  /** `rotateRight` at the top of `s`: the left child moves up. */
  ghost function RotR<T>(s: Tree<T>): (r: Tree<T>)
    requires s.Br? && s.left.Br?
    ensures r.Br? && r.id == s.left.id && r.right.Br? && r.right.id == s.id
  {
    var Br(Br(a, y, vy, cy, b), x, vx, cx, g) := s;
    Br(a, y, vy, cy, Br(b, x, vx, cx, g))
  }

  /** A left rotation keeps the nodes, their order and their slots. */
  lemma RotLKeeps<T>(s: Tree<T>)
    requires s.Br? && s.right.Br?
    ensures Ids(RotL(s)) == Ids(s) && Vals(RotL(s)) == Vals(s)
    ensures IdSet(RotL(s)) == IdSet(s)
  {
    var a, x, r := s.left, s.id, s.right;
    var b, y, g := r.left, r.id, r.right;
    var l' := Br(a, x, s.val, s.color, b);
    calc {
      Ids(RotL(s));
      Ids(l') + [y] + Ids(g);
      (Ids(a) + [x] + Ids(b)) + [y] + Ids(g);
      { SeqAssoc5(Ids(a), [x], Ids(b), [y], Ids(g)); }
      Ids(a) + [x] + (Ids(b) + [y] + Ids(g));
      Ids(s);
    }
    calc {
      Vals(RotL(s));
      Vals(l') + [r.val] + Vals(g);
      (Vals(a) + [s.val] + Vals(b)) + [r.val] + Vals(g);
      { SeqAssoc5(Vals(a), [s.val], Vals(b), [r.val], Vals(g)); }
      Vals(a) + [s.val] + (Vals(b) + [r.val] + Vals(g));
      Vals(s);
    }
  }

  lemma SeqAssoc5<X>(p: seq<X>, q: seq<X>, r: seq<X>, u: seq<X>, v: seq<X>)
    ensures (p + q + r) + u + v == p + q + (r + u + v)
  {
  }

  /** A right rotation keeps the nodes, their order and their slots. */
  lemma RotRKeeps<T>(s: Tree<T>)
    requires s.Br? && s.left.Br?
    ensures Ids(RotR(s)) == Ids(s) && Vals(RotR(s)) == Vals(s)
    ensures IdSet(RotR(s)) == IdSet(s)
  {
    var l, x, g := s.left, s.id, s.right;
    var a, y, b := l.left, l.id, l.right;
    var r' := Br(b, x, s.val, s.color, g);
    calc {
      Ids(RotR(s));
      Ids(a) + [y] + Ids(r');
      Ids(a) + [y] + (Ids(b) + [x] + Ids(g));
      { SeqAssoc5(Ids(a), [y], Ids(b), [x], Ids(g)); }
      (Ids(a) + [y] + Ids(b)) + [x] + Ids(g);
      Ids(s);
    }
    calc {
      Vals(RotR(s));
      Vals(a) + [l.val] + Vals(r');
      Vals(a) + [l.val] + (Vals(b) + [s.val] + Vals(g));
      { SeqAssoc5(Vals(a), [l.val], Vals(b), [s.val], Vals(g)); }
      (Vals(a) + [l.val] + Vals(b)) + [s.val] + Vals(g);
      Vals(s);
    }
  }

  lemma RotLDistinct<T>(s: Tree<T>)
    requires s.Br? && s.right.Br? && Distinct(s)
    ensures Distinct(RotL(s))
  {
    var a, x, vx, cx, r := s.left, s.id, s.val, s.color, s.right;
    var b, y, vy, cy, g := r.left, r.id, r.val, r.color, r.right;
    var l' := Br(a, x, vx, cx, b);
    assert RotL(s) == Br(l', y, vy, cy, g);
    assert Distinct(l');
    assert IdSet(l') == IdSet(a) + {x} + IdSet(b);
  }

  lemma RotRDistinct<T>(s: Tree<T>)
    requires s.Br? && s.left.Br? && Distinct(s)
    ensures Distinct(RotR(s))
  {
    var l, x, vx, cx, g := s.left, s.id, s.val, s.color, s.right;
    var a, y, vy, cy, b := l.left, l.id, l.val, l.color, l.right;
    var r' := Br(b, x, vx, cx, g);
    assert RotR(s) == Br(a, y, vy, cy, r');
    assert Distinct(r');
    assert IdSet(r') == IdSet(b) + {x} + IdSet(g);
  }

  /** Rotating right undoes rotating left, and the other way round. */
  lemma RotInverse<T>(s: Tree<T>)
    ensures s.Br? && s.right.Br? ==> RotR(RotL(s)) == s
    ensures s.Br? && s.left.Br? ==> RotL(RotR(s)) == s
  {
  }

  /** The node record of the innermost frame of `c` with its child on the
      hole's side replaced by `h`. */
  ghost function Rehung<T>(c: Ctx<T>, nd: Node<T>, h: nat): Node<T>
    requires !c.Top?
  {
    if c.InLeft? then nd.(left := h) else nd.(right := h)
  }

  /** Hanging slot `h` into the hole of a laid-out path, given the slots the
      path uses are otherwise unchanged. */
  lemma RehangAt<T>(c: Ctx<T>, hole: nat, ns: seq<Node<T>>, ns': seq<Node<T>>, h: nat)
    requires MatchCtx(c, hole, 0, ns) && DistinctCtx(c)
    requires |ns'| == |ns|
    requires !c.Top? ==> c.id < |ns| && ns'[c.id] == Rehung(c, ns[c.id], h)
    requires forall j :: j in CtxIds(c) && (c.Top? || j != c.id) ==> j < |ns| && ns'[j] == ns[j]
    ensures MatchCtx(c, h, 0, ns')
  {
    MatchCtxBounds(c, hole, 0, ns);
    if !c.Top? {
      var ns1 := ns[c.id := Rehung(c, ns[c.id], h)];
      Rehang(c, hole, 0, ns, h);
      MatchCtxFrame(c, h, 0, ns1, ns');
    }
  }

  /** Moving the top of a laid-out tree under parent `par'`, given its other
      slots are unchanged. */
  lemma ReparentAt<T>(t: Tree<T>, par: nat, ns: seq<Node<T>>, ns': seq<Node<T>>, par': nat)
    requires Match(t, par, ns) && Distinct(t)
    requires |ns'| == |ns|
    requires t.Br? ==> t.id < |ns| && ns'[t.id] == ns[t.id].(p := par')
    requires forall j :: j in IdSet(t) && j != Root(t) ==> j < |ns| && ns'[j] == ns[j]
    ensures Match(t, par', ns')
  {
    MatchBounds(t, par, ns);
    if t.Br? {
      var ns1 := ns[t.id := ns[t.id].(p := par')];
      Reparent(t, par, ns, par');
      MatchFrame(t, par', ns1, ns');
    }
  }

  lemma KeepAt<T>(t: Tree<T>, par: nat, ns: seq<Node<T>>, ns': seq<Node<T>>)
    requires Match(t, par, ns)
    requires |ns'| == |ns|
    requires forall j :: j in IdSet(t) ==> j < |ns| && ns'[j] == ns[j]
    ensures Match(t, par, ns')
  {
    MatchBounds(t, par, ns);
    MatchFrame(t, par, ns, ns');
  }

  /** The rewired slots of a left rotation lay out the rotated subtree. */
  lemma RotLeftSub<T>(s: Tree<T>, par: nat, ns: seq<Node<T>>, ns': seq<Node<T>>)
    requires Match(s, par, ns) && Distinct(s) && s.Br? && s.right.Br?
    requires |ns'| == |ns|
    requires var Br(a, x, vx, cx, Br(b, y, vy, cy, g)) := s;
      && x < |ns| && ns'[x] == Node(vx, y, Root(a), Root(b), cx, false)
      && y < |ns| && ns'[y] == Node(vy, par, x, Root(g), cy, false)
      && (b.Br? ==> b.id < |ns| && ns'[b.id] == ns[b.id].(p := x))
      && forall j :: 0 <= j < |ns| && j in IdSet(s) && j != x && j != y && (b.Leaf? || j != b.id)
           ==> ns'[j] == ns[j]
    ensures Match(RotL(s), par, ns')
  {
    var Br(a, x, vx, cx, Br(b, y, vy, cy, g)) := s;
    MatchBounds(s, par, ns);
    assert IdSet(s) == IdSet(a) + {x} + (IdSet(b) + {y} + IdSet(g));
    if b.Br? { assert b.id in IdSet(b); }
    KeepAt(a, x, ns, ns');
    ReparentAt(b, y, ns, ns', x);
    KeepAt(g, y, ns, ns');
  }

  /** The rewired slots of a right rotation lay out the rotated subtree. */
  lemma RotRightSub<T>(s: Tree<T>, par: nat, ns: seq<Node<T>>, ns': seq<Node<T>>)
    requires Match(s, par, ns) && Distinct(s) && s.Br? && s.left.Br?
    requires |ns'| == |ns|
    requires var Br(Br(a, y, vy, cy, b), x, vx, cx, g) := s;
      && x < |ns| && ns'[x] == Node(vx, y, Root(b), Root(g), cx, false)
      && y < |ns| && ns'[y] == Node(vy, par, Root(a), x, cy, false)
      && (b.Br? ==> b.id < |ns| && ns'[b.id] == ns[b.id].(p := x))
      && forall j :: 0 <= j < |ns| && j in IdSet(s) && j != x && j != y && (b.Leaf? || j != b.id)
           ==> ns'[j] == ns[j]
    ensures Match(RotR(s), par, ns')
  {
    var Br(Br(a, y, vy, cy, b), x, vx, cx, g) := s;
    MatchBounds(s, par, ns);
    assert IdSet(s) == (IdSet(a) + {y} + IdSet(b)) + {x} + IdSet(g);
    if b.Br? { assert b.id in IdSet(b); }
    KeepAt(a, y, ns, ns');
    ReparentAt(b, y, ns, ns', x);
    KeepAt(g, x, ns, ns');
  }

  /** What `rotateLeft(x)` writes: the two rotated nodes, the parent
      link of the middle subtree's top, and the parent's child link; every
      other slot is untouched. */
  ghost predicate RotLeftWrites<T>(c: Ctx<T>, s: Tree<T>, ns: seq<Node<T>>, ns': seq<Node<T>>)
    requires s.Br? && s.right.Br?
  {
    var Br(a, x, vx, cx, Br(b, y, vy, cy, g)) := s;
    && |ns'| == |ns|
    && x < |ns| && ns'[x] == Node(vx, y, Root(a), Root(b), cx, false)
    && y < |ns| && ns'[y] == Node(vy, UpOr(c, 0), x, Root(g), cy, false)
    && (b.Br? ==> b.id < |ns| && ns'[b.id] == ns[b.id].(p := x))
    && (!c.Top? ==> c.id < |ns| && ns'[c.id] == Rehung(c, ns[c.id], y))
    && forall j :: 0 <= j < |ns| && j != x && j != y && (b.Leaf? || j != b.id) && (c.Top? || j != c.id)
         ==> ns'[j] == ns[j]
  }

  /** A left rotation rewires only live slots and moves no payload. */
  lemma RotLeftKept<T>(c: Ctx<T>, s: Tree<T>, ns: seq<Node<T>>, ns': seq<Node<T>>)
    requires Linked(Plug(c, s), ns) && s.Br? && s.right.Br?
    requires RotLeftWrites(c, s, ns, ns')
    ensures Kept(ns, ns', IdSet(Plug(c, s)))
  {
    var Br(a, x, vx, cx, Br(b, y, vy, cy, g)) := s;
    PlugMatch(c, s, 0, ns);
    PlugIdSet(c, s);
    assert x in IdSet(s) && y in IdSet(s);
    if b.Br? { assert b.id in IdSet(b); assert b.id in IdSet(s); MatchBounds(s, UpOr(c, 0), ns); }
    if !c.Top? { assert c.id in CtxIds(c); MatchCtxBounds(c, x, 0, ns); }
  }

  lemma RotLeftLayout<T>(c: Ctx<T>, s: Tree<T>, ns: seq<Node<T>>, ns': seq<Node<T>>)
    requires Linked(Plug(c, s), ns) && s.Br? && s.right.Br?
    requires RotLeftWrites(c, s, ns, ns')
    ensures Linked(Plug(c, RotL(s)), ns')
  {
    var Br(a, x, vx, cx, Br(b, y, vy, cy, g)) := s;
    PlugMatch(c, s, 0, ns);
    PlugDistinct(c, s);
    MatchBounds(s, UpOr(c, 0), ns);
    MatchCtxBounds(c, x, 0, ns);
    RehangAt(c, x, ns, ns', y);
    RotLeftSub(s, UpOr(c, 0), ns, ns');
    RotLKeeps(s);
    RotLDistinct(s);
    PlugMatch(c, RotL(s), 0, ns');
    PlugDistinct(c, RotL(s));
  }

  /** What `rotateRight(x)` writes: the two rotated nodes, the parent
      link of the middle subtree's top, and the parent's child link; every
      other slot is untouched. */
  ghost predicate RotRightWrites<T>(c: Ctx<T>, s: Tree<T>, ns: seq<Node<T>>, ns': seq<Node<T>>)
    requires s.Br? && s.left.Br?
  {
    var Br(Br(a, y, vy, cy, b), x, vx, cx, g) := s;
    && |ns'| == |ns|
    && x < |ns| && ns'[x] == Node(vx, y, Root(b), Root(g), cx, false)
    && y < |ns| && ns'[y] == Node(vy, UpOr(c, 0), Root(a), x, cy, false)
    && (b.Br? ==> b.id < |ns| && ns'[b.id] == ns[b.id].(p := x))
    && (!c.Top? ==> c.id < |ns| && ns'[c.id] == Rehung(c, ns[c.id], y))
    && forall j :: 0 <= j < |ns| && j != x && j != y && (b.Leaf? || j != b.id) && (c.Top? || j != c.id)
         ==> ns'[j] == ns[j]
  }

  /** A right rotation rewires only live slots and moves no payload. */
  lemma RotRightKept<T>(c: Ctx<T>, s: Tree<T>, ns: seq<Node<T>>, ns': seq<Node<T>>)
    requires Linked(Plug(c, s), ns) && s.Br? && s.left.Br?
    requires RotRightWrites(c, s, ns, ns')
    ensures Kept(ns, ns', IdSet(Plug(c, s)))
  {
    var Br(Br(a, y, vy, cy, b), x, vx, cx, g) := s;
    PlugMatch(c, s, 0, ns);
    PlugIdSet(c, s);
    assert x in IdSet(s) && y in IdSet(s);
    if b.Br? { assert b.id in IdSet(b); assert b.id in IdSet(s); MatchBounds(s, UpOr(c, 0), ns); }
    if !c.Top? { assert c.id in CtxIds(c); MatchCtxBounds(c, x, 0, ns); }
  }

  lemma RotRightLayout<T>(c: Ctx<T>, s: Tree<T>, ns: seq<Node<T>>, ns': seq<Node<T>>)
    requires Linked(Plug(c, s), ns) && s.Br? && s.left.Br?
    requires RotRightWrites(c, s, ns, ns')
    ensures Linked(Plug(c, RotR(s)), ns')
  {
    var Br(Br(a, y, vy, cy, b), x, vx, cx, g) := s;
    PlugMatch(c, s, 0, ns);
    PlugDistinct(c, s);
    MatchBounds(s, UpOr(c, 0), ns);
    MatchCtxBounds(c, x, 0, ns);
    RehangAt(c, x, ns, ns', y);
    RotRightSub(s, UpOr(c, 0), ns, ns');
    RotRKeeps(s);
    RotRDistinct(s);
    PlugMatch(c, RotR(s), 0, ns');
    PlugDistinct(c, RotR(s));
  }

  /** Repainting the top node of a subtree in place. */
  lemma PaintLayout<T>(c: Ctx<T>, s: Tree<T>, ns: seq<Node<T>>, col: Color)
    requires Linked(Plug(c, s), ns) && s.Br? && s.id < |ns|
    ensures Linked(Plug(c, s.(color := col)), ns[s.id := ns[s.id].(c := col)])
  {
    var ns' := ns[s.id := ns[s.id].(c := col)];
    PlugMatch(c, s, 0, ns);
    PlugDistinct(c, s);
    MatchCtxBounds(c, s.id, 0, ns);
    MatchCtxUpdate(c, s.id, 0, ns, s.id, ns'[s.id]);
    MatchUpdate(s.left, s.id, ns, s.id, ns'[s.id]);
    MatchUpdate(s.right, s.id, ns, s.id, ns'[s.id]);
    PlugMatch(c, s.(color := col), 0, ns');
    PlugDistinct(c, s.(color := col));
  }

  /** Repainting moves no payload and touches one live slot. */
  lemma PaintKept<T>(c: Ctx<T>, s: Tree<T>, ns: seq<Node<T>>, col: Color)
    requires Linked(Plug(c, s), ns) && s.Br? && s.id < |ns|
    ensures Kept(ns, ns[s.id := ns[s.id].(c := col)], IdSet(Plug(c, s)))
  {
    PlugIdSet(c, s);
    assert s.id in IdSet(s);
  }

  /** What `rotateLeft(x)` reads before it writes, for `x` the top of `s`
      below path `c`. */
  lemma RotLeftReads<T>(c: Ctx<T>, s: Tree<T>, ns: seq<Node<T>>)
    requires Linked(Plug(c, s), ns) && s.Br? && s.right.Br?
    ensures var x, y, b := s.id, s.right.id, Root(s.right.left);
      && 0 < x < |ns| && 0 < y < |ns| && b < |ns| && x != y && b != x && b != y
      && ns[x] == Node(s.val, UpOr(c, 0), Root(s.left), y, s.color, false)
      && ns[y] == Node(s.right.val, x, b, Root(s.right.right), s.right.color, false)
      && UpOr(c, 0) < |ns|
      && (UpOr(c, 0) == 0 <==> c.Top?)
      && (!c.Top? ==> c.id != x && c.id != y && c.id != b && (x == ns[c.id].left <==> c.InLeft?))
      && (b == 0 <==> s.right.left.Leaf?)
      && x in IdSet(Plug(c, s)) && y in IdSet(Plug(c, s)) && (b != 0 ==> b in IdSet(Plug(c, s)))
      && (!c.Top? ==> c.id in IdSet(Plug(c, s)))
  {
    PlugMatch(c, s, 0, ns);
    PlugDistinct(c, s);
    PlugIdSet(c, s);
    MatchBounds(s, UpOr(c, 0), ns);
    MatchCtxBounds(c, s.id, 0, ns);
    if !c.Top? {
      assert c.id in CtxIds(c);
      if c.InRight? && c.left.Br? { assert c.left.id in CtxIds(c); }
    }
  }

  /** What `rotateRight(x)` reads before it writes, for `x` the top of `s`
      below path `c`. */
  lemma RotRightReads<T>(c: Ctx<T>, s: Tree<T>, ns: seq<Node<T>>)
    requires Linked(Plug(c, s), ns) && s.Br? && s.left.Br?
    ensures var x, y, b := s.id, s.left.id, Root(s.left.right);
      && 0 < x < |ns| && 0 < y < |ns| && b < |ns| && x != y && b != x && b != y
      && ns[x] == Node(s.val, UpOr(c, 0), y, Root(s.right), s.color, false)
      && ns[y] == Node(s.left.val, x, Root(s.left.left), b, s.left.color, false)
      && UpOr(c, 0) < |ns|
      && (UpOr(c, 0) == 0 <==> c.Top?)
      && (!c.Top? ==> c.id != x && c.id != y && c.id != b && (x == ns[c.id].right <==> c.InRight?))
      && (b == 0 <==> s.left.right.Leaf?)
      && x in IdSet(Plug(c, s)) && y in IdSet(Plug(c, s)) && (b != 0 ==> b in IdSet(Plug(c, s)))
      && (!c.Top? ==> c.id in IdSet(Plug(c, s)))
  {
    PlugMatch(c, s, 0, ns);
    PlugDistinct(c, s);
    PlugIdSet(c, s);
    MatchBounds(s, UpOr(c, 0), ns);
    MatchCtxBounds(c, s.id, 0, ns);
    if !c.Top? {
      assert c.id in CtxIds(c);
      if c.InLeft? && c.right.Br? { assert c.right.id in CtxIds(c); }
    }
  }

  /** The store after `rotateLeft(x)`'s writes, made in the order the source
      makes them; `px` is the parent `x` had. */
  ghost function RotLeftStore<T>(ns: seq<Node<T>>, x: nat, y: nat, b: nat, px: nat): seq<Node<T>>
    requires x < |ns| && y < |ns| && b < |ns| && px < |ns|
  {
    var s1 := ns[x := ns[x].(right := b)];
    var s2 := if b != 0 then s1[b := s1[b].(p := x)] else s1;
    var s3 := s2[y := s2[y].(p := px)];
    var s4 := if px == 0 then s3
      else if x == s3[px].left then s3[px := s3[px].(left := y)]
      else s3[px := s3[px].(right := y)];
    var s5 := s4[y := s4[y].(left := x)];
    s5[x := s5[x].(p := y)]
  }

  /** Those writes are exactly the ones a left rotation needs. */
  lemma RotLeftStoreWrites<T>(c: Ctx<T>, s: Tree<T>, ns: seq<Node<T>>)
    requires Linked(Plug(c, s), ns) && s.Br? && s.right.Br?
    ensures s.id < |ns| && s.right.id < |ns| && Root(s.right.left) < |ns| && UpOr(c, 0) < |ns|
    ensures RotLeftWrites(c, s, ns, RotLeftStore(ns, s.id, s.right.id, Root(s.right.left), UpOr(c, 0)))
  {
    RotLeftReads(c, s, ns);
  }

  /** The store after `rotateRight(x)`'s writes, in the source's order. */
  ghost function RotRightStore<T>(ns: seq<Node<T>>, x: nat, y: nat, b: nat, px: nat): seq<Node<T>>
    requires x < |ns| && y < |ns| && b < |ns| && px < |ns|
  {
    var s1 := ns[x := ns[x].(left := b)];
    var s2 := if b != 0 then s1[b := s1[b].(p := x)] else s1;
    var s3 := s2[y := s2[y].(p := px)];
    var s4 := if px == 0 then s3
      else if x == s3[px].right then s3[px := s3[px].(right := y)]
      else s3[px := s3[px].(left := y)];
    var s5 := s4[y := s4[y].(right := x)];
    s5[x := s5[x].(p := y)]
  }

  /** Those writes are exactly the ones a right rotation needs. */
  lemma RotRightStoreWrites<T>(c: Ctx<T>, s: Tree<T>, ns: seq<Node<T>>)
    requires Linked(Plug(c, s), ns) && s.Br? && s.left.Br?
    ensures s.id < |ns| && s.left.id < |ns| && Root(s.left.right) < |ns| && UpOr(c, 0) < |ns|
    ensures RotRightWrites(c, s, ns, RotRightStore(ns, s.id, s.left.id, Root(s.left.right), UpOr(c, 0)))
  {
    RotRightReads(c, s, ns);
  }

  /** A rotation below a path keeps the whole tree's nodes, order and slots;
      the root changes only when the rotation happens at the top. */
  lemma PlugRotL<T>(c: Ctx<T>, s: Tree<T>)
    requires s.Br? && s.right.Br?
    ensures Ids(Plug(c, RotL(s))) == Ids(Plug(c, s)) && Vals(Plug(c, RotL(s))) == Vals(Plug(c, s))
    ensures IdSet(Plug(c, RotL(s))) == IdSet(Plug(c, s))
    ensures Root(Plug(c, RotL(s))) == if c.Top? then s.right.id else Root(Plug(c, s))
  {
    RotLKeeps(s);
    PlugIds(c, s); PlugIds(c, RotL(s));
    PlugVals(c, s); PlugVals(c, RotL(s));
    PlugIdSet(c, s); PlugIdSet(c, RotL(s));
    if !c.Top? { PlugTopColor(c, s, RotL(s)); }
  }

  lemma PlugRotR<T>(c: Ctx<T>, s: Tree<T>)
    requires s.Br? && s.left.Br?
    ensures Ids(Plug(c, RotR(s))) == Ids(Plug(c, s)) && Vals(Plug(c, RotR(s))) == Vals(Plug(c, s))
    ensures IdSet(Plug(c, RotR(s))) == IdSet(Plug(c, s))
    ensures Root(Plug(c, RotR(s))) == if c.Top? then s.left.id else Root(Plug(c, s))
  {
    RotRKeeps(s);
    PlugIds(c, s); PlugIds(c, RotR(s));
    PlugVals(c, s); PlugVals(c, RotR(s));
    PlugIdSet(c, s); PlugIdSet(c, RotR(s));
    if !c.Top? { PlugTopColor(c, s, RotR(s)); }
  }

  /** Repainting keeps the whole tree's nodes, order and slots, and its root. */
  lemma PlugPaint<T>(c: Ctx<T>, s: Tree<T>, col: Color)
    requires s.Br?
    ensures Ids(Plug(c, s.(color := col))) == Ids(Plug(c, s))
    ensures Vals(Plug(c, s.(color := col))) == Vals(Plug(c, s))
    ensures IdSet(Plug(c, s.(color := col))) == IdSet(Plug(c, s))
    ensures Root(Plug(c, s.(color := col))) == Root(Plug(c, s))
    ensures s.id in IdSet(Plug(c, s))
  {
    PlugIds(c, s); PlugIds(c, s.(color := col));
    PlugVals(c, s); PlugVals(c, s.(color := col));
    PlugIdSet(c, s); PlugIdSet(c, s.(color := col));
    if !c.Top? { PlugTopColor(c, s, s.(color := col)); }
  }
}
