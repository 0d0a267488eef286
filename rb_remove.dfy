/**
 * The shape-level argument behind `remove` and `remove_fixup` (RBT.hpp):
 * which subtree takes the removed node's place, why the in-order sequence
 * loses exactly that node, and how each case of the fixup loop either moves
 * the missing black node one level up or absorbs it, until the tree obeys
 * the red-black rules again.  The second half ties the pointer rewiring of
 * `remove` to the new shape.
 */
module RbRemove {
  import opened RbShape
  import opened Arena
  import opened Traversal
  import opened Rotations

  /** `s` without its element at position `i`. */
  ghost function DropAt<X>(s: seq<X>, i: nat): seq<X>
    requires i < |s|
  {
    s[..i] + s[i + 1..]
  }

  /** `t` with its top node painted black (a leaf stays a leaf). */
  ghost function BlackTop<T>(t: Tree<T>): Tree<T> {
    if t.Leaf? then t else t.(color := Black)
  }

  /** The invariant of `remove_fixup`: the subtree `s` under `x` is
      red-black once its top is painted black, and the path above it would
      accept a black subtree one black node taller -- the hole is one black
      node short.  A red top is allowed a red child, because the loop stops
      there and paints it black. */
  ghost predicate Short<T>(c: Ctx<T>, s: Tree<T>) {
    RB(BlackTop(s)) && CtxOK(c, BH(s) + 1, false)
  }

  /** What each round of `remove_fixup` decreases: the depth of `x`, and
      one more while `x` is black. */
  ghost function ShortMeasure<T>(c: Ctx<T>, s: Tree<T>): nat {
    Depth(c) + (if IsRed(s) then 0 else 1)
  }

  /** Path `c` with path `o` above its top: `c` is a path inside the subtree
      sitting in the hole of `o`. */
  ghost function Graft<T>(c: Ctx<T>, o: Ctx<T>): Ctx<T>
    decreases c
  {
    match c
    case Top => o
    case InLeft(up, id, v, col, r) => InLeft(Graft(up, o), id, v, col, r)
    case InRight(l, id, v, col, up) => InRight(l, id, v, col, Graft(up, o))
  }

  /** The path down to the leftmost node of `t` (`acc` being the path down
      to `t`), and that node's subtree.  This is the walk of `min_helper`. */
  ghost function MinPath<T>(t: Tree<T>, acc: Ctx<T>): (r: (Ctx<T>, Tree<T>))
    requires t.Br?
    ensures Plug(r.0, r.1) == Plug(acc, t) && r.1.Br? && r.1.left.Leaf?
    ensures BeforeIds(r.0) == BeforeIds(acc) && BeforeVals(r.0) == BeforeVals(acc)
    ensures r.1.id == Head0(Ids(t))
    ensures t.left.Leaf? ==> r.0 == acc
    ensures t.left.Br? ==> Depth(r.0) > Depth(acc)
    decreases t
  {
    if t.left.Leaf? then (acc, t)
    else
      assert Ids(t) == Ids(t.left) + ([t.id] + Ids(t.right));
      MinPath(t.left, InLeft(acc, t.id, t.val, t.color, t.right))
  }

  // ---------------------------------------------------------------------
  // Lemmas: sequences

  /** Dropping the element between two parts leaves the two parts. */
  lemma {:induction false} DropMiddle<X>(p: seq<X>, x: X, q: seq<X>)
    ensures |p| < |p + [x] + q| && (p + [x] + q)[|p|] == x
    ensures DropAt(p + [x] + q, |p|) == p + q
  {
    var s := p + [x] + q;
    assert s[..|p|] == p;
    assert s[|p| + 1..] == q;
  }

  /** Dropping an element of a sorted sequence leaves it sorted. */
  lemma {:induction false} DropSorted<T>(s: seq<T>, i: nat, key: T -> int)
    requires i < |s| && SortedBy(s, key)
    ensures SortedBy(DropAt(s, i), key)
  {
    var d := DropAt(s, i);
    forall a, b | 0 <= a < b < |d| ensures key(d[a]) <= key(d[b]) {
      var a', b' := if a < i then a else a + 1, if b < i then b else b + 1;
      assert d[a] == s[a'] && d[b] == s[b'];
    }
  }

  /** Dropping an element keeps every other element and loses that one
      when nothing repeats. */
  lemma {:induction false} DropMembers(s: seq<nat>, i: nat)
    requires i < |s| && NoDup(s)
    ensures forall x :: x in DropAt(s, i) <==> x in s && x != s[i]
  {
    var d := DropAt(s, i);
    forall x ensures x in d <==> x in s && x != s[i] {
      if x in d {
        var k :| 0 <= k < |d| && d[k] == x;
        var k' := if k < i then k else k + 1;
        assert s[k'] == x && k' != i;
      }
      if x in s && x != s[i] {
        var k :| 0 <= k < |s| && s[k] == x;
        assert k != i;
        assert d[if k < i then k else k - 1] == x;
      }
    }
  }

  /** The slots of a tree whose in-order sequence lost position `i` are the
      old ones but that position's slot. */
  lemma {:induction false} DropIdSet<T>(t: Tree<T>, t': Tree<T>, i: nat)
    requires Distinct(t) && i < |Ids(t)| && Ids(t') == DropAt(Ids(t), i)
    ensures IdSet(t') == IdSet(t) - {Ids(t)[i]}
  {
    DistinctNoDup(t);
    DropMembers(Ids(t), i);
    IdsMembership(t);
    IdsMembership(t');
  }

  /** What dropping the node at position `i` of the in-order sequence
      does to the tree's slots, its order and its count. */
  lemma {:induction false} DropFacts<T>(t: Tree<T>, t': Tree<T>, z: nat, i: nat, key: T -> int)
    requires Distinct(t) && SortedBy(Vals(t), key)
    requires i < |Ids(t)| && Ids(t)[i] == z && |Vals(t)| == |Ids(t)|
    requires Ids(t') == DropAt(Ids(t), i) && Vals(t') == DropAt(Vals(t), i)
    ensures IndexOf(Ids(t), z) == i && IdSet(t') == IdSet(t) - {z}
    ensures SortedBy(Vals(t'), key) && |Ids(t')| == |Ids(t)| - 1
  {
    DistinctNoDup(t);
    IndexOfAt(Ids(t), i);
    DropIdSet(t, t', i);
    DropSorted(Vals(t), i, key);
  }

  // ---------------------------------------------------------------------
  // Lemmas: paths

  /** Plugging into a grafted path plugs in two steps. */
  lemma {:induction false} PlugGraft<T>(c: Ctx<T>, o: Ctx<T>, t: Tree<T>)
    ensures Plug(Graft(c, o), t) == Plug(o, Plug(c, t))
    ensures UpOr(Graft(c, o), 0) == (if c.Top? then UpOr(o, 0) else c.id)
    decreases c
  {
    match c
    case Top =>
    case InLeft(up, id, v, col, r) => PlugGraft(up, o, Br(t, id, v, col, r));
    case InRight(l, id, v, col, up) => PlugGraft(up, o, Br(l, id, v, col, t));
  }

  /** Below a non-empty path, the top of the whole tree is one of the
      path's nodes. */
  lemma {:induction false} PlugRootIn<T>(c: Ctx<T>, s: Tree<T>)
    requires !c.Top?
    ensures Plug(c, s).Br? && Root(Plug(c, s)) in CtxIds(c)
    decreases c
  {
    match c
    case InLeft(up, id, v, col, r) =>
      if !up.Top? { PlugRootIn(up, Br(s, id, v, col, r)); }
    case InRight(l, id, v, col, up) =>
      if !up.Top? { PlugRootIn(up, Br(l, id, v, col, s)); }
  }

  /** Which node sits at a node's place does not matter to the colour
      rules. */
  lemma {:induction false} Relabel<T>(c: Ctx<T>, l: Tree<T>, id: nat, v: T, id': nat, v': T, col: Color, r: Tree<T>)
    requires RB(Plug(c, Br(l, id, v, col, r)))
    ensures RB(Plug(c, Br(l, id', v', col, r)))
  {
    PlugRB(c, Br(l, id, v, col, r));
    PlugRB(c, Br(l, id', v', col, r));
  }

  // ---------------------------------------------------------------------
  // Lemmas: splicing a node out

  /** Replacing a node that has an empty side by its other child: a red
      node leaves a red-black tree behind, a black one leaves the hole one
      black node short. */
  lemma {:induction false} SpliceRB<T>(c: Ctx<T>, w: Tree<T>, xs: Tree<T>)
    requires RB(Plug(c, w)) && w.Br?
    requires (w.left.Leaf? && xs == w.right) || (w.right.Leaf? && xs == w.left)
    ensures w.color == Black ==> Short(c, xs)
    ensures w.color == Red ==> RB(Plug(c, xs))
  {
    PlugRB(c, w);
    SpliceColors(c, w, xs);
    PlugRB(c, xs);
  }

  /** `SpliceRB` below the path: the node's colour decides. */
  lemma {:induction false} SpliceColors<T>(c: Ctx<T>, w: Tree<T>, xs: Tree<T>)
    requires RB(w) && CtxOK(c, BH(w), IsRed(w)) && w.Br?
    requires (w.left.Leaf? && xs == w.right) || (w.right.Leaf? && xs == w.left)
    ensures w.color == Black ==> Short(c, xs)
    ensures w.color == Red ==> RB(xs) && CtxOK(c, BH(xs), IsRed(xs))
  {
    assert RB(w.left) && RB(w.right) && BH(w.left) == BH(w.right);
    if w.color == Black {
      assert BH(w) == BH(xs) + 1;
      if xs.Br? { BlackenRoot(xs); }
    } else {
      assert BH(w) == BH(xs) && !IsRed(xs) && RB(xs);
      CtxOKBlack(c, BH(w));
    }
  }

  /** Removing `v` from `whole == b + ([v] + r) + a` leaves
      `rest == b + r + a`. */
  lemma {:induction false} DropFirst<X>(whole: seq<X>, rest: seq<X>, i: nat,
                     b: seq<X>, s: seq<X>, a: seq<X>, v: X, r: seq<X>)
    requires whole == b + s + a && rest == b + r + a && i == |b|
    requires s == [] + [v] + r
    ensures i < |whole| && whole[i] == v && rest == DropAt(whole, i)
  {
    DropMiddle(b, v, r + a);
    assert whole == b + [v] + (r + a);
  }

  /** Removing `v` from `whole == b + (l + [v]) + a` leaves
      `rest == b + l + a`. */
  lemma {:induction false} DropLast<X>(whole: seq<X>, rest: seq<X>, i: nat,
                    b: seq<X>, s: seq<X>, a: seq<X>, v: X, l: seq<X>)
    requires whole == b + s + a && rest == b + l + a && i == |b| + |l|
    requires s == l + [v] + []
    ensures i < |whole| && whole[i] == v && rest == DropAt(whole, i)
  {
    DropMiddle(b + l, v, a);
    assert whole == (b + l) + [v] + a;
  }

  /** Removing `v` from `whole == b + (l + [v] + ([y] + q)) + a` leaves `y` in
      its place. */
  lemma {:induction false} DropBeforeNext<X>(whole: seq<X>, rest: seq<X>, i: nat,
                          b: seq<X>, s: seq<X>, a: seq<X>, l: seq<X>, v: X, y: X, q: seq<X>, keep: seq<X>)
    requires whole == b + s + a && rest == b + keep + a && i == |b| + |l|
    requires s == l + [v] + ([y] + q) && keep == l + [y] + q
    ensures i < |whole| && whole[i] == v && rest == DropAt(whole, i)
  {
    DropMiddle(b + l, v, [y] + q + a);
    assert whole == (b + l) + [v] + ([y] + q + a);
    assert rest == (b + l) + ([y] + q + a);
  }

  /** Replacing a node that has an empty side by its other child drops
      exactly that node from the in-order sequence. */
  lemma {:induction false} SpliceOrder<T>(c: Ctx<T>, w: Tree<T>, xs: Tree<T>)
    requires w.Br?
    requires (w.left.Leaf? && xs == w.right) || (w.right.Leaf? && xs == w.left)
    ensures |BeforeIds(c)| + |Ids(w.left)| < |Ids(Plug(c, w))|
    ensures Ids(Plug(c, w))[|BeforeIds(c)| + |Ids(w.left)|] == w.id
    ensures |Vals(Plug(c, w))| == |Ids(Plug(c, w))|
    ensures Ids(Plug(c, xs)) == DropAt(Ids(Plug(c, w)), |BeforeIds(c)| + |Ids(w.left)|)
    ensures Vals(Plug(c, xs)) == DropAt(Vals(Plug(c, w)), |BeforeIds(c)| + |Ids(w.left)|)
  {
    CtxLengths(c);
    IdsLength(w.left);
    IdsLength(Plug(c, w));
    PlugIds(c, w);
    PlugIds(c, xs);
    PlugVals(c, w);
    PlugVals(c, xs);
    var i := |BeforeIds(c)| + |Ids(w.left)|;
    if w.left.Leaf? {
      DropFirst(Ids(Plug(c, w)), Ids(Plug(c, xs)), i, BeforeIds(c), Ids(w), AfterIds(c), w.id, Ids(xs));
      DropFirst(Vals(Plug(c, w)), Vals(Plug(c, xs)), i, BeforeVals(c), Vals(w), AfterVals(c), w.val, Vals(xs));
    } else {
      DropLast(Ids(Plug(c, w)), Ids(Plug(c, xs)), i, BeforeIds(c), Ids(w), AfterIds(c), w.id, Ids(xs));
      DropLast(Vals(Plug(c, w)), Vals(Plug(c, xs)), i, BeforeVals(c), Vals(w), AfterVals(c), w.val, Vals(xs));
    }
  }

  /** Replacing `z` (two children, right subtree `Plug(cy, ys)`) by its
      successor `ys.id`, the leftmost node of the right subtree, whose own
      right subtree takes the successor's former place.  The colour rules end
      as in `SpliceRB` for the successor's colour. */
  lemma {:induction false} SuccessorRB<T>(cz: Ctx<T>, zs: Tree<T>, cy: Ctx<T>, ys: Tree<T>)
    requires zs.Br? && ys.Br? && ys.left.Leaf? && Plug(cy, ys) == zs.right
    requires RB(Plug(cz, zs))
    ensures var xc := Graft(cy, InRight(zs.left, ys.id, ys.val, zs.color, cz));
      && Plug(xc, ys.right) == Plug(cz, Br(zs.left, ys.id, ys.val, zs.color, Plug(cy, ys.right)))
      && UpOr(xc, 0) == (if cy.Top? then ys.id else cy.id)
      && (ys.color == Black ==> Short(xc, ys.right))
      && (ys.color == Red ==> RB(Plug(xc, ys.right)))
  {
    var o := InRight(zs.left, ys.id, ys.val, zs.color, cz);
    var xc := Graft(cy, o);
    PlugGraft(cy, o, ys.right);
    PlugGraft(cy, o, ys);
    Relabel(cz, zs.left, zs.id, zs.val, ys.id, ys.val, zs.color, zs.right);
    SpliceRB(xc, ys, ys.right);
  }

  /** The same replacement drops exactly `z` from the in-order sequence: the
      successor comes right after `z`, and its right subtree right after
      it. */
  lemma {:induction false} SuccessorOrder<T>(cz: Ctx<T>, zs: Tree<T>, cy: Ctx<T>, ys: Tree<T>)
    requires zs.Br? && ys.Br? && ys.left.Leaf? && Plug(cy, ys) == zs.right
    requires BeforeIds(cy) == [] && BeforeVals(cy) == []
    ensures var i := |BeforeIds(cz)| + |Ids(zs.left)|;
      var t' := Plug(cz, Br(zs.left, ys.id, ys.val, zs.color, Plug(cy, ys.right)));
      && i < |Ids(Plug(cz, zs))| && Ids(Plug(cz, zs))[i] == zs.id
      && |Vals(Plug(cz, zs))| == |Ids(Plug(cz, zs))|
      && Ids(t') == DropAt(Ids(Plug(cz, zs)), i)
      && Vals(t') == DropAt(Vals(Plug(cz, zs)), i)
  {
    var n := Br(zs.left, ys.id, ys.val, zs.color, Plug(cy, ys.right));
    SuccessorSeqs(cy, ys);
    CtxLengths(cz);
    IdsLength(zs.left);
    IdsLength(Plug(cz, zs));
    assert Ids(zs) == Ids(zs.left) + [zs.id] + Ids(zs.right);
    assert Vals(zs) == Vals(zs.left) + [zs.val] + Vals(zs.right);
    assert Ids(n) == Ids(zs.left) + [ys.id] + Ids(Plug(cy, ys.right));
    assert Vals(n) == Vals(zs.left) + [ys.val] + Vals(Plug(cy, ys.right));
    PlugIds(cz, zs);
    PlugIds(cz, n);
    PlugVals(cz, zs);
    PlugVals(cz, n);
    var i := |BeforeIds(cz)| + |Ids(zs.left)|;
    DropBeforeNext(Ids(Plug(cz, zs)), Ids(Plug(cz, n)), i,
                   BeforeIds(cz), Ids(zs), AfterIds(cz), Ids(zs.left), zs.id, ys.id,
                   Ids(Plug(cy, ys.right)), Ids(n));
    DropBeforeNext(Vals(Plug(cz, zs)), Vals(Plug(cz, n)), i,
                   BeforeVals(cz), Vals(zs), AfterVals(cz), Vals(zs.left), zs.val, ys.val,
                   Vals(Plug(cy, ys.right)), Vals(n));
  }

  /** The leftmost node of a subtree comes first in it, and taking it out
      leaves its right subtree in its place. */
  lemma {:induction false} SuccessorSeqs<T>(cy: Ctx<T>, ys: Tree<T>)
    requires ys.Br? && ys.left.Leaf?
    requires BeforeIds(cy) == [] && BeforeVals(cy) == []
    ensures Ids(Plug(cy, ys)) == [ys.id] + Ids(Plug(cy, ys.right))
    ensures Vals(Plug(cy, ys)) == [ys.val] + Vals(Plug(cy, ys.right))
  {
    assert Ids(ys) == [ys.id] + Ids(ys.right);
    assert Vals(ys) == [ys.val] + Vals(ys.right);
    PlugIds(cy, ys);
    PlugIds(cy, ys.right);
    PlugVals(cy, ys);
    PlugVals(cy, ys.right);
    FrontShift(BeforeIds(cy), Ids(ys), AfterIds(cy), ys.id, Ids(ys.right));
    FrontShift(BeforeVals(cy), Vals(ys), AfterVals(cy), ys.val, Vals(ys.right));
  }

  lemma {:induction false} FrontShift<X>(b: seq<X>, s: seq<X>, a: seq<X>, x: X, r: seq<X>)
    requires b == [] && s == [x] + r
    ensures b + s + a == [x] + (b + r + a)
  {
  }

  // ---------------------------------------------------------------------
  // Lemmas: the fixup loop

  /** The sibling of a short hole is a real node, one black node taller
      than the subtree in the hole. */
  lemma {:induction false} SiblingReal<T>(c: Ctx<T>, s: Tree<T>)
    requires Short(c, s) && !c.Top?
    ensures c.InLeft? ==> c.right.Br?
    ensures c.InRight? ==> c.left.Br?
  {
  }

  /** When the loop stops (`x` is the root or red), painting `x` black
      leaves a red-black tree. */
  lemma {:induction false} ShortDone<T>(c: Ctx<T>, s: Tree<T>)
    requires Short(c, s) && (c.Top? || IsRed(s))
    ensures RB(Plug(c, BlackTop(s)))
  {
    PlugRB(c, BlackTop(s));
  }

  /** Case 1, `x` a left child: the sibling `w` is red.  Painting `w` black
      and the parent red and rotating left at the parent keeps the hole one
      black node short, now under a red parent and beside a black sibling. */
  ghost function LiftL<T>(c: Ctx<T>): Ctx<T>
    requires c.InLeft? && c.right.Br?
  {
    var w := c.right;
    InLeft(InLeft(c.up, w.id, w.val, Black, w.right), c.id, c.val, Red, w.left)
  }

  lemma {:induction false} RedSiblingL<T>(c: Ctx<T>, s: Tree<T>)
    requires Short(c, s) && c.InLeft? && IsRed(c.right)
    ensures var c' := LiftL(c);
      && Short(c', s) && c'.InLeft? && c'.id == c.id && c'.color == Red
      && c'.right.Br? && !IsRed(c'.right) && Depth(c') == Depth(c) + 1
      && Plug(c', s) == Plug(c.up, RotL(Br(s, c.id, c.val, Red, c.right.(color := Black))))
  {
    var w, h := c.right, BH(s);
    assert c.color == Black && RB(w) && BH(w) == h + 1 && CtxOK(c.up, h + 2, false);
    assert RB(w.left) && RB(w.right) && BH(w.left) == h + 1 && BH(w.right) == h + 1;
    assert w.left.Br? && !IsRed(w.left);
    var up := InLeft(c.up, w.id, w.val, Black, w.right);
    assert CtxOK(up, h + 1, true);
    assert CtxOK(LiftL(c), h + 1, false);
    assert Plug(LiftL(c), s) == Plug(up, Br(s, c.id, c.val, Red, w.left));
  }

  /** Case 1, `x` a right child (the mirror image). */
  ghost function LiftR<T>(c: Ctx<T>): Ctx<T>
    requires c.InRight? && c.left.Br?
  {
    var w := c.left;
    InRight(w.right, c.id, c.val, Red, InRight(w.left, w.id, w.val, Black, c.up))
  }

  lemma {:induction false} RedSiblingR<T>(c: Ctx<T>, s: Tree<T>)
    requires Short(c, s) && c.InRight? && IsRed(c.left)
    ensures var c' := LiftR(c);
      && Short(c', s) && c'.InRight? && c'.id == c.id && c'.color == Red
      && c'.left.Br? && !IsRed(c'.left) && Depth(c') == Depth(c) + 1
      && Plug(c', s) == Plug(c.up, RotR(Br(c.left.(color := Black), c.id, c.val, Red, s)))
  {
    var w, h := c.left, BH(s);
    assert c.color == Black && RB(w) && BH(w) == h + 1 && CtxOK(c.up, h + 2, false);
    assert RB(w.left) && RB(w.right) && BH(w.left) == h + 1 && BH(w.right) == h + 1;
    assert w.right.Br? && !IsRed(w.right);
    var up := InRight(w.left, w.id, w.val, Black, c.up);
    assert CtxOK(up, h + 1, true);
    assert CtxOK(LiftR(c), h + 1, false);
    assert Plug(LiftR(c), s) == Plug(up, Br(w.right, c.id, c.val, Red, s));
  }

  /** Case 2, `x` a left child: a black sibling with two black children.
      Painting the sibling red moves the shortage up to the parent. */
  lemma {:induction false} BlackNephewsL<T>(c: Ctx<T>, s: Tree<T>)
    requires Short(c, s) && !IsRed(s) && c.InLeft? && c.right.Br? && !IsRed(c.right)
    requires !IsRed(c.right.left) && !IsRed(c.right.right)
    ensures Short(c.up, Br(s, c.id, c.val, c.color, c.right.(color := Red)))
  {
    var w, h := c.right, BH(s);
    assert BlackTop(s) == s;
    assert RB(w) && BH(w) == h + 1 && BH(w.left) == h && BH(w.right) == h;
    var w' := w.(color := Red);
    assert BH(w') == h && Balanced(w') && RedOK(w');
    var n := Br(s, c.id, c.val, c.color, w');
    assert BH(n) == h + (if c.color == Black then 1 else 0);
    assert Balanced(BlackTop(n)) && RedOK(BlackTop(n));
    if c.color == Red { CtxOKBlack(c.up, BH(s) + 1); }
  }

  lemma {:induction false} BlackNephewsR<T>(c: Ctx<T>, s: Tree<T>)
    requires Short(c, s) && !IsRed(s) && c.InRight? && c.left.Br? && !IsRed(c.left)
    requires !IsRed(c.left.left) && !IsRed(c.left.right)
    ensures Short(c.up, Br(c.left.(color := Red), c.id, c.val, c.color, s))
  {
    var w, h := c.left, BH(s);
    assert BlackTop(s) == s;
    assert RB(w) && BH(w) == h + 1 && BH(w.left) == h && BH(w.right) == h;
    var w' := w.(color := Red);
    assert BH(w') == h && Balanced(w') && RedOK(w');
    var n := Br(w', c.id, c.val, c.color, s);
    assert BH(n) == h + (if c.color == Black then 1 else 0);
    assert Balanced(BlackTop(n)) && RedOK(BlackTop(n));
    if c.color == Red { CtxOKBlack(c.up, BH(s) + 1); }
  }

  /** Case 3, `x` a left child: a black sibling whose right child is black
      and whose left child is red.  Swapping the colours of the sibling and
      that child and rotating right at the sibling gives a black sibling
      with a red right child. */
  ghost function TurnedL<T>(c: Ctx<T>): Ctx<T>
    requires c.InLeft? && c.right.Br? && c.right.left.Br?
  {
    var w := c.right;
    c.(right := RotR(Br(w.left.(color := Black), w.id, w.val, Red, w.right)))
  }

  lemma {:induction false} InnerNephewL<T>(c: Ctx<T>, s: Tree<T>)
    requires Short(c, s) && c.InLeft? && c.right.Br? && !IsRed(c.right)
    requires IsRed(c.right.left) && !IsRed(c.right.right)
    ensures var c' := TurnedL(c);
      && Short(c', s) && c'.InLeft? && c'.id == c.id && c'.val == c.val && c'.color == c.color
      && c'.up == c.up && c'.right.Br? && !IsRed(c'.right) && IsRed(c'.right.right)
  {
    var w, h := c.right, BH(s);
    var a, b := w.left.left, w.left.right;
    assert RB(w) && BH(w) == h + 1 && BH(w.left) == h && BH(w.right) == h;
    assert RB(w.left) && w.left.color == Red;
    assert RB(a) && RB(b) && !IsRed(a) && !IsRed(b) && BH(a) == h && BH(b) == h;
    var r := Br(b, w.id, w.val, Red, w.right);
    assert RB(r) && BH(r) == h;
    assert RB(TurnedL(c).right) && BH(TurnedL(c).right) == h + 1;
  }

  ghost function TurnedR<T>(c: Ctx<T>): Ctx<T>
    requires c.InRight? && c.left.Br? && c.left.right.Br?
  {
    var w := c.left;
    c.(left := RotL(Br(w.left, w.id, w.val, Red, w.right.(color := Black))))
  }

  lemma {:induction false} InnerNephewR<T>(c: Ctx<T>, s: Tree<T>)
    requires Short(c, s) && c.InRight? && c.left.Br? && !IsRed(c.left)
    requires IsRed(c.left.right) && !IsRed(c.left.left)
    ensures var c' := TurnedR(c);
      && Short(c', s) && c'.InRight? && c'.id == c.id && c'.val == c.val && c'.color == c.color
      && c'.up == c.up && c'.left.Br? && !IsRed(c'.left) && IsRed(c'.left.left)
  {
    var w, h := c.left, BH(s);
    var a, b := w.right.left, w.right.right;
    assert RB(w) && BH(w) == h + 1 && BH(w.left) == h && BH(w.right) == h;
    assert RB(w.right) && w.right.color == Red;
    assert RB(a) && RB(b) && !IsRed(a) && !IsRed(b) && BH(a) == h && BH(b) == h;
    var l := Br(w.left, w.id, w.val, Red, a);
    assert RB(l) && BH(l) == h;
    assert RB(TurnedR(c).left) && BH(TurnedR(c).left) == h + 1;
  }

  /** Case 4, `x` a left child: a black sibling with a red right child.  The
      sibling takes the parent's colour, the parent and that child turn
      black, and a left rotation at the parent supplies the missing black
      node: the whole tree is red-black again. */
  lemma {:induction false} OuterNephewL<T>(c: Ctx<T>, s: Tree<T>)
    requires Short(c, s) && !IsRed(s) && c.InLeft? && c.right.Br? && !IsRed(c.right)
    requires IsRed(c.right.right)
    ensures var w := c.right;
      RB(Plug(c.up, RotL(Br(s, c.id, c.val, Black,
                            Br(w.left, w.id, w.val, c.color, w.right.(color := Black))))))
  {
    var w, h := c.right, BH(s);
    assert BlackTop(s) == s;
    assert RB(w) && BH(w) == h + 1 && w.color == Black;
    assert BH(w.left) == h && BH(w.right) == h;
    var l, r := Br(s, c.id, c.val, Black, w.left), w.right.(color := Black);
    BlackenRoot(w.right);
    assert RB(l) && BH(l) == h + 1 && RB(r) && BH(r) == h + 1;
    var n := Br(l, w.id, w.val, c.color, r);
    assert RB(n) && BH(n) == h + 1 + (if c.color == Black then 1 else 0);
    PlugRB(c.up, n);
  }

  lemma {:induction false} OuterNephewR<T>(c: Ctx<T>, s: Tree<T>)
    requires Short(c, s) && !IsRed(s) && c.InRight? && c.left.Br? && !IsRed(c.left)
    requires IsRed(c.left.left)
    ensures var w := c.left;
      RB(Plug(c.up, RotR(Br(Br(w.left.(color := Black), w.id, w.val, c.color, w.right),
                            c.id, c.val, Black, s))))
  {
    var w, h := c.left, BH(s);
    assert BlackTop(s) == s;
    assert RB(w) && BH(w) == h + 1 && w.color == Black;
    assert BH(w.left) == h && BH(w.right) == h;
    var l, r := w.left.(color := Black), Br(w.right, c.id, c.val, Black, s);
    BlackenRoot(w.left);
    assert RB(l) && BH(l) == h + 1 && RB(r) && BH(r) == h + 1;
    var n := Br(l, w.id, w.val, c.color, r);
    assert RB(n) && BH(n) == h + 1 + (if c.color == Black then 1 else 0);
    PlugRB(c.up, n);
  }

  // ---------------------------------------------------------------------
  // Lemmas: the store during `remove`

  /** What the store holds at a node `s.id` below path `c` and what
      `transplant` needs to cut it out. */
  lemma {:induction false} CutFacts<T>(c: Ctx<T>, s: Tree<T>, ns: seq<Node<T>>)
    requires Linked(Plug(c, s), ns) && s.Br?
    ensures 0 < s.id < |ns| && ns[s.id].p == UpOr(c, 0) && ns[s.id].c == s.color
    ensures ns[s.id].left == Root(s.left) && ns[s.id].right == Root(s.right)
    ensures Root(s.left) < |ns| && Root(s.right) < |ns|
    ensures (Root(s.left) == 0 <==> s.left.Leaf?) && (Root(s.right) == 0 <==> s.right.Leaf?)
    ensures MatchCtx(c, s.id, 0, ns) && DistinctCtx(c) && s.id !in CtxIds(c)
    ensures Root(s.left) !in CtxIds(c) && Root(s.right) !in CtxIds(c)
    ensures Root(s.left) != s.id && Root(s.right) != s.id
    ensures Match(s.right, s.id, ns)
  {
    AtHole(c, s, ns);
    PlugMatch(c, s, 0, ns);
    PlugDistinct(c, s);
    MatchCtxBounds(c, s.id, 0, ns);
    RootIsReal(s.left, s.id, ns);
    RootIsReal(s.right, s.id, ns);
    if s.left.Br? { assert s.left.id in IdSet(s); }
    if s.right.Br? { assert s.right.id in IdSet(s); }
  }

  /** After `transplant(u, v)` where `v` is the top of the subtree `keep` of
      `u` (the sentinel for an empty one), the store lays out the tree with
      `keep` in `u`'s place, and `u` has left the tree. */
  lemma {:induction false} SpliceChildLayout<T>(c: Ctx<T>, s: Tree<T>, keep: Tree<T>, ns: seq<Node<T>>, ns': seq<Node<T>>)
    requires Linked(Plug(c, s), ns) && s.Br?
    requires (keep == s.left && s.right.Leaf?) || (keep == s.right && s.left.Leaf?)
    requires |ns'| == |ns| && Root(keep) < |ns|
    requires ns'[Root(keep)] == ns[Root(keep)].(p := UpOr(c, 0))
    requires !c.Top? ==> c.id < |ns| && ns'[c.id] == Rehung(c, ns[c.id], Root(keep))
    requires forall j :: 0 <= j < |ns| && j != Root(keep) && (c.Top? || j != c.id) ==> ns'[j] == ns[j]
    ensures Linked(Plug(c, keep), ns')
    ensures Kept(ns, ns', IdSet(Plug(c, s)) + {0})
    ensures IdSet(Plug(c, keep)) == IdSet(Plug(c, s)) - {s.id}
  {
    CutFacts(c, s, ns);
    SpliceChildIds(c, s, keep);
    PlugMatch(c, s, 0, ns);
    PlugDistinct(c, s);
    PlugIdSet(c, s);
    MatchBounds(s, UpOr(c, 0), ns);
    MatchCtxBounds(c, s.id, 0, ns);
    assert Match(keep, s.id, ns) && Distinct(keep);
    RehangAt(c, s.id, ns, ns', Root(keep));
    ReparentAt(keep, s.id, ns, ns', UpOr(c, 0));
    PlugMatch(c, keep, 0, ns');
    PlugDistinct(c, keep);
  }

  /** Taking out a node with at most one subtree removes exactly that node's
      slot from the tree. */
  lemma {:induction false} SpliceChildIds<T>(c: Ctx<T>, s: Tree<T>, keep: Tree<T>)
    requires Distinct(Plug(c, s)) && s.Br?
    requires (keep == s.left && s.right.Leaf?) || (keep == s.right && s.left.Leaf?)
    ensures IdSet(keep) <= IdSet(s) && s.id !in IdSet(keep) && Distinct(keep)
    ensures IdSet(Plug(c, keep)) == IdSet(Plug(c, s)) - {s.id}
  {
    PlugDistinct(c, s);
    PlugIdSet(c, s);
    PlugIdSet(c, keep);
    assert IdSet(s) == IdSet(s.left) + {s.id} + IdSet(s.right);
  }

  /** The store just before the last steps of the two-children case of
      `remove`: `z` still hangs below path `c` with left subtree `a`, and its
      successor `y`, already out of its old place, holds the right subtree
      `rt` that stays to its right. */
  ghost predicate TailReady<T>(c: Ctx<T>, a: Tree<T>, z: nat, y: nat, vy: T, col: Color, rt: Tree<T>, ns: seq<Node<T>>) {
    && |ns| > 0 && ns[0].isNil && ns[0].c == Black && ns[0].left == 0 && ns[0].right == 0
    && a.Br? && 0 < z < |ns| && 0 < y < |ns| && z != y
    && MatchCtx(c, z, 0, ns) && Match(a, z, ns) && Match(rt, y, ns)
    && ns[z].p == UpOr(c, 0) && ns[z].left == a.id && ns[z].c == col
    && ns[y].key == vy && !ns[y].isNil && ns[y].right == Root(rt)
    && Distinct(Plug(c, Br(a, y, vy, col, rt)))
    && z !in CtxIds(c) && z !in IdSet(a) && z !in IdSet(rt)
  }

  /** The last steps of the two-children case (`transplant(z, y)`, `y`
      adopting `z`'s left subtree and colour) lay out the tree with `y` in
      `z`'s place. */
  lemma {:induction false} TailLayout<T>(c: Ctx<T>, a: Tree<T>, z: nat, y: nat, vy: T, col: Color, rt: Tree<T>,
                                         ns: seq<Node<T>>, ns': seq<Node<T>>)
    requires TailReady(c, a, z, y, vy, col, rt, ns)
    requires |ns'| == |ns|
    requires ns'[y] == ns[y].(p := UpOr(c, 0), left := a.id, c := col)
    requires ns'[a.id] == ns[a.id].(p := y)
    requires !c.Top? ==> c.id < |ns| && ns'[c.id] == Rehung(c, ns[c.id], y)
    requires forall j :: 0 <= j < |ns| && j != y && j != a.id && (c.Top? || j != c.id) ==> ns'[j] == ns[j]
    ensures Linked(Plug(c, Br(a, y, vy, col, rt)), ns')
    ensures Kept(ns, ns', CtxIds(c) + IdSet(a) + {y}) && ns'[0] == ns[0]
  {
    var n := Br(a, y, vy, col, rt);
    PlugDistinct(c, n);
    MatchCtxBounds(c, z, 0, ns);
    MatchBounds(a, z, ns);
    MatchBounds(rt, y, ns);
    assert a.id in IdSet(a) && y !in IdSet(a) && y !in IdSet(rt) && y !in CtxIds(c);
    assert IdSet(a) !! IdSet(rt) && IdSet(a) !! CtxIds(c) && IdSet(rt) !! CtxIds(c);
    RehangAt(c, z, ns, ns', y);
    ReparentAt(a, z, ns, ns', y);
    KeepAt(rt, y, ns, ns');
    assert ns'[y] == Node(vy, UpOr(c, 0), Root(a), Root(rt), col, false);
    assert Match(n, UpOr(c, 0), ns');
    PlugMatch(c, n, 0, ns');
  }

  /** The successor `y` is the right child of `z` (`y->p == z`): setting
      `x->p = y` (`x` the right subtree of `y`, possibly the sentinel)
      prepares the last steps. */
  lemma {:induction false} AdjacentReady<T>(c: Ctx<T>, s: Tree<T>, ns: seq<Node<T>>, ns': seq<Node<T>>)
    requires Linked(Plug(c, s), ns) && s.Br? && s.left.Br? && s.right.Br? && s.right.left.Leaf?
    requires Root(s.right.right) < |ns|
    requires ns' == ns[Root(s.right.right) := ns[Root(s.right.right)].(p := s.right.id)]
    ensures TailReady(c, s.left, s.id, s.right.id, s.right.val, s.color, s.right.right, ns')
    ensures Kept(ns, ns', IdSet(Plug(c, s)) + {0})
  {
    var w, r := s.right, s.right.right;
    CutFacts(c, s, ns);
    PlugDistinct(c, s);
    PlugMatch(c, s, 0, ns);
    PlugIdSet(c, s);
    MatchBounds(s, UpOr(c, 0), ns);
    MatchCtxBounds(c, s.id, 0, ns);
    assert Match(w, s.id, ns) && Match(r, w.id, ns) && Match(s.left, s.id, ns);
    assert Root(r) == 0 || Root(r) in IdSet(r);
    assert 0 !in IdSet(s.left) && 0 !in CtxIds(c);
    assert Root(r) !in IdSet(s.left) && Root(r) !in CtxIds(c) && Root(r) != w.id && Root(r) != s.id;
    if r.Br? {
      assert ns[r.id].p == w.id;
      assert ns' == ns;
    } else {
      MatchUpdate(s.left, s.id, ns, 0, ns'[0]);
      MatchCtxUpdate(c, s.id, 0, ns, 0, ns'[0]);
    }
    var n := Br(s.left, w.id, w.val, s.color, r);
    assert Distinct(n);
    PlugDistinct(c, n);
  }

  /** The successor `y` lies deeper: after `transplant(y, y->right)` the
      store lays out the tree with `y` cut out; `y->right = z->right` and
      `y->right->p = y` then prepare the last steps. */
  lemma {:induction false} DetachedReady<T>(c: Ctx<T>, a: Tree<T>, z: nat, vz: T, col: Color, rt: Tree<T>,
                                            y: nat, vy: T, ns: seq<Node<T>>, ns': seq<Node<T>>)
    requires Linked(Plug(c, Br(a, z, vz, col, rt)), ns) && a.Br? && rt.Br?
    requires 0 < y < |ns| && y !in IdSet(Plug(c, Br(a, z, vz, col, rt)))
    requires ns[y].key == vy && !ns[y].isNil
    requires |ns'| == |ns| && rt.id < |ns| && ns'[y] == ns[y].(right := rt.id) && ns'[rt.id] == ns[rt.id].(p := y)
    requires forall j :: 0 <= j < |ns| && j != y && j != rt.id ==> ns'[j] == ns[j]
    ensures TailReady(c, a, z, y, vy, col, rt, ns')
    ensures Kept(ns, ns', IdSet(Plug(c, Br(a, z, vz, col, rt))) + {y})
  {
    var n := Br(a, z, vz, col, rt);
    CutFacts(c, n, ns);
    PlugDistinct(c, n);
    PlugMatch(c, n, 0, ns);
    PlugIdSet(c, n);
    MatchBounds(n, UpOr(c, 0), ns);
    MatchCtxBounds(c, z, 0, ns);
    assert Match(a, z, ns) && Match(rt, z, ns) && rt.id in IdSet(rt);
    assert rt.id !in IdSet(a) && rt.id !in CtxIds(c) && y !in CtxIds(c);
    KeepAt(a, z, ns, ns');
    ReparentAt(rt, z, ns, ns', y);
    MatchCtxFrame(c, z, 0, ns, ns');
    var n' := Br(a, y, vy, col, rt);
    assert Distinct(n');
    PlugDistinct(c, n');
  }

  /** Below `z`, the path down to its successor: its innermost node is
      `z` itself exactly when the successor is `z`'s right child. */
  lemma {:induction false} SuccessorParent<T>(cz: Ctx<T>, zs: Tree<T>, cy: Ctx<T>, ys: Tree<T>)
    requires Distinct(Plug(cz, zs)) && zs.Br? && ys.Br? && Plug(cy, ys) == zs.right
    ensures !cy.Top? ==> cy.id != zs.id && cy.id in IdSet(zs)
    ensures ys.id in IdSet(zs.right) && ys.id != zs.id
    ensures IdSet(zs.left) <= IdSet(zs) && zs.id in IdSet(zs)
  {
    PlugDistinct(cz, zs);
    PlugIdSet(cy, ys);
    if !cy.Top? { assert cy.id in CtxIds(cy); }
  }

  /** The test of the fixup loop, read on the store: `x` is the root exactly
      when the path above it is empty, and it is red exactly when its
      subtree's top is. */
  lemma {:induction false} LoopFacts<T>(c: Ctx<T>, s: Tree<T>, ns: seq<Node<T>>, r: nat)
    requires Linked(Plug(c, s), ns) && r == Root(Plug(c, s))
    ensures Root(s) < |ns| && (Root(s) == r <==> c.Top?) && (ns[Root(s)].c == Red <==> IsRed(s))
  {
    AtHole(c, s, ns);
    if !c.Top? {
      PlugRootIn(c, s);
      PlugDistinct(c, s);
      PlugMatch(c, s, 0, ns);
      MatchCtxBounds(c, Root(s), 0, ns);
      if s.Br? { assert s.id in IdSet(s); }
    }
  }

  /** `x == x->p->left` holds exactly when `x` is a left child, also when
      `x` is the sentinel: the sibling of a short hole is a real node. */
  lemma {:induction false} SideTest<T>(c: Ctx<T>, s: Tree<T>, ns: seq<Node<T>>)
    requires Linked(Plug(c, s), ns) && Short(c, s) && !c.Top?
    ensures c.id < |ns| && (Root(s) == ns[c.id].left <==> c.InLeft?)
  {
    AtHole(c, s, ns);
    SiblingReal(c, s);
    if c.InRight? {
      PlugDistinct(c, s);
      PlugMatch(c, s, 0, ns);
      MatchCtxBounds(c, Root(s), 0, ns);
      assert c.left.id in CtxIds(c);
      if s.Br? { assert s.id in IdSet(s); }
    }
  }

  /** The records around the sibling `w` of a left child `x`: the parent,
      `w` and `w`'s children, with their colours. */
  lemma {:induction false} NephewsL<T>(c: Ctx<T>, s: Tree<T>, ns: seq<Node<T>>)
    requires Linked(Plug(c, s), ns) && c.InLeft? && c.right.Br?
    ensures 0 < c.id < |ns| && ns[c.id].right == c.right.id && ns[c.id].c == c.color
    ensures 0 < c.right.id < |ns| && ns[c.right.id].c == c.right.color
    ensures ns[c.right.id].left == Root(c.right.left) && ns[c.right.id].right == Root(c.right.right)
    ensures Root(c.right.left) < |ns| && (ns[Root(c.right.left)].c == Red <==> IsRed(c.right.left))
    ensures Root(c.right.right) < |ns| && (ns[Root(c.right.right)].c == Red <==> IsRed(c.right.right))
  {
    var w := c.right;
    var o := InRight(s, c.id, c.val, c.color, c.up);
    AtHole(c, s, ns);
    assert Plug(o, w) == Plug(c, s);
    AtHole(o, w, ns);
    assert Plug(InLeft(o, w.id, w.val, w.color, w.right), w.left) == Plug(c, s);
    AtHole(InLeft(o, w.id, w.val, w.color, w.right), w.left, ns);
    assert Plug(InRight(w.left, w.id, w.val, w.color, o), w.right) == Plug(c, s);
    AtHole(InRight(w.left, w.id, w.val, w.color, o), w.right, ns);
  }

  /** The mirror image of `NephewsL`, for a right child `x`. */
  lemma {:induction false} NephewsR<T>(c: Ctx<T>, s: Tree<T>, ns: seq<Node<T>>)
    requires Linked(Plug(c, s), ns) && c.InRight? && c.left.Br?
    ensures 0 < c.id < |ns| && ns[c.id].left == c.left.id && ns[c.id].c == c.color
    ensures 0 < c.left.id < |ns| && ns[c.left.id].c == c.left.color
    ensures ns[c.left.id].left == Root(c.left.left) && ns[c.left.id].right == Root(c.left.right)
    ensures Root(c.left.left) < |ns| && (ns[Root(c.left.left)].c == Red <==> IsRed(c.left.left))
    ensures Root(c.left.right) < |ns| && (ns[Root(c.left.right)].c == Red <==> IsRed(c.left.right))
  {
    var w := c.left;
    var o := InLeft(c.up, c.id, c.val, c.color, s);
    AtHole(c, s, ns);
    assert Plug(o, w) == Plug(c, s);
    AtHole(o, w, ns);
    assert Plug(InLeft(o, w.id, w.val, w.color, w.right), w.left) == Plug(c, s);
    AtHole(InLeft(o, w.id, w.val, w.color, w.right), w.left, ns);
    assert Plug(InRight(w.left, w.id, w.val, w.color, o), w.right) == Plug(c, s);
    AtHole(InRight(w.left, w.id, w.val, w.color, o), w.right, ns);
  }
}
