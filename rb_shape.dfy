/**
 * The abstract shape of the red-black tree engine (RBT.hpp).
 *
 * A `Tree` records, for every real node of the engine, the arena slot that
 * holds it (`id`), its payload and its colour; `Leaf` stands for the shared
 * sentinel NIL.  A `Ctx` is a path from some node up to the root (a zipper):
 * each frame remembers the ancestor and the sibling subtree that was not
 * taken.  Everything here is ghost: it is the specification the engine's
 * arena is proved against.
 */
module RbShape {

  datatype Color = Red | Black

  datatype Tree<T> =
    | Leaf
    | Br(left: Tree<T>, id: nat, val: T, color: Color, right: Tree<T>)

  /** The path from a hole up to the root.  `InLeft` means the hole is the
      left child of the frame's node, `InRight` that it is the right child. */
  datatype Ctx<T> =
    | Top
    | InLeft(up: Ctx<T>, id: nat, val: T, color: Color, right: Tree<T>)
    | InRight(left: Tree<T>, id: nat, val: T, color: Color, up: Ctx<T>)

  /** Slot of the node at the top of `t`; the sentinel's slot 0 for a leaf. */
  ghost function Root<T>(t: Tree<T>): nat {
    if t.Leaf? then 0 else t.id
  }

  ghost predicate IsRed<T>(t: Tree<T>) {
    t.Br? && t.color == Red
  }

  /** Slots of the nodes, in order. */
  ghost function Ids<T>(t: Tree<T>): seq<nat> {
    match t
    case Leaf => []
    case Br(l, id, _, _, r) => Ids(l) + [id] + Ids(r)
  }

  /** Payloads of the nodes, in order. */
  ghost function Vals<T>(t: Tree<T>): seq<T> {
    match t
    case Leaf => []
    case Br(l, _, v, _, r) => Vals(l) + [v] + Vals(r)
  }

  ghost function IdSet<T>(t: Tree<T>): set<nat> {
    match t
    case Leaf => {}
    case Br(l, id, _, _, r) => IdSet(l) + {id} + IdSet(r)
  }

  /** No slot is used twice and slot 0 (the sentinel) is never a real node. */
  ghost predicate Distinct<T>(t: Tree<T>) {
    match t
    case Leaf => true
    case Br(l, id, _, _, r) =>
      && Distinct(l) && Distinct(r)
      && id > 0 && id !in IdSet(l) && id !in IdSet(r)
      && IdSet(l) !! IdSet(r)
  }

  /** Rebuild the whole tree from a path and the subtree sitting in its hole. */
  ghost function Plug<T>(c: Ctx<T>, t: Tree<T>): Tree<T>
    decreases c
  {
    match c
    case Top => t
    case InLeft(up, id, v, col, r) => Plug(up, Br(t, id, v, col, r))
    case InRight(l, id, v, col, up) => Plug(up, Br(l, id, v, col, t))
  }

  /** Slot of the hole's parent: the innermost frame, or `par` at the top. */
  ghost function UpOr<T>(c: Ctx<T>, par: nat): nat {
    if c.Top? then par else c.id
  }

  /** Number of frames: the depth of the hole. */
  ghost function Depth<T>(c: Ctx<T>): nat {
    match c
    case Top => 0
    case InLeft(up, _, _, _, _) => Depth(up) + 1
    case InRight(_, _, _, _, up) => Depth(up) + 1
  }

  ghost function CtxIds<T>(c: Ctx<T>): set<nat> {
    match c
    case Top => {}
    case InLeft(up, id, _, _, r) => CtxIds(up) + {id} + IdSet(r)
    case InRight(l, id, _, _, up) => CtxIds(up) + {id} + IdSet(l)
  }

  ghost predicate DistinctCtx<T>(c: Ctx<T>) {
    match c
    case Top => true
    case InLeft(up, id, _, _, r) =>
      && DistinctCtx(up) && Distinct(r)
      && id > 0 && id !in IdSet(r) && id !in CtxIds(up) && IdSet(r) !! CtxIds(up)
    case InRight(l, id, _, _, up) =>
      && DistinctCtx(up) && Distinct(l)
      && id > 0 && id !in IdSet(l) && id !in CtxIds(up) && IdSet(l) !! CtxIds(up)
  }

  /** Slots that come before / after the hole in order. */
  ghost function BeforeIds<T>(c: Ctx<T>): seq<nat> {
    match c
    case Top => []
    case InLeft(up, _, _, _, _) => BeforeIds(up)
    case InRight(l, id, _, _, up) => BeforeIds(up) + Ids(l) + [id]
  }

  ghost function AfterIds<T>(c: Ctx<T>): seq<nat> {
    match c
    case Top => []
    case InLeft(up, id, _, _, r) => [id] + Ids(r) + AfterIds(up)
    case InRight(_, _, _, _, up) => AfterIds(up)
  }

  ghost function BeforeVals<T>(c: Ctx<T>): seq<T> {
    match c
    case Top => []
    case InLeft(up, _, _, _, _) => BeforeVals(up)
    case InRight(l, _, v, _, up) => BeforeVals(up) + Vals(l) + [v]
  }

  ghost function AfterVals<T>(c: Ctx<T>): seq<T> {
    match c
    case Top => []
    case InLeft(up, _, v, _, r) => [v] + Vals(r) + AfterVals(up)
    case InRight(_, _, _, _, up) => AfterVals(up)
  }

  // ---------------------------------------------------------------------
  // Red-black rules

  /** Black nodes on every path from the top of `t` down to the sentinel,
      counting along the leftmost path (Balanced says they all agree). */
  ghost function BH<T>(t: Tree<T>): nat {
    match t
    case Leaf => 0
    case Br(l, _, _, col, _) => BH(l) + (if col == Black then 1 else 0)
  }

  /** Every root-to-sentinel path has the same number of black nodes. */
  ghost predicate Balanced<T>(t: Tree<T>) {
    match t
    case Leaf => true
    case Br(l, _, _, _, r) => Balanced(l) && Balanced(r) && BH(l) == BH(r)
  }

  /** No red node has a red child. */
  ghost predicate RedOK<T>(t: Tree<T>) {
    match t
    case Leaf => true
    case Br(l, _, _, col, r) =>
      RedOK(l) && RedOK(r) && (col == Red ==> !IsRed(l) && !IsRed(r))
  }

  ghost predicate RB<T>(t: Tree<T>) {
    Balanced(t) && RedOK(t)
  }

  /** The three colour rules of a whole tree: the two above and a black root. */
  ghost predicate RedBlack<T>(t: Tree<T>) {
    RB(t) && !IsRed(t)
  }

  /** A path into which any red-black subtree of black height `h`, whose top
      is red exactly when `red`, can be plugged to give a red-black tree
      (the colour of the overall root is left free). */
  ghost predicate CtxOK<T>(c: Ctx<T>, h: nat, red: bool) {
    match c
    case Top => true
    case InLeft(up, _, _, col, r) =>
      && RB(r) && BH(r) == h
      && (col == Red ==> !red && !IsRed(r))
      && CtxOK(up, h + (if col == Black then 1 else 0), col == Red)
    case InRight(l, _, _, col, up) =>
      && RB(l) && BH(l) == h
      && (col == Red ==> !red && !IsRed(l))
      && CtxOK(up, h + (if col == Black then 1 else 0), col == Red)
  }

  // ---------------------------------------------------------------------
  // Keys

  /** Payloads in non-decreasing key order (equal keys are allowed: the
      engine itself does not reject duplicates). */
  ghost predicate SortedBy<T>(vs: seq<T>, key: T -> int) {
    forall i, j :: 0 <= i < j < |vs| ==> key(vs[i]) <= key(vs[j])
  }

  ghost predicate AllBelow<T>(vs: seq<T>, key: T -> int, k: int) {
    forall i :: 0 <= i < |vs| ==> key(vs[i]) < k
  }

  ghost predicate AllAtMost<T>(vs: seq<T>, key: T -> int, k: int) {
    forall i :: 0 <= i < |vs| ==> key(vs[i]) <= k
  }

  ghost predicate AllAtLeast<T>(vs: seq<T>, key: T -> int, k: int) {
    forall i :: 0 <= i < |vs| ==> key(vs[i]) >= k
  }

  ghost predicate AllAbove<T>(vs: seq<T>, key: T -> int, k: int) {
    forall i :: 0 <= i < |vs| ==> key(vs[i]) > k
  }

  // ---------------------------------------------------------------------
  // Lemmas: plugging a subtree into a path

  lemma {:induction false} IdsLength<T>(t: Tree<T>)
    ensures |Ids(t)| == |Vals(t)|
  {
    match t
    case Leaf =>
    case Br(l, _, _, _, r) => IdsLength(l); IdsLength(r);
  }

  lemma {:induction false} IdsMembership<T>(t: Tree<T>)
    ensures forall x :: x in Ids(t) <==> x in IdSet(t)
  {
    match t
    case Leaf =>
    case Br(l, _, _, _, r) => IdsMembership(l); IdsMembership(r);
  }

  /** Regrouping around a hole that is a left child. */
  lemma HoleLeft<X>(p: seq<X>, q: seq<X>, x: X, r: seq<X>, u: seq<X>)
    ensures p + (q + [x] + r) + u == p + q + ([x] + r + u)
  {
  }

  /** Regrouping around a hole that is a right child. */
  lemma HoleRight<X>(p: seq<X>, l: seq<X>, x: X, q: seq<X>, u: seq<X>)
    ensures p + (l + [x] + q) + u == (p + l + [x]) + q + u
  {
  }

  /** The in-order slots of a plugged tree are those before the hole, those
      of the subtree, and those after the hole. */
  lemma {:induction false} PlugIds<T>(c: Ctx<T>, t: Tree<T>)
    ensures Ids(Plug(c, t)) == BeforeIds(c) + Ids(t) + AfterIds(c)
    decreases c
  {
    match c
    case Top =>
    case InLeft(up, id, v, col, r) =>
      PlugIds(up, Br(t, id, v, col, r));
      HoleLeft(BeforeIds(up), Ids(t), id, Ids(r), AfterIds(up));
    case InRight(l, id, v, col, up) =>
      PlugIds(up, Br(l, id, v, col, t));
      HoleRight(BeforeIds(up), Ids(l), id, Ids(t), AfterIds(up));
  }

  lemma {:induction false} PlugVals<T>(c: Ctx<T>, t: Tree<T>)
    ensures Vals(Plug(c, t)) == BeforeVals(c) + Vals(t) + AfterVals(c)
    decreases c
  {
    match c
    case Top =>
    case InLeft(up, id, v, col, r) =>
      PlugVals(up, Br(t, id, v, col, r));
      HoleLeft(BeforeVals(up), Vals(t), v, Vals(r), AfterVals(up));
    case InRight(l, id, v, col, up) =>
      PlugVals(up, Br(l, id, v, col, t));
      HoleRight(BeforeVals(up), Vals(l), v, Vals(t), AfterVals(up));
  }

  lemma {:induction false} PlugIdSet<T>(c: Ctx<T>, t: Tree<T>)
    ensures IdSet(Plug(c, t)) == CtxIds(c) + IdSet(t)
    decreases c
  {
    match c
    case Top =>
    case InLeft(up, id, v, col, r) =>
      PlugIdSet(up, Br(t, id, v, col, r));
    case InRight(l, id, v, col, up) =>
      PlugIdSet(up, Br(l, id, v, col, t));
  }

  lemma {:induction false} CtxLengths<T>(c: Ctx<T>)
    ensures |BeforeIds(c)| == |BeforeVals(c)| && |AfterIds(c)| == |AfterVals(c)|
    decreases c
  {
    match c
    case Top =>
    case InLeft(up, _, _, _, r) => CtxLengths(up); IdsLength(r);
    case InRight(l, _, _, _, up) => CtxLengths(up); IdsLength(l);
  }

  /** A plugged tree has distinct slots exactly when the path and the subtree
      each do and they share none. */
  lemma {:induction false} PlugDistinct<T>(c: Ctx<T>, t: Tree<T>)
    ensures Distinct(Plug(c, t)) <==> DistinctCtx(c) && Distinct(t) && IdSet(t) !! CtxIds(c)
    decreases c
  {
    match c
    case Top =>
    case InLeft(up, id, v, col, r) =>
      PlugDistinct(up, Br(t, id, v, col, r));
    case InRight(l, id, v, col, up) =>
      PlugDistinct(up, Br(l, id, v, col, t));
  }

  /** A plugged tree satisfies the red and black-height rules exactly when
      the subtree does and the path accepts it. */
  lemma {:induction false} PlugRB<T>(c: Ctx<T>, t: Tree<T>)
    ensures RB(Plug(c, t)) <==> RB(t) && CtxOK(c, BH(t), IsRed(t))
    decreases c
  {
    match c
    case Top =>
    case InLeft(up, id, v, col, r) =>
      PlugRB(up, Br(t, id, v, col, r));
    case InRight(l, id, v, col, up) =>
      PlugRB(up, Br(l, id, v, col, t));
  }

  /** Below a non-empty path the overall root, its slot and its colour do
      not depend on the subtree in the hole. */
  lemma {:induction false} PlugTopColor<T>(c: Ctx<T>, t: Tree<T>, u: Tree<T>)
    requires !c.Top?
    ensures IsRed(Plug(c, t)) == IsRed(Plug(c, u))
    ensures Root(Plug(c, t)) == Root(Plug(c, u))
    ensures Plug(c, t).Br? && Plug(c, u).Br?
    decreases c
  {
    match c
    case InLeft(up, id, v, col, r) =>
      if !up.Top? { PlugTopColor(up, Br(t, id, v, col, r), Br(u, id, v, col, r)); }
    case InRight(l, id, v, col, up) =>
      if !up.Top? { PlugTopColor(up, Br(l, id, v, col, t), Br(l, id, v, col, u)); }
  }

  /** A path that accepts a red top also accepts a black one. */
  lemma {:induction false} CtxOKBlack<T>(c: Ctx<T>, h: nat)
    requires CtxOK(c, h, true)
    ensures CtxOK(c, h, false)
  {
  }

  /** A path that accepts a black top accepts a red one when the hole's
      parent is black (or there is none). */
  lemma CtxOKRed<T>(c: Ctx<T>, h: nat)
    requires CtxOK(c, h, false)
    requires !c.Top? ==> c.color == Black
    ensures CtxOK(c, h, true)
  {
  }

  /** Painting the root of a red-black tree black keeps it red-black. */
  lemma BlackenRoot<T>(t: Tree<T>)
    requires RB(t) && t.Br?
    ensures RB(t.(color := Black))
  {
  }

  // ---------------------------------------------------------------------
  // Lemmas: keys in order

  lemma SortedParts<T>(a: seq<T>, v: T, b: seq<T>, key: T -> int)
    requires SortedBy(a + [v] + b, key)
    ensures SortedBy(a, key) && SortedBy(b, key)
    ensures AllAtMost(a, key, key(v)) && AllAtLeast(b, key, key(v))
  {
    var s := a + [v] + b;
    forall i | 0 <= i < |a| ensures key(a[i]) <= key(v) {
      assert s[i] == a[i] && s[|a|] == v;
    }
    forall i | 0 <= i < |b| ensures key(b[i]) >= key(v) {
      assert s[|a| + 1 + i] == b[i] && s[|a|] == v;
    }
    forall i, j | 0 <= i < j < |a| ensures key(a[i]) <= key(a[j]) {
      assert s[i] == a[i] && s[j] == a[j];
    }
    forall i, j | 0 <= i < j < |b| ensures key(b[i]) <= key(b[j]) {
      assert s[|a| + 1 + i] == b[i] && s[|a| + 1 + j] == b[j];
    }
  }

  lemma SortedConcat<T>(a: seq<T>, b: seq<T>, key: T -> int)
    requires SortedBy(a + b, key)
    ensures SortedBy(a, key) && SortedBy(b, key)
  {
    var s := a + b;
    forall i, j | 0 <= i < j < |a| ensures key(a[i]) <= key(a[j]) {
      assert s[i] == a[i] && s[j] == a[j];
    }
    forall i, j | 0 <= i < j < |b| ensures key(b[i]) <= key(b[j]) {
      assert s[|a| + i] == b[i] && s[|a| + j] == b[j];
    }
  }

  lemma AllAtMostSplit<T>(a: seq<T>, b: seq<T>, key: T -> int, k: int)
    requires AllAtMost(a + b, key, k)
    ensures AllAtMost(a, key, k) && AllAtMost(b, key, k)
  {
    forall i | 0 <= i < |a| ensures key(a[i]) <= k { assert (a + b)[i] == a[i]; }
    forall i | 0 <= i < |b| ensures key(b[i]) <= k { assert (a + b)[|a| + i] == b[i]; }
  }

  lemma AllAtLeastSplit<T>(a: seq<T>, b: seq<T>, key: T -> int, k: int)
    requires AllAtLeast(a + b, key, k)
    ensures AllAtLeast(a, key, k) && AllAtLeast(b, key, k)
  {
    forall i | 0 <= i < |a| ensures key(a[i]) >= k { assert (a + b)[i] == a[i]; }
    forall i | 0 <= i < |b| ensures key(b[i]) >= k { assert (a + b)[|a| + i] == b[i]; }
  }

  lemma Regroup<X>(p: seq<X>, q: seq<X>, v: X, r: seq<X>, u: seq<X>)
    ensures p + (q + [v] + r) + u == (p + q) + [v] + (r + u)
  {
  }

  /** The keys of a subtree lie between those before and after its hole. */
  lemma {:induction false} SortedAround<T>(c: Ctx<T>, t: Tree<T>, key: T -> int)
    requires SortedBy(Vals(Plug(c, t)), key)
    requires t.Br?
    ensures AllAtMost(Vals(t.left), key, key(t.val))
    ensures AllAtLeast(Vals(t.right), key, key(t.val))
    ensures AllAtMost(BeforeVals(c), key, key(t.val))
    ensures AllAtLeast(AfterVals(c), key, key(t.val))
  {
    var B, A := BeforeVals(c), AfterVals(c);
    var L, R := Vals(t.left), Vals(t.right);
    assert Vals(Plug(c, t)) == (B + L) + [t.val] + (R + A) by {
      PlugVals(c, t);
      Regroup(B, L, t.val, R, A);
    }
    SortedParts(B + L, t.val, R + A, key);
    AllAtMostSplit(B, L, key, key(t.val));
    AllAtLeastSplit(R, A, key, key(t.val));
  }
}
