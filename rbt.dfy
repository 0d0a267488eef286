/**
 * The red-black tree engine `RBT` (RBT.hpp) shared by `set` and `map`.
 *
 * The engine owns a node store `nodes` (slot 0 is the sentinel NIL), the
 * slot of the root and the element count.  The ghost field `tree` is the
 * shape the store lays out; the class invariant `Valid` says that the store
 * lays it out exactly, that its payloads are in non-decreasing key order and
 * that it obeys the red-black rules.  Slots of removed nodes stay in the
 * store with their last contents (the engine frees them; nothing in the
 * model reads them except where the source itself does).
 *
 * Keys are `int` and ordered by `<`; `access` extracts the key from a
 * payload (the payload itself for `set`, its first component for `map`).
 */
module RedBlackTree {
  import opened RbShape
  import opened Arena
  import opened Traversal
  import opened Rotations
  import opened KeyOrder
  import opened RbInsert
  import opened RbRemove

  /** At an empty hole the whole order splits into the part before and the
      part after it, slot for slot. */
  lemma BoundAtHole<T>(c: Ctx<T>, cur: Tree<T>)
    requires cur.Leaf?
    ensures Ids(Plug(c, cur)) == BeforeIds(c) + AfterIds(c)
    ensures Vals(Plug(c, cur)) == BeforeVals(c) + AfterVals(c)
    ensures |BeforeIds(c)| == |BeforeVals(c)| && |AfterIds(c)| == |AfterVals(c)|
  {
    PlugIds(c, cur);
    PlugVals(c, cur);
    CtxLengths(c);
  }

  class Rbt<T> {
    var nodes: seq<Node<T>>
    var root: nat
    var size: nat
    ghost var tree: Tree<T>
    const access: T -> int

    /** The store lays out `tree` below the sentinel and `root` is its top. */
    ghost predicate Shaped()
      reads this
    {
      Linked(tree, nodes) && root == Root(tree)
    }

    /** The invariant every public operation keeps. */
    ghost predicate Valid()
      reads this
    {
      && Shaped()
      && nodes[0].p == root
      && size == |Ids(tree)|
      && SortedBy(Vals(tree), access)
      && RedBlack(tree)
    }

    /** The payloads, in key order. */
    ghost function Elements(): seq<T>
      reads this
    {
      Vals(tree)
    }

    /** `RBT()`: an empty tree whose sentinel is its own root's parent.
        `nilKey` is the default-constructed payload the sentinel holds. */
    constructor (access: T -> int, nilKey: T)
      ensures Valid() && Elements() == [] && size == 0
      ensures this.access == access && nodes[0].key == nilKey
    {
      nodes := [Node(nilKey, 0, 0, 0, Black, true)];
      root := 0;
      size := 0;
      tree := Leaf;
      this.access := access;
    }

    /** `size()`: the number of elements. */
    function Size(): (n: nat)
      requires Valid()
      reads this
      ensures n == |Elements()|
    {
      IdsLength(tree);
      size
    }

    /** `getNil()`: the sentinel, which is also the past-the-end position. */
    function GetNil(): (r: nat)
      requires Valid()
      reads this
      ensures r < |nodes| && nodes[r].isNil && r !in IdSet(tree)
    {
      MatchBounds(tree, 0, nodes);
      0
    }

    /** `delete_all()`: every node is released, the root becomes the
        sentinel, the sentinel's parent link follows it and the count drops
        to zero.  Released slots keep their last contents. */
    method DeleteAll()
      requires Valid()
      modifies this
      ensures Valid() && Elements() == [] && size == 0 && root == 0 && nodes[0].p == 0
      ensures |nodes| == old(|nodes|) && nodes[0] == old(nodes[0]).(p := 0)
      ensures forall j :: 0 < j < |nodes| ==> nodes[j] == old(nodes[j])
    {
      root := 0;
      nodes := nodes[0 := nodes[0].(p := root)];
      size := 0;
      tree := Leaf;
    }

    /** `swap(other)`: the two engines exchange root, count and sentinel
        (here: their whole node stores).  Both compare keys with `<`, so
        exchanging the comparators changes nothing. */
    method Swap(other: Rbt<T>)
      requires Valid() && other.Valid() && other.access == access
      modifies this, other
      ensures Valid() && other.Valid()
      ensures Elements() == old(other.Elements()) && other.Elements() == old(Elements())
      ensures nodes == old(other.nodes) && root == old(other.root) && size == old(other.size)
      ensures other.nodes == old(nodes) && other.root == old(root) && other.size == old(size)
      ensures tree == old(other.tree) && other.tree == old(tree)
    {
      nodes, other.nodes := other.nodes, nodes;
      root, other.root := other.root, root;
      size, other.size := other.size, size;
      tree, other.tree := other.tree, tree;
    }

    /** `RBT(other)`: a sentinel of its own holding the same default
        payload, then the other's payloads inserted one by one in its key
        order. */
    constructor Copy(other: Rbt<T>)
      requires other.Valid()
      ensures Valid() && Elements() == other.Elements()
      ensures access == other.access && nodes[0].key == other.nodes[0].key
    {
      nodes := [Node(other.nodes[0].key, 0, 0, 0, Black, true)];
      root := 0;
      size := 0;
      tree := Leaf;
      access := other.access;
      new;
      CopyFrom(other);
    }

    /** `operator=`: assigning an engine to itself changes nothing;
        otherwise every node and the sentinel are released, a new sentinel
        with the default payload is made and the other's payloads are
        inserted one by one in its key order. */
    method Assign(other: Rbt<T>)
      requires Valid() && other.Valid() && other.access == access
      modifies this
      ensures Valid() && Elements() == old(other.Elements())
      ensures nodes[0].key == old(nodes[0].key)
      ensures other == this ==> nodes == old(nodes) && root == old(root) && size == old(size)
    {
      if other == this {
        return;
      }
      nodes := [Node(nodes[0].key, 0, 0, 0, Black, true)];
      root := 0;
      size := 0;
      tree := Leaf;
      CopyFrom(other);
    }

    /** The loop of the copy constructor and of `operator=`: an iterator
        starts at the other's minimum and `increment` moves it on after each
        insert; in key order every payload lands at the end. */
    method CopyFrom(other: Rbt<T>)
      requires Valid() && other.Valid() && other != this
      requires Elements() == [] && access == other.access
      modifies this
      ensures Valid() && Elements() == other.Elements()
      ensures nodes[0].key == old(nodes[0].key)
    {
      ghost var E, I := other.Elements(), Ids(other.tree);
      var it := other.Minimum();
      var i := 0;
      IdsLength(other.tree);
      IdsMembership(other.tree);
      DistinctNoDup(other.tree);
      MatchKeys(other.tree, 0, other.nodes);
      while i < other.size
        invariant Valid() && access == other.access && 0 <= i <= other.size
        invariant Elements() == E[..i] && nodes[0].key == old(nodes[0].key)
        invariant it == SlotAt(I, i)
      {
        AppendInOrder(E, i, access);
        var z := Insert(other.nodes[it].key);
        NextAt(I, i);
        it := Traversal.Increment(other.nodes, it, other.tree);
        i := i + 1;
      }
      assert E[..i] == E;
    }

    // -------------------------------------------------------------------
    // Queries

    /** `search_helper(k, x)`: the node below `x` (top of `s`) whose key
        equals `k`, or the sentinel.  Equality is tested before the
        comparison chooses a side. */
    function SearchHelper(k: int, x: nat, ghost s: Tree<T>, ghost par: nat): (r: nat)
      requires |nodes| > 0 && Match(s, par, nodes) && Root(s) == x && SortedBy(Vals(s), access)
      reads this
      ensures r == 0 || r in IdSet(s)
      ensures r != 0 ==> r < |nodes| && access(nodes[r].key) == k
      ensures r == 0 <==> !HasKey(Vals(s), access, k)
      decreases s
    {
      if x == 0 then x
      else if k == access(nodes[x].key) then
        HasKeySplit(Vals(s.left), s.val, Vals(s.right), access, k);
        x
      else
        SortedParts(Vals(s.left), s.val, Vals(s.right), access);
        HasKeySplit(Vals(s.left), s.val, Vals(s.right), access, k);
        if k < access(nodes[x].key) then
          SearchHelper(k, nodes[x].left, s.left, x)
        else
          SearchHelper(k, nodes[x].right, s.right, x)
    }

    /** `search(k)`: a node holding key `k`, or the sentinel exactly when no
        element has that key. */
    function Search(k: int): (r: nat)
      requires Valid()
      reads this
      ensures r < |nodes| && (r == 0 || r in IdSet(tree))
      ensures r == 0 <==> !HasKey(Elements(), access, k)
      ensures r != 0 ==> access(nodes[r].key) == k
    {
      SearchHelper(k, root, tree, 0)
    }

    /** `lower_bound(k)`: the first node in key order whose key is not below
        `k`, or the sentinel. */
    method LowerBound(k: int) returns (r: nat)
      requires Valid()
      ensures r == SlotAt(Ids(tree), LowerIndex(Elements(), access, k))
    {
      var x := root;
      var y := 0;
      ghost var c, cur := Top, tree;
      while x != 0
        invariant Plug(c, cur) == tree && Root(cur) == x
        invariant Match(cur, UpOr(c, 0), nodes)
        invariant AllBelow(BeforeVals(c), access, k) && AllAtLeast(AfterVals(c), access, k)
        invariant y == Head0(AfterIds(c))
        decreases cur
      {
        SortedAround(c, cur, access);
        if !(access(nodes[x].key) < k) {
          AllAtLeastConcat([cur.val] + Vals(cur.right), AfterVals(c), access, k);
          c, cur := InLeft(c, cur.id, cur.val, cur.color, cur.right), cur.left;
          y := x;
          x := nodes[x].left;
        } else {
          AllBelowConcat(BeforeVals(c), Vals(cur.left) + [cur.val], access, k);
          c, cur := InRight(cur.left, cur.id, cur.val, cur.color, c), cur.right;
          x := nodes[x].right;
        }
      }
      BoundAtHole(c, cur);
      LowerIndexAt(BeforeVals(c), AfterVals(c), access, k);
      return y;
    }

    /** `upper_bound(k)`: the first node in key order whose key is above
        `k`, or the sentinel. */
    method UpperBound(k: int) returns (r: nat)
      requires Valid()
      ensures r == SlotAt(Ids(tree), UpperIndex(Elements(), access, k))
    {
      var x := root;
      var y := 0;
      ghost var c, cur := Top, tree;
      while x != 0
        invariant Plug(c, cur) == tree && Root(cur) == x
        invariant Match(cur, UpOr(c, 0), nodes)
        invariant AllAtMost(BeforeVals(c), access, k) && AllAbove(AfterVals(c), access, k)
        invariant y == Head0(AfterIds(c))
        decreases cur
      {
        SortedAround(c, cur, access);
        if k < access(nodes[x].key) {
          AllAboveConcat([cur.val] + Vals(cur.right), AfterVals(c), access, k);
          c, cur := InLeft(c, cur.id, cur.val, cur.color, cur.right), cur.left;
          y := x;
          x := nodes[x].left;
        } else {
          AllAtMostConcat(BeforeVals(c), Vals(cur.left) + [cur.val], access, k);
          c, cur := InRight(cur.left, cur.id, cur.val, cur.color, c), cur.right;
          x := nodes[x].right;
        }
      }
      BoundAtHole(c, cur);
      UpperIndexAt(BeforeVals(c), AfterVals(c), access, k);
      return y;
    }

    /** `minimum()`: the first node in key order (through `min_helper`,
        which returns the sentinel for an empty tree). */
    method Minimum() returns (r: nat)
      requires Valid()
      ensures r == Head0(Ids(tree))
      ensures r == 0 <==> Elements() == []
      ensures r != 0 ==> r < |nodes| && nodes[r].key == Elements()[0]
    {
      r := MinHelper(nodes, root, tree, 0);
      MatchKeys(tree, 0, nodes);
    }

    /** `maximum()` with the engine's own `max_helper`, which has no guard
        for the sentinel: the tree must not be empty. */
    method Maximum() returns (r: nat)
      requires Valid() && Elements() != []
      ensures r == Last0(Ids(tree))
      ensures 0 < r < |nodes| && nodes[r].key == Elements()[|Elements()| - 1]
    {
      var tmp := root;
      ghost var cur, cpar := tree, 0;
      MatchKeys(tree, 0, nodes);
      while nodes[tmp].right != 0
        invariant cur.Br? && Root(cur) == tmp && Match(cur, cpar, nodes)
        invariant Last0(Ids(cur)) == Last0(Ids(tree))
        decreases cur
      {
        tmp := nodes[tmp].right;
        cur, cpar := cur.right, cur.id;
      }
      r := tmp;
    }

    /** `successor(n)`: the next node in key order, or the sentinel after the
        last one. */
    method Successor(n: nat) returns (r: nat)
      requires Valid() && n in IdSet(tree)
      ensures r == Next(Ids(tree), n)
    {
      ghost var (c, s) := Locate(tree, n, Top);
      AtHole(c, s, nodes);
      if !nodes[nodes[n].right].isNil {
        AtHole(InRight(s.left, s.id, s.val, s.color, c), s.right, nodes);
        PlugMatch(InRight(s.left, s.id, s.val, s.color, c), s.right, 0, nodes);
        r := MinHelper(nodes, nodes[n].right, s.right, n);
        NextIntoRight(tree, c, s);
      } else if !nodes[nodes[n].p].isNil && n == nodes[nodes[n].p].left {
        r := nodes[n].p;
        AfterLastOfLeft(tree, c, s);
      } else {
        var m := n;
        ghost var bc, bs := c, s;
        while !nodes[nodes[m].p].isNil && m == nodes[nodes[m].p].right
          invariant Plug(bc, bs) == tree && bs.Br? && bs.id == m && Last0(Ids(bs)) == n
          invariant m < |nodes| && nodes[m].p == UpOr(bc, 0) && UpOr(bc, 0) < |nodes|
          decreases Depth(bc)
        {
          AtHole(bc, bs, nodes);
          if bc.InLeft? {
            assert false;
          }
          bs, bc := Br(bc.left, bc.id, bc.val, bc.color, bs), bc.up;
          m := nodes[m].p;
          AtHole(bc, bs, nodes);
        }
        AtHole(bc, bs, nodes);
        r := nodes[m].p;
        AfterLastOfLeft(tree, bc, bs);
      }
    }

    /** `predecessor(n)`: the previous node in key order, or the sentinel
        before the first one. */
    method Predecessor(n: nat) returns (r: nat)
      requires Valid() && n in IdSet(tree)
      ensures r == Prev(Ids(tree), n)
    {
      ghost var (c, s) := Locate(tree, n, Top);
      AtHole(c, s, nodes);
      if !nodes[nodes[n].left].isNil {
        AtHole(InLeft(c, s.id, s.val, s.color, s.right), s.left, nodes);
        PlugMatch(InLeft(c, s.id, s.val, s.color, s.right), s.left, 0, nodes);
        r := MaxHelper(nodes, nodes[n].left, s.left, n);
        PrevIntoLeft(tree, c, s);
      } else if !nodes[nodes[n].p].isNil && n == nodes[nodes[n].p].right {
        r := nodes[n].p;
        BeforeFirstOfRight(tree, c, s);
      } else {
        var m := n;
        ghost var bc, bs := c, s;
        while !nodes[nodes[m].p].isNil && m == nodes[nodes[m].p].left
          invariant Plug(bc, bs) == tree && bs.Br? && bs.id == m && Head0(Ids(bs)) == n
          invariant m < |nodes| && nodes[m].p == UpOr(bc, 0) && UpOr(bc, 0) < |nodes|
          decreases Depth(bc)
        {
          AtHole(bc, bs, nodes);
          if bc.InRight? {
            assert false;
          }
          bs, bc := Br(bs, bc.id, bc.val, bc.color, bc.right), bc.up;
          m := nodes[m].p;
          AtHole(bc, bs, nodes);
        }
        AtHole(bc, bs, nodes);
        r := nodes[m].p;
        BeforeFirstOfRight(tree, bc, bs);
      }
    }

    // -------------------------------------------------------------------
    // Primitive updates of the store, each proved against the shape

    /** Set the colour of node `n`, the top of subtree `s` below path `c`. */
    method Paint(n: nat, col: Color, ghost c: Ctx<T>, ghost s: Tree<T>)
      requires Shaped() && tree == Plug(c, s) && s.Br? && s.id == n
      modifies this
      ensures Shaped() && tree == Plug(c, s.(color := col))
      ensures n < |old(nodes)| && nodes == old(nodes)[n := old(nodes)[n].(c := col)] && root == old(root)
      ensures Kept(old(nodes), nodes, old(IdSet(tree))) && size == old(size)
      ensures Ids(tree) == old(Ids(tree)) && Vals(tree) == old(Vals(tree))
      ensures IdSet(tree) == old(IdSet(tree))
    {
      PlugMatch(c, s, 0, nodes);
      MatchBounds(s, UpOr(c, 0), nodes);
      PaintLayout(c, s, nodes, col);
      PaintKept(c, s, nodes, col);
      PlugPaint(c, s, col);
      nodes := nodes[n := nodes[n].(c := col)];
      tree := Plug(c, s.(color := col));
    }

    /** `rotateLeft(x)`: `x` is the top of subtree `s` below path `c`. */
    method RotateLeft(x: nat, ghost c: Ctx<T>, ghost s: Tree<T>)
      requires Shaped() && tree == Plug(c, s) && s.Br? && s.id == x && s.right.Br?
      modifies this
      ensures Shaped() && tree == Plug(c, RotL(s))
      ensures Kept(old(nodes), nodes, old(IdSet(tree))) && size == old(size)
      ensures Ids(tree) == old(Ids(tree)) && Vals(tree) == old(Vals(tree))
      ensures IdSet(tree) == old(IdSet(tree))
    {
      ghost var ns := nodes;
      RotLeftReads(c, s, nodes);
      var st := nodes;
      var y := st[x].right;
      var b := st[y].left;
      st := st[x := st[x].(right := b)];
      if b != 0 {
        st := st[b := st[b].(p := x)];
      }
      var px := st[x].p;
      st := st[y := st[y].(p := px)];
      if px == 0 {
        root := y;
      } else if x == st[px].left {
        st := st[px := st[px].(left := y)];
      } else {
        st := st[px := st[px].(right := y)];
      }
      st := st[y := st[y].(left := x)];
      st := st[x := st[x].(p := y)];
      RotLeftStoreWrites(c, s, ns);
      assert st == RotLeftStore(ns, x, y, b, px);
      RotLeftLayout(c, s, ns, st);
      RotLeftKept(c, s, ns, st);
      PlugRotL(c, s);
      nodes := st;
      tree := Plug(c, RotL(s));
    }

    /** `rotateRight(x)`: `x` is the top of subtree `s` below path `c`. */
    method RotateRight(x: nat, ghost c: Ctx<T>, ghost s: Tree<T>)
      requires Shaped() && tree == Plug(c, s) && s.Br? && s.id == x && s.left.Br?
      modifies this
      ensures Shaped() && tree == Plug(c, RotR(s))
      ensures Kept(old(nodes), nodes, old(IdSet(tree))) && size == old(size)
      ensures Ids(tree) == old(Ids(tree)) && Vals(tree) == old(Vals(tree))
      ensures IdSet(tree) == old(IdSet(tree))
    {
      ghost var ns := nodes;
      RotRightReads(c, s, nodes);
      var st := nodes;
      var y := st[x].left;
      var b := st[y].right;
      st := st[x := st[x].(left := b)];
      if b != 0 {
        st := st[b := st[b].(p := x)];
      }
      var px := st[x].p;
      st := st[y := st[y].(p := px)];
      if px == 0 {
        root := y;
      } else if x == st[px].right {
        st := st[px := st[px].(right := y)];
      } else {
        st := st[px := st[px].(left := y)];
      }
      st := st[y := st[y].(right := x)];
      st := st[x := st[x].(p := y)];
      RotRightStoreWrites(c, s, ns);
      assert st == RotRightStore(ns, x, y, b, px);
      RotRightLayout(c, s, ns, st);
      RotRightKept(c, s, ns, st);
      PlugRotR(c, s);
      nodes := st;
      tree := Plug(c, RotR(s));
    }

    // -------------------------------------------------------------------
    // Insertion

    /** `insert(elem)`: a fresh red node holding `elem` (its links still
        unset) goes into a new slot and is hung into the tree; equal keys go
        after the ones already present. */
    method Insert(elem: T) returns (r: nat)
      requires Valid()
      modifies this
      ensures Valid() && r == old(|nodes|) && |nodes| == old(|nodes|) + 1 && nodes[r].key == elem
      ensures Elements() == InsertSorted(old(Elements()), elem, access)
      ensures IdSet(tree) == old(IdSet(tree)) + {r} && size == old(size) + 1
      ensures forall j :: 0 <= j < old(|nodes|) ==> nodes[j].key == old(nodes[j].key)
    {
      var z := NewNode(elem, 0, 0, 0);
      MatchAppend(tree, 0, nodes, z);
      MatchBounds(tree, 0, nodes);
      nodes := nodes + [z];
      r := InsertHelper(|nodes| - 1);
    }

    /** `insert_helper(z)`: walk down from the root to the empty hole where
        `z`'s key belongs (right of every equal key), hang `z` there, count
        it, restore the colour rules and point the sentinel at the root. */
    method InsertHelper(z: nat) returns (r: nat)
      requires Valid() && 0 < z < |nodes| && z !in IdSet(tree)
      requires nodes[z].c == Red && !nodes[z].isNil
      modifies this
      ensures Valid() && r == z && |nodes| == old(|nodes|)
      ensures Elements() == InsertSorted(old(Elements()), old(nodes[z].key), access)
      ensures IdSet(tree) == old(IdSet(tree)) + {z} && size == old(size) + 1
      ensures Kept(old(nodes), nodes, old(IdSet(tree)) + {0, z})
    {
      ghost var v := nodes[z].key;
      var y, c := Descend(access(nodes[z].key));
      HangShape(c, z, v);
      HangOrder(c, z, v, access);
      ghost var live := old(IdSet(tree)) + {0, z};
      Attach(z, y, c);
      ghost var zs := Br(Leaf, z, v, Red, Leaf);
      FixStart(c, z, v);
      ghost var n1 := nodes;
      InsertFixup(z, c, zs);
      KeptWiden(n1, nodes, old(IdSet(tree)) + {z}, live);
      KeptTrans(old(nodes), n1, nodes, live);
      MatchBounds(tree, 0, nodes);
      MatchUpdate(tree, 0, nodes, 0, nodes[0].(p := root));
      n1 := nodes;
      nodes := nodes[0 := nodes[0].(p := root)];
      KeptTrans(old(nodes), n1, nodes, live);
      return z;
    }

    /** The walk down of `insert_helper`: from the root to the empty hole
        where key `k` belongs, right of every equal key; `y` is the last
        node passed (the sentinel for an empty tree). */
    method Descend(k: int) returns (y: nat, ghost c: Ctx<T>)
      requires Valid()
      ensures tree == Plug(c, Leaf) && y == UpOr(c, 0)
      ensures AllAtMost(BeforeVals(c), access, k) && AllAbove(AfterVals(c), access, k)
      ensures !c.Top? ==> (c.InLeft? <==> k < access(c.val))
    {
      y := 0;
      var temp := root;
      ghost var cur;
      c, cur := Top, tree;
      while temp != 0
        invariant Plug(c, cur) == tree && Root(cur) == temp && Match(cur, UpOr(c, 0), nodes)
        invariant y == UpOr(c, 0)
        invariant AllAtMost(BeforeVals(c), access, k) && AllAbove(AfterVals(c), access, k)
        invariant !c.Top? ==> (c.InLeft? <==> k < access(c.val))
        decreases cur
      {
        y := temp;
        SortedAround(c, cur, access);
        if k < access(nodes[temp].key) {
          AllAboveConcat([cur.val] + Vals(cur.right), AfterVals(c), access, k);
          c, cur := InLeft(c, cur.id, cur.val, cur.color, cur.right), cur.left;
          temp := nodes[temp].left;
        } else {
          AllAtMostConcat(BeforeVals(c), Vals(cur.left) + [cur.val], access, k);
          c, cur := InRight(cur.left, cur.id, cur.val, cur.color, c), cur.right;
          temp := nodes[temp].right;
        }
      }
    }

    /** The linking step of `insert_helper`: `z` gets parent `y` (the
        sentinel when the tree is empty, and then `z` becomes the root),
        hangs on the side of `y` its key calls for, and gets no children. */
    method Attach(z: nat, y: nat, ghost c: Ctx<T>)
      requires Shaped() && tree == Plug(c, Leaf) && y == UpOr(c, 0)
      requires 0 < z < |nodes| && z !in IdSet(tree) && nodes[z].c == Red && !nodes[z].isNil
      requires !c.Top? ==> (c.InLeft? <==> access(nodes[z].key) < access(c.val))
      modifies this
      ensures Shaped() && tree == Plug(c, Br(Leaf, z, old(nodes[z].key), Red, Leaf))
      ensures Kept(old(nodes), nodes, old(IdSet(tree)) + {z}) && size == old(size) + 1
    {
      AtHole(c, Leaf, nodes);
      ghost var ns, v := nodes, nodes[z].key;
      var st := nodes;
      st := st[z := st[z].(p := y)];
      if y == 0 {
        root := z;
      } else if access(st[z].key) < access(st[y].key) {
        st := st[y := st[y].(left := z)];
      } else {
        st := st[y := st[y].(right := z)];
      }
      st := st[z := st[z].(left := 0, right := 0)];
      nodes := st;
      size := size + 1;
      HangLayout(c, ns, nodes, z, v);
      HangShape(c, z, v);
      tree := Plug(c, Br(Leaf, z, v, Red, Leaf));
    }

    /** `insert_fixup(z)`: while `z`'s parent is red, recolour (red uncle) or
        rotate (black uncle) to move the violation up, then paint the root
        black. */
    method InsertFixup(n: nat, ghost c0: Ctx<T>, ghost s0: Tree<T>)
      requires Shaped() && tree == Plug(c0, s0) && FixInv(c0, s0) && s0.id == n
      modifies this
      ensures Shaped() && RedBlack(tree)
      ensures Kept(old(nodes), nodes, old(IdSet(tree))) && size == old(size)
      ensures Ids(tree) == old(Ids(tree)) && Vals(tree) == old(Vals(tree))
      ensures IdSet(tree) == old(IdSet(tree))
    {
      var z := n;
      ghost var zc, zs := c0, s0;
      AtHole(zc, zs, nodes);
      while nodes[nodes[z].p].c == Red
        invariant Shaped() && tree == Plug(zc, zs) && FixInv(zc, zs) && zs.id == z
        invariant z < |nodes| && nodes[z].p < |nodes| && (nodes[nodes[z].p].c == Red <==> !zc.Top? && zc.color == Red)
        invariant Kept(old(nodes), nodes, old(IdSet(tree))) && size == old(size)
        invariant Ids(tree) == old(Ids(tree)) && Vals(tree) == old(Vals(tree))
        invariant IdSet(tree) == old(IdSet(tree))
        decreases Depth(zc)
      {
        ghost var n0 := nodes;
        z, zc, zs := FixStep(z, zc, zs);
        KeptTrans(old(nodes), n0, nodes, old(IdSet(tree)));
        AtHole(zc, zs, nodes);
      }
      FixDone(zc, zs);
      BlackenRoot(tree);
      ghost var n0 := nodes;
      Paint(root, Black, Top, tree);
      KeptTrans(old(nodes), n0, nodes, old(IdSet(tree)));
    }

    /** One pass of the `insert_fixup` loop: with a red parent, look at the
        uncle on the other side of the grandparent and apply case 1 or cases
        2 and 3; the violation moves strictly up the path. */
    method FixStep(n: nat, ghost zc: Ctx<T>, ghost zs: Tree<T>)
      returns (z: nat, ghost zc': Ctx<T>, ghost zs': Tree<T>)
      requires Shaped() && tree == Plug(zc, zs) && FixInv(zc, zs) && zs.id == n
      requires !zc.Top? && zc.color == Red
      modifies this
      ensures Shaped() && tree == Plug(zc', zs') && FixInv(zc', zs') && zs'.id == z
      ensures Depth(zc') < Depth(zc)
      ensures Kept(old(nodes), nodes, old(IdSet(tree))) && size == old(size)
      ensures Ids(tree) == old(Ids(tree)) && Vals(tree) == old(Vals(tree))
      ensures IdSet(tree) == old(IdSet(tree))
    {
      AtHole(zc, zs, nodes);
      GrandParent(zc, zs);
      var p := nodes[n].p;
      ghost var gc, ps := zc.up, Wrap(zc, zs);
      AtHole(gc, ps, nodes);
      var g := nodes[p].p;
      var y := if p == nodes[g].left then nodes[g].right else nodes[g].left;
      AtHole(if gc.InLeft? then InRight(ps, g, gc.val, gc.color, gc.up) else InLeft(gc.up, g, gc.val, gc.color, ps),
             Sib(gc), nodes);
      if nodes[y].c == Red {
        RecolorStep(zc, zs);
        z := FixRecolor(n, zc, zs);
        zs', zc' := Recolored(zc, zs), gc.up;
      } else {
        z, zc', zs' := FixRotate(n, zc, zs);
      }
    }

    /** Case 1 of `insert_fixup` (red uncle): the parent and the uncle turn
        black, the grandparent red, and the grandparent becomes `z`. */
    method FixRecolor(z: nat, ghost zc: Ctx<T>, ghost zs: Tree<T>) returns (g: nat)
      requires Shaped() && tree == Plug(zc, zs) && FixInv(zc, zs) && zs.id == z
      requires !zc.Top? && zc.color == Red && !zc.up.Top? && IsRed(Sib(zc.up))
      modifies this
      ensures Shaped() && tree == Plug(zc.up.up, Recolored(zc, zs)) && g == zc.up.id
      ensures Kept(old(nodes), nodes, old(IdSet(tree))) && size == old(size)
      ensures Ids(tree) == old(Ids(tree)) && Vals(tree) == old(Vals(tree))
      ensures IdSet(tree) == old(IdSet(tree))
    {
      AtHole(zc, zs, nodes);
      var p := nodes[z].p;
      ghost var gc, ps := zc.up, Wrap(zc, zs);
      AtHole(gc, ps, nodes);
      g := nodes[p].p;
      ghost var p1 := ps.(color := Black);
      ghost var live, n0 := IdSet(tree), nodes;
      var y := if p == nodes[g].left then nodes[g].right else nodes[g].left;
      Paint(p, Black, gc, ps);
      ghost var n1 := nodes;
      if p == nodes[g].left {
        Paint(y, Black, InRight(p1, g, gc.val, gc.color, gc.up), gc.right);
        KeptTrans(n0, n1, nodes, live);
        n1 := nodes;
        Paint(g, Red, gc.up, Br(p1, g, gc.val, gc.color, gc.right.(color := Black)));
      } else {
        Paint(y, Black, InLeft(gc.up, g, gc.val, gc.color, p1), gc.left);
        KeptTrans(n0, n1, nodes, live);
        n1 := nodes;
        Paint(g, Red, gc.up, Br(gc.left.(color := Black), g, gc.val, gc.color, p1));
      }
      KeptTrans(n0, n1, nodes, live);
    }

    /** Cases 2 and 3 of `insert_fixup` (black uncle): an inner `z` is first
        turned outer by a rotation at its parent, which becomes `z`; case 3
        then finishes. */
    method FixRotate(n: nat, ghost zc: Ctx<T>, ghost zs: Tree<T>)
      returns (z: nat, ghost zc': Ctx<T>, ghost zs': Tree<T>)
      requires Shaped() && tree == Plug(zc, zs) && FixInv(zc, zs) && zs.id == n
      requires !zc.Top? && zc.color == Red && !zc.up.Top? && !IsRed(Sib(zc.up))
      modifies this
      ensures Shaped() && tree == Plug(zc', zs') && FixInv(zc', zs') && zs'.id == z
      ensures !zc'.Top? && zc'.color == Black && Depth(zc') < Depth(zc)
      ensures Kept(old(nodes), nodes, old(IdSet(tree))) && size == old(size)
      ensures Ids(tree) == old(Ids(tree)) && Vals(tree) == old(Vals(tree))
      ensures IdSet(tree) == old(IdSet(tree))
    {
      GrandParent(zc, zs);
      AtHole(zc, zs, nodes);
      z, zc', zs' := n, zc, zs;
      var p := nodes[z].p;
      ghost var gc := zc.up;
      AtHole(gc, Wrap(zc, zs), nodes);
      var g := nodes[p].p;
      ghost var n0 := nodes;
      if p == nodes[g].left {
        if z == nodes[p].right {
          InnerStep(zc, zs);
          z := p;
          RotateLeft(z, gc, Wrap(zc, zs));
          zc', zs' := Straightened(zc, zs).0, Straightened(zc, zs).1;
        }
      } else {
        if z == nodes[p].left {
          InnerStep(zc, zs);
          z := p;
          RotateRight(z, gc, Wrap(zc, zs));
          zc', zs' := Straightened(zc, zs).0, Straightened(zc, zs).1;
        }
      }
      ghost var n1 := nodes;
      RotateStep(zc', zs');
      FixOuter(z, zc', zs');
      KeptTrans(n0, n1, nodes, IdSet(tree));
      zc' := Rotated(zc');
    }

    /** Case 3 of `insert_fixup` (black uncle, `z` on the outer side): the
        parent turns black, the grandparent red, and a rotation at the
        grandparent lifts the parent into its place. */
    method FixOuter(z: nat, ghost zc: Ctx<T>, ghost zs: Tree<T>)
      requires Shaped() && tree == Plug(zc, zs) && FixInv(zc, zs) && zs.id == z
      requires !zc.Top? && zc.color == Red && !zc.up.Top? && zc.InLeft? == zc.up.InLeft?
      modifies this
      ensures Shaped() && tree == Plug(Rotated(zc), zs)
      ensures Kept(old(nodes), nodes, old(IdSet(tree))) && size == old(size)
      ensures Ids(tree) == old(Ids(tree)) && Vals(tree) == old(Vals(tree))
      ensures IdSet(tree) == old(IdSet(tree))
    {
      AtHole(zc, zs, nodes);
      ghost var gc, ps := zc.up, Wrap(zc, zs);
      AtHole(gc, ps, nodes);
      ghost var live, n0 := IdSet(tree), nodes;
      var p := nodes[z].p;
      Paint(p, Black, gc, ps);
      ghost var n1 := nodes;
      var g := nodes[p].p;
      Paint(g, Red, gc.up, Wrap(gc, ps.(color := Black)));
      KeptTrans(n0, n1, nodes, live);
      n1 := nodes;
      assert tree == Plug(gc.up, Repainted(zc, zs));
      if p == nodes[g].left {
        RotateRight(g, gc.up, Repainted(zc, zs));
      } else {
        RotateLeft(g, gc.up, Repainted(zc, zs));
      }
      KeptTrans(n0, n1, nodes, live);
      RotatedPlug(zc, zs);
    }

    /** `transplant(u, v)`: hang `v` where `u` hangs below path `c`; only
        the parent's child slot, `v`'s parent slot and possibly `root`
        change.  `v` may be the sentinel, whose parent slot is then set. */
    method Transplant(u: nat, v: nat, ghost c: Ctx<T>)
      requires |nodes| > 0 && u < |nodes| && v < |nodes| && u != 0
      requires MatchCtx(c, u, 0, nodes) && DistinctCtx(c)
      requires u !in CtxIds(c) && v !in CtxIds(c)
      requires nodes[u].p == UpOr(c, 0)
      modifies this
      ensures |nodes| == old(|nodes|) && size == old(size) && tree == old(tree)
      ensures root == if c.Top? then v else old(root)
      ensures nodes[v] == old(nodes[v]).(p := UpOr(c, 0))
      ensures !c.Top? ==> nodes[c.id] == Rehung(c, old(nodes[c.id]), v)
      ensures forall j :: 0 <= j < |nodes| && j != v && (c.Top? || j != c.id) ==> nodes[j] == old(nodes[j])
      ensures MatchCtx(c, v, 0, nodes)
    {
      ghost var ns := nodes;
      MatchCtxBounds(c, u, 0, nodes);
      if nodes[u].p == 0 {
        root := v;
      } else if u == nodes[nodes[u].p].left {
        nodes := nodes[nodes[u].p := nodes[nodes[u].p].(left := v)];
      } else {
        nodes := nodes[nodes[u].p := nodes[nodes[u].p].(right := v)];
      }
      nodes := nodes[v := nodes[v].(p := nodes[u].p)];
      RehangAt(c, u, ns, nodes, v);
    }
  
    // -------------------------------------------------------------------
    // Removal

    /** `remove(key)`: when some node holds key `k` (the one `search`
        finds), it leaves the tree; otherwise nothing changes. */
    method Remove(k: int)
      requires Valid()
      modifies this
      ensures Valid()
      ensures old(Search(k)) == 0 ==>
        nodes == old(nodes) && root == old(root) && tree == old(tree) && size == old(size)
      ensures old(Search(k)) != 0 ==>
        var i := IndexOf(old(Ids(tree)), old(Search(k)));
        && i < |old(Elements())| && i < |old(Ids(tree))| && access(old(Elements())[i]) == k
        && Elements() == DropAt(old(Elements()), i) && Ids(tree) == DropAt(old(Ids(tree)), i)
        && IdSet(tree) == old(IdSet(tree)) - {old(Search(k))} && size == old(size) - 1
      ensures Kept(old(nodes), nodes, old(IdSet(tree)) + {0})
    {
      var z := Search(k);
      if z == 0 {
        return;
      }
      MatchKeys(tree, 0, nodes);
      DistinctNoDup(tree);
      IdsMembership(tree);
      IndexOfBound(Ids(tree), z);
      RemoveNode(z);
    }

    /** The body of `remove` once `search` has found node `z`: splice it
        out, run `remove_fixup` when the place that lost a node lost a black
        one, paint the root black, count one less and point the sentinel at
        the root. */
    method RemoveNode(z: nat)
      requires Valid() && z in IdSet(tree)
      modifies this
      ensures Valid()
      ensures var i := IndexOf(old(Ids(tree)), z);
        && i < |old(Ids(tree))| && i < |old(Elements())|
        && Elements() == DropAt(old(Elements()), i) && Ids(tree) == DropAt(old(Ids(tree)), i)
      ensures IdSet(tree) == old(IdSet(tree)) - {z} && size == old(size) - 1
      ensures Kept(old(nodes), nodes, old(IdSet(tree)) + {0})
    {
      ghost var (cz, zs) := Locate(tree, z, Top);
      ghost var t0, live := tree, IdSet(tree) + {0};
      ghost var i := |BeforeIds(cz)| + |Ids(zs.left)|;
      var x: nat, yColor: Color;
      ghost var xc: Ctx<T>, xs: Tree<T>;
      x, yColor, xc, xs := Splice(z, cz, zs);
      DropFacts(t0, tree, z, i, access);
      ghost var n1, slots := nodes, IdSet(tree);
      Rebalance(x, yColor, xc, xs);
      ghost var n2 := nodes;
      Reseat();
      KeptWiden(n1, n2, slots, live);
      KeptWiden(n2, nodes, {0}, live);
      KeptTrans(n1, n2, nodes, live);
      KeptTrans(old(nodes), n1, nodes, live);
    }

    /** `_size--` and `NIL->p = root`: the last steps of `remove`, once the
        tree has lost a node and the colour rules hold again. */
    method Reseat()
      requires Shaped() && RedBlack(tree) && SortedBy(Vals(tree), access) && size == |Ids(tree)| + 1
      modifies this
      ensures Valid() && tree == old(tree) && root == old(root) && size == old(size) - 1
      ensures Kept(old(nodes), nodes, {0})
    {
      size := size - 1;
      MatchBounds(tree, 0, nodes);
      MatchUpdate(tree, 0, nodes, 0, nodes[0].(p := root));
      nodes := nodes[0 := nodes[0].(p := root)];
    }

    /** `if (y_color == 'B') remove_fixup(x)` and `root->c = 'B'`: after
        the splice the colour rules hold again, with a black root. */
    method Rebalance(x: nat, yColor: Color, ghost xc: Ctx<T>, ghost xs: Tree<T>)
      requires Shaped() && tree == Plug(xc, xs) && x == Root(xs)
      requires x < |nodes| && nodes[x].p == UpOr(xc, 0)
      requires yColor == Black ==> Short(xc, xs)
      requires yColor == Red ==> RB(tree)
      modifies this
      ensures Shaped() && RedBlack(tree)
      ensures Kept(old(nodes), nodes, old(IdSet(tree))) && size == old(size)
      ensures Ids(tree) == old(Ids(tree)) && Vals(tree) == old(Vals(tree))
      ensures IdSet(tree) == old(IdSet(tree))
    {
      if yColor == Black {
        RemoveFixup(x, xc, xs);
      }
      ghost var n1 := nodes;
      if tree.Br? { BlackenRoot(tree); }
      PaintBlack(root, Top, tree);
      KeptTrans(old(nodes), n1, nodes, old(IdSet(tree)));
    }

    /** `x->c = 'B'` and `root->c = 'B'`: paint the top of subtree `s` below
        path `c` black; for an empty subtree that is the sentinel, which is
        black already. */
    method PaintBlack(n: nat, ghost c: Ctx<T>, ghost s: Tree<T>)
      requires Shaped() && tree == Plug(c, s) && n == Root(s)
      modifies this
      ensures Shaped() && tree == Plug(c, BlackTop(s))
      ensures n < |old(nodes)| && nodes == old(nodes)[n := old(nodes)[n].(c := Black)] && root == old(root)
      ensures Kept(old(nodes), nodes, old(IdSet(tree))) && size == old(size)
      ensures Ids(tree) == old(Ids(tree)) && Vals(tree) == old(Vals(tree))
      ensures IdSet(tree) == old(IdSet(tree))
    {
      AtHole(c, s, nodes);
      if s.Br? {
        PaintLayout(c, s, nodes, Black);
        PaintKept(c, s, nodes, Black);
        PlugPaint(c, s, Black);
      } else {
        assert nodes[n := nodes[n].(c := Black)] == nodes;
      }
      nodes := nodes[n := nodes[n].(c := Black)];
      tree := Plug(c, BlackTop(s));
    }

    /** The splicing part of `remove`: take node `z` (the top of `zs` below
        path `cz`) out of the tree.  With an empty side it is replaced by its
        other child; otherwise its successor `y` takes its place and colour.
        `x` is the node that moved into the place that lost a node (the
        sentinel if none did) and `yColor` the colour that place lost: when
        it was black, the subtree at `x` is one black node short. */
    method Splice(z: nat, ghost cz: Ctx<T>, ghost zs: Tree<T>)
      returns (x: nat, yColor: Color, ghost xc: Ctx<T>, ghost xs: Tree<T>)
      requires Shaped() && RB(tree) && tree == Plug(cz, zs) && zs.Br? && zs.id == z
      modifies this
      ensures Shaped() && tree == Plug(xc, xs) && x == Root(xs)
      ensures x < |nodes| && nodes[x].p == UpOr(xc, 0)
      ensures yColor == Black ==> Short(xc, xs)
      ensures yColor == Red ==> RB(tree)
      ensures var i := |BeforeIds(cz)| + |Ids(zs.left)|;
        && i < |old(Ids(tree))| && old(Ids(tree))[i] == z && |old(Vals(tree))| == |old(Ids(tree))|
        && Ids(tree) == DropAt(old(Ids(tree)), i) && Vals(tree) == DropAt(old(Vals(tree)), i)
      ensures Kept(old(nodes), nodes, old(IdSet(tree)) + {0}) && size == old(size)
    {
      CutFacts(cz, zs, nodes);
      yColor := nodes[z].c;
      if nodes[z].left == 0 {
        x := nodes[z].right;
        ghost var ns := nodes;
        Transplant(z, x, cz);
        SpliceChildLayout(cz, zs, zs.right, ns, nodes);
        SpliceRB(cz, zs, zs.right);
        SpliceOrder(cz, zs, zs.right);
        if !cz.Top? { PlugTopColor(cz, zs, zs.right); }
        xc, xs := cz, zs.right;
        tree := Plug(cz, zs.right);
      } else if nodes[z].right == 0 {
        x := nodes[z].left;
        ghost var ns := nodes;
        Transplant(z, x, cz);
        SpliceChildLayout(cz, zs, zs.left, ns, nodes);
        SpliceRB(cz, zs, zs.left);
        SpliceOrder(cz, zs, zs.left);
        if !cz.Top? { PlugTopColor(cz, zs, zs.left); }
        xc, xs := cz, zs.left;
        tree := Plug(cz, zs.left);
      } else {
        x, yColor, xc, xs := SpliceSuccessor(z, cz, zs);
      }
    }

    /** The two-children case of `remove`: `y := min_helper(z->right)` is
        cut out of its place (its right subtree takes it) unless it is
        `z`'s own right child, and then `y` replaces `z`, taking over `z`'s
        left subtree and colour. */
    method SpliceSuccessor(z: nat, ghost cz: Ctx<T>, ghost zs: Tree<T>)
      returns (x: nat, yColor: Color, ghost xc: Ctx<T>, ghost xs: Tree<T>)
      requires Shaped() && RB(tree) && tree == Plug(cz, zs) && zs.Br? && zs.id == z
      requires zs.left.Br? && zs.right.Br?
      modifies this
      ensures Shaped() && tree == Plug(xc, xs) && x == Root(xs)
      ensures x < |nodes| && nodes[x].p == UpOr(xc, 0)
      ensures yColor == Black ==> Short(xc, xs)
      ensures yColor == Red ==> RB(tree)
      ensures var i := |BeforeIds(cz)| + |Ids(zs.left)|;
        && i < |old(Ids(tree))| && old(Ids(tree))[i] == z && |old(Vals(tree))| == |old(Ids(tree))|
        && Ids(tree) == DropAt(old(Ids(tree)), i) && Vals(tree) == DropAt(old(Vals(tree)), i)
      ensures Kept(old(nodes), nodes, old(IdSet(tree)) + {0}) && size == old(size)
    {
      ghost var (cy, ys) := MinPath(zs.right, Top);
      ghost var a, zcol := zs.left, zs.color;
      var y: nat;
      y, yColor, x := UnhookSuccessor(z, cz, zs, cy, ys);
      ghost var rt := Plug(cy, ys.right);
      ghost var n1, live := nodes, old(IdSet(tree)) + {0};
      PlugIdSet(cz, zs);
      if !cz.Top? { PlugTopColor(cz, zs, Br(a, y, ys.val, zcol, rt)); }
      SpliceTail(z, y, cz, a, ys.val, zcol, rt);
      KeptWiden(n1, nodes, CtxIds(cz) + IdSet(a) + {y}, live);
      KeptTrans(old(nodes), n1, nodes, live);
      SuccessorRB(cz, zs, cy, ys);
      SuccessorOrder(cz, zs, cy, ys);
      xc := Graft(cy, InRight(a, y, ys.val, zcol, cz));
      xs := ys.right;
      AtHole(xc, xs, nodes);
    }

    /** The first half of the two-children case of `remove`: find the
        successor `y` (the minimum of `z`'s right subtree) and unhook it,
        leaving every link ready for `y` to take `z`'s place. */
    method UnhookSuccessor(z: nat, ghost cz: Ctx<T>, ghost zs: Tree<T>, ghost cy: Ctx<T>, ghost ys: Tree<T>)
      returns (y: nat, yColor: Color, x: nat)
      requires Shaped() && tree == Plug(cz, zs) && zs.Br? && zs.id == z
      requires zs.left.Br? && zs.right.Br? && (cy, ys) == MinPath(zs.right, Top)
      modifies this
      ensures y == ys.id && yColor == ys.color && x == Root(ys.right) && y in IdSet(zs.right)
      ensures TailReady(cz, zs.left, z, y, ys.val, zs.color, Plug(cy, ys.right), nodes)
      ensures root == old(root) && size == old(size) && tree == old(tree)
      ensures Kept(old(nodes), nodes, old(IdSet(tree)) + {0})
      ensures ys.right.Leaf? ==> nodes[0].p == (if cy.Top? then y else cy.id)
    {
      CutFacts(cz, zs, nodes);
      ghost var a, zcol := zs.left, zs.color;
      ghost var yc := Graft(cy, InRight(a, z, zs.val, zcol, cz));
      PlugGraft(cy, InRight(a, z, zs.val, zcol, cz), ys);
      y := MinHelper(nodes, nodes[z].right, zs.right, z);
      AtHole(yc, ys, nodes);
      SuccessorParent(cz, zs, cy, ys);
      yColor := nodes[y].c;
      x := nodes[y].right;
      PlugIdSet(cz, zs);
      if nodes[y].p == z {
        nodes := nodes[x := nodes[x].(p := y)];
        AdjacentReady(cz, zs, old(nodes), nodes);
      } else {
        DetachSuccessor(z, y, x, cz, zs, cy, ys);
      }
    }

    /** `transplant(y, y->right)`, `y->right = z->right` and
        `y->right->p = y`: the successor `y`, lying deeper than `z`'s right
        child, leaves its place to its right subtree and adopts `z`'s right
        subtree. */
    method DetachSuccessor(z: nat, y: nat, x: nat, ghost cz: Ctx<T>, ghost zs: Tree<T>,
                           ghost cy: Ctx<T>, ghost ys: Tree<T>)
      requires Shaped() && tree == Plug(cz, zs) && zs.Br? && zs.id == z && zs.left.Br?
      requires ys.Br? && ys.left.Leaf? && Plug(cy, ys) == zs.right && !cy.Top?
      requires y == ys.id && x == Root(ys.right)
      modifies this
      ensures TailReady(cz, zs.left, z, y, ys.val, zs.color, Plug(cy, ys.right), nodes)
      ensures root == old(root) && size == old(size) && tree == old(tree)
      ensures Kept(old(nodes), nodes, old(IdSet(tree)) + {0})
      ensures ys.right.Leaf? ==> nodes[0].p == cy.id
    {
      ghost var o := InRight(zs.left, z, zs.val, zs.color, cz);
      ghost var yc := Graft(cy, o);
      ghost var rt := Plug(cy, ys.right);
      ghost var live := IdSet(tree) + {0};
      PlugGraft(cy, o, ys);
      PlugGraft(cy, o, ys.right);
      PlugRootIn(cy, ys.right);
      PlugIdSet(yc, ys);
      CutFacts(yc, ys, nodes);
      AtHole(yc, ys, nodes);
      assert yc.id in CtxIds(yc);
      ghost var ns := nodes;
      Transplant(y, x, yc);
      SpliceChildLayout(yc, ys, ys.right, ns, nodes);
      ghost var t1 := Br(zs.left, z, zs.val, zs.color, rt);
      assert Plug(yc, ys.right) == Plug(cz, t1);
      ghost var n1 := nodes;
      AdoptRight(z, y, cz, zs.left, zs.val, zs.color, rt, ys.val);
      KeptWiden(n1, nodes, IdSet(Plug(cz, t1)) + {y}, live);
      KeptTrans(old(nodes), n1, nodes, live);
    }

    /** `y->right = z->right` and `y->right->p = y`: the successor `y`, cut
        out of the tree, adopts `z`'s right subtree `rt`. */
    method AdoptRight(z: nat, y: nat, ghost c: Ctx<T>, ghost a: Tree<T>, ghost vz: T, ghost col: Color,
                      ghost rt: Tree<T>, ghost vy: T)
      requires Linked(Plug(c, Br(a, z, vz, col, rt)), nodes) && a.Br? && rt.Br?
      requires 0 < y < |nodes| && y !in IdSet(Plug(c, Br(a, z, vz, col, rt)))
      requires nodes[y].key == vy && !nodes[y].isNil
      modifies this
      ensures TailReady(c, a, z, y, vy, col, rt, nodes)
      ensures Kept(old(nodes), nodes, IdSet(Plug(c, Br(a, z, vz, col, rt))) + {y})
      ensures nodes[0] == old(nodes[0]) && root == old(root) && size == old(size) && tree == old(tree)
    {
      ghost var t1 := Br(a, z, vz, col, rt);
      AtHole(c, t1, nodes);
      PlugIdSet(c, t1);
      assert rt.id in IdSet(t1);
      var st := nodes;
      st := st[y := st[y].(right := st[z].right)];
      st := st[st[y].right := st[st[y].right].(p := y)];
      DetachedReady(c, a, z, vz, col, rt, y, vy, nodes, st);
      nodes := st;
    }

    /** `transplant(z, y)`, `y->left = z->left`, `y->left->p = y` and
        `y->c = z->c`: the successor `y` takes `z`'s place, left subtree and
        colour. */
    method SpliceTail(z: nat, y: nat, ghost c: Ctx<T>, ghost a: Tree<T>, ghost vy: T, ghost col: Color,
                      ghost rt: Tree<T>)
      requires TailReady(c, a, z, y, vy, col, rt, nodes)
      requires !c.Top? ==> root == Root(Plug(c, Br(a, y, vy, col, rt)))
      modifies this
      ensures Shaped() && tree == Plug(c, Br(a, y, vy, col, rt))
      ensures Kept(old(nodes), nodes, CtxIds(c) + IdSet(a) + {y}) && nodes[0] == old(nodes[0])
      ensures size == old(size)
    {
      ghost var ns := nodes;
      ghost var n := Br(a, y, vy, col, rt);
      PlugDistinct(c, n);
      assert y in IdSet(n) && a.id in IdSet(a) && a.id in IdSet(n);
      if !c.Top? { assert c.id in CtxIds(c); }
      Transplant(z, y, c);
      var st := nodes;
      st := st[y := st[y].(left := st[z].left)];
      st := st[st[y].left := st[st[y].left].(p := y)];
      st := st[y := st[y].(c := st[z].c)];
      TailLayout(c, a, z, y, vy, col, rt, ns, st);
      nodes := st;
      tree := Plug(c, n);
    }
  
    /** `remove_fixup(x)`: while `x` is a black non-root node whose subtree
        is one black node short, apply the four cases on its side; each round
        moves the shortage up or ends it.  Finally `x` is painted black and
        the colour rules hold again. */
    method RemoveFixup(x0: nat, ghost c0: Ctx<T>, ghost s0: Tree<T>)
      requires Shaped() && tree == Plug(c0, s0) && Short(c0, s0) && x0 == Root(s0)
      requires x0 < |nodes| && nodes[x0].p == UpOr(c0, 0)
      modifies this
      ensures Shaped() && RB(tree)
      ensures Kept(old(nodes), nodes, old(IdSet(tree))) && size == old(size)
      ensures Ids(tree) == old(Ids(tree)) && Vals(tree) == old(Vals(tree))
      ensures IdSet(tree) == old(IdSet(tree))
    {
      var x := x0;
      ghost var xc, xs := c0, s0;
      LoopFacts(xc, xs, nodes, root);
      while x != root && nodes[x].c == Black
        invariant Shaped() && tree == Plug(xc, xs) && Short(xc, xs) && x == Root(xs)
        invariant x < |nodes| && nodes[x].p == UpOr(xc, 0)
        invariant Kept(old(nodes), nodes, old(IdSet(tree))) && size == old(size)
        invariant Ids(tree) == old(Ids(tree)) && Vals(tree) == old(Vals(tree))
        invariant IdSet(tree) == old(IdSet(tree))
        decreases ShortMeasure(xc, xs)
      {
        LoopFacts(xc, xs, nodes, root);
        SideTest(xc, xs, nodes);
        ghost var n0 := nodes;
        if x == nodes[nodes[x].p].left {
          x, xc, xs := FixLeft(x, xc, xs);
        } else {
          x, xc, xs := FixRight(x, xc, xs);
        }
        KeptTrans(old(nodes), n0, nodes, old(IdSet(tree)));
      }
      LoopFacts(xc, xs, nodes, root);
      ShortDone(xc, xs);
      ghost var n0 := nodes;
      PaintBlack(x, xc, xs);
      KeptTrans(old(nodes), n0, nodes, old(IdSet(tree)));
    }

    /** One round of `remove_fixup` for a left child `x`: make the sibling
        black (case 1), then either push the shortage up to the parent
        (case 2) or end it with one or two rotations (cases 3 and 4). */
    method FixLeft(x: nat, ghost c: Ctx<T>, ghost s: Tree<T>) returns (x': nat, ghost c': Ctx<T>, ghost s': Tree<T>)
      requires Shaped() && tree == Plug(c, s) && Short(c, s) && !IsRed(s) && c.InLeft?
      requires x == Root(s) && x < |nodes| && nodes[x].p == c.id
      modifies this
      ensures Shaped() && tree == Plug(c', s') && Short(c', s') && x' == Root(s')
      ensures x' < |nodes| && nodes[x'].p == UpOr(c', 0)
      ensures ShortMeasure(c', s') < ShortMeasure(c, s)
      ensures Kept(old(nodes), nodes, old(IdSet(tree))) && size == old(size)
      ensures Ids(tree) == old(Ids(tree)) && Vals(tree) == old(Vals(tree))
      ensures IdSet(tree) == old(IdSet(tree))
    {
      var p := nodes[x].p;
      var w: nat;
      ghost var cc: Ctx<T>;
      w, cc := BlackSiblingLeft(p, c, s);
      NephewsL(cc, s, nodes);
      ghost var n1, live := nodes, IdSet(tree);
      if nodes[nodes[w].left].c == Black && nodes[nodes[w].right].c == Black {
        Paint(w, Red, InRight(s, p, cc.val, cc.color, cc.up), cc.right);
        BlackNephewsL(cc, s);
        x' := p;
        c', s' := cc.up, Br(s, p, cc.val, cc.color, cc.right.(color := Red));
        AtHole(c', s', nodes);
      } else {
        FarNephewLeft(w, p, cc, s);
        x' := root;
        c', s' := Top, tree;
        BlackenRoot(tree);
        AtHole(c', s', nodes);
      }
      KeptTrans(old(nodes), n1, nodes, live);
    }

    /** One round of `remove_fixup` for a right child `x` (the mirror
        image of `FixLeft`). */
    method FixRight(x: nat, ghost c: Ctx<T>, ghost s: Tree<T>) returns (x': nat, ghost c': Ctx<T>, ghost s': Tree<T>)
      requires Shaped() && tree == Plug(c, s) && Short(c, s) && !IsRed(s) && c.InRight?
      requires x == Root(s) && x < |nodes| && nodes[x].p == c.id
      modifies this
      ensures Shaped() && tree == Plug(c', s') && Short(c', s') && x' == Root(s')
      ensures x' < |nodes| && nodes[x'].p == UpOr(c', 0)
      ensures ShortMeasure(c', s') < ShortMeasure(c, s)
      ensures Kept(old(nodes), nodes, old(IdSet(tree))) && size == old(size)
      ensures Ids(tree) == old(Ids(tree)) && Vals(tree) == old(Vals(tree))
      ensures IdSet(tree) == old(IdSet(tree))
    {
      var p := nodes[x].p;
      var w: nat;
      ghost var cc: Ctx<T>;
      w, cc := BlackSiblingRight(p, c, s);
      NephewsR(cc, s, nodes);
      ghost var n1, live := nodes, IdSet(tree);
      if nodes[nodes[w].right].c == Black && nodes[nodes[w].left].c == Black {
        Paint(w, Red, InLeft(cc.up, p, cc.val, cc.color, s), cc.left);
        BlackNephewsR(cc, s);
        x' := p;
        c', s' := cc.up, Br(cc.left.(color := Red), p, cc.val, cc.color, s);
        AtHole(c', s', nodes);
      } else {
        FarNephewRight(w, p, cc, s);
        x' := root;
        c', s' := Top, tree;
        BlackenRoot(tree);
        AtHole(c', s', nodes);
      }
      KeptTrans(old(nodes), n1, nodes, live);
    }

    /** The opening of a round for a left child: `w = x->p->right`, and when
        `w` is red, case 1 turns it black and takes `w` again.  The
        shortage stays at `x`, now beside a black sibling; if the parent
        became red, one more step up ends the loop. */
    method BlackSiblingLeft(p: nat, ghost c: Ctx<T>, ghost s: Tree<T>) returns (w: nat, ghost cc: Ctx<T>)
      requires Shaped() && tree == Plug(c, s) && Short(c, s) && c.InLeft? && c.id == p
      modifies this
      ensures Shaped() && tree == Plug(cc, s) && Short(cc, s)
      ensures cc.InLeft? && cc.id == p && cc.right.Br? && cc.right.id == w && !IsRed(cc.right)
      ensures Depth(cc.up) + (if cc.color == Red then 0 else 1) <= Depth(c)
      ensures Kept(old(nodes), nodes, old(IdSet(tree))) && size == old(size)
      ensures Ids(tree) == old(Ids(tree)) && Vals(tree) == old(Vals(tree))
      ensures IdSet(tree) == old(IdSet(tree))
    {
      SiblingReal(c, s);
      NephewsL(c, s, nodes);
      cc := c;
      w := nodes[p].right;
      if nodes[w].c == Red {
        LiftLeft(p, c, s);
        RedSiblingL(c, s);
        cc := LiftL(c);
        NephewsL(cc, s, nodes);
        w := nodes[p].right;
      }
    }

    method BlackSiblingRight(p: nat, ghost c: Ctx<T>, ghost s: Tree<T>) returns (w: nat, ghost cc: Ctx<T>)
      requires Shaped() && tree == Plug(c, s) && Short(c, s) && c.InRight? && c.id == p
      modifies this
      ensures Shaped() && tree == Plug(cc, s) && Short(cc, s)
      ensures cc.InRight? && cc.id == p && cc.left.Br? && cc.left.id == w && !IsRed(cc.left)
      ensures Depth(cc.up) + (if cc.color == Red then 0 else 1) <= Depth(c)
      ensures Kept(old(nodes), nodes, old(IdSet(tree))) && size == old(size)
      ensures Ids(tree) == old(Ids(tree)) && Vals(tree) == old(Vals(tree))
      ensures IdSet(tree) == old(IdSet(tree))
    {
      SiblingReal(c, s);
      NephewsR(c, s, nodes);
      cc := c;
      w := nodes[p].left;
      if nodes[w].c == Red {
        LiftRight(p, c, s);
        RedSiblingR(c, s);
        cc := LiftR(c);
        NephewsR(cc, s, nodes);
        w := nodes[p].left;
      }
    }

    /** Cases 3 and 4 for a left child: the black sibling `w` has a red
        child.  A red near child is first turned into a red far child
        (case 3); case 4 then restores the colour rules for the whole
        tree. */
    method FarNephewLeft(w0: nat, p: nat, ghost c: Ctx<T>, ghost s: Tree<T>)
      requires Shaped() && tree == Plug(c, s) && Short(c, s) && !IsRed(s) && c.InLeft? && c.id == p
      requires c.right.Br? && c.right.id == w0 && !IsRed(c.right)
      requires IsRed(c.right.left) || IsRed(c.right.right)
      modifies this
      ensures Shaped() && RB(tree) && p in IdSet(tree)
      ensures Kept(old(nodes), nodes, old(IdSet(tree))) && size == old(size)
      ensures Ids(tree) == old(Ids(tree)) && Vals(tree) == old(Vals(tree))
      ensures IdSet(tree) == old(IdSet(tree))
    {
      AtHole(c, s, nodes);
      NephewsL(c, s, nodes);
      var w := w0;
      ghost var cc, n0, live := c, nodes, IdSet(tree);
      if nodes[nodes[w].right].c == Black {
        TurnLeft(w, c, s);
        InnerNephewL(c, s);
        cc := TurnedL(c);
        NephewsL(cc, s, nodes);
        w := nodes[p].right;
      }
      ghost var n1 := nodes;
      OuterNephewL(cc, s);
      FinishLeft(w, p, cc, s);
      KeptTrans(n0, n1, nodes, live);
    }

    method FarNephewRight(w0: nat, p: nat, ghost c: Ctx<T>, ghost s: Tree<T>)
      requires Shaped() && tree == Plug(c, s) && Short(c, s) && !IsRed(s) && c.InRight? && c.id == p
      requires c.left.Br? && c.left.id == w0 && !IsRed(c.left)
      requires IsRed(c.left.right) || IsRed(c.left.left)
      modifies this
      ensures Shaped() && RB(tree) && p in IdSet(tree)
      ensures Kept(old(nodes), nodes, old(IdSet(tree))) && size == old(size)
      ensures Ids(tree) == old(Ids(tree)) && Vals(tree) == old(Vals(tree))
      ensures IdSet(tree) == old(IdSet(tree))
    {
      AtHole(c, s, nodes);
      NephewsR(c, s, nodes);
      var w := w0;
      ghost var cc, n0, live := c, nodes, IdSet(tree);
      if nodes[nodes[w].left].c == Black {
        TurnRight(w, c, s);
        InnerNephewR(c, s);
        cc := TurnedR(c);
        NephewsR(cc, s, nodes);
        w := nodes[p].left;
      }
      ghost var n1 := nodes;
      OuterNephewR(cc, s);
      FinishRight(w, p, cc, s);
      KeptTrans(n0, n1, nodes, live);
    }

    /** Case 1 for a left child (red sibling `w`): `w->c = 'B'`,
        `x->p->c = 'R'`, `rotateLeft(x->p)`. */
    method LiftLeft(p: nat, ghost c: Ctx<T>, ghost s: Tree<T>)
      requires Shaped() && tree == Plug(c, s) && c.InLeft? && c.id == p && c.right.Br?
      modifies this
      ensures Shaped() && tree == Plug(c.up, RotL(Br(s, p, c.val, Red, c.right.(color := Black))))
      ensures Kept(old(nodes), nodes, old(IdSet(tree))) && size == old(size)
      ensures Ids(tree) == old(Ids(tree)) && Vals(tree) == old(Vals(tree))
      ensures IdSet(tree) == old(IdSet(tree))
    {
      NephewsL(c, s, nodes);
      ghost var n0, live := nodes, IdSet(tree);
      var w := nodes[p].right;
      Paint(w, Black, InRight(s, p, c.val, c.color, c.up), c.right);
      ghost var n1 := nodes;
      Paint(p, Red, c.up, Br(s, p, c.val, c.color, c.right.(color := Black)));
      KeptTrans(n0, n1, nodes, live);
      n1 := nodes;
      RotateLeft(p, c.up, Br(s, p, c.val, Red, c.right.(color := Black)));
      KeptTrans(n0, n1, nodes, live);
    }

    /** Case 1 for a right child: `w->c = 'B'`, `x->p->c = 'R'`,
        `rotateRight(x->p)`. */
    method LiftRight(p: nat, ghost c: Ctx<T>, ghost s: Tree<T>)
      requires Shaped() && tree == Plug(c, s) && c.InRight? && c.id == p && c.left.Br?
      modifies this
      ensures Shaped() && tree == Plug(c.up, RotR(Br(c.left.(color := Black), p, c.val, Red, s)))
      ensures Kept(old(nodes), nodes, old(IdSet(tree))) && size == old(size)
      ensures Ids(tree) == old(Ids(tree)) && Vals(tree) == old(Vals(tree))
      ensures IdSet(tree) == old(IdSet(tree))
    {
      NephewsR(c, s, nodes);
      ghost var n0, live := nodes, IdSet(tree);
      var w := nodes[p].left;
      Paint(w, Black, InLeft(c.up, p, c.val, c.color, s), c.left);
      ghost var n1 := nodes;
      Paint(p, Red, c.up, Br(c.left.(color := Black), p, c.val, c.color, s));
      KeptTrans(n0, n1, nodes, live);
      n1 := nodes;
      RotateRight(p, c.up, Br(c.left.(color := Black), p, c.val, Red, s));
      KeptTrans(n0, n1, nodes, live);
    }

    /** Case 3 for a left child (black sibling `w`, black far nephew):
        `w->left->c = 'B'`, `w->c = 'R'`, `rotateRight(w)`. */
    method TurnLeft(w: nat, ghost c: Ctx<T>, ghost s: Tree<T>)
      requires Shaped() && tree == Plug(c, s) && c.InLeft? && c.right.Br? && c.right.id == w
      requires c.right.left.Br?
      modifies this
      ensures Shaped() && tree == Plug(TurnedL(c), s)
      ensures Kept(old(nodes), nodes, old(IdSet(tree))) && size == old(size)
      ensures Ids(tree) == old(Ids(tree)) && Vals(tree) == old(Vals(tree))
      ensures IdSet(tree) == old(IdSet(tree))
    {
      NephewsL(c, s, nodes);
      ghost var o := InRight(s, c.id, c.val, c.color, c.up);
      ghost var wt, n0, live := c.right, nodes, IdSet(tree);
      var wl := nodes[w].left;
      Paint(wl, Black, InLeft(o, w, wt.val, wt.color, wt.right), wt.left);
      ghost var n1 := nodes;
      Paint(w, Red, o, wt.(left := wt.left.(color := Black)));
      KeptTrans(n0, n1, nodes, live);
      n1 := nodes;
      RotateRight(w, o, Br(wt.left.(color := Black), w, wt.val, Red, wt.right));
      KeptTrans(n0, n1, nodes, live);
    }

    /** Case 3 for a right child: `w->right->c = 'B'`, `w->c = 'R'`,
        `rotateLeft(w)`. */
    method TurnRight(w: nat, ghost c: Ctx<T>, ghost s: Tree<T>)
      requires Shaped() && tree == Plug(c, s) && c.InRight? && c.left.Br? && c.left.id == w
      requires c.left.right.Br?
      modifies this
      ensures Shaped() && tree == Plug(TurnedR(c), s)
      ensures Kept(old(nodes), nodes, old(IdSet(tree))) && size == old(size)
      ensures Ids(tree) == old(Ids(tree)) && Vals(tree) == old(Vals(tree))
      ensures IdSet(tree) == old(IdSet(tree))
    {
      NephewsR(c, s, nodes);
      ghost var o := InLeft(c.up, c.id, c.val, c.color, s);
      ghost var wt, n0, live := c.left, nodes, IdSet(tree);
      var wr := nodes[w].right;
      Paint(wr, Black, InRight(wt.left, w, wt.val, wt.color, o), wt.right);
      ghost var n1 := nodes;
      Paint(w, Red, o, wt.(right := wt.right.(color := Black)));
      KeptTrans(n0, n1, nodes, live);
      n1 := nodes;
      RotateLeft(w, o, Br(wt.left, w, wt.val, Red, wt.right.(color := Black)));
      KeptTrans(n0, n1, nodes, live);
    }

    /** Case 4 for a left child (black sibling `w`, red far nephew):
        `w->c = x->p->c`, `x->p->c = 'B'`, `w->right->c = 'B'`,
        `rotateLeft(x->p)`. */
    method FinishLeft(w: nat, p: nat, ghost c: Ctx<T>, ghost s: Tree<T>)
      requires Shaped() && tree == Plug(c, s) && c.InLeft? && c.id == p
      requires c.right.Br? && c.right.id == w && c.right.right.Br?
      modifies this
      ensures var wt := c.right;
        Shaped() && tree == Plug(c.up, RotL(Br(s, p, c.val, Black,
                                               Br(wt.left, w, wt.val, c.color, wt.right.(color := Black)))))
      ensures Kept(old(nodes), nodes, old(IdSet(tree))) && size == old(size)
      ensures Ids(tree) == old(Ids(tree)) && Vals(tree) == old(Vals(tree))
      ensures IdSet(tree) == old(IdSet(tree))
    {
      NephewsL(c, s, nodes);
      ghost var wt, n0, live := c.right, nodes, IdSet(tree);
      Paint(w, nodes[p].c, InRight(s, p, c.val, c.color, c.up), wt);
      ghost var n1 := nodes;
      Paint(p, Black, c.up, Br(s, p, c.val, c.color, wt.(color := c.color)));
      KeptTrans(n0, n1, nodes, live);
      n1 := nodes;
      var wr := nodes[w].right;
      Paint(wr, Black, InRight(wt.left, w, wt.val, c.color, InRight(s, p, c.val, Black, c.up)), wt.right);
      KeptTrans(n0, n1, nodes, live);
      n1 := nodes;
      RotateLeft(p, c.up, Br(s, p, c.val, Black, Br(wt.left, w, wt.val, c.color, wt.right.(color := Black))));
      KeptTrans(n0, n1, nodes, live);
    }

    /** Case 4 for a right child: `w->c = x->p->c`, `x->p->c = 'B'`,
        `w->left->c = 'B'`, `rotateRight(x->p)`. */
    method FinishRight(w: nat, p: nat, ghost c: Ctx<T>, ghost s: Tree<T>)
      requires Shaped() && tree == Plug(c, s) && c.InRight? && c.id == p
      requires c.left.Br? && c.left.id == w && c.left.left.Br?
      modifies this
      ensures var wt := c.left;
        Shaped() && tree == Plug(c.up, RotR(Br(Br(wt.left.(color := Black), w, wt.val, c.color, wt.right),
                                               p, c.val, Black, s)))
      ensures Kept(old(nodes), nodes, old(IdSet(tree))) && size == old(size)
      ensures Ids(tree) == old(Ids(tree)) && Vals(tree) == old(Vals(tree))
      ensures IdSet(tree) == old(IdSet(tree))
    {
      NephewsR(c, s, nodes);
      ghost var wt, n0, live := c.left, nodes, IdSet(tree);
      Paint(w, nodes[p].c, InLeft(c.up, p, c.val, c.color, s), wt);
      ghost var n1 := nodes;
      Paint(p, Black, c.up, Br(wt.(color := c.color), p, c.val, c.color, s));
      KeptTrans(n0, n1, nodes, live);
      n1 := nodes;
      var wl := nodes[w].left;
      Paint(wl, Black, InLeft(InLeft(c.up, p, c.val, Black, s), w, wt.val, c.color, wt.right), wt.left);
      KeptTrans(n0, n1, nodes, live);
      n1 := nodes;
      RotateRight(p, c.up, Br(Br(wt.left.(color := Black), w, wt.val, c.color, wt.right), p, c.val, Black, s));
      KeptTrans(n0, n1, nodes, live);
    }
  }
}
