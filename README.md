# ft_containers in Dafny

A model of the ft_containers library: the red-black tree engine `RBT`, its bidirectional
iterators, and the containers built on it — `ft::set` and `ft::map`. It also models
`ft::vector`, `ft::stack`, `ft::pair` and the two algorithms `ft::lexicographical_compare`
and `ft::equal`. Each operation is proved against a specification stated on values.

**The tree engine** (`rbt.dfy`, class `RedBlackTree.Rbt`):
- The node store is a sequence of `Node` records, addressed by slot number. Slot 0 is the
  sentinel `NIL`, so pointers become slot numbers and the pointer updates of the C++ code
  become updates of that sequence.
- A ghost tree (`RbShape.Tree`) records the shape the links describe. `Arena.Match` ties
  the two together.
- `Valid()` says that:
  - the links match the ghost tree;
  - the sentinel's parent link is the root;
  - `size` counts the nodes;
  - the payloads are sorted by the key extractor `access`;
  - the red-black rules hold.
- `Elements()`, the in-order sequence of payloads, is the abstract value. Every engine
  operation is stated on it, and every operation proves that it preserves `Valid()`.
  Rotations, insert fixup and remove fixup are therefore proved to keep the colour rules
  as well as the order.
- The ghost proof side lives in `rb_shape.dfy`, `arena.dfy`, `rotations.dfy`,
  `rb_insert.dfy` and `rb_remove.dfy`. Those files hold zipper contexts, the layout
  lemmas of each pointer update and the case lemmas of both fixups.

**Traversal and iterators** (`traversal.dfy`, `iterator.dfy`):
- `min_helper`, `max_helper`, `increment` and `decrement` are methods with loops.
- Each is proved to return the next or previous slot of the in-order slot sequence. The
  sentinel sits between the last and the first node.
- An iterator holds a slot.

**Set and map** (`set.dfy`, `map.dfy`):
- Both are a `Rbt` with unique keys (`unique_tree.dfy`). A set's key extractor is the
  identity; a map's is `first`.
- Their operations are stated on `Contents()` through the reference definitions in
  `unique_keys.dfy` and `key_order.dfy`:
  - `AddUnique` and `AddAll` for inserts;
  - `WithoutKey` and `DropAt` for erasures;
  - `LowerIndex` and `UpperIndex` for the bounds.

**Vector and stack** (`vector.dfy`, `stack.dfy`):
- `Vector` keeps a Dafny `array` as its buffer, together with `size` and `capacity`. Every
  method states the new contents and the new capacity.
- `Stack` is an adaptor over a `Vector`.

Keys of `set` and `map` are `int`, ordered by `<`. Payload types are generic. Where the C++
code compares payloads with `<`, that comparison is passed in as a function.

## Model

| member | source | states |
|---|---|---|
| Utility.MakePair | utility.hpp:71-75 | the pair holds the two arguments as `first` and `second` |
| Utility.Convert | utility.hpp:18-19 | the converting constructor converts each component on its own |
| Utility.Equal | utility.hpp:31-35 | two pairs are equal exactly when both components are equal |
| Utility.NotEqual | utility.hpp:37-41 | `!=` holds exactly when the pairs differ |
| Utility.LessIsStrictTotal | utility.hpp:43-51 | if both component orders are strict total orders, then pair `<` is one too |
| Utility.LessTrans | utility.hpp:43-51 | pair `<` is transitive |
| Utility.LessTotal | utility.hpp:43-51 | two distinct pairs are ordered one way or the other |
| Utility.ComparisonsAgree | utility.hpp:43-69 | exactly one of `<`, `==`, `>` holds; `<=` is `<` or `==`; `>=` is `>` or `==` |
| KeyOrder.LowerIndexSpec | RBT.hpp:86-101 | `lower_bound`'s index: every key before it is below `k`, and the key at it is not |
| KeyOrder.UpperIndexSpec | RBT.hpp:103-118 | `upper_bound`'s index: every key before it is at most `k`, and the key at it is above |
| KeyOrder.BoundsOrdered | RBT.hpp:86-118 | on sorted payloads the lower bound is not after the upper bound, and the keys between them are exactly `k` |
| KeyOrder.InsertSortedSpec | RBT.hpp:169-187 | inserting in order keeps the payloads sorted and adds exactly one copy of the payload |
| Algorithm.LexicographicalCompare | algorithm.hpp:5-18 | the loop's result is dictionary order (`LexLess`) of the two ranges |
| Algorithm.Equal | algorithm.hpp:20-33 | true exactly when the ranges have the same length and the same elements |
| Algorithm.FirstDifferenceDecides | algorithm.hpp:9-14 | after a run of ties, the first position where one element is below the other decides the result |
| Algorithm.PrefixComesFirst | algorithm.hpp:17 | when one range ties a prefix of the other, it is less exactly when it is shorter |
| Algorithm.LexIrreflexive | algorithm.hpp:5-18 | with an irreflexive `<`, no range is below itself |
| Algorithm.LexAsymmetric | algorithm.hpp:5-18 | with an asymmetric `<`, two ranges are never each below the other |
| Algorithm.LexTotal | algorithm.hpp:5-18 | with a total `<`, two different ranges are ordered one way or the other |
| Algorithm.LexTrichotomy | algorithm.hpp:5-18 | with a strict total `<`, exactly one of below, equal, above holds |
| Stacks.Stack.constructor | stack.hpp:18 | the stack holds the elements of the given container |
| Stacks.Stack.Copy | stack.hpp:20 | the copy holds the same elements |
| Stacks.Stack.Assign | stack.hpp:26-31 | afterwards the stack holds the other's elements and the other stack is unchanged; self-assignment changes nothing |
| Stacks.Stack.Top | stack.hpp:35-43 | the last element pushed |
| Stacks.Stack.Empty | stack.hpp:47-50 | true exactly when there are no elements |
| Stacks.Stack.Size | stack.hpp:52-55 | the number of elements |
| Stacks.Stack.Push | stack.hpp:59-62 | the value is appended and becomes the top; the size grows by one |
| Stacks.Stack.Pop | stack.hpp:64-67 | the last element is removed; the size shrinks by one |
| Stacks.StackEqual | stack.hpp:69-72 | true exactly when both stacks hold the same sequence |
| Stacks.StackNotEqual | stack.hpp:74-77 | true exactly when the sequences differ |
| Stacks.StackLess | stack.hpp:79-82 | dictionary order of the two sequences |
| Stacks.StackLessEq | stack.hpp:84-87 | not (rhs below lhs) |
| Stacks.StackGreater | stack.hpp:89-92 | rhs below lhs in dictionary order |
| Stacks.StackGreaterEq | stack.hpp:94-97 | not (lhs below rhs) |
| Vectors.Repeat | vector.hpp:55-56 | `count` copies of the value |
| Vectors.Grown | vector.hpp:403-406 | growth on a full push: afterwards there is room for one more element; the capacity never shrinks and stays put while there is room |
| Vectors.GrownBy | vector.hpp:434-436 | the capacity after `n` pushes: room for `n` more, never smaller, unchanged when there was room |
| Vectors.GrownFromEmpty | vector.hpp:403-406 | doubling from an empty buffer gives room for `n` elements in less than `2n` slots |
| Vectors.CopyAt | vector.hpp:301-308 | a copy loop: the destination's prefix up to `at` is kept and `src` follows it |
| Vectors.Vector.constructor | vector.hpp:41-42 | no elements and capacity 0 |
| Vectors.Vector.Filled | vector.hpp:47-66 | `count` copies of the value; capacity `count` |
| Vectors.Vector.Range | vector.hpp:68-91 | the elements of the range in order; capacity as left by pushes onto a buffer of `n / sizeof(T)` slots |
| Vectors.Vector.Copy | vector.hpp:93-109 | the same elements and the same capacity as the original |
| Vectors.Vector.CopyAssign | vector.hpp:156-180 | the other's elements and capacity; self-assignment keeps the buffer |
| Vectors.Vector.Assign | vector.hpp:111-128 | `count` copies of the value; capacity is the larger of the old capacity and `count` |
| Vectors.Vector.AssignRange | vector.hpp:130-141 | exactly the items; capacity as left by pushing them onto the cleared buffer |
| Vectors.Vector.At | vector.hpp:183-195 | corrected: the element at a position below `size()`, `out_of_range` at every other position |
| Vectors.Vector.AtGuardAsWritten | vector.hpp:185 | the guard as written admits every position up to and including `size()` |
| Vectors.AtPastEndCounterexample | vector.hpp:185 | on a vector of two elements, position 2 passes the written guard, while the corrected `at` reports `out_of_range` |
| Vectors.Vector.Subscript | vector.hpp:197-205 | the element at `pos`; agrees with `at` |
| Vectors.Vector.Front | vector.hpp:207-215 | the first element |
| Vectors.Vector.Back | vector.hpp:217-225 | the last element |
| Vectors.Vector.Empty | vector.hpp:238-241 | true exactly when there are no elements |
| Vectors.Vector.Size | vector.hpp:243-246 | the number of elements |
| Vectors.Vector.Capacity | vector.hpp:253-256 | never below the number of elements |
| Vectors.Vector.Clear | vector.hpp:260-265 | no elements; the buffer and capacity are kept |
| Vectors.Vector.InsertOne | vector.hpp:267-270 | the value is inserted at `pos`; the returned position holds it |
| Vectors.Vector.Insert | vector.hpp:272-315 | `count` copies are spliced in at `pos`; the returned position is `pos`; the capacity follows both branches (push-back fallback, exact reallocation) |
| Vectors.Vector.Rebuild | vector.hpp:280-313 | the reallocation: the new buffer holds the prefix, then the middle, then the suffix, at the new capacity |
| Vectors.Vector.InsertRangeAsWritten | vector.hpp:317-368 | the items are spliced in at `pos`, but the returned position is the item count |
| Vectors.RangeInsertCounterexample | vector.hpp:367 | inserting `[9, 9]` at 0 into `[5]` returns position 2, which holds 5, not the first inserted element |
| Vectors.Vector.InsertRange | vector.hpp:317-368 | corrected: the items are spliced in at `pos`, and the returned position starts them |
| Vectors.Vector.EraseOne | vector.hpp:370-373 | the element at `pos` is removed; the return is `pos` |
| Vectors.Vector.Erase | vector.hpp:375-397 | the elements in `[first, last)` are removed; the later ones close the gap; the capacity is kept; the return is `first` |
| Vectors.Vector.PushBack | vector.hpp:399-421 | the value is appended; the capacity follows `Grown` |
| Vectors.Vector.PopBack | vector.hpp:423-427 | the last element goes; the capacity is kept |
| Vectors.Vector.Resize | vector.hpp:429-437 | the contents are truncated or padded with the value to `count` |
| Vectors.Vector.Reserve | vector.hpp:439-471 | the contents are kept; the capacity becomes the larger of the old one and the request |
| Vectors.Vector.Swap | vector.hpp:513-520 | the intended exchange: the two vectors trade elements and capacities (also the free `swap`, vector.hpp:530-534) |
| Vectors.Less | vector.hpp:536-540 | dictionary order of the elements |
| Vectors.Greater | vector.hpp:542-546 | rhs below lhs in dictionary order |
| Vectors.GreaterEq | vector.hpp:548-552 | not (lhs below rhs) |
| Vectors.LessEq | vector.hpp:554-558 | not (rhs below lhs) |
| Vectors.Equal | vector.hpp:560-564 | true exactly when both hold the same sequence |
| Vectors.NotEqual | vector.hpp:566-570 | true exactly when the sequences differ |
| Vectors.PushThenPop | vector.hpp:399-427 | `pop_back()` right after `push_back(x)` leaves the elements as they were |
| Vectors.PopThenPush | vector.hpp:399-427 | on a non-empty vector, `push_back(back())` right after `pop_back()` leaves the elements as they were |
| Arena.NewNode | bidirectional_iterator.hpp:22-23 | a fresh node is red, not the sentinel, and holds the given payload and links |
| Arena.MatchKeys | RBT.hpp:496-521 | the i-th slot of the in-order slot sequence holds the i-th payload |
| Traversal.MinHelper | bidirectional_iterator.hpp:27-37 | the first slot of the subtree in order, or the sentinel for an empty subtree |
| Traversal.MaxHelper | bidirectional_iterator.hpp:40-51 | the last slot of the subtree in order, or the sentinel for an empty subtree |
| Traversal.ClimbRight | bidirectional_iterator.hpp:64-73 | climbing while the node is a right child ends at the in-order successor |
| Traversal.ClimbLeft | bidirectional_iterator.hpp:88-97 | climbing while the node is a left child ends at the in-order predecessor |
| Traversal.Increment | bidirectional_iterator.hpp:53-75 | the next slot in order; the last node leads to the sentinel and the sentinel to the first node |
| Traversal.Decrement | bidirectional_iterator.hpp:77-99 | the previous slot in order; the first node leads to the sentinel and the sentinel to the last node |
| Traversal.PrevNext | bidirectional_iterator.hpp:53-99 | `decrement` undoes `increment` at every position |
| Traversal.NextPrev | bidirectional_iterator.hpp:53-99 | `increment` undoes `decrement` at every position |
| Traversal.NextAt | bidirectional_iterator.hpp:53-75 | the step from the i-th slot goes to the (i+1)-th, or to the sentinel after the last |
| Traversal.PrevAt | bidirectional_iterator.hpp:77-99 | the step back from the i-th slot goes to the (i-1)-th, or to the sentinel before the first |
| TreeIterator.IndexOfPosition | bidirectional_iterator.hpp:118 | positions and in-order indices determine each other; the sentinel sits at the element count |
| TreeIterator.Iterator.constructor | bidirectional_iterator.hpp:118 | the iterator holds the given slot |
| TreeIterator.Iterator.Copy | bidirectional_iterator.hpp:120 | the copy holds the same slot |
| TreeIterator.Iterator.Deref | bidirectional_iterator.hpp:142-145 | at a node, the element at the position's in-order index; at `end()`, the sentinel's default payload |
| TreeIterator.Iterator.Increment | bidirectional_iterator.hpp:152-156 | the iterator moves to the next position in order |
| TreeIterator.Iterator.PostIncrement | bidirectional_iterator.hpp:158-163 | a copy of the old position is returned, and the iterator moves forward |
| TreeIterator.Iterator.Decrement | bidirectional_iterator.hpp:165-169 | the iterator moves to the previous position in order |
| TreeIterator.Iterator.PostDecrement | bidirectional_iterator.hpp:171-176 | a copy of the old position is returned, and the iterator moves back |
| TreeIterator.Iterator.Equals | bidirectional_iterator.hpp:178-181 | equal exactly when both are at the same in-order index (also the free `==`, lines 191-195) |
| TreeIterator.Iterator.NotEquals | bidirectional_iterator.hpp:183-186 | different exactly when the in-order indices differ (also the free `!=`, lines 197-201) |
| TreeIterator.StepStaysInside | bidirectional_iterator.hpp:53-99 | a step from a position lands on a position |
| TreeIterator.StepsUndo | bidirectional_iterator.hpp:152-176 | `--` undoes `++` and `++` undoes `--` |
| TreeIterator.StepIndex | bidirectional_iterator.hpp:152-156 | `++` from a node advances the in-order index by one |
| Rotations.RotLKeeps | RBT.hpp:377-392 | a left rotation keeps the in-order slots and payloads |
| Rotations.RotRKeeps | RBT.hpp:394-409 | a right rotation keeps the in-order slots and payloads |
| Rotations.RotInverse | RBT.hpp:377-409 | a right rotation undoes a left rotation, and a left rotation undoes a right one |
| RbInsert.HangOrder | RBT.hpp:498-514 | hanging the new node where the walk stopped inserts it after every payload whose key is not above its own |
| RbInsert.RecolorStep | RBT.hpp:450-456 | case 1 (red uncle) recolouring moves the fixup invariant two levels up |
| RbInsert.RotateStep | RBT.hpp:464-466 | case 3 rotation leaves a black subtree top that satisfies the invariant |
| RbInsert.FixDone | RBT.hpp:445 | once the parent is black, or the node is the root, the tree is red-black after blackening the root |
| RbRemove.DropMembers | RBT.hpp:243-288 | dropping one slot removes exactly that slot from the slot set |
| RedBlackTree.Rbt.constructor | RBT.hpp:26-33 | an empty valid tree whose sentinel holds the default payload |
| RedBlackTree.Rbt.Copy | RBT.hpp:53-63 | a valid tree with the same payloads in the same order and the same comparator |
| RedBlackTree.Rbt.Assign | RBT.hpp:36-51 | afterwards the tree holds the other's payloads; self-assignment changes nothing |
| RedBlackTree.Rbt.CopyFrom | RBT.hpp:48-49 | the insert loop over the other tree's iterator rebuilds its in-order sequence |
| RedBlackTree.Rbt.Size | RBT.hpp:136-139 | the number of payloads |
| RedBlackTree.Rbt.GetNil | RBT.hpp:315-318 | the sentinel, which holds no payload |
| RedBlackTree.Rbt.DeleteAll | RBT.hpp:230-236 | empty tree; the sentinel's parent is reset |
| RedBlackTree.Rbt.Swap | RBT.hpp:295-313 | the two trees exchange their stores, roots, sizes and contents |
| RedBlackTree.Rbt.SearchHelper | RBT.hpp:366-374 | a node with the key, or the sentinel exactly when no payload has the key |
| RedBlackTree.Rbt.Search | RBT.hpp:163-167 | the node with key `k`, or the sentinel exactly when the key is absent |
| RedBlackTree.Rbt.LowerBound | RBT.hpp:86-101 | the slot at the first in-order index whose key is not below `k` (sentinel past the end) |
| RedBlackTree.Rbt.UpperBound | RBT.hpp:103-118 | the slot at the first in-order index whose key is above `k` (sentinel past the end) |
| RedBlackTree.Rbt.Minimum | RBT.hpp:126-129 | the first node in order, or the sentinel when empty |
| RedBlackTree.Rbt.Maximum | RBT.hpp:131-134 | the last node in order |
| RedBlackTree.Rbt.Successor | RBT.hpp:65-84 | the next slot in order (the sentinel after the last) |
| RedBlackTree.Rbt.Predecessor | RBT.hpp:141-160 | the previous slot in order (the sentinel before the first) |
| RedBlackTree.Rbt.Paint | RBT.hpp:452-454 | one node's colour changes and nothing else |
| RedBlackTree.Rbt.RotateLeft | RBT.hpp:377-392 | the links now describe the left-rotated subtree; other nodes' payloads and the in-order sequence are kept |
| RedBlackTree.Rbt.RotateRight | RBT.hpp:394-409 | the links now describe the right-rotated subtree; other nodes' payloads and the in-order sequence are kept |
| RedBlackTree.Rbt.Insert | RBT.hpp:169-187 | the payload is added after every payload with a key not above its own (`InsertSorted`) in a fresh slot; the tree stays valid |
| RedBlackTree.Rbt.InsertHelper | RBT.hpp:496-521 | linking and fixing up a fresh red node inserts its payload in order and keeps the tree valid |
| RedBlackTree.Rbt.Descend | RBT.hpp:498-507 | the walk ends at an empty place; keys before it are not above `k`, keys after it are above |
| RedBlackTree.Rbt.Attach | RBT.hpp:508-517 | the new red leaf is hung at that place |
| RedBlackTree.Rbt.InsertFixup | RBT.hpp:443-494 | the loop restores the red-black rules and keeps the in-order sequence |
| RedBlackTree.Rbt.FixStep | RBT.hpp:447-491 | one pass of the loop keeps the invariant and moves the red node strictly up |
| RedBlackTree.Rbt.FixRecolor | RBT.hpp:450-456 | case 1: parent and uncle black, grandparent red |
| RedBlackTree.Rbt.FixRotate | RBT.hpp:457-467 | cases 2 and 3: after them the parent is black and the loop ends |
| RedBlackTree.Rbt.FixOuter | RBT.hpp:464-466 | case 3: recolour and rotate the grandparent |
| RedBlackTree.Rbt.Transplant | RBT.hpp:339-349 | `v` takes `u`'s place under `u`'s parent (or as root); no other node changes |
| RedBlackTree.Rbt.Remove | RBT.hpp:243-288 | with the key absent nothing changes; otherwise that payload's in-order entry is dropped and the tree stays valid |
| RedBlackTree.Rbt.RemoveNode | RBT.hpp:248-288 | removing a node drops its in-order entry and keeps the tree valid |
| RedBlackTree.Rbt.Splice | RBT.hpp:248-280 | unlinking drops the node from the in-order sequence; a black hole is left only when the removed colour was black |
| RedBlackTree.Rbt.SpliceSuccessor | RBT.hpp:261-280 | the two-child case: the successor takes the node's place and colour |
| RedBlackTree.Rbt.UnhookSuccessor | RBT.hpp:263-275 | the successor's right subtree takes its place, whether the successor is the node's child or lies deeper |
| RedBlackTree.Rbt.DetachSuccessor | RBT.hpp:271-275 | a deeper successor is cut out and takes over the node's right subtree |
| RedBlackTree.Rbt.AdoptRight | RBT.hpp:273-274 | the successor adopts the node's right subtree and becomes its parent |
| RedBlackTree.Rbt.SpliceTail | RBT.hpp:276-279 | the successor takes the node's place, left subtree and colour; the in-order sequence is the old one without the node |
| RedBlackTree.Rbt.Rebalance | RBT.hpp:281-283 | the fixup runs only when the removed colour was black; the root is blackened |
| RedBlackTree.Rbt.PaintBlack | RBT.hpp:283 | the root is painted black; nothing else changes |
| RedBlackTree.Rbt.Reseat | RBT.hpp:284-287 | the size drops by one and the sentinel's parent is the root |
| RedBlackTree.Rbt.RemoveFixup | RBT.hpp:523-591 | the loop repairs the missing black and keeps the in-order sequence |
| RedBlackTree.Rbt.FixLeft | RBT.hpp:527-557 | one pass on a left child keeps the invariant with a smaller measure |
| RedBlackTree.Rbt.FixRight | RBT.hpp:558-588 | one pass on a right child keeps the invariant with a smaller measure |
| RedBlackTree.Rbt.BlackSiblingLeft | RBT.hpp:530-536 | case 1 leaves a black sibling |
| RedBlackTree.Rbt.BlackSiblingRight | RBT.hpp:561-567 | mirror of case 1 |
| RedBlackTree.Rbt.FarNephewLeft | RBT.hpp:543-556 | cases 3 and 4 finish the repair |
| RedBlackTree.Rbt.FarNephewRight | RBT.hpp:574-587 | mirror of cases 3 and 4 |
| RedBlackTree.Rbt.LiftLeft | RBT.hpp:532-534 | the case 1 recolouring and rotation |
| RedBlackTree.Rbt.LiftRight | RBT.hpp:563-565 | mirror of the case 1 recolouring and rotation |
| RedBlackTree.Rbt.TurnLeft | RBT.hpp:544-550 | case 3: the near red nephew is turned to the far side |
| RedBlackTree.Rbt.TurnRight | RBT.hpp:575-581 | mirror of case 3 |
| RedBlackTree.Rbt.FinishLeft | RBT.hpp:551-555 | case 4: recolour and rotate the parent |
| RedBlackTree.Rbt.FinishRight | RBT.hpp:582-586 | mirror of case 4 |
| UniqueKeys.StrictSameMembers | set.hpp:294-299 | two sequences with strictly increasing keys are equal exactly when they hold the same members |
| UniqueKeys.InsertUniqueSpec | set.hpp:170-185 | inserting an absent key keeps keys strictly increasing and adds exactly that element |
| UniqueKeys.InsertThenRemove | set.hpp:224-232 | erasing a key just inserted gives back the old contents |
| UniqueKeys.AddAllSpec | set.hpp:197-206 | range insert keeps keys unique; a key is present afterwards iff it was before or is in the range; the first of each new key is added |
| UniqueKeys.WithoutKeyMembers | set.hpp:224-232 | after erasing key `k`, the members are the old members whose key is not `k` |
| UniqueKeys.DropIsWithout | set.hpp:208-211 | with unique keys, dropping the element at a position is erasing its key |
| UniqueKeys.UniqueRange | set.hpp:254-262 | with unique keys, `upper_bound` is `lower_bound` plus the count |
| UniqueKeys.StopAt | set.hpp:217 | the first index from `i` holding `stop`, or the length when there is none |
| UniqueKeys.StopAtIs | set.hpp:217 | the position where the loop stops is the first one from `first` holding the stop payload |
| UniqueKeys.StopAtUnique | set.hpp:213-222 | with unique keys, the loop stops exactly at the position of a node `last` |
| UniqueTree.SameKeySameSlot | RBT.hpp:163-167 | with unique keys, two nodes with the same key are the same node |
| UniqueTree.Begin | set.hpp:101-115 | the position of in-order index 0: the minimum, or the sentinel when empty |
| UniqueTree.End | set.hpp:117-126 | the sentinel, at the element-count index |
| UniqueTree.Walk | algorithm.hpp:9-31 | walking `begin()` to `end()` with `++` meets exactly the in-order payloads |
| UniqueTree.WalkFrom | bidirectional_iterator.hpp:53-75 | starting at the first slot and stepping with `increment` until the sentinel collects the payloads in order |
| UniqueTree.Insert | set.hpp:170-185 | inserts iff the key is absent; otherwise nothing changes and the returned node has the key |
| UniqueTree.InsertRange | set.hpp:197-206 | the contents are the unique inserts of the range, front to back |
| UniqueTree.EraseKey | set.hpp:224-232 | returns 1 and erases the key when it is present, otherwise returns 0 and changes nothing |
| UniqueTree.ErasePos | set.hpp:208-211 | erases the key held at the position; at a node, that drops that position's element |
| UniqueTree.Count | set.hpp:239-242 | 1 exactly when the key is present, otherwise 0 |
| UniqueTree.EqualRange | set.hpp:254-262 | the lower and upper bound slots, which differ by the count |
| UniqueTree.EraseStep | set.hpp:219-220 | one loop pass drops the element and moves to the slot that now holds its index |
| UniqueTree.EraseRangeAsWritten | set.hpp:213-222 | as written: elements go from `first` until one equal to the payload at `last` |
| UniqueTree.EraseUntil | set.hpp:217-221 | the loop erases up to the first element equal to the stop payload |
| UniqueTree.EraseRange | set.hpp:213-222 | corrected: exactly the elements in `[first, last)` go |
| UniqueTree.EraseTo | set.hpp:216-221 | the loop erases from index `i` until the walk reaches `last`; exactly the elements before `last` go |
| UniqueTree.AsWrittenAtNode | set.hpp:213-222 | when `last` is a node, the as-written loop stops exactly at `last` |
| UniqueTree.PositionAt | set.hpp:263-281 | the slot at an in-order index is a position with that index |
| Sets.IdentityHasKey | set.hpp:170-185 | for a set, having the key is holding the element |
| Sets.Set.constructor | set.hpp:60 | an empty set |
| Sets.Set.Range | set.hpp:64-75 | the unique inserts of the range; members are exactly the range's elements |
| Sets.Set.Copy | set.hpp:77-78 | the same elements |
| Sets.Set.Assign | set.hpp:88-92 | afterwards the set holds the other's elements |
| Sets.Set.Begin | set.hpp:101-115 | index 0: the smallest element, or `end()` when empty |
| Sets.Set.End | set.hpp:117-126 | the position past the last element |
| Sets.Set.Empty | set.hpp:149-152 | true exactly when there are no elements |
| Sets.Set.Size | set.hpp:154-157 | the number of elements |
| Sets.Set.Clear | set.hpp:165-168 | no elements |
| Sets.Set.Insert | set.hpp:170-185 | the flag is set iff the value was absent; the members afterwards are the old ones plus the value; the iterator holds the value |
| Sets.Set.InsertHint | set.hpp:187-194 | the same effect as `insert(value)`, the hint ignored; the iterator holds the value |
| Sets.Set.InsertRange | set.hpp:197-206 | the members afterwards are the old ones plus the range's |
| Sets.Set.ErasePos | set.hpp:208-211 | the element equal to the payload at `pos` goes; at a node that is the element at `pos` |
| Sets.Set.EraseRangeAsWritten | set.hpp:213-222 | as written: elements go from `first` until one equal to the payload at `last` |
| Sets.Set.ErasePass | set.hpp:219-220 | one pass of the loop as written, also at `end()`: the element with the key held at the position goes, and the walk moves to the first element above that key, or `end()` |
| Sets.Set.EraseRange | set.hpp:213-222 | corrected: the elements in `[first, last)` go |
| Sets.Set.EraseKey | set.hpp:224-232 | returns whether the key was there; the members afterwards are the old ones without it |
| Sets.Set.Swap | set.hpp:234-237 | the two sets exchange elements (also the free `swap`, set.hpp:336-341) |
| Sets.Set.Count | set.hpp:239-242 | 1 exactly when the key is a member, otherwise 0 |
| Sets.Set.Find | set.hpp:244-252 | the node holding the key, or `end()` exactly when it is absent |
| Sets.Set.LowerBound | set.hpp:263-271 | the first position whose element is not below `k`; all before it are below |
| Sets.Set.UpperBound | set.hpp:273-281 | the first position whose element is above `k`; all before it are not |
| Sets.Set.EqualRange | set.hpp:254-262 | the bounds are one apart when `k` is present (the first holds `k`) and equal otherwise |
| Sets.SetEqual | set.hpp:294-299 | the same sequence, which is the same for holding the same members |
| Sets.SetNotEqual | set.hpp:301-306 | some value is a member of exactly one of the two sets |
| Sets.SetLess | set.hpp:308-313 | dictionary order of the sorted elements |
| Sets.SetGreater | set.hpp:315-320 | rhs below lhs |
| Sets.SetLessEq | set.hpp:322-327 | not (rhs below lhs) |
| Sets.SetGreaterEq | set.hpp:329-334 | not (lhs below rhs) |
| Sets.SetTrichotomy | set.hpp:294-334 | exactly one of `<`, `==`, `>` holds between two sets |
| Sets.ThreeInserts | set.hpp:170-185 | the unique inserts of `a < b < c` into the empty sequence give the sorted sequence `a, b, c` |
| Sets.ThreeElements | set.hpp:170-185 | inserting `a < b < c` into an empty set gives a valid set whose elements in order are `a, b, c` |
| Sets.EraseToEndCounterexample | set.hpp:216-217 | `erase(begin(), end())` as written on {-1, 0, 1} leaves {0, 1} |
| Sets.EraseToEndIntended | set.hpp:213-222 | the corrected `erase(begin(), end())` empties {-1, 0, 1} |
| Sets.PassToEnd | set.hpp:219-220 | a pass at a position whose key no element is above removes that key and leaves the walk at `end()` |
| Sets.PassFromEnd | set.hpp:219-220 | a pass at `end()` on {-5, 3} removes nothing and moves the walk up to 3 |
| Sets.EraseBackwardStart | set.hpp:213-220 | the first pass of `erase(find(7), find(-5))` as written on {-5, 3, 7} removes 7 and leaves the walk at `end()` on {-5, 3} |
| Sets.EraseBackwardCounterexample | set.hpp:213-221 | two more passes reach {-5} with the walk at `end()`, whose 0 is not the -5 the loop waits for |
| Sets.EraseStuckAtEnd | set.hpp:217-220 | from {-5} at `end()`, waiting for -5, a pass leaves the set and the walk where they were, so the loop never ends |
| Maps.Map.constructor | map.hpp:63 | an empty map |
| Maps.Map.Range | map.hpp:70-80 | the unique inserts of the range; a key is present exactly when the range has it |
| Maps.Map.Copy | map.hpp:82-83 | the same pairs |
| Maps.Map.Assign | map.hpp:93-97 | afterwards the map holds the other's pairs |
| Maps.Map.At | map.hpp:123-139 | the value mapped to `k`, or `out_of_range` exactly when `k` is absent |
| Maps.Map.InStore | map.hpp:129 | the pair at a node of the map is one of its pairs |
| Maps.Map.Subscript | map.hpp:141-144 | inserts `(k, T())` when `k` is absent; the value returned is mapped to `k` afterwards; present keys leave the map unchanged |
| Maps.ThreeSubscripts | map.hpp:141-144 | adding `(a, T())`, `(b, T())`, `(c, T())` for `a < b < c` as unique keys gives them in key order |
| Maps.ThreeDefaults | map.hpp:141-144 | `m[a]`, `m[b]`, `m[c]` for `a < b < c` on an empty map give a valid map holding `{a: T(), b: T(), c: T()}` |
| Maps.Map.Begin | map.hpp:148-162 | index 0: the pair with the smallest key, or `end()` when empty |
| Maps.Map.End | map.hpp:164-173 | the position past the last pair |
| Maps.Map.Empty | map.hpp:197-200 | true exactly when there are no pairs |
| Maps.Map.Size | map.hpp:202-205 | the number of pairs |
| Maps.Map.Clear | map.hpp:213-216 | no pairs |
| Maps.Map.Insert | map.hpp:218-233 | the flag is set iff the key was absent; a present key leaves the map unchanged; the iterator has the key |
| Maps.Map.InsertHint | map.hpp:235-242 | the same effect as `insert(value)`, the hint ignored |
| Maps.Map.InsertRange | map.hpp:244-253 | the keys afterwards are the old ones plus the range's; old pairs stay |
| Maps.Map.ErasePos | map.hpp:255-258 | the pair with the key held at `pos` goes; at a node that is the pair at `pos` |
| Maps.Map.EraseRangeAsWritten | map.hpp:260-270 | as written: pairs go from `first` until one equal to the pair at `last` |
| Maps.Map.ErasePass | map.hpp:267-268 | one pass of the loop as written, also at `end()`: the pair with the key held at the position goes, and the walk moves to the first pair whose key is above it, or `end()` |
| Maps.Map.EraseRange | map.hpp:260-270 | corrected: the pairs in `[first, last)` go |
| Maps.Map.EraseKey | map.hpp:272-280 | returns whether the key was there; the pairs afterwards are the old ones without that key |
| Maps.Map.Count | map.hpp:282-285 | 1 exactly when the key is present, otherwise 0 |
| Maps.Map.Find | map.hpp:287-295 | the node with the key, or `end()` exactly when it is absent |
| Maps.Map.EqualRange | map.hpp:297-305 | the bounds are one apart when `k` is present (the first has key `k`) and equal otherwise |
| Maps.Map.LowerBound | map.hpp:307-315 | the first position whose key is not below `k` |
| Maps.Map.UpperBound | map.hpp:317-325 | the first position whose key is above `k` |
| Maps.Map.Swap | map.hpp:327-330 | the two maps exchange pairs (also the free `swap`, map.hpp:387-392) |
| Maps.MapEqual | map.hpp:345-350 | the same sequence of pairs, which is the same for holding the same pairs |
| Maps.MapNotEqual | map.hpp:352-357 | some pair belongs to exactly one of the two maps |
| Maps.MapLess | map.hpp:359-364 | dictionary order of the pairs under the pair `<` |
| Maps.MapGreater | map.hpp:366-371 | rhs below lhs |
| Maps.MapLessEq | map.hpp:373-378 | not (rhs below lhs) |
| Maps.MapGreaterEq | map.hpp:380-385 | not (lhs below rhs) |
| Maps.MapTrichotomy | map.hpp:345-385 | with a strict total `<` on values, exactly one of `<`, `==`, `>` holds between two maps |
| Maps.EraseToEndCounterexample | map.hpp:263-265 | `erase(begin(), end())` as written on `{-1: T(), 0: T(), 1: T()}` leaves the pairs with keys 0 and 1 |
| Maps.EraseToEndIntended | map.hpp:260-270 | the corrected `erase(begin(), end())` empties that map |
| Maps.PassToEnd | map.hpp:267-268 | a pass at a position whose key no pair's key is above removes that pair and leaves the walk at `end()` |
| Maps.PassFromEnd | map.hpp:267-268 | a pass at `end()` on `{-5: T(), 3: T()}` removes nothing and moves the walk up to key 3 |
| Maps.EraseBackwardStart | map.hpp:260-268 | the first pass of `erase(find(7), find(-5))` as written on `{-5: T(), 3: T(), 7: T()}` removes key 7 and leaves the walk at `end()` |
| Maps.EraseBackwardCounterexample | map.hpp:260-269 | two more passes reach `{-5: T()}` with the walk at `end()`, whose `(0, T())` is not the pair the loop waits for |
| Maps.EraseStuckAtEnd | map.hpp:265-268 | from `{-5: T()}` at `end()`, a pass leaves the map and the walk where they were, so the loop never ends |

## Left out

- Allocation failures are not modelled: the `bad_alloc` catch paths, the clean-up-and-rethrow
  paths of the vector, and the `std::cerr` messages. Memory is unbounded.
- Destruction and deallocation are not modelled (`delete_helper`, `delete_NIL`, `destroy`,
  destructors). A released node slot stays in the store with its old contents and is no
  longer reachable.
- The debugging printers `print`, `print2`, `print_helper` and `inorder` are not modelled.
- Allocator access is not modelled: `get_allocator`, `max_size`, `data()` and the
  allocator-taking constructors.
- The vector's random-access iterators and all reverse iterators are not modelled. Vector
  positions are indices, and `begin()`/`end()` of a vector are 0 and `size()`.
- Only one iterator class is modelled. `bidirectional_const_iterator` behaves exactly like
  `bidirectional_iterator`.
- The iterator's `base()` and `operator->` are not modelled; they expose the same slot and
  payload as the iterator and `Deref`.
- The iterator's `operator=` is not modelled.
- `key_comp` and `value_comp` are not modelled. Keys are `int` with the fixed comparator `<`.
- Pair's default constructor and `operator=` are not modelled; Dafny pairs are values.
- The `RBT::insert(pos, elem)` overloads ignore `pos` and are `insert(elem)`. They are covered
  by `Sets.Set.InsertHint` and `Maps.Map.InsertHint`.
- RedBlackTree.Rbt.Maximum: requires a non-empty tree. On an empty tree `max_helper` follows
  the sentinel's unset right link.
- RedBlackTree.Rbt.Successor: the null-pointer guard `if (!n)` is not modelled. Slots are
  never null.
- RedBlackTree.Rbt.Predecessor: the null-pointer guard `if (!n)` is not modelled. Slots are
  never null.
- Sets.Set.EraseRangeAsWritten: requires `first` not to come after `last`. With `first`
  after `last` the source loop may never end (see Findings and `Sets.EraseStuckAtEnd`); such
  a call is covered pass by pass by `Sets.Set.ErasePass` only.
- Maps.Map.EraseRangeAsWritten: requires `first` not to come after `last`, for the same
  reason (see `Maps.EraseStuckAtEnd`).
- UniqueTree.EraseRangeAsWritten: requires `first` not to come after `last`, for the same
  reason.
- UniqueTree.EraseUntil: requires the stop payload to be met at index `il` or at the end,
  which holds when `first` does not come after `last`; without it the loop may not end.
- The erase-range loops read `tmp->key` after `remove` has released the node. The model
  reads the key the slot held, which a release does not change.
- Maps.Map.Subscript: returns the mapped value instead of a writable reference.
- Maps.Map.Swap: requires both maps to have the same value-initialised `T()`. In C++ they are
  equal because the type is the same.
- Maps.Map.Assign: requires both maps to have the same value-initialised `T()`, for the same
  reason.
- Vectors.Vector.PopBack: requires a non-empty vector, which the source leaves to the
  caller; on an empty vector `_size--` wraps around. The source also destroys `_ptr + _size`,
  one past the last element, before decrementing. Destruction is not modelled, so only the
  size change is.
- Vectors.Vector.Swap: models the evident intent, an exchange of buffers, sizes and
  capacities. As written, the member `swap` (vector.hpp:513-520) applies `ft::swap`
  (vector.hpp:14-18), which calls `a1.swap(a2)`, to `size_t` and pointer fields, so the
  member and the free `swap` (vector.hpp:530-534) do not compile once used.
- Vectors.Vector.Reserve: the source builds a `length_error` when the request exceeds
  `max_size()` but never throws it. Without `max_size` there is no error path.
- Vectors.Vector.Range: `sizeof(T)` is the parameter `elemSize`, and the iterator distance
  is the number of items.
- Vectors.Vector.Front: requires a non-empty vector, which the source leaves to the caller.
- Vectors.Vector.Back: requires a non-empty vector, which the source leaves to the caller.
- Vectors.Vector.Subscript: requires `pos < size()`, which the source leaves to the caller.
- Stacks.Stack.Top: requires a non-empty stack, which the source leaves to the caller.
- Stacks.Stack.Pop: requires a non-empty stack, which the source leaves to the caller.

## Findings

| source | as written | input that shows it | evidently intended | confidence | as-written member | corrected member |
|---|---|---|---|---|---|---|
| vector.hpp:185 | `at` throws only when `pos > _size` (same at line 192) | `at(2)` on a vector holding two elements reads past the last element | throw when `pos >= size()` | not executed | Vectors.Vector.AtGuardAsWritten, Vectors.AtPastEndCounterexample | Vectors.Vector.At |
| vector.hpp:367 | the range insert returns `_ptr + dist`, the item count from the start | inserting `[9, 9]` at position 0 into `[5]` returns position 2, which holds 5 | return `_ptr + pos_index`, the first inserted element | not executed | Vectors.Vector.InsertRangeAsWritten, Vectors.RangeInsertCounterexample | Vectors.Vector.InsertRange |
| set.hpp:216-217 (also map.hpp:263-265) | `erase(first, last)` erases until it meets an element equal to `*last`; at `end()` that is the sentinel's default payload (`0`, or `(0, T())` for a map) | `erase(begin(), end())` on the set {-1, 0, 1} stops at 0 and leaves {0, 1} | erase up to the position `last` | not executed | Sets.Set.EraseRangeAsWritten, Sets.EraseToEndCounterexample, Maps.Map.EraseRangeAsWritten, Maps.EraseToEndCounterexample | Sets.Set.EraseRange, Sets.EraseToEndIntended, Maps.Map.EraseRange, Maps.EraseToEndIntended |
| set.hpp:217-220 (also map.hpp:265-268) | with `first` after `last`, each pass at `end()` removes the sentinel's key 0 and moves to the first element above 0 | `erase(find(7), find(-5))` on the set {-5, 3, 7} removes 7, then 3, and then stays at `end()` on {-5} for ever, since 0 is never -5 | an erase over a valid range `[first, last)`, whose loop stops at `last` | not executed | Sets.Set.ErasePass, Sets.EraseBackwardCounterexample, Sets.EraseStuckAtEnd, Maps.Map.ErasePass, Maps.EraseBackwardCounterexample, Maps.EraseStuckAtEnd | Sets.Set.EraseRange, Maps.Map.EraseRange |
