/**
 * `ft::stack` (stack.hpp): a LIFO adapter holding a vector `c`; the top
 * of the stack is the vector's back.
 */
module Stacks {
  import Algorithm
  import opened Vectors

  class Stack<T(0)> {
    var c: Vector<T>
    ghost var Repr: set<object>

    ghost predicate Valid()
      reads this, Repr
    {
      this in Repr && c in Repr && c.Repr <= Repr && this !in c.Repr && c.Valid()
    }

    /** The elements, bottom to top. */
    ghost function Contents(): seq<T>
      reads this, Repr
      requires Valid()
    {
      c.Contents()
    }

    /** `stack(cont)`: holds a copy of `cont`. */
    constructor (cont: Vector<T>)
      requires cont.Valid()
      ensures Valid() && fresh(Repr)
      ensures Contents() == cont.Contents()
    {
      var held := new Vector.Copy(cont);
      c := held;
      Repr := {this} + held.Repr;
    }

    /** `stack(other)`: holds a copy of the other's container. */
    constructor Copy(other: Stack<T>)
      requires other.Valid()
      ensures Valid() && fresh(Repr)
      ensures Contents() == other.Contents()
    {
      var held := new Vector.Copy(other.c);
      c := held;
      Repr := {this} + held.Repr;
    }

    /** `operator=`: self-assignment changes nothing; otherwise the
        container is assigned a copy of the other's. */
    method Assign(other: Stack<T>)
      requires Valid() && other.Valid()
      modifies Repr
      ensures Valid() && fresh(Repr - old(Repr))
      ensures Contents() == old(other.Contents())
      ensures other == this ==> Repr == old(Repr) && c == old(c) && c.buf == old(c.buf)
      ensures other.Valid() && other.Contents() == old(other.Contents())
    {
      if this != other {
        c.CopyAssign(other.c);
        Repr := {this} + c.Repr;
      }
    }

    /** `top()`: the most recently pushed element still present. */
    function Top(): (v: T)
      requires Valid() && Contents() != []
      reads this, Repr
      ensures v == Contents()[|Contents()| - 1]
    {
      c.Back()
    }

    /** `empty()`. */
    function Empty(): (e: bool)
      requires Valid()
      reads this, Repr
      ensures e <==> Contents() == []
    {
      c.Empty()
    }

    /** `size()`. */
    function Size(): (n: nat)
      requires Valid()
      reads this, Repr
      ensures n == |Contents()|
    {
      c.Size()
    }

    /** `push(v)`: `v` goes on top. */
    method Push(v: T)
      requires Valid()
      modifies Repr
      ensures Valid() && fresh(Repr - old(Repr))
      ensures Contents() == old(Contents()) + [v]
      ensures Top() == v && Size() == old(Size()) + 1
    {
      c.PushBack(v);
      Repr := {this} + c.Repr;
    }

    /** `pop()`: the top element goes. */
    method Pop()
      requires Valid() && Contents() != []
      modifies Repr
      ensures Valid() && Repr == old(Repr)
      ensures Contents() == old(Contents())[..|old(Contents())| - 1]
      ensures Size() == old(Size()) - 1
    {
      c.PopBack();
    }
  }

  // ---------------------------------------------------------------------
  // The comparisons compare the containers.

  /** `lhs == rhs`. */
  method StackEqual<T(0, ==)>(lhs: Stack<T>, rhs: Stack<T>) returns (r: bool)
    requires lhs.Valid() && rhs.Valid()
    ensures r <==> lhs.Contents() == rhs.Contents()
  {
    r := Equal(lhs.c, rhs.c);
  }

  /** `lhs != rhs`. */
  method StackNotEqual<T(0, ==)>(lhs: Stack<T>, rhs: Stack<T>) returns (r: bool)
    requires lhs.Valid() && rhs.Valid()
    ensures r <==> lhs.Contents() != rhs.Contents()
  {
    var e := Equal(lhs.c, rhs.c);
    r := !e;
  }

  /** `lhs < rhs`. */
  method StackLess<T(0)>(lhs: Stack<T>, rhs: Stack<T>, lt: (T, T) -> bool) returns (r: bool)
    requires lhs.Valid() && rhs.Valid()
    ensures r == Algorithm.LexLess(lhs.Contents(), rhs.Contents(), lt)
  {
    r := Less(lhs.c, rhs.c, lt);
  }

  /** `lhs <= rhs`. */
  method StackLessEq<T(0)>(lhs: Stack<T>, rhs: Stack<T>, lt: (T, T) -> bool) returns (r: bool)
    requires lhs.Valid() && rhs.Valid()
    ensures r == !Algorithm.LexLess(rhs.Contents(), lhs.Contents(), lt)
  {
    r := LessEq(lhs.c, rhs.c, lt);
  }

  /** `lhs > rhs`. */
  method StackGreater<T(0)>(lhs: Stack<T>, rhs: Stack<T>, lt: (T, T) -> bool) returns (r: bool)
    requires lhs.Valid() && rhs.Valid()
    ensures r == Algorithm.LexLess(rhs.Contents(), lhs.Contents(), lt)
  {
    r := Greater(lhs.c, rhs.c, lt);
  }

  /** `lhs >= rhs`. */
  method StackGreaterEq<T(0)>(lhs: Stack<T>, rhs: Stack<T>, lt: (T, T) -> bool) returns (r: bool)
    requires lhs.Valid() && rhs.Valid()
    ensures r == !Algorithm.LexLess(lhs.Contents(), rhs.Contents(), lt)
  {
    r := GreaterEq(lhs.c, rhs.c, lt);
  }
}
