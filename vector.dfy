/**
 * `ft::vector` (vector.hpp): a buffer of `capacity` slots whose first
 * `size` slots hold the elements.  Allocation is `new T[n]`; the
 * allocator's `construct` is a plain write and `destroy` does nothing.
 * Positions, which the source passes as iterators over the buffer, are
 * indices here.
 */
module Vectors {
  import Algorithm

  /** What `at` gives back: the element, or the `out_of_range` exception. */
  datatype Result<T> = Ok(value: T) | OutOfRange

  function Max(a: nat, b: nat): nat {
    if a < b then b else a
  }

  /** `n` copies of `v`. */
  function Repeat<T>(v: T, n: nat): (r: seq<T>)
    ensures |r| == n && forall i :: 0 <= i < n ==> r[i] == v
  {
    if n == 0 then [] else Repeat(v, n - 1) + [v]
  }

  /** The capacity after one `push_back` on `size` elements in `capacity`
      slots: a full buffer grows to one slot when it had none and doubles
      otherwise, so there is always room for the new element. */
  function Grown(size: nat, capacity: nat): (c: nat)
    ensures size <= capacity ==> size < c
    ensures capacity <= c
    ensures size < capacity ==> c == capacity
  {
    if size == capacity then (if capacity == 0 then 1 else 2 * capacity) else capacity
  }

  /** The capacity after `n` successive `push_back`s starting from `size`
      elements in `capacity` slots: never smaller than before, and always
      large enough for the elements. */
  function GrownBy(size: nat, capacity: nat, n: nat): (c: nat)
    ensures size <= capacity ==> size + n <= c
    ensures capacity <= c
    ensures size + n <= capacity ==> c == capacity
  {
    if n == 0 then capacity else Grown(size + n - 1, GrownBy(size, capacity, n - 1))
  }

  /** One of the element-by-element copy loops of the reallocating
      inserts: `src` goes into `dst` from slot `at` on, and the slots before
      `at` keep what they held. */
  method CopyAt<T>(dst: array<T>, at: nat, src: seq<T>)
    requires at + |src| <= dst.Length
    modifies dst
    ensures dst[..at + |src|] == old(dst[..at]) + src
  {
    var j := 0;
    while j < |src|
      invariant 0 <= j <= |src|
      invariant dst[..at + j] == old(dst[..at]) + src[..j]
    {
      dst[at + j] := src[j];
      j := j + 1;
    }
  }

  class Vector<T(0)> {
    var buf: array<T>
    var size: nat
    var capacity: nat
    ghost var Repr: set<object>

    ghost predicate Valid()
      reads this, Repr
    {
      Repr == {this, buf} && capacity == buf.Length && size <= capacity
    }

    /** The elements, front to back. */
    ghost function Contents(): seq<T>
      reads this, Repr
      requires Valid()
    {
      buf[..size]
    }

    /** `vector()`: no elements and no slots. */
    constructor ()
      ensures Valid() && fresh(Repr)
      ensures Contents() == [] && capacity == 0
    {
      buf := new T[0];
      size, capacity := 0, 0;
      Repr := {this, buf};
    }

    /** `vector(count, value)`: exactly `count` slots, each holding
        `value`. */
    constructor Filled(count: nat, value: T)
      ensures Valid() && fresh(Repr)
      ensures Contents() == Repeat(value, count) && capacity == count
    {
      capacity, size := count, count;
      var a := new T[count];
      var i := 0;
      while i < count
        invariant 0 <= i <= count
        invariant a[..i] == Repeat(value, i)
        modifies a
      {
        a[i] := value;
        i := i + 1;
      }
      buf := a;
      Repr := {this, buf};
    }

    /** `vector(first, last)`: a buffer of `n / sizeof(T)` slots for a
        range of `n` elements (`elemSize` is `sizeof(T)`), then one
        `push_back` per element. */
    constructor Range(items: seq<T>, elemSize: nat)
      requires elemSize > 0
      ensures Valid() && fresh(Repr)
      ensures Contents() == items
      ensures capacity == GrownBy(0, |items| / elemSize, |items|)
    {
      var c := |items| / elemSize;
      buf := new T[c];
      size, capacity := 0, c;
      Repr := {this, buf};
      new;
      var k := 0;
      while k < |items|
        invariant Valid() && fresh(Repr) && 0 <= k <= |items|
        invariant Contents() == items[..k] && capacity == GrownBy(0, c, k)
      {
        PushBack(items[k]);
        k := k + 1;
      }
    }

    /** `vector(other)`: the same elements in a buffer of its own with the
        same capacity. */
    constructor Copy(other: Vector<T>)
      requires other.Valid()
      ensures Valid() && fresh(Repr)
      ensures Contents() == other.Contents() && capacity == other.capacity
    {
      capacity, size := other.capacity, other.size;
      var a := new T[other.capacity];
      var i := 0;
      while i < other.size
        invariant 0 <= i <= other.size
        invariant a[..i] == other.buf[..i]
        modifies a
      {
        a[i] := other.buf[i];
        i := i + 1;
      }
      buf := a;
      Repr := {this, buf};
    }

    /** `operator=`: assigning a vector to itself changes nothing;
        otherwise this vector takes a new buffer with the other's capacity
        and a copy of its elements. */
    method CopyAssign(other: Vector<T>)
      requires Valid() && other.Valid()
      modifies this
      ensures Valid() && fresh(Repr - old(Repr))
      ensures Contents() == old(other.Contents()) && capacity == old(other.capacity)
      ensures other == this ==> Repr == old(Repr) && buf == old(buf)
    {
      if this == other {
        return;
      }
      size := 0;
      capacity, size := other.capacity, other.size;
      var a := new T[capacity];
      var i := 0;
      while i < size
        invariant 0 <= i <= size
        invariant a[..i] == other.buf[..i]
        modifies a
      {
        a[i] := other.buf[i];
        i := i + 1;
      }
      buf := a;
      Repr := {this, buf};
    }

    /** `size()`. */
    function Size(): (n: nat)
      requires Valid()
      reads this, Repr
      ensures n == |Contents()|
    {
      size
    }

    /** `empty()`: `begin() == end()`. */
    function Empty(): (e: bool)
      requires Valid()
      reads this, Repr
      ensures e <==> Contents() == []
    {
      size == 0
    }

    /** `at(pos)` as corrected: the element at `pos`, and `out_of_range`
        for every position that holds no element, `size` included. */
    function At(pos: nat): (r: Result<T>)
      requires Valid()
      reads this, Repr
      ensures r.Ok? <==> pos < |Contents()|
      ensures r.Ok? ==> r.value == Contents()[pos]
    {
      if pos >= size then OutOfRange else Ok(buf[pos])
    }

    /** The guard of `at(pos)` as written: it throws only for positions
        beyond `size`, so position `size` itself gets through. */
    function AtGuardAsWritten(pos: nat): (admitted: bool)
      requires Valid()
      reads this, Repr
      ensures admitted <==> pos <= |Contents()|
    {
      !(pos > size)
    }

    /** `operator[](pos)`: the element at `pos`, unchecked; the caller
        keeps `pos` below `size()`, where it agrees with `at`. */
    function Subscript(pos: nat): (v: T)
      requires Valid() && pos < size
      reads this, Repr
      ensures pos < |Contents()| && v == Contents()[pos]
      ensures At(pos) == Ok(v)
    {
      buf[pos]
    }

    /** `capacity()`: the length of the buffer, never below `size()`. */
    function Capacity(): (c: nat)
      requires Valid()
      reads this, Repr
      ensures |Contents()| <= c
      ensures c == capacity
    {
      capacity
    }

    /** `front()`: the first element. */
    function Front(): (v: T)
      requires Valid() && size > 0
      reads this, Repr
      ensures Contents() != [] && v == Contents()[0]
    {
      buf[0]
    }

    /** `back()`: the last element. */
    function Back(): (v: T)
      requires Valid() && size > 0
      reads this, Repr
      ensures Contents() != [] && v == Contents()[|Contents()| - 1]
    {
      buf[size - 1]
    }

    /** `clear()`: no elements, the same buffer and capacity. */
    method Clear()
      requires Valid()
      modifies this
      ensures Valid() && Repr == old(Repr) && buf == old(buf)
      ensures Contents() == [] && capacity == old(capacity)
    {
      size := 0;
    }

    /** `reserve(newCap)`: a larger request moves the elements into a new
        buffer of exactly `newCap` slots; any other request changes
        nothing. */
    method Reserve(newCap: nat)
      requires Valid()
      modifies this
      ensures Valid() && fresh(Repr - old(Repr))
      ensures Contents() == old(Contents())
      ensures capacity == Max(old(capacity), newCap)
      ensures newCap <= old(capacity) ==> Repr == old(Repr) && buf == old(buf)
    {
      if newCap > capacity {
        var temp := new T[newCap];
        var tempSize := 0;
        while tempSize < size
          invariant 0 <= tempSize <= size
          invariant temp[..tempSize] == buf[..tempSize]
          modifies temp
        {
          temp[tempSize] := buf[tempSize];
          tempSize := tempSize + 1;
        }
        buf := temp;
        capacity := newCap;
        size := tempSize;
        Repr := {this, buf};
      }
    }

    /** `push_back(v)`: `v` becomes the last element and the others stay;
        a full buffer first grows to `Grown(size, capacity)` slots. */
    method PushBack(v: T)
      requires Valid()
      modifies Repr
      ensures Valid() && fresh(Repr - old(Repr))
      ensures Contents() == old(Contents()) + [v]
      ensures capacity == Grown(old(size), old(capacity))
    {
      if size == capacity {
        var tmp := if capacity == 0 then 1 else capacity * 2;
        Reserve(tmp);
      }
      buf[size] := v;
      size := size + 1;
    }

    /** `pop_back()`: the last element goes, nothing else changes. */
    method PopBack()
      requires Valid() && size > 0
      modifies this
      ensures Valid() && Repr == old(Repr) && buf == old(buf)
      ensures Contents() == old(Contents())[..old(size) - 1]
      ensures capacity == old(capacity)
    {
      size := size - 1;
    }

    /** `resize(count, value)`: pops down to `count` elements, or pushes
        copies of `value` up to `count` elements. */
    method Resize(count: nat, value: T)
      requires Valid()
      modifies Repr
      ensures Valid() && fresh(Repr - old(Repr))
      ensures |Contents()| == count
      ensures count <= old(size) ==> Contents() == old(Contents())[..count] && capacity == old(capacity)
      ensures old(size) < count ==> Contents() == old(Contents()) + Repeat(value, count - old(size))
      ensures old(size) < count ==> capacity == GrownBy(old(size), old(capacity), count - old(size))
    {
      if count < size {
        while size != count
          invariant Valid() && Repr == old(Repr) && count <= size <= old(size)
          invariant Contents() == old(Contents())[..size] && capacity == old(capacity)
          decreases size
        {
          PopBack();
        }
      } else if count > size {
        while size != count
          invariant Valid() && fresh(Repr - old(Repr)) && old(size) <= size <= count
          invariant Contents() == old(Contents()) + Repeat(value, size - old(size))
          invariant capacity == GrownBy(old(size), old(capacity), size - old(size))
          decreases count - size
        {
          PushBack(value);
        }
      }
    }

    /** The reallocating body of both `insert`s: a new buffer of `newCap`
        slots receives the elements before `pos`, then `middle`, then the
        elements from `pos` on. */
    method Rebuild(pos: nat, middle: seq<T>, newCap: nat)
      requires Valid() && pos <= size && size + |middle| <= newCap
      modifies this
      ensures Valid() && fresh(buf)
      ensures Contents() == old(Contents())[..pos] + middle + old(Contents())[pos..]
      ensures capacity == newCap
    {
      var tmp := new T[newCap];
      CopyAt(tmp, 0, buf[..pos]);
      CopyAt(tmp, pos, middle);
      CopyAt(tmp, pos + |middle|, buf[pos..size]);
      size := size + |middle|;
      capacity := newCap;
      buf := tmp;
      Repr := {this, buf};
    }

    /** `insert(pos, count, value)`: `count` copies of `value` go in before
        position `pos`, and the returned position is the first of them.
        An empty vector without slots takes them by `push_back`; any other
        vector moves to a new buffer of `max(capacity, size + count)`
        slots. */
    method Insert(pos: nat, count: nat, value: T) returns (r: nat)
      requires Valid() && pos <= size
      modifies Repr
      ensures Valid() && fresh(Repr - old(Repr))
      ensures Contents() == old(Contents())[..pos] + Repeat(value, count) + old(Contents())[pos..]
      ensures r == pos
      ensures old(size) == 0 && old(capacity) == 0 ==> capacity == GrownBy(0, 0, count)
      ensures !(old(size) == 0 && old(capacity) == 0) ==> capacity == Max(old(capacity), old(size) + count)
    {
      if size == capacity && size == 0 {
        var i := 0;
        while i < count
          invariant Valid() && fresh(Repr - old(Repr)) && 0 <= i <= count
          invariant Contents() == Repeat(value, i) && capacity == GrownBy(0, 0, i)
        {
          PushBack(value);
          i := i + 1;
        }
        return 0;
      }
      var newCap := if count + size > capacity then count + size else capacity;
      Rebuild(pos, Repeat(value, count), newCap);
      return pos;
    }

    /** `insert(pos, value)`: one copy of `value` before position `pos`. */
    method InsertOne(pos: nat, value: T) returns (r: nat)
      requires Valid() && pos <= size
      modifies Repr
      ensures Valid() && fresh(Repr - old(Repr))
      ensures Contents() == old(Contents())[..pos] + [value] + old(Contents())[pos..]
      ensures r == pos && Contents()[r] == value
    {
      r := Insert(pos, 1, value);
    }

    /** Range `insert(pos, first, last)` as written: the elements land in
        the right place, but the position returned is the number of
        elements inserted. */
    method InsertRangeAsWritten(pos: nat, items: seq<T>) returns (r: nat)
      requires Valid() && pos <= size
      modifies Repr
      ensures Valid() && fresh(Repr - old(Repr))
      ensures Contents() == old(Contents())[..pos] + items + old(Contents())[pos..]
      ensures capacity == Max(old(capacity), old(size) + |items|)
      ensures r == |items|
    {
      var newCap := if |items| + size > capacity then |items| + size else capacity;
      Rebuild(pos, items, newCap);
      return |items|;
    }

    /** Range `insert(pos, first, last)` as corrected: the same update,
        returning the position of the first inserted element. */
    method InsertRange(pos: nat, items: seq<T>) returns (r: nat)
      requires Valid() && pos <= size
      modifies Repr
      ensures Valid() && fresh(Repr - old(Repr))
      ensures Contents() == old(Contents())[..pos] + items + old(Contents())[pos..]
      ensures capacity == Max(old(capacity), old(size) + |items|)
      ensures r == pos && Contents()[r..r + |items|] == items
    {
      var newCap := if |items| + size > capacity then |items| + size else capacity;
      Rebuild(pos, items, newCap);
      return pos;
    }

    /** `erase(first, last)`: the elements at positions `first` up to
        `last` go, the rest close up in the same buffer, and the returned
        position is `first`. */
    method Erase(first: nat, last: nat) returns (r: nat)
      requires Valid() && first <= last <= size
      modifies this, buf
      ensures Valid() && Repr == old(Repr) && buf == old(buf) && capacity == old(capacity)
      ensures Contents() == old(Contents())[..first] + old(Contents())[last..]
      ensures r == first
    {
      var i := 0;
      while i != first
        invariant i <= first
      {
        i := i + 1;
      }
      var j := i;
      var m := i;
      var f := first;
      while f != last
        invariant first <= f <= last && i == f
      {
        f := f + 1;
        i := i + 1;
      }
      ghost var O := old(Contents());
      while i < size
        invariant last <= i <= size && j == first + (i - last)
        invariant buf[..j] == O[..first] + O[last..i]
        invariant forall k :: i <= k < size ==> buf[k] == O[k]
        modifies buf
      {
        assert O[last..i + 1] == O[last..i] + [O[i]];
        ghost var pre := buf[..j];
        buf[j] := buf[i];
        assert buf[..j + 1] == pre + [O[i]];
        i, j := i + 1, j + 1;
      }
      size := j;
      return m;
    }

    /** `erase(pos)`: the element at `pos` goes. */
    method EraseOne(pos: nat) returns (r: nat)
      requires Valid() && pos < size
      modifies this, buf
      ensures Valid() && Repr == old(Repr) && buf == old(buf) && capacity == old(capacity)
      ensures Contents() == old(Contents())[..pos] + old(Contents())[pos + 1..]
      ensures r == pos
    {
      r := Erase(pos, pos + 1);
    }

    /** `assign(count, value)`: exactly `count` copies of `value`, in a
        buffer reserved for `count` slots. */
    method Assign(count: nat, value: T)
      requires Valid()
      modifies Repr
      ensures Valid() && fresh(Repr - old(Repr))
      ensures Contents() == Repeat(value, count)
      ensures capacity == Max(old(capacity), count)
    {
      Clear();
      Reserve(count);
      var i := 0;
      while i < count
        invariant Valid() && fresh(Repr - old(Repr)) && 0 <= i <= count <= capacity
        invariant buf[..i] == Repeat(value, i)
        invariant capacity == Max(old(capacity), count)
      {
        buf[i] := value;
        i := i + 1;
      }
      size := count;
    }

    /** `assign(first, last)`: the elements of the range, pushed one by
        one after a `clear()`. */
    method AssignRange(items: seq<T>)
      requires Valid()
      modifies Repr
      ensures Valid() && fresh(Repr - old(Repr))
      ensures Contents() == items
      ensures capacity == GrownBy(0, old(capacity), |items|)
    {
      Clear();
      var k := 0;
      while k < |items|
        invariant Valid() && fresh(Repr - old(Repr)) && 0 <= k <= |items|
        invariant Contents() == items[..k] && capacity == GrownBy(0, old(capacity), k)
      {
        PushBack(items[k]);
        k := k + 1;
      }
    }

    /** `swap(other)`: the two vectors exchange buffers, sizes and
        capacities. */
    method Swap(other: Vector<T>)
      requires Valid() && other.Valid()
      modifies this, other
      ensures Valid() && other.Valid()
      ensures Contents() == old(other.Contents()) && other.Contents() == old(Contents())
      ensures capacity == old(other.capacity) && other.capacity == old(capacity)
    {
      size, other.size := other.size, size;
      capacity, other.capacity := other.capacity, capacity;
      buf, other.buf := other.buf, buf;
      Repr, other.Repr := {this, buf}, {other, other.buf};
    }
  }

  // ---------------------------------------------------------------------
  // The free comparison operators.  The elements' `<` is passed in.

  /** `lhs < rhs`: dictionary order of the elements. */
  method Less<T(0)>(lhs: Vector<T>, rhs: Vector<T>, lt: (T, T) -> bool) returns (r: bool)
    requires lhs.Valid() && rhs.Valid()
    ensures r == Algorithm.LexLess(lhs.Contents(), rhs.Contents(), lt)
  {
    r := Algorithm.LexicographicalCompare(lhs.buf[..lhs.size], rhs.buf[..rhs.size], lt);
  }

  /** `lhs > rhs`: `rhs < lhs`. */
  method Greater<T(0)>(lhs: Vector<T>, rhs: Vector<T>, lt: (T, T) -> bool) returns (r: bool)
    requires lhs.Valid() && rhs.Valid()
    ensures r == Algorithm.LexLess(rhs.Contents(), lhs.Contents(), lt)
  {
    r := Less(rhs, lhs, lt);
  }

  /** `lhs >= rhs`: not `lhs < rhs`. */
  method GreaterEq<T(0)>(lhs: Vector<T>, rhs: Vector<T>, lt: (T, T) -> bool) returns (r: bool)
    requires lhs.Valid() && rhs.Valid()
    ensures r == !Algorithm.LexLess(lhs.Contents(), rhs.Contents(), lt)
  {
    var l := Less(lhs, rhs, lt);
    r := !l;
  }

  /** `lhs <= rhs`: not `lhs > rhs`. */
  method LessEq<T(0)>(lhs: Vector<T>, rhs: Vector<T>, lt: (T, T) -> bool) returns (r: bool)
    requires lhs.Valid() && rhs.Valid()
    ensures r == !Algorithm.LexLess(rhs.Contents(), lhs.Contents(), lt)
  {
    var g := Greater(lhs, rhs, lt);
    r := !g;
  }

  /** `lhs == rhs`: the same elements in the same order. */
  method Equal<T(0, ==)>(lhs: Vector<T>, rhs: Vector<T>) returns (r: bool)
    requires lhs.Valid() && rhs.Valid()
    ensures r <==> lhs.Contents() == rhs.Contents()
  {
    r := Algorithm.Equal(lhs.buf[..lhs.size], rhs.buf[..rhs.size]);
  }

  /** `lhs != rhs`. */
  method NotEqual<T(0, ==)>(lhs: Vector<T>, rhs: Vector<T>) returns (r: bool)
    requires lhs.Valid() && rhs.Valid()
    ensures r <==> lhs.Contents() != rhs.Contents()
  {
    var e := Equal(lhs, rhs);
    r := !e;
  }

  // ---------------------------------------------------------------------

  /** `pop_back()` undoes `push_back(x)`: the elements are back as they
      were. */
  method PushThenPop<T(0)>(v: Vector<T>, x: T)
    requires v.Valid()
    modifies v.Repr
    ensures v.Valid() && v.Contents() == old(v.Contents())
  {
    v.PushBack(x);
    v.PopBack();
  }

  /** On a non-empty vector, `push_back(back())` undoes `pop_back()`. */
  method PopThenPush<T(0)>(v: Vector<T>)
    requires v.Valid() && v.size > 0
    modifies v.Repr
    ensures v.Valid() && v.Contents() == old(v.Contents())
  {
    var last := v.Back();
    v.PopBack();
    v.PushBack(last);
  }

  /** Starting empty, `n` pushes leave a capacity of at least `n` and,
      after at least one push, below `2n`: the buffer never more than
      doubles what it holds. */
  lemma {:induction false} GrownFromEmpty(n: nat)
    ensures n <= GrownBy(0, 0, n)
    ensures n > 0 ==> GrownBy(0, 0, n) < 2 * n
  {
    if n > 1 {
      GrownFromEmpty(n - 1);
    }
  }

  /** The two range inserts agree on the elements and differ only in the
      position returned; on `[5]`, inserting `[9, 9]` at the front, the
      position returned as written holds 5, not the first 9. */
  method RangeInsertCounterexample() returns (after: seq<int>, returned: nat, intended: nat)
    ensures after == [9, 9, 5]
    ensures returned == 2 && after[returned] == 5
    ensures intended == 0 && after[intended] == 9
  {
    var v := new Vector<int>();
    v.PushBack(5);
    returned := v.InsertRangeAsWritten(0, [9, 9]);
    after := v.buf[..v.size];
    var w := new Vector<int>();
    w.PushBack(5);
    intended := w.InsertRange(0, [9, 9]);
  }

  /** `at(2)` on a vector made with two elements: the as-written guard
      admits position 2, which holds no element and, with capacity 2, lies
      outside the buffer; the corrected `at` reports `out_of_range`. */
  method AtPastEndCounterexample() returns (admitted: bool, capacity: nat, corrected: Result<int>)
    ensures admitted && capacity == 2
    ensures corrected == OutOfRange
  {
    var v := new Vector<int>.Filled(2, 7);
    admitted := v.AtGuardAsWritten(2);
    capacity := v.capacity;
    corrected := v.At(2);
  }
}
