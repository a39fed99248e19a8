/**
 * The growable unboxed stacks (`MutableIntList`, `MutableBooleanList`, ...). The four Kotlin
 * classes differ only in their element type, so they are modelled once, generically.
 */
module PrimitiveLists {
  import opened Failures

  /** Initial capacity of every list. */
  const DefaultSize: nat := 10
  /** Factor by which a full buffer grows. */
  const GrowthFactor: nat := 2

  class MutablePrimitiveList<T(0)> {
    var buffer: array<T>
    var size: nat
    ghost var Repr: set<object>

    ghost predicate Valid()
      reads this, Repr
      ensures Valid() ==> this in Repr
    {
      && Repr == {this, buffer}
      && DefaultSize <= buffer.Length
      && size <= buffer.Length
    }

    /** The elements pushed and not yet popped, bottom first. */
    ghost function Contents(): seq<T>
      reads this, buffer
      requires size <= buffer.Length
    {
      buffer[..size]
    }

    constructor ()
      ensures Valid() && fresh(Repr)
      ensures Contents() == [] && buffer.Length == DefaultSize
    {
      buffer := new T[DefaultSize];
      size := 0;
      Repr := {this, buffer};
    }

    /** `last` (getter): the top element, or IllegalState on an empty list. */
    function Last(): (r: Result<T>)
      reads this, buffer
      requires Valid()
      ensures r.Ok? <==> Contents() != []
      ensures r.Ok? ==> r.value == Contents()[|Contents()| - 1]
      ensures r.Err? ==> r.error == IllegalState
    {
      if size == 0 then Err(IllegalState) else Ok(buffer[size - 1])
    }

    /** `last` (setter): overwrites the top element, or fails with IllegalState on an empty list. */
    method SetLast(value: T) returns (o: Outcome)
      requires Valid()
      modifies buffer
      ensures Valid() && size == old(size)
      ensures old(Contents()) == [] ==> o == Fail(IllegalState) && Contents() == old(Contents())
      ensures old(Contents()) != [] ==>
        o == Pass && Contents() == old(Contents())[..size - 1] + [value]
    {
      if size == 0 {
        return Fail(IllegalState);
      }
      buffer[size - 1] := value;
      o := Pass;
    }

    /** `removeLast`: pops and returns the top element, or fails with IllegalState on an empty list. */
    method RemoveLast() returns (r: Result<T>)
      requires Valid()
      modifies this
      ensures Valid() && buffer == old(buffer) && Repr == old(Repr)
      ensures r == old(Last())
      ensures old(Contents()) == [] ==> Contents() == old(Contents())
      ensures old(Contents()) != [] ==> Contents() == old(Contents())[..old(size) - 1]
    {
      r := Last();
      if r.Ok? {
        size := size - 1;
      }
    }

    /** `plusAssign`: pushes an element, doubling the buffer first when it is full. */
    method PlusAssign(element: T)
      requires Valid()
      modifies Repr
      ensures Valid() && fresh(Repr - old(Repr))
      ensures Contents() == old(Contents()) + [element]
      ensures old(size) == old(buffer.Length) ==> buffer.Length == GrowthFactor * old(buffer.Length)
      ensures old(size) < old(buffer.Length) ==> buffer == old(buffer)
    {
      if size == buffer.Length {
        var grown := new T[size * GrowthFactor];
        forall i | 0 <= i < buffer.Length {
          grown[i] := buffer[i];
        }
        buffer := grown;
        Repr := {this, buffer};
      }
      buffer[size] := element;
      size := size + 1;
    }

    /**
     * `get`, as written: indexes the buffer, so it fails only outside the buffer's capacity
     * and returns a stale or default value for size <= index < capacity.
     */
    function GetAsWritten(index: int): (r: Result<T>)
      reads this, buffer
      requires Valid()
      ensures 0 <= index < |Contents()| ==> r == Ok(Contents()[index])
      ensures r.Ok? <==> 0 <= index < buffer.Length
      ensures r.Err? ==> r.error == IndexOutOfBounds
    {
      if 0 <= index < buffer.Length then Ok(buffer[index]) else Err(IndexOutOfBounds)
    }

    /** `get` as its documentation promises: fails for every index that holds no element. */
    function Get(index: int): (r: Result<T>)
      reads this, buffer
      requires Valid()
      ensures r.Ok? <==> 0 <= index < |Contents()|
      ensures r.Ok? ==> r.value == Contents()[index]
      ensures r.Err? ==> r.error == IndexOutOfBounds
    {
      if 0 <= index < size then Ok(buffer[index]) else Err(IndexOutOfBounds)
    }

    /** `iterator`: walks a cursor from 0 up to `size`, yielding each element in push order. */
    method Elements() returns (yielded: seq<T>)
      requires Valid()
      ensures yielded == Contents()
    {
      var cursor := 0;
      yielded := [];
      while cursor < size
        invariant cursor <= size
        invariant yielded == buffer[..cursor]
      {
        yielded := yielded + [buffer[cursor]];
        cursor := cursor + 1;
      }
    }
  }

  /** A fresh list answers `get(0)` although it holds no element. */
  method GetOnEmptyListSucceeds() returns (r: Result<int>)
    ensures r.Ok?
  {
    var list := new MutablePrimitiveList<int>();
    r := list.GetAsWritten(0);
  }

  /** The documented behaviour: `get(0)` on a fresh list fails. */
  method GetOnEmptyListFails() returns (r: Result<int>)
    ensures r == Err(IndexOutOfBounds)
  {
    var list := new MutablePrimitiveList<int>();
    r := list.Get(0);
  }

  /** Pushing 7, 2, 5 then popping: the top is 5 and the second pop returns 2. */
  method LastInFirstOut() returns (top: Result<int>, first: Result<int>, second: Result<int>)
    ensures top == Ok(5) && first == Ok(5) && second == Ok(2)
  {
    var list := new MutablePrimitiveList<int>();
    list.PlusAssign(7);
    list.PlusAssign(2);
    list.PlusAssign(5);
    top := list.Last();
    first := list.RemoveLast();
    second := list.RemoveLast();
  }

  /** Popping an empty list fails, also once a pushed element has been popped again. */
  method Underflow() returns (before: Result<int>, popped: Result<int>, after: Result<int>)
    ensures before == Err(IllegalState) && popped == Ok(16) && after == Err(IllegalState)
  {
    var list := new MutablePrimitiveList<int>();
    before := list.RemoveLast();
    list.PlusAssign(16);
    popped := list.RemoveLast();
    after := list.RemoveLast();
  }

  /** Pushing past the initial capacity keeps every element, in order. */
  method GrowthKeepsContents(xs: seq<int>) returns (yielded: seq<int>, capacity: nat)
    ensures yielded == xs
    ensures DefaultSize <= capacity && |xs| <= capacity
  {
    var list := new MutablePrimitiveList<int>();
    var i := 0;
    while i < |xs|
      invariant i <= |xs|
      invariant list.Valid() && fresh(list.Repr)
      invariant list.Contents() == xs[..i]
    {
      list.PlusAssign(xs[i]);
      i := i + 1;
    }
    yielded := list.Elements();
    capacity := list.buffer.Length;
  }
}
