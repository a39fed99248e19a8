/**
 * Revertible iteration over an indexable sequence (`ListRevertibleIterator`,
 * `StringRevertibleIterator`): a cursor position plus a stack of saved positions.
 */
module RevertibleIterators {
  import opened Failures
  import opened PrimitiveLists

  /** The list or string being iterated, as an object so that its identity can be compared. */
  class Indexable<E> {
    const elements: seq<E>

    constructor (elements: seq<E>)
      ensures this.elements == elements
    {
      this.elements := elements;
    }
  }

  /**
   * `PositionalRevertibleIterator`. The list and string versions differ only in their element
   * type, so one generic class models both.
   */
  class PositionalRevertibleIterator<E> {
    const source: Indexable<E>
    var position: int
    const savedPositions: MutablePrimitiveList<int>
    ghost var Repr: set<object>

    ghost predicate Valid()
      reads this, Repr
    {
      && this in Repr
      && savedPositions in Repr && savedPositions.Repr <= Repr && this !in savedPositions.Repr
      && savedPositions.Valid()
      && 0 <= position
      && forall i :: 0 <= i < |savedPositions.Contents()| ==> savedPositions.Contents()[i] >= 0
    }

    /** The saved positions, oldest first. */
    ghost function Saved(): seq<int>
      reads this, Repr
      requires Valid()
    {
      savedPositions.Contents()
    }

    /** `revertibleIterator()` on a list or string: position 0 and nothing saved. */
    constructor (source: Indexable<E>)
      ensures Valid() && fresh(Repr)
      ensures this.source == source && position == 0 && Saved() == []
    {
      this.source := source;
      position := 0;
      var stack := new MutablePrimitiveList<int>();
      savedPositions := stack;
      Repr := {this} + stack.Repr;
    }

    /** `advance`: a negative count fails with IllegalArgument; otherwise the position moves by it. */
    method Advance(places: int) returns (o: Outcome)
      requires Valid()
      modifies this
      ensures Valid() && Repr == old(Repr) && Saved() == old(Saved())
      ensures places < 0 ==> o == Fail(IllegalArgument) && position == old(position)
      ensures places >= 0 ==> o == Pass && position == old(position) + places
    {
      if places < 0 {
        return Fail(IllegalArgument);
      }
      position := position + places;
      o := Pass;
    }

    /** `save`: pushes the current position. */
    method Save()
      requires Valid()
      modifies Repr
      ensures Valid() && fresh(Repr - old(Repr))
      ensures Saved() == old(Saved()) + [old(position)] && position == old(position)
    {
      savedPositions.PlusAssign(position);
      Repr := Repr + savedPositions.Repr;
    }

    /**
     * `revert`: pops the latest saved position and makes it current. With nothing saved it
     * fails with IllegalState and changes nothing.
     */
    method Revert() returns (o: Outcome)
      requires Valid()
      modifies Repr
      ensures Valid() && Repr == old(Repr)
      ensures old(Saved()) == [] ==> o == Fail(IllegalState) && Saved() == [] && position == old(position)
      ensures old(Saved()) != [] ==> o == Pass && position == old(Saved())[|old(Saved())| - 1]
      ensures old(Saved()) != [] ==> Saved() == old(Saved())[..|old(Saved())| - 1]
    {
      var r := RemoveLastSave();
      if r.Err? {
        return Fail(r.error);
      }
      position := r.value;
      o := Pass;
    }

    /**
     * `removeSave`: pops the latest saved position without moving. With nothing saved it fails
     * with IllegalState and changes nothing.
     */
    method RemoveSave() returns (o: Outcome)
      requires Valid()
      modifies Repr
      ensures Valid() && Repr == old(Repr) && position == old(position)
      ensures old(Saved()) == [] ==> o == Fail(IllegalState) && Saved() == []
      ensures old(Saved()) != [] ==> o == Pass && Saved() == old(Saved())[..|old(Saved())| - 1]
    {
      var r := RemoveLastSave();
      o := if r.Err? then Fail(r.error) else Pass;
    }

    /**
     * `removeLastSave`: the stack's own `removeLast`, whose empty case is IllegalState; the
     * handler around it, which would report IllegalState as well, is never reached.
     */
    method RemoveLastSave() returns (r: Result<int>)
      requires Valid()
      modifies Repr
      ensures Valid() && Repr == old(Repr) && position == old(position)
      ensures old(Saved()) == [] ==> r == Err(IllegalState) && Saved() == []
      ensures old(Saved()) != [] ==> r == Ok(old(Saved())[|old(Saved())| - 1])
      ensures old(Saved()) != [] ==> Saved() == old(Saved())[..|old(Saved())| - 1]
    {
      r := savedPositions.RemoveLast();
    }

    /** `hasNext`: some element is left at the position. */
    function HasNext(): (r: bool)
      reads this
      ensures r <==> position < |source.elements|
    {
      position < |source.elements|
    }

    /** `isExhausted`: the negation of `hasNext`. */
    function IsExhausted(): (r: bool)
      reads this
      ensures r <==> !HasNext()
    {
      position >= |source.elements|
    }

    /** `peek`: the element at the position; past the end, NoSuchElement. */
    function Peek(): (r: Result<E>)
      reads this
      ensures 0 <= position < |source.elements| ==> r == Ok(source.elements[position])
      ensures !(0 <= position < |source.elements|) ==> r == Err(NoSuchElement)
    {
      if 0 <= position < |source.elements| then Ok(source.elements[position]) else Err(NoSuchElement)
    }

    /** `next`: `peek`, then one step forward when it succeeded. */
    method Next() returns (r: Result<E>)
      requires Valid()
      modifies this
      ensures Valid() && Repr == old(Repr) && Saved() == old(Saved())
      ensures r == old(Peek())
      ensures position == if r.Ok? then old(position) + 1 else old(position)
    {
      r := Peek();
      if r.Ok? {
        position := position + 1;
      }
    }

    /** `position()`. */
    function Position(): (r: int)
      reads this, Repr
      requires Valid()
      ensures r >= 0 && r == position
    {
      position
    }

    /** `equals`: the same backing instance at the same position. */
    function Equals(other: PositionalRevertibleIterator<E>): (r: bool)
      reads this, other
      ensures r <==> source == other.source && position == other.position
      ensures this == other ==> r
    {
      this == other || (source == other.source && position == other.position)
    }
  }

  /** `List.revertibleIterator()`. */
  method ListRevertibleIterator<E>(list: Indexable<E>) returns (it: PositionalRevertibleIterator<E>)
    ensures fresh(it) && fresh(it.Repr) && it.Valid()
    ensures it.source == list && it.position == 0 && it.Saved() == []
  {
    it := new PositionalRevertibleIterator(list);
  }

  /** `String.revertibleIterator()`. */
  method StringRevertibleIterator(s: Indexable<char>) returns (it: PositionalRevertibleIterator<char>)
    ensures fresh(it) && fresh(it.Repr) && it.Valid()
    ensures it.source == s && it.position == 0 && it.Saved() == []
  {
    it := new PositionalRevertibleIterator(s);
  }

  /** Draining an iterator: exactly the elements, in order, and then NoSuchElement. */
  method Drain<E>(elements: seq<E>) returns (yielded: seq<E>, after: Result<E>, exhausted: bool)
    ensures yielded == elements
    ensures after == Err(NoSuchElement) && exhausted
  {
    var list := new Indexable(elements);
    var it := ListRevertibleIterator(list);
    yielded := [];
    while it.HasNext()
      invariant it.Valid() && fresh(it.Repr)
      invariant 0 <= it.position <= |elements| && yielded == elements[..it.position]
      decreases |elements| - it.position
    {
      var r := it.Next();
      yielded := yielded + [r.value];
    }
    after := it.Next();
    exhausted := it.IsExhausted();
  }

  /**
   * `testReverting`: revert with nothing saved fails; save twice, take one, drop one save, take
   * the second element; revert gives the first element again; after advancing 100 places,
   * `next` fails and leaves the position where the advance put it.
   */
  method TestReverting<E>(elements: seq<E>)
    returns (failed: Outcome, second: Result<E>, first: Result<E>, past: Result<E>, stuck: bool)
    requires 2 <= |elements| <= 101
    ensures failed == Fail(IllegalState)
    ensures second == Ok(elements[1]) && first == Ok(elements[0])
    ensures past == Err(NoSuchElement) && stuck
  {
    var list := new Indexable(elements);
    var it := ListRevertibleIterator(list);
    failed, second := RevertingStart(it);
    first, past, stuck := RevertingEnd(it);
  }

  /** The first half of `testReverting`: the failed revert, two saves, one dropped, two steps. */
  method RevertingStart<E>(it: PositionalRevertibleIterator<E>) returns (failed: Outcome, second: Result<E>)
    requires it.Valid() && it.position == 0 && it.Saved() == [] && 2 <= |it.source.elements|
    modifies it.Repr
    ensures it.Valid() && fresh(it.Repr - old(it.Repr))
    ensures it.position == 2 && it.Saved() == [0]
    ensures failed == Fail(IllegalState) && second == Ok(it.source.elements[1])
  {
    failed := it.Revert();
    it.Save();
    it.Save();
    var _ := it.Next();
    var _ := it.RemoveSave();
    second := it.Next();
  }

  /** The second half: revert to the start, one step, then 100 places past the end. */
  method RevertingEnd<E>(it: PositionalRevertibleIterator<E>) returns (first: Result<E>, past: Result<E>, stuck: bool)
    requires it.Valid() && it.position == 2 && it.Saved() == [0] && 2 <= |it.source.elements| <= 101
    modifies it.Repr
    ensures first == Ok(it.source.elements[0]) && past == Err(NoSuchElement) && stuck
  {
    var _ := it.Revert();
    first := it.Next();
    var _ := it.Advance(100);
    past := it.Next();
    stuck := it.position == 101;
  }

  /** The rest of the elements, taken with `next` until `hasNext` is false. */
  method Rest<E>(it: PositionalRevertibleIterator<E>) returns (rest: seq<E>)
    requires it.Valid()
    modifies it
    ensures it.Valid() && it.Repr == old(it.Repr) && it.Saved() == old(it.Saved())
    ensures rest == if old(it.position) <= |it.source.elements| then it.source.elements[old(it.position)..] else []
    ensures it.IsExhausted()
  {
    rest := [];
    while it.HasNext()
      invariant it.Valid() && it.Repr == old(it.Repr) && it.Saved() == old(it.Saved())
      invariant old(it.position) <= it.position
      invariant it.position <= |it.source.elements| ==> rest == it.source.elements[old(it.position)..it.position]
      invariant it.position > |it.source.elements| ==> rest == [] && it.position == old(it.position)
      decreases |it.source.elements| - it.position
    {
      var r := it.Next();
      rest := rest + [r.value];
    }
  }

  /**
   * The documented example: over "Hello, world!", save, advance 7 and read the rest,
   * "world!"; after `revert`, the rest is the whole string again.
   */
  method SaveAdvanceRevert() returns (after: string, reverted: string)
    ensures after == "world!" && reverted == "Hello, world!"
  {
    var s := new Indexable("Hello, world!");
    var it := StringRevertibleIterator(s);
    it.Save();
    var _ := it.Advance(7);
    after := Rest(it);
    var _ := it.Revert();
    reverted := Rest(it);
  }

  /** Two iterators are equal exactly on the same instance at the same position. */
  method EqualityScenario() returns (sameStart: bool, apart: bool, together: bool, otherInstance: bool)
    ensures sameStart && !apart && together && !otherInstance
  {
    var s := new Indexable("ab");
    var t := new Indexable("ab");
    var a := StringRevertibleIterator(s);
    var b := StringRevertibleIterator(s);
    var c := StringRevertibleIterator(t);
    sameStart := a.Equals(b);
    var _ := a.Next();
    apart := a.Equals(b);
    var _ := b.Next();
    together := a.Equals(b);
    var _ := c.Next();
    otherInstance := a.Equals(c);
  }
}
