/** `fromLast`: iteration over a list or an array from its last element down to its first. */
module ReversedViews {
  import opened Failures

  /** The reference definition: the elements in reverse order. */
  function Reversed<E>(s: seq<E>): (r: seq<E>)
    ensures |r| == |s|
  {
    if s == [] then [] else Reversed(s[1..]) + [s[0]]
  }

  lemma {:induction false} ReversedAt<E>(s: seq<E>, k: nat)
    requires k < |s|
    ensures Reversed(s)[k] == s[|s| - 1 - k]
  {
    if k < |s| - 1 {
      ReversedAt(s[1..], k);
    }
  }

  /** Reversing a prefix one element longer puts that element in front. */
  lemma {:induction false} ReversedSnoc<E>(s: seq<E>, x: E)
    ensures Reversed(s + [x]) == [x] + Reversed(s)
  {
    if s == [] {
      assert s + [x] == [x];
    } else {
      assert (s + [x])[1..] == s[1..] + [x];
      ReversedSnoc(s[1..], x);
    }
  }

  /** Reversing twice gives back the original order. */
  lemma {:induction false} ReversedTwice<E>(s: seq<E>)
    ensures Reversed(Reversed(s)) == s
  {
    if s != [] {
      ReversedTwice(s[1..]);
      ReversedSnoc(Reversed(s[1..]), s[0]);
      assert [s[0]] + s[1..] == s;
    }
  }

  /** The iterator behind `fromLast`: a position that starts at the last index and counts down. */
  class ReversedIterator<E> {
    const elements: seq<E>
    var position: int

    ghost predicate Valid()
      reads this
    {
      position < |elements|
    }

    /** The elements still to be produced, in the order they will be produced. */
    ghost function Remaining(): seq<E>
      reads this
      requires Valid()
    {
      if position < 0 then [] else Reversed(elements[..position + 1])
    }

    /** `fromLast` on a list: the position starts at `lastIndex`, which is -1 for an empty list. */
    constructor (elements: seq<E>)
      ensures Valid() && this.elements == elements && position == |elements| - 1
      ensures Remaining() == Reversed(elements)
    {
      this.elements := elements;
      position := |elements| - 1;
      new;
      assert elements[..|elements|] == elements;
    }

    /** `hasNext`: true while the position is a valid index. */
    function HasNext(): (r: bool)
      reads this
      requires Valid()
      ensures r <==> Remaining() != []
    {
      position >= 0
    }

    /**
     * `next`: `this[position--]`. The position is decremented before the index is used, so
     * on an exhausted iterator the call fails with IndexOutOfBounds and still moves the position.
     */
    method Next() returns (r: Result<E>)
      requires Valid()
      modifies this
      ensures position == old(position) - 1 && Valid()
      ensures old(Remaining()) != [] ==> r == Ok(old(Remaining())[0]) && Remaining() == old(Remaining())[1..]
      ensures old(Remaining()) == [] ==> r == Err(IndexOutOfBounds)
    {
      var index := position;
      position := position - 1;
      if 0 <= index < |elements| {
        r := Ok(elements[index]);
        assert elements[..index + 1] == elements[..index] + [elements[index]];
        ReversedSnoc(elements[..index], elements[index]);
      } else {
        r := Err(IndexOutOfBounds);
      }
    }
  }

  /** `Array.fromLast`: the same iterator over the array's elements. */
  method FromLastArray<E>(a: array<E>) returns (it: ReversedIterator<E>)
    ensures fresh(it) && it.Valid() && it.elements == a[..] && it.Remaining() == Reversed(a[..])
  {
    it := new ReversedIterator(a[..]);
  }

  /**
   * Draining `fromLast` over a list of length n: exactly n elements come out, those at
   * indices n-1 down to 0, and then `hasNext` is false.
   */
  method FromLastElements<E>(elements: seq<E>) returns (produced: seq<E>, hasNextAfter: bool)
    ensures produced == Reversed(elements)
    ensures |produced| == |elements|
    ensures forall k :: 0 <= k < |elements| ==> produced[k] == elements[|elements| - 1 - k]
    ensures !hasNextAfter
  {
    var it := new ReversedIterator(elements);
    produced := [];
    while it.HasNext()
      invariant it.Valid() && it.position >= -1
      invariant produced + it.Remaining() == Reversed(elements)
      decreases it.position
    {
      var r := it.Next();
      produced := produced + [r.value];
    }
    hasNextAfter := it.HasNext();
    forall k | 0 <= k < |elements|
      ensures produced[k] == elements[|elements| - 1 - k]
    {
      ReversedAt(elements, k);
    }
  }

  /** An empty list produces nothing: its position starts at -1, and every `next` fails. */
  method FromLastEmpty<E>() returns (hasNext: bool, first: Result<E>, second: Result<E>)
    ensures !hasNext && first == Err(IndexOutOfBounds) && second == Err(IndexOutOfBounds)
  {
    var it := new ReversedIterator<E>([]);
    hasNext := it.HasNext();
    first := it.Next();
    second := it.Next();
  }
}
