/**
 * Boolean helpers: `implies` and the accumulating disjunction/conjunction over an iterable.
 * Each accumulating helper also returns, as `applied`, the elements `transform` was applied to,
 * in the order it was applied, which is how the model observes that nothing short-circuits.
 */
module BooleanAlgebra {

  /** `implies`: runs `other` exactly when the receiver is true, and returns the receiver. */
  method Implies(receiver: bool) returns (r: bool, ranOther: bool)
    ensures r == receiver
    ensures ranOther <==> receiver
  {
    ranOther := false;
    if receiver {
      ranOther := true;
    }
    r := receiver;
  }

  /** Some element is mapped to true. */
  ghost predicate Any<T>(elements: seq<T>, transform: T -> bool) {
    exists i :: 0 <= i < |elements| && transform(elements[i])
  }

  /** Every element is mapped to true. */
  ghost predicate All<T>(elements: seq<T>, transform: T -> bool) {
    forall i :: 0 <= i < |elements| ==> transform(elements[i])
  }

  /** `orEach`: the disjunction of `transform` over every element, applied to each in order. */
  method OrEach<T>(elements: seq<T>, transform: T -> bool) returns (result: bool, applied: seq<T>)
    ensures result <==> Any(elements, transform)
    ensures applied == elements
  {
    result := false;
    applied := [];
    for i := 0 to |elements|
      invariant result <==> Any(elements[..i], transform)
      invariant applied == elements[..i]
    {
      var verdict := transform(elements[i]);
      applied := applied + [elements[i]];
      result := result || verdict;
      assert elements[..i + 1][i] == elements[i];
    }
    assert elements[..|elements|] == elements;
  }

  /** `andEach`: the conjunction of `transform` over every element, applied to each in order. */
  method AndEach<T>(elements: seq<T>, transform: T -> bool) returns (result: bool, applied: seq<T>)
    ensures result <==> All(elements, transform)
    ensures applied == elements
  {
    result := true;
    applied := [];
    for i := 0 to |elements|
      invariant result <==> All(elements[..i], transform)
      invariant applied == elements[..i]
    {
      var verdict := transform(elements[i]);
      applied := applied + [elements[i]];
      result := result && verdict;
    }
    assert elements[..|elements|] == elements;
  }

  /**
   * The elements that survive a pass in which `transform` returns, for each element,
   * its verdict and whether it asked the `Removable` to remove that element.
   */
  function Kept<T>(elements: seq<T>, transform: T -> (bool, bool)): (r: seq<T>)
    ensures |r| <= |elements|
    ensures forall x :: x in r ==> x in elements && !transform(x).1
  {
    if elements == [] then []
    else if transform(elements[0]).1 then Kept(elements[1..], transform)
    else [elements[0]] + Kept(elements[1..], transform)
  }

  lemma {:induction false} KeptAppend<T>(elements: seq<T>, x: T, transform: T -> (bool, bool))
    ensures Kept(elements + [x], transform) ==
      Kept(elements, transform) + (if transform(x).1 then [] else [x])
  {
    if elements == [] {
      assert elements + [x] == [x];
    } else {
      assert (elements + [x])[1..] == elements[1..] + [x];
      KeptAppend(elements[1..], x, transform);
    }
  }

  /**
   * `orEachRemovable`: the disjunction of the verdicts, visiting every element once in order;
   * the elements whose transform removed them are gone from the collection afterwards.
   */
  method OrEachRemovable<T>(elements: seq<T>, transform: T -> (bool, bool))
    returns (result: bool, applied: seq<T>, remaining: seq<T>)
    ensures result <==> exists i :: 0 <= i < |elements| && transform(elements[i]).0
    ensures applied == elements
    ensures remaining == Kept(elements, transform)
  {
    result := false;
    applied := [];
    remaining := [];
    var i := 0;
    while i < |elements|
      invariant i <= |elements|
      invariant result <==> exists j :: 0 <= j < i && transform(elements[j]).0
      invariant applied == elements[..i]
      invariant remaining == Kept(elements[..i], transform)
    {
      var (verdict, remove) := transform(elements[i]);
      applied := applied + [elements[i]];
      KeptAppend(elements[..i], elements[i], transform);
      assert elements[..i + 1] == elements[..i] + [elements[i]];
      if !remove {
        remaining := remaining + [elements[i]];
      }
      result := result || verdict;
      i := i + 1;
    }
    assert elements[..i] == elements;
  }

  /**
   * `andEachRemovable`: the conjunction of the verdicts, visiting every element once in order;
   * the elements whose transform removed them are gone from the collection afterwards.
   */
  method AndEachRemovable<T>(elements: seq<T>, transform: T -> (bool, bool))
    returns (result: bool, applied: seq<T>, remaining: seq<T>)
    ensures result <==> forall i :: 0 <= i < |elements| ==> transform(elements[i]).0
    ensures applied == elements
    ensures remaining == Kept(elements, transform)
  {
    result := true;
    applied := [];
    remaining := [];
    var i := 0;
    while i < |elements|
      invariant i <= |elements|
      invariant result <==> forall j :: 0 <= j < i ==> transform(elements[j]).0
      invariant applied == elements[..i]
      invariant remaining == Kept(elements[..i], transform)
    {
      var (verdict, remove) := transform(elements[i]);
      applied := applied + [elements[i]];
      KeptAppend(elements[..i], elements[i], transform);
      assert elements[..i + 1] == elements[..i] + [elements[i]];
      if !remove {
        remaining := remaining + [elements[i]];
      }
      result := result && verdict;
      i := i + 1;
    }
    assert elements[..i] == elements;
  }

  /** The documented edge cases of `orEach` and `andEach`: the empty and the one-element input. */
  method EdgeCases<T>(x: T, transform: T -> bool)
    returns (orEmpty: bool, andEmpty: bool, orSingle: bool, andSingle: bool)
    ensures !orEmpty && andEmpty
    ensures orSingle == transform(x) && andSingle == transform(x)
  {
    var applied;
    orEmpty, applied := OrEach([], transform);
    andEmpty, applied := AndEach([], transform);
    orSingle, applied := OrEach([x], transform);
    andSingle, applied := AndEach([x], transform);
    assert [x][0] == x;
  }
}
