/**
 * Pivots: list nodes holding a position and a value, kept in ascending order of position,
 * and `getOrInsert`, which finds the pivot at a position or inserts one there.
 */
module DataPivots {
  import opened Failures
  import opened ListNodes

  /** The payload of a `DataPivot` node. */
  datatype Pivot<V> = Pivot(position: int, value: V)

  /** The pivot nodes of one chain, head to tail. */
  type PivotChain<V> = seq<ListNode<Pivot<V>>>

  /** Strictly ascending positions: the order `getOrInsert` is meant to keep. */
  ghost predicate Ascending<V>(ps: seq<Pivot<V>>) {
    forall i, j :: 0 <= i < j < |ps| ==> ps[i].position < ps[j].position
  }

  /** `x` placed at index `i`. */
  function Inserted<V>(ps: seq<Pivot<V>>, i: nat, x: Pivot<V>): (r: seq<Pivot<V>>)
    requires i <= |ps|
    ensures |r| == |ps| + 1 && r[i] == x
    ensures forall k :: 0 <= k < i ==> r[k] == ps[k]
    ensures forall k :: i < k < |r| ==> r[k] == ps[k - 1]
  {
    ps[..i] + [x] + ps[i..]
  }

  /** What a lookup decides: an existing pivot, or the index a new pivot goes to. */
  datatype Lookup = Found(index: nat) | InsertAt(index: nat)

  /** The pivots after a lookup: unchanged when found, else with a new pivot at the index. */
  function Applied<V>(ps: seq<Pivot<V>>, l: Lookup, position: int, value: V): seq<Pivot<V>>
    requires l.Found? ==> l.index < |ps|
    requires l.InsertAt? ==> l.index <= |ps|
  {
    match l
    case Found(_) => ps
    case InsertAt(i) => Inserted(ps, i, Pivot(position, value))
  }

  /**
   * `insertClosest` from the pivot at index k: the new pivot goes before it when its position
   * is greater, after it otherwise.
   */
  function Closest<V>(ps: seq<Pivot<V>>, k: nat, position: int): (r: Lookup)
    requires k < |ps|
    ensures r.Found? <==> position == ps[k].position
    ensures r.Found? ==> r.index == k
    ensures r.InsertAt? ==> r.index == if ps[k].position > position then k else k + 1
  {
    if position == ps[k].position then Found(k)
    else if ps[k].position > position then InsertAt(k)
    else InsertAt(k + 1)
  }

  /**
   * `getOrInsert` as written, on the pivots of the chain and the receiver's index `at`. The
   * predicates given to `backtrace` and `seek` test the captured receiver, not the node they
   * are handed, so they are constant `false`: the search always ends at the head or the tail.
   */
  function AsWrittenLookup<V>(ps: seq<Pivot<V>>, at: nat, position: int): (r: Lookup)
    requires at < |ps|
    ensures r.Found? ==> r.index < |ps| && ps[r.index].position == position
    ensures r.InsertAt? ==> r.index <= |ps|
  {
    if position == ps[at].position then Found(at)
    else if ps[at].position > position then Closest(ps, 0, position)
    else Closest(ps, |ps| - 1, position)
  }

  /** `backtrace { it.position <= position }` from index `at`: that pivot, else the head. */
  function BacktraceIndex<V>(ps: seq<Pivot<V>>, at: nat, position: int): (k: nat)
    requires at < |ps|
    ensures k <= at
    ensures forall j :: k < j <= at ==> ps[j].position > position
    ensures ps[k].position <= position || k == 0
  {
    if ps[at].position <= position || at == 0 then at else BacktraceIndex(ps, at - 1, position)
  }

  /** `seek { it.position >= position }` from index `at`: that pivot, else the tail. */
  function SeekIndex<V>(ps: seq<Pivot<V>>, at: nat, position: int): (k: nat)
    requires at < |ps|
    ensures at <= k < |ps|
    ensures forall j :: at <= j < k ==> ps[j].position < position
    ensures ps[k].position >= position || k == |ps| - 1
    decreases |ps| - at
  {
    if ps[at].position >= position || at == |ps| - 1 then at else SeekIndex(ps, at + 1, position)
  }

  /** `getOrInsert` with the predicates applied to the node they are handed, as intended. */
  function FixedLookup<V>(ps: seq<Pivot<V>>, at: nat, position: int): (r: Lookup)
    requires at < |ps|
    ensures r.Found? ==> r.index < |ps| && ps[r.index].position == position
    ensures r.InsertAt? ==> r.index <= |ps|
  {
    if position == ps[at].position then Found(at)
    else if ps[at].position > position then Closest(ps, BacktraceIndex(ps, at, position), position)
    else Closest(ps, SeekIndex(ps, at, position), position)
  }

  /** A pivot placed between a smaller and a greater neighbour keeps the order strict. */
  lemma InsertedAscending<V>(ps: seq<Pivot<V>>, i: nat, x: Pivot<V>)
    requires Ascending(ps) && i <= |ps|
    requires i > 0 ==> ps[i - 1].position < x.position
    requires i < |ps| ==> x.position < ps[i].position
    ensures Ascending(Inserted(ps, i, x))
  {
    var r := Inserted(ps, i, x);
    forall a, b | 0 <= a < b < |r|
      ensures r[a].position < r[b].position
    {
      if b < i {
      } else if b == i {
        assert r[a] == ps[a];
        if a < i - 1 {
          assert ps[a].position < ps[i - 1].position;
        }
      } else if a == i {
        assert r[b] == ps[b - 1];
        if i < b - 1 {
          assert ps[i].position < ps[b - 1].position;
        }
      } else if a < i {
        assert r[a] == ps[a] && r[b] == ps[b - 1];
      } else {
        assert r[a] == ps[a - 1] && r[b] == ps[b - 1];
      }
    }
  }

  /**
   * A position strictly between the pivots before and from index `k` is held by no pivot, and
   * a pivot inserted there keeps the order strict.
   */
  lemma GapAbsent<V>(ps: seq<Pivot<V>>, k: nat, position: int, value: V)
    requires Ascending(ps) && k <= |ps|
    requires k > 0 ==> ps[k - 1].position < position
    requires k < |ps| ==> position < ps[k].position
    ensures forall i :: 0 <= i < |ps| ==> ps[i].position != position
    ensures Ascending(Inserted(ps, k, Pivot(position, value)))
  {
    InsertedAscending(ps, k, Pivot(position, value));
    forall i | 0 <= i < |ps|
      ensures ps[i].position != position
    {
      if i < k - 1 {
        assert ps[i].position < ps[k - 1].position;
      } else if i > k {
        assert ps[k].position < ps[i].position;
      }
    }
  }

  /**
   * On strictly ascending pivots, the intended `getOrInsert` finds the pivot at `position`
   * exactly when one exists, and otherwise inserts one where the order stays strict.
   */
  lemma {:induction false} FixedLookupCorrect<V>(ps: seq<Pivot<V>>, at: nat, position: int, value: V)
    requires Ascending(ps) && at < |ps|
    ensures (exists i :: 0 <= i < |ps| && ps[i].position == position) <==> FixedLookup(ps, at, position).Found?
    ensures FixedLookup(ps, at, position).InsertAt? ==>
      Ascending(Applied(ps, FixedLookup(ps, at, position), position, value))
  {
    var l := FixedLookup(ps, at, position);
    if position == ps[at].position {
      return;
    }
    if ps[at].position > position {
      var k := BacktraceIndex(ps, at, position);
      if ps[k].position > position {
        assert k == 0 && l == InsertAt(0);
        GapAbsent(ps, 0, position, value);
      } else if ps[k].position < position {
        assert l == InsertAt(k + 1) && ps[k + 1].position > position;
        GapAbsent(ps, k + 1, position, value);
      }
    } else {
      var k := SeekIndex(ps, at, position);
      if ps[k].position > position {
        assert l == InsertAt(k) && k > at && ps[k - 1].position < position;
        GapAbsent(ps, k, position, value);
      } else if ps[k].position < position {
        assert k == |ps| - 1 && l == InsertAt(|ps|);
        GapAbsent(ps, |ps|, position, value);
      }
    }
  }

  /**
   * The as-written search gives the intended answer when the position is at or beyond either
   * end of strictly ascending pivots, or is the receiver's own.
   */
  lemma AsWrittenAgreesAtEnds<V>(ps: seq<Pivot<V>>, at: nat, position: int)
    requires Ascending(ps) && at < |ps|
    requires position <= ps[0].position || ps[|ps| - 1].position <= position || position == ps[at].position
    ensures AsWrittenLookup(ps, at, position) == FixedLookup(ps, at, position)
  {
    if position != ps[at].position {
      if ps[at].position > position {
        SearchStopsInside(ps, at, position);
      } else {
        SearchStopsInside(ps, at, position);
      }
    }
  }

  /**
   * On strictly ascending pivots, a search that stops short of the head or the tail was for
   * a position strictly between the head's and the tail's.
   */
  lemma SearchStopsInside<V>(ps: seq<Pivot<V>>, at: nat, position: int)
    requires Ascending(ps) && at < |ps|
    ensures ps[at].position > position && BacktraceIndex(ps, at, position) > 0 ==>
      ps[0].position < position < ps[|ps| - 1].position
    ensures ps[at].position < position && SeekIndex(ps, at, position) < |ps| - 1 ==>
      ps[0].position < position < ps[|ps| - 1].position
  {
    var b := BacktraceIndex(ps, at, position);
    var s := SeekIndex(ps, at, position);
    if at < |ps| - 1 {
      assert ps[at].position < ps[|ps| - 1].position;
    }
    if 0 < at {
      assert ps[0].position < ps[at].position;
    }
    if b > 0 {
      assert ps[0].position < ps[b].position;
    }
    if s < |ps| - 1 {
      assert ps[s].position < ps[|ps| - 1].position;
    }
  }

  /**
   * Counterexample: from the pivot at 1 in [1, 5, 10], looking up 5 does not find the existing
   * pivot at 5 and inserts a second one before the tail, giving positions 1, 5, 5, 10.
   */
  lemma AsWrittenDuplicatesPosition<V>(a: V, b: V, c: V, v: V)
    ensures var ps := [Pivot(1, a), Pivot(5, b), Pivot(10, c)];
      && AsWrittenLookup(ps, 0, 5) == InsertAt(2)
      && FixedLookup(ps, 0, 5) == Found(1)
      && PositionsOf(Applied(ps, AsWrittenLookup(ps, 0, 5), 5, v)) == [1, 5, 5, 10]
  {
    var ps := [Pivot(1, a), Pivot(5, b), Pivot(10, c)];
    assert SeekIndex(ps, 1, 5) == 1;
    var r := Applied(ps, InsertAt(2), 5, v);
    assert r == [Pivot(1, a), Pivot(5, b), Pivot(5, v), Pivot(10, c)];
  }

  /**
   * Counterexample: from the pivot at 5 in [1, 3, 5], looking up 4 inserts it after the head,
   * giving positions 1, 4, 3, 5 out of order.
   */
  lemma AsWrittenBreaksOrder<V>(a: V, b: V, c: V, v: V)
    ensures var ps := [Pivot(1, a), Pivot(3, b), Pivot(5, c)];
      && AsWrittenLookup(ps, 2, 4) == InsertAt(1)
      && FixedLookup(ps, 2, 4) == InsertAt(2)
      && PositionsOf(Applied(ps, AsWrittenLookup(ps, 2, 4), 4, v)) == [1, 4, 3, 5]
      && !Ascending(Applied(ps, AsWrittenLookup(ps, 2, 4), 4, v))
  {
    var ps := [Pivot(1, a), Pivot(3, b), Pivot(5, c)];
    var r := Applied(ps, InsertAt(1), 4, v);
    assert r == [Pivot(1, a), Pivot(4, v), Pivot(3, b), Pivot(5, c)];
    assert r[1].position == 4 && r[2].position == 3;
    assert FixedLookup(ps, 2, 4) == InsertAt(2) by {
      assert BacktraceIndex(ps, 1, 4) == 1;
    }
  }

  /**
   * `insertClosest`: a new pivot holding `lazyValue()` is linked before `node` when `node`'s
   * position is greater, after it otherwise. `calls` counts the calls of `lazyValue` made here;
   * the body sets it beside its one call, and since `lazyValue` is pure the count is recorded,
   * not observed, as is the `calls` of the methods built on this one.
   */
  method InsertClosest<V>(node: ListNode<Pivot<V>>, position: int, lazyValue: () -> V,
                          ghost chain: PivotChain<V>, ghost k: nat)
    returns (pivot: ListNode<Pivot<V>>, ghost chain': PivotChain<V>, calls: nat)
    requires Linked(chain) && k < |chain| && chain[k] == node
    requires position != node.element.position
    modifies chain
    ensures calls == 1 && fresh(pivot) && pivot.element == Pivot(position, lazyValue())
    ensures var i := Closest(Elements(chain), k, position).index;
      && chain' == chain[..i] + [pivot] + chain[i..] && Linked(chain')
      && Elements(chain') == Inserted(Elements(chain), i, pivot.element)
  {
    ElementsAt(chain, k);
    pivot := new ListNode(Pivot(position, lazyValue()));
    calls := 1;
    var o;
    ghost var i;
    assert k > 0 ==> node.last == chain[k - 1];
    assert k < |chain| - 1 ==> node.next == chain[k + 1];
    if node.element.position > position {
      i := k;
      o, chain' := node.InsertBefore(pivot, chain, k);
    } else {
      i := k + 1;
      o, chain' := node.InsertAfter(pivot, chain, k);
      assert chain[..k + 1] + [pivot] + chain[k + 1..] == chain[..i] + [pivot] + chain[i..];
    }
    ElementsSplice(chain[..i], pivot, chain[i..]);
    ElementsSlice(chain, i);
  }

  /**
   * The end of `getOrInsert`, from the node the search stopped at (index `k`): that node if it
   * holds `position`, else a new pivot linked in by `insertClosest`.
   */
  method GetOrInsertClosest<V>(node: ListNode<Pivot<V>>, position: int, lazyValue: () -> V,
                               ghost chain: PivotChain<V>, ghost k: nat)
    returns (r: ListNode<Pivot<V>>, ghost chain': PivotChain<V>, calls: nat)
    requires Linked(chain) && k < |chain| && chain[k] == node
    modifies chain
    ensures var l := Closest(Elements(chain), k, position);
      && Linked(chain')
      && calls == (if l.InsertAt? then 1 else 0)
      && Elements(chain') == Applied(Elements(chain), l, position, lazyValue())
      && l.index < |chain'| && r == chain'[l.index]
      && (l.Found? ==> chain' == chain)
      && (l.InsertAt? ==> fresh(r) && chain' == chain[..l.index] + [r] + chain[l.index..])
  {
    ElementsAt(chain, k);
    if position == node.element.position {
      return node, chain, 0;
    }
    r, chain', calls := InsertClosest(node, position, lazyValue, chain, k);
    ghost var i := Closest(Elements(chain), k, position).index;
    assert chain'[i] == r;
  }

  /**
   * `getOrInsert` as written: the pivot at `position` if the search finds one, else a new
   * pivot holding `lazyValue()` linked in where `AsWrittenLookup` says.
   */
  method GetOrInsert<V>(receiver: ListNode<Pivot<V>>, position: int, lazyValue: () -> V,
                        ghost chain: PivotChain<V>, ghost at: nat)
    returns (r: ListNode<Pivot<V>>, ghost chain': PivotChain<V>, calls: nat)
    requires Linked(chain) && at < |chain| && chain[at] == receiver
    modifies chain
    ensures var l := AsWrittenLookup(Elements(chain), at, position);
      && Linked(chain')
      && calls == (if l.InsertAt? then 1 else 0)
      && Elements(chain') == Applied(Elements(chain), l, position, lazyValue())
      && l.index < |chain'| && r == chain'[l.index]
      && (l.Found? ==> chain' == chain)
      && (l.InsertAt? ==> fresh(r) && chain' == chain[..l.index] + [r] + chain[l.index..])
  {
    ElementsAt(chain, at);
    if position == receiver.element.position {
      return receiver, chain, 0;
    }
    var node;
    ghost var k;
    if receiver.element.position > position {
      node, k := receiver.Backtrace(n => receiver.element.position <= position, chain, at);
      assert k == 0;
    } else {
      node, k := receiver.Seek(n => receiver.element.position >= position, chain, at);
      assert k == |chain| - 1;
    }
    r, chain', calls := GetOrInsertClosest(node, position, lazyValue, chain, k);
  }

  /**
   * `getOrInsert` with the searches testing the node they are handed: the pivot at `position`,
   * or a new one linked in where `FixedLookup` says.
   */
  method GetOrInsertFixed<V>(receiver: ListNode<Pivot<V>>, position: int, lazyValue: () -> V,
                             ghost chain: PivotChain<V>, ghost at: nat)
    returns (r: ListNode<Pivot<V>>, ghost chain': PivotChain<V>, calls: nat)
    requires Linked(chain) && at < |chain| && chain[at] == receiver
    modifies chain
    ensures var l := FixedLookup(Elements(chain), at, position);
      && Linked(chain')
      && calls == (if l.InsertAt? then 1 else 0)
      && Elements(chain') == Applied(Elements(chain), l, position, lazyValue())
      && l.index < |chain'| && r == chain'[l.index]
      && (l.Found? ==> chain' == chain)
      && (l.InsertAt? ==> fresh(r) && chain' == chain[..l.index] + [r] + chain[l.index..])
  {
    ghost var ps := Elements(chain);
    ElementsAt(chain, at);
    if position == receiver.element.position {
      return receiver, chain, 0;
    }
    var node;
    ghost var k;
    if receiver.element.position > position {
      node, k := receiver.Backtrace((n: ListNode<Pivot<V>>) => n.element.position <= position, chain, at);
      BacktraceIsIndex(chain, at, position, k);
    } else {
      node, k := receiver.Seek((n: ListNode<Pivot<V>>) => n.element.position >= position, chain, at);
      SeekIsIndex(chain, at, position, k);
    }
    r, chain', calls := GetOrInsertClosest(node, position, lazyValue, chain, k);
  }

  /** The node `backtrace` stops at is the one `BacktraceIndex` names. */
  lemma {:induction false} BacktraceIsIndex<V>(chain: PivotChain<V>, at: nat, position: int, k: nat)
    requires at < |chain| && k <= at
    requires forall j :: k < j <= at ==> !(chain[j].element.position <= position)
    requires chain[k].element.position <= position || k == 0
    ensures k == BacktraceIndex(Elements(chain), at, position)
    decreases at
  {
    ElementsAt(chain, at);
    if k < at {
      BacktraceIsIndex(chain, at - 1, position, k);
    }
  }

  /** The node `seek` stops at is the one `SeekIndex` names. */
  lemma {:induction false} SeekIsIndex<V>(chain: PivotChain<V>, at: nat, position: int, k: nat)
    requires at <= k < |chain|
    requires forall j :: at <= j < k ==> !(chain[j].element.position >= position)
    requires chain[k].element.position >= position || k == |chain| - 1
    ensures k == SeekIndex(Elements(chain), at, position)
    decreases |chain| - at
  {
    ElementsAt(chain, at);
    if at < k {
      SeekIsIndex(chain, at + 1, position, k);
    }
  }

  /** `headPivotOf`: the chain of pivots built from the pairs, returned by its head. */
  method HeadPivotOf<V>(pairs: seq<(int, V)>) returns (r: Result<ListNode<Pivot<V>>>, ghost chain: PivotChain<V>)
    ensures pairs == [] ==> r == Err(UnsupportedOperation)
    ensures pairs != [] ==> r.Ok? && Linked(chain) && chain[0] == r.value
    ensures pairs != [] ==> Elements(chain) == PivotsOf(pairs)
    ensures forall n :: n in chain ==> fresh(n)
  {
    r, chain := HeadOf(PivotsOf(pairs));
  }

  /** `tailPivotOf`: the chain of pivots built from the pairs, returned by its tail. */
  method TailPivotOf<V>(pairs: seq<(int, V)>) returns (r: Result<ListNode<Pivot<V>>>, ghost chain: PivotChain<V>)
    ensures pairs == [] ==> r == Err(UnsupportedOperation)
    ensures pairs != [] ==> r.Ok? && Linked(chain) && chain[|chain| - 1] == r.value
    ensures pairs != [] ==> Elements(chain) == PivotsOf(pairs)
    ensures forall n :: n in chain ==> fresh(n)
  {
    r, chain := TailOf(PivotsOf(pairs));
  }

  /** One pivot per (position, value) pair, in order. */
  function PivotsOf<V>(pairs: seq<(int, V)>): (r: seq<Pivot<V>>)
    ensures |r| == |pairs|
    ensures forall i :: 0 <= i < |pairs| ==> r[i] == Pivot(pairs[i].0, pairs[i].1)
  {
    seq(|pairs|, i requires 0 <= i < |pairs| => Pivot(pairs[i].0, pairs[i].1))
  }

  /** `DataPivot.equals`: equal exactly when both positions and values are. */
  function PivotsEqual<V(==)>(a: ListNode<Pivot<V>>, b: ListNode<Pivot<V>>): (r: bool)
    ensures r <==> a.element.position == b.element.position && a.element.value == b.element.value
    ensures r <==> a.element == b.element
  {
    a.element.position == b.element.position && a.element.value == b.element.value
  }

  /**
   * The `get_or_insert_pivot` scenario: from the pivot (1, "head"), looking up 1 returns it,
   * and then looking up -8, 2, 17, 5 and 20 leaves the positions -8, 1, 2, 5, 17, 20.
   */
  method GetOrInsertScenario<V>(head: V, first: V, negEighth: V, second: V, seventeenth: V, fifth: V,
                                 twentieth: V) returns (same: bool, positions: seq<int>)
    ensures same
    ensures positions == [-8, 1, 2, 5, 17, 20]
  {
    var initial;
    ghost var chain;
    same, initial, chain := ScenarioStart(head, first, negEighth, second);
    ghost var s2 := [Pivot(-8, negEighth), Pivot(1, head), Pivot(2, second)];
    ghost var s3 := [Pivot(-8, negEighth), Pivot(1, head), Pivot(2, second),
                    Pivot(17, seventeenth)];
    assert AsWrittenLookup(s2, 1, 17) == InsertAt(3) && Inserted(s2, 3, s3[3]) == s3;
    chain := InsertStep(initial, 17, () => seventeenth, chain, 1, 3);
    ghost var s4 := [Pivot(-8, negEighth), Pivot(1, head), Pivot(2, second), Pivot(5, fifth),
                    Pivot(17, seventeenth)];
    assert AsWrittenLookup(s3, 1, 5) == InsertAt(3) && Inserted(s3, 3, s4[3]) == s4;
    chain := InsertStep(initial, 5, () => fifth, chain, 1, 3);
    ghost var s5 := [Pivot(-8, negEighth), Pivot(1, head), Pivot(2, second), Pivot(5, fifth),
                    Pivot(17, seventeenth), Pivot(20, twentieth)];
    assert AsWrittenLookup(s4, 1, 20) == InsertAt(5) && Inserted(s4, 5, s5[5]) == s5;
    chain := InsertStep(initial, 20, () => twentieth, chain, 1, 5);
    var front := initial.Head(chain, 1);
    var nodes := front.Iterate(chain, 0);
    assert nodes == chain;
    positions := PositionsOf(Elements(nodes));
    SixPositions(s5);
  }

  /**
   * A helper of `GetOrInsertScenario`: the pivot (1, "head"), looking up 1 on it, then -8 and 2.
   */
  method ScenarioStart<V>(head: V, first: V, negEighth: V, second: V)
    returns (same: bool, initial: ListNode<Pivot<V>>, ghost chain: PivotChain<V>)
    ensures same && Linked(chain) && |chain| == 3 && chain[1] == initial
    ensures Elements(chain) == [Pivot(-8, negEighth), Pivot(1, head), Pivot(2, second)]
    ensures fresh(chain[0]) && fresh(chain[1]) && fresh(chain[2])
  {
    initial := new ListNode(Pivot(1, head));
    chain := [initial];
    var found;
    var calls;
    found, chain, calls := GetOrInsert(initial, 1, () => first, chain, 0);
    same := found == initial && calls == 0;
    ghost var s0 := [Pivot(1, head)];
    assert Elements(chain) == s0;
    ghost var s1 := [Pivot(-8, negEighth), Pivot(1, head)];
    assert AsWrittenLookup(s0, 0, -8) == InsertAt(0) && Inserted(s0, 0, s1[0]) == s1;
    chain := InsertStep(initial, -8, () => negEighth, chain, 0, 0);
    ghost var s2 := [Pivot(-8, negEighth), Pivot(1, head), Pivot(2, second)];
    assert AsWrittenLookup(s1, 1, 2) == InsertAt(2) && Inserted(s1, 2, s2[2]) == s2;
    chain := InsertStep(initial, 2, () => second, chain, 1, 2);
  }

  /** A helper of `GetOrInsertScenario`: one `getOrInsert` from the receiver that inserts at `i`. */
  method InsertStep<V>(receiver: ListNode<Pivot<V>>, position: int, lazyValue: () -> V,
                    ghost chain: PivotChain<V>, ghost at: nat, ghost i: nat)
    returns (ghost chain': PivotChain<V>)
    requires Linked(chain) && at < |chain| && chain[at] == receiver
    requires AsWrittenLookup(Elements(chain), at, position) == InsertAt(i)
    modifies chain
    ensures Linked(chain') && |chain'| == |chain| + 1
    ensures chain' == chain[..i] + [chain'[i]] + chain[i..] && fresh(chain'[i])
    ensures chain'[if i <= at then at + 1 else at] == receiver
    ensures Elements(chain') == Inserted(Elements(chain), i, Pivot(position, lazyValue()))
  {
    var r;
    var calls;
    r, chain', calls := GetOrInsert(receiver, position, lazyValue, chain, at);
  }

  /** A helper of `GetOrInsertScenario`: the positions of six pivots, written out. */
  lemma SixPositions<V>(ps: seq<Pivot<V>>)
    requires |ps| == 6
    ensures PositionsOf(ps) == [ps[0].position, ps[1].position, ps[2].position, ps[3].position,
                                ps[4].position, ps[5].position]
  {
  }

  /** The positions of the pivots, in order. */
  function PositionsOf<V>(ps: seq<Pivot<V>>): (r: seq<int>)
    ensures |r| == |ps|
    ensures forall i :: 0 <= i < |ps| ==> r[i] == ps[i].position
  {
    seq(|ps|, i requires 0 <= i < |ps| => ps[i].position)
  }

  /**
   * The `forward_search_or_last` scenario on the pivots (1, a), (2, b), (3, c), (4, d): `seek`
   * from the head finds positions 2 and 3, and gives the tail when nothing matches.
   */
  method SeekScenario<V>(a: V, b: V, c: V, d: V) returns (found: seq<V>)
    ensures found == [b, c, d]
  {
    var head, chain := FourPivots(a, b, c, d);
    var s1, k1 := head.Seek((n: ListNode<Pivot<V>>) => n.element.position == 2, chain, 0);
    assert k1 == 1;
    var s2, k2 := head.Seek((n: ListNode<Pivot<V>>) => n.element.position == 3, chain, 0);
    assert k2 == 2;
    var s3, k3 := head.Seek((n: ListNode<Pivot<V>>) => false, chain, 0);
    found := [s1.element.value, s2.element.value, s3.element.value];
  }

  /**
   * The `backward_search_or_first` scenario on the same pivots: `backtrace` from the tail
   * finds positions 3 and 2, and gives the head when nothing matches.
   */
  method BacktraceScenario<V>(a: V, b: V, c: V, d: V) returns (found: seq<V>)
    ensures found == [c, b, a]
  {
    var head, chain := FourPivots(a, b, c, d);
    var tail := head.Tail(chain, 0);
    var b1, j1 := tail.Backtrace((n: ListNode<Pivot<V>>) => n.element.position == 3, chain, 3);
    assert j1 == 2;
    var b2, j2 := tail.Backtrace((n: ListNode<Pivot<V>>) => n.element.position == 2, chain, 3);
    assert j2 == 1;
    var b3, j3 := tail.Backtrace((n: ListNode<Pivot<V>>) => false, chain, 3);
    found := [b1.element.value, b2.element.value, b3.element.value];
  }

  /** A helper of the search scenarios: `headPivotOf((1, a), (2, b), (3, c), (4, d)).head()`. */
  method FourPivots<V>(a: V, b: V, c: V, d: V) returns (head: ListNode<Pivot<V>>, ghost chain: PivotChain<V>)
    ensures Linked(chain) && |chain| == 4 && chain[0] == head
    ensures chain[0].element == Pivot(1, a) && chain[1].element == Pivot(2, b)
    ensures chain[2].element == Pivot(3, c) && chain[3].element == Pivot(4, d)
  {
    var r;
    r, chain := HeadPivotOf([(1, a), (2, b), (3, c), (4, d)]);
    ElementsAt(chain, 0);
    ElementsAt(chain, 1);
    ElementsAt(chain, 2);
    ElementsAt(chain, 3);
    head := r.value.Head(chain, 0);
  }
}
