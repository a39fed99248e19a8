/**
 * Pivot iterators (`AbstractPivotIterator` with its list and string factories): a revertible
 * iterator together with a cursor into a chain of pivots, one pivot per visited position.
 */
module PivotIterators {
  import opened Failures
  import opened ListNodes
  import opened DataPivots
  import opened RevertibleIterators

  /** Every node of a chain with one node spliced in is that node or one of the chain's. */
  lemma SpliceMembers<V>(chain: PivotChain<V>, i: nat, node: ListNode<Pivot<V>>)
    requires i <= |chain|
    ensures forall n :: n in chain[..i] + [node] + chain[i..] ==> n == node || n in chain
  {
    forall n | n in chain[..i] + [node] + chain[i..] ensures n == node || n in chain {
      if n in chain[..i] {
        var k :| 0 <= k < i && chain[..i][k] == n;
        assert chain[k] == n;
      } else if n in chain[i..] {
        var k :| 0 <= k < |chain| - i && chain[i..][k] == n;
        assert chain[i + k] == n;
      }
    }
  }

  class PivotIterator<E, V> {
    /** The wrapped iterator; every positional operation is delegated to it. */
    const revertible: PositionalRevertibleIterator<E>
    /** Gives the value of a new pivot from its position. */
    const init: int -> V
    /** The pivot last returned by `here`, or null before the first `here`. */
    var cursor: ListNode?<Pivot<V>>
    /** The nodes of the pivot chain, head first; empty while `cursor` is null. */
    ghost var chain: PivotChain<V>
    /** The index of `cursor` in `chain`. */
    ghost var at: nat
    ghost var Repr: set<object>

    ghost predicate Valid()
      reads this, Repr
    {
      && this in Repr
      && revertible in Repr && revertible.Repr <= Repr && this !in revertible.Repr
      && revertible.Valid()
      && (forall n :: n in chain ==> n in Repr && n !in revertible.Repr)
      && (cursor == null <==> chain == [])
      && (cursor != null ==> Linked(chain) && at < |chain| && chain[at] == cursor)
    }

    /** An iterator delegating to `revertible` whose pivots get their values from `init`. */
    constructor (revertible: PositionalRevertibleIterator<E>, init: int -> V)
      requires revertible.Valid()
      ensures Valid() && fresh(Repr - revertible.Repr)
      ensures this.revertible == revertible && this.init == init
      ensures cursor == null && chain == []
    {
      this.revertible := revertible;
      this.init := init;
      cursor := null;
      chain := [];
      at := 0;
      Repr := {this} + revertible.Repr;
    }

    /**
     * `here`: the value of the pivot at the current position. The first call creates a lone
     * pivot holding `init(position)`; later calls run `getOrInsert` from the cursor, which
     * calls `init` only when it links in a new pivot. The result becomes the cursor.
     */
    method Here() returns (v: V, ghost calls: nat)
      requires Valid()
      modifies Repr
      ensures Valid() && fresh(Repr - old(Repr))
      ensures revertible.position == old(revertible.position) && revertible.Saved() == old(revertible.Saved())
      ensures cursor != null && v == cursor.element.value && cursor.element.position == revertible.position
      ensures Elements(chain)[at] == cursor.element
      ensures var p := revertible.position;
        old(cursor) == null ==>
          && chain == [cursor] && at == 0 && fresh(cursor)
          && cursor.element == Pivot(p, init(p)) && calls == 1
      ensures var p := revertible.position;
        old(cursor) != null ==>
          var l := AsWrittenLookup(Elements(old(chain)), old(at), p);
          && at == l.index
          && Elements(chain) == Applied(Elements(old(chain)), l, p, init(p))
          && calls == (if l.InsertAt? then 1 else 0)
          && (l.Found? ==> chain == old(chain))
          && (l.InsertAt? ==> fresh(cursor) && chain == old(chain)[..l.index] + [cursor] + old(chain)[l.index..])
    {
      if cursor == null {
        v, calls := Start();
      } else {
        v, calls := Revisit();
      }
    }

    /** The first `here`: a lone pivot holding `init(position)`. */
    method Start() returns (v: V, ghost calls: nat)
      requires Valid() && cursor == null
      modifies Repr
      ensures Valid() && fresh(Repr - old(Repr))
      ensures revertible.position == old(revertible.position) && revertible.Saved() == old(revertible.Saved())
      ensures cursor != null && v == cursor.element.value && cursor.element.position == revertible.position
      ensures Elements(chain)[at] == cursor.element
      ensures var p := revertible.position;
        && chain == [cursor] && at == 0 && fresh(cursor)
        && cursor.element == Pivot(p, init(p)) && calls == 1
    {
      var position := revertible.Position();
      var node := new ListNode(Pivot(position, init(position)));
      cursor, chain, at, calls := node, [node], 0, 1;
      Repr := Repr + {node};
      ElementsAt(chain, 0);
      v := node.element.value;
    }

    /** A later `here`: `getOrInsert` from the cursor. */
    method Revisit() returns (v: V, ghost calls: nat)
      requires Valid() && cursor != null
      modifies Repr
      ensures Valid() && fresh(Repr - old(Repr))
      ensures revertible.position == old(revertible.position) && revertible.Saved() == old(revertible.Saved())
      ensures cursor != null && v == cursor.element.value && cursor.element.position == revertible.position
      ensures Elements(chain)[at] == cursor.element
      ensures var p := revertible.position;
        var l := AsWrittenLookup(Elements(old(chain)), old(at), p);
        && at == l.index
        && Elements(chain) == Applied(Elements(old(chain)), l, p, init(p))
        && calls == (if l.InsertAt? then 1 else 0)
        && (l.Found? ==> chain == old(chain))
        && (l.InsertAt? ==> fresh(cursor) && chain == old(chain)[..l.index] + [cursor] + old(chain)[l.index..])
    {
      var node;
      ghost var chain', l;
      node, chain', l, calls := Locate();
      ElementsAt(chain', l.index);
      Commit(node, chain', l.index);
      v := node.element.value;
    }

    /**
     * The `getOrInsert` of a later `here`, from the cursor at the current position. Only the
     * chain's nodes change; the wrapped iterator and this object are left alone. The first half
     * of `Revisit`, and so of `Here`; `Commit` is the second.
     */
    method Locate() returns (node: ListNode<Pivot<V>>, ghost chain': PivotChain<V>, ghost l: Lookup, ghost calls: nat)
      requires Valid() && cursor != null
      modifies chain
      ensures revertible.Valid() && revertible.Repr == old(revertible.Repr)
      ensures revertible.position == old(revertible.position) && revertible.Saved() == old(revertible.Saved())
      ensures var p := revertible.position;
        && l == AsWrittenLookup(Elements(chain), at, p)
        && Linked(chain') && l.index < |chain'| && chain'[l.index] == node
        && Elements(chain') == Applied(Elements(chain), l, p, init(p))
        && calls == (if l.InsertAt? then 1 else 0)
        && (l.Found? ==> chain' == chain)
        && (l.InsertAt? ==> fresh(node) && chain' == chain[..l.index] + [node] + chain[l.index..])
      ensures forall n :: n in chain' ==> (n in Repr || n == node) && n !in revertible.Repr
    {
      var position := revertible.Position();
      var f := init;
      ghost var outside := revertible.Repr;
      assert forall o :: o in outside ==> o !in chain;
      node, chain', calls := GetOrInsert(cursor, position, () => f(position), chain, at);
      l := AsWrittenLookup(Elements(chain), at, position);
      if l.InsertAt? {
        SpliceMembers(chain, l.index, node);
      }
    }

    /**
     * Moves the cursor to `node`, the pivot at `index` of the chain `chain'`. The second half of
     * `Revisit` (and so of `Here`), after `Locate`.
     */
    method Commit(node: ListNode<Pivot<V>>, ghost chain': PivotChain<V>, ghost index: nat)
      requires this in Repr && revertible in Repr && revertible.Repr <= Repr && this !in revertible.Repr
      requires revertible.Valid()
      requires Linked(chain') && index < |chain'| && chain'[index] == node
      requires forall n :: n in chain' ==> (n in Repr || n == node) && n !in revertible.Repr
      modifies this
      ensures Valid() && Repr == old(Repr) + {node}
      ensures cursor == node && chain == chain' && at == index
    {
      cursor, chain, at, Repr := node, chain', index, Repr + {node};
    }

    /** `pivots`: every pivot of the chain, head to tail, whichever one the cursor is on. */
    method Pivots() returns (nodes: seq<ListNode<Pivot<V>>>)
      requires Valid()
      ensures nodes == chain
      ensures cursor == null ==> nodes == []
      ensures cursor != null ==> Linked(nodes) && cursor in nodes
    {
      nodes := ToArrayList(cursor, chain, at);
    }

    /** `position`, delegated. */
    function Position(): (r: int)
      reads this, Repr
      requires Valid()
      ensures r >= 0 && r == revertible.position
    {
      revertible.Position()
    }

    /** `hasNext`, delegated. */
    function HasNext(): (r: bool)
      reads this, revertible
      ensures r <==> revertible.position < |revertible.source.elements|
    {
      revertible.HasNext()
    }

    /** `peek`, delegated. */
    function Peek(): (r: Result<E>)
      reads this, revertible
      ensures r == revertible.Peek()
      ensures r.Ok? <==> 0 <= revertible.position < |revertible.source.elements|
    {
      revertible.Peek()
    }

    /** `save`, delegated; the pivot chain is left alone. */
    method Save()
      requires Valid()
      modifies this, revertible.Repr
      ensures Valid() && fresh(Repr - old(Repr))
      ensures revertible.Saved() == old(revertible.Saved()) + [old(revertible.position)]
      ensures revertible.position == old(revertible.position)
      ensures cursor == old(cursor) && chain == old(chain) && at == old(at)
    {
      revertible.Save();
      Repr := Repr + revertible.Repr;
    }

    /** `revert`, delegated; the pivot chain is left alone. */
    method Revert() returns (o: Outcome)
      requires Valid()
      modifies revertible.Repr
      ensures Valid() && Repr == old(Repr)
      ensures var saved := old(revertible.Saved());
        && (saved == [] ==> o == Fail(IllegalState) && revertible.position == old(revertible.position)
                            && revertible.Saved() == saved)
        && (saved != [] ==> o == Pass && revertible.position == saved[|saved| - 1]
                            && revertible.Saved() == saved[..|saved| - 1])
      ensures cursor == old(cursor) && chain == old(chain) && at == old(at)
    {
      o := revertible.Revert();
    }

    /** `removeSave`, delegated; the pivot chain is left alone. */
    method RemoveSave() returns (o: Outcome)
      requires Valid()
      modifies revertible.Repr
      ensures Valid() && Repr == old(Repr) && revertible.position == old(revertible.position)
      ensures var saved := old(revertible.Saved());
        && (saved == [] ==> o == Fail(IllegalState) && revertible.Saved() == saved)
        && (saved != [] ==> o == Pass && revertible.Saved() == saved[..|saved| - 1])
      ensures cursor == old(cursor) && chain == old(chain) && at == old(at)
    {
      o := revertible.RemoveSave();
    }

    /** `advance`, delegated; the pivot chain is left alone. */
    method Advance(places: int) returns (o: Outcome)
      requires Valid()
      modifies revertible
      ensures Valid() && Repr == old(Repr) && revertible.Saved() == old(revertible.Saved())
      ensures places < 0 ==> o == Fail(IllegalArgument) && revertible.position == old(revertible.position)
      ensures places >= 0 ==> o == Pass && revertible.position == old(revertible.position) + places
      ensures cursor == old(cursor) && chain == old(chain) && at == old(at)
    {
      o := revertible.Advance(places);
    }

    /** `next`, delegated; the pivot chain is left alone. */
    method Next() returns (r: Result<E>)
      requires Valid()
      modifies revertible
      ensures Valid() && Repr == old(Repr) && revertible.Saved() == old(revertible.Saved())
      ensures r == old(revertible.Peek())
      ensures revertible.position == if r.Ok? then old(revertible.position) + 1 else old(revertible.position)
      ensures cursor == old(cursor) && chain == old(chain) && at == old(at)
    {
      r := revertible.Next();
    }
  }

  /** `List.pivotIterator(init)`: a pivot iterator over a fresh list iterator, with no pivots. */
  method ListPivotIterator<E, V>(list: Indexable<E>, init: int -> V) returns (it: PivotIterator<E, V>)
    ensures fresh(it) && fresh(it.Repr) && it.Valid()
    ensures it.revertible.source == list && it.revertible.position == 0 && it.revertible.Saved() == []
    ensures it.init == init && it.cursor == null && it.chain == []
  {
    var revertible := ListRevertibleIterator(list);
    it := new PivotIterator(revertible, init);
  }

  /** `String.pivotIterator(init)`: a pivot iterator over a fresh string iterator, with no pivots. */
  method StringPivotIterator<V>(s: Indexable<char>, init: int -> V) returns (it: PivotIterator<char, V>)
    ensures fresh(it) && fresh(it.Repr) && it.Valid()
    ensures it.revertible.source == s && it.revertible.position == 0 && it.revertible.Saved() == []
    ensures it.init == init && it.cursor == null && it.chain == []
  {
    var revertible := StringRevertibleIterator(s);
    it := new PivotIterator(revertible, init);
  }

  /** A one-slot mutable box: the `mutableListOf(0)` given to each new pivot. */
  class Cell {
    var value: int

    constructor ()
      ensures value == 0
    {
      value := 0;
    }
  }

  /**
   * `testPivoting`: values written through `here` at positions 2, 0, 7 and 1, and a pivot
   * created at 8 and left alone, survive every `revert`, and `pivots` lists them by position.
   * `init` hands out one zeroed cell per position, since the value closure of the original
   * allocates a new list on each call.
   */
  method TestPivoting<E>(elements: seq<E>) returns (again: int, positions: seq<int>, values: seq<int>)
    requires 8 <= |elements|
    ensures again == 12
    ensures positions == [0, 1, 2, 7, 8] && values == [10, 11, 12, 17, 0]
  {
    var c0, c1, c2, c7, c8 := FiveCells();
    var init := CellAt(c0, c1, c2, c7, c8);
    var list := new Indexable(elements);
    var it := ListPivotIterator(list, init);
    again := FirstHalf(it, c0, c1, c2, c7, c8);
    positions, values := SecondHalf(it, c0, c1, c2, c7, c8);
  }

  /** Five distinct zeroed cells. */
  method FiveCells() returns (c0: Cell, c1: Cell, c2: Cell, c7: Cell, c8: Cell)
    ensures fresh(c0) && fresh(c1) && fresh(c2) && fresh(c7) && fresh(c8)
    ensures c0 != c1 && c0 != c2 && c0 != c7 && c0 != c8 && c1 != c2 && c1 != c7 && c1 != c8
    ensures c2 != c7 && c2 != c8 && c7 != c8
    ensures c0.value == 0 && c1.value == 0 && c2.value == 0 && c7.value == 0 && c8.value == 0
  {
    c0 := new Cell();
    c1 := new Cell();
    c2 := new Cell();
    c7 := new Cell();
    c8 := new Cell();
  }

  /** The `init` of the scenario: the cell of each visited position. */
  function CellAt(c0: Cell, c1: Cell, c2: Cell, c7: Cell, c8: Cell): (f: int -> Cell)
    ensures f(0) == c0 && f(1) == c1 && f(2) == c2 && f(7) == c7 && f(8) == c8
  {
    (p: int) => if p == 0 then c0 else if p == 1 then c1 else if p == 2 then c2 else if p == 7 then c7 else c8
  }

  /** Positions 2, 2, 0 and 7 of `testPivoting`. */
  method FirstHalf<E>(it: PivotIterator<E, Cell>, c0: Cell, c1: Cell, c2: Cell, c7: Cell, c8: Cell)
    returns (again: int)
    requires it.Valid() && c0 !in it.Repr && c1 !in it.Repr && c2 !in it.Repr && c7 !in it.Repr
    requires it.init(0) == c0 && it.init(1) == c1 && it.init(2) == c2 && it.init(7) == c7 && it.init(8) == c8
    requires c0 != c7 && c0 != c2 && c2 != c7
    requires 8 <= |it.revertible.source.elements|
    requires it.revertible.position == 0 && it.revertible.Saved() == [] && it.cursor == null
    modifies it.Repr, c0, c2, c7
    ensures it.Valid() && fresh(it.Repr - old(it.Repr))
    ensures it.revertible.position == 7 && it.revertible.Saved() == [0]
    ensures it.cursor != null && it.at == 2
    ensures Elements(it.chain) == [Pivot(0, c0), Pivot(2, c2), Pivot(7, c7)]
    ensures again == 12 && c0.value == 10 && c2.value == 12 && c7.value == 17
  {
    again := VisitTwoTwice(it, c2);
    VisitZeroAndSeven(it, c0, c2, c7);
  }

  /** Positions 8 and 1 of `testPivoting`, then `pivots`. */
  method SecondHalf<E>(it: PivotIterator<E, Cell>, c0: Cell, c1: Cell, c2: Cell, c7: Cell, c8: Cell)
    returns (positions: seq<int>, values: seq<int>)
    requires it.Valid() && c1 !in it.Repr
    requires it.init(1) == c1 && it.init(8) == c8
    requires 8 <= |it.revertible.source.elements|
    requires it.revertible.position == 7 && it.revertible.Saved() == [0]
    requires it.cursor != null && it.at == 2
    requires Elements(it.chain) == [Pivot(0, c0), Pivot(2, c2), Pivot(7, c7)]
    modifies it.Repr, c1
    ensures c1.value == 11 && positions == [0, 1, 2, 7, 8]
    ensures values == [c0.value, 11, c2.value, c7.value, c8.value]
  {
    VisitEightAndOne(it, c0, c1, c2, c7, c8);
    positions, values := ReadPivots(it, c0, c1, c2, c7, c8);
  }

  /** The lookups `testPivoting` makes, on the pivots their `here` calls meet. */
  lemma PivotingSteps<V>(c0: V, c1: V, c2: V, c7: V, c8: V)
    ensures var ps := [Pivot(2, c2)];
      && AsWrittenLookup(ps, 0, 2) == Found(0)
      && AsWrittenLookup(ps, 0, 0) == InsertAt(0)
      && Applied(ps, InsertAt(0), 0, c0) == [Pivot(0, c0), Pivot(2, c2)]
    ensures var ps := [Pivot(0, c0), Pivot(2, c2)];
      && AsWrittenLookup(ps, 0, 7) == InsertAt(2)
      && Applied(ps, InsertAt(2), 7, c7) == [Pivot(0, c0), Pivot(2, c2), Pivot(7, c7)]
    ensures var ps := [Pivot(0, c0), Pivot(2, c2), Pivot(7, c7)];
      && AsWrittenLookup(ps, 2, 8) == InsertAt(3)
      && Applied(ps, InsertAt(3), 8, c8) == [Pivot(0, c0), Pivot(2, c2), Pivot(7, c7), Pivot(8, c8)]
    ensures var ps := [Pivot(0, c0), Pivot(2, c2), Pivot(7, c7), Pivot(8, c8)];
      && AsWrittenLookup(ps, 3, 1) == InsertAt(1)
      && Applied(ps, InsertAt(1), 1, c1) == [Pivot(0, c0), Pivot(1, c1), Pivot(2, c2), Pivot(7, c7), Pivot(8, c8)]
  {
    var ps1 := [Pivot(2, c2)];
    assert Applied(ps1, InsertAt(0), 0, c0) == [Pivot(0, c0)] + ps1;
    var ps2 := [Pivot(0, c0), Pivot(2, c2)];
    assert Applied(ps2, InsertAt(2), 7, c7) == ps2 + [Pivot(7, c7)];
    var ps3 := [Pivot(0, c0), Pivot(2, c2), Pivot(7, c7)];
    assert Applied(ps3, InsertAt(3), 8, c8) == ps3 + [Pivot(8, c8)];
    var ps4 := [Pivot(0, c0), Pivot(2, c2), Pivot(7, c7), Pivot(8, c8)];
    assert Applied(ps4, InsertAt(1), 1, c1) == [Pivot(0, c0)] + [Pivot(1, c1)] + ps4[1..];
  }

  /** The positions and the cell contents of the pivots, head to tail. */
  method ReadPivots<E>(it: PivotIterator<E, Cell>, c0: Cell, c1: Cell, c2: Cell, c7: Cell, c8: Cell)
    returns (positions: seq<int>, values: seq<int>)
    requires it.Valid() && it.cursor != null
    requires Elements(it.chain) == [Pivot(0, c0), Pivot(1, c1), Pivot(2, c2), Pivot(7, c7), Pivot(8, c8)]
    ensures positions == [0, 1, 2, 7, 8]
    ensures values == [c0.value, c1.value, c2.value, c7.value, c8.value]
  {
    var nodes := it.Pivots();
    ElementsAt(nodes, 0);
    ElementsAt(nodes, 1);
    ElementsAt(nodes, 2);
    ElementsAt(nodes, 3);
    ElementsAt(nodes, 4);
    positions := [nodes[0].element.position, nodes[1].element.position, nodes[2].element.position,
                  nodes[3].element.position, nodes[4].element.position];
    values := [nodes[0].element.value.value, nodes[1].element.value.value, nodes[2].element.value.value,
               nodes[3].element.value.value, nodes[4].element.value.value];
  }

  /** Positions 2 and 2 again: the first `here` creates the pivot, the second finds its cell. */
  method VisitTwoTwice<E>(it: PivotIterator<E, Cell>, c2: Cell) returns (again: int)
    requires it.Valid() && c2 !in it.Repr && it.init(2) == c2
    requires 8 <= |it.revertible.source.elements|
    requires it.revertible.position == 0 && it.revertible.Saved() == [] && it.cursor == null
    modifies it.Repr, c2
    ensures it.Valid() && fresh(it.Repr - old(it.Repr))
    ensures it.revertible.position == 0 && it.revertible.Saved() == []
    ensures it.cursor != null && it.at == 0 && Elements(it.chain) == [Pivot(2, c2)]
    ensures again == 12 && c2.value == 12
  {
    WriteTwo(it, c2);
    again := RevisitTwo(it, c2);
  }

  /** Saves three times, takes two elements dropping one save, and writes 12 at 2. */
  method WriteTwo<E>(it: PivotIterator<E, Cell>, c2: Cell)
    requires it.Valid() && c2 !in it.Repr && it.init(2) == c2
    requires 8 <= |it.revertible.source.elements|
    requires it.revertible.position == 0 && it.revertible.Saved() == [] && it.cursor == null
    modifies it.Repr, c2
    ensures it.Valid() && fresh(it.Repr - old(it.Repr))
    ensures it.revertible.position == 2 && it.revertible.Saved() == [0, 0]
    ensures it.cursor != null && it.at == 0 && Elements(it.chain) == [Pivot(2, c2)]
    ensures c2.value == 12
  {
    StepToTwo(it);
    var v, calls := it.Here();
    v.value := 12;
  }

  /** Three saves at 0, `next`, one save dropped, `next`: at 2 with two saves of 0 left. */
  method StepToTwo<E>(it: PivotIterator<E, Cell>)
    requires it.Valid() && 8 <= |it.revertible.source.elements|
    requires it.revertible.position == 0 && it.revertible.Saved() == []
    modifies it, it.Repr
    ensures it.Valid() && fresh(it.Repr - old(it.Repr))
    ensures it.revertible.position == 2 && it.revertible.Saved() == [0, 0]
    ensures it.cursor == old(it.cursor) && it.chain == old(it.chain) && it.at == old(it.at)
  {
    SaveThrice(it);
    var _ := it.Next();
    var _ := it.RemoveSave();
    var _ := it.Next();
  }

  /** Three saves at the current position. */
  method SaveThrice<E>(it: PivotIterator<E, Cell>)
    requires it.Valid()
    modifies it, it.Repr
    ensures it.Valid() && fresh(it.Repr - old(it.Repr))
    ensures it.revertible.position == old(it.revertible.position)
    ensures it.revertible.Saved() == old(it.revertible.Saved()) + [old(it.revertible.position), old(it.revertible.position), old(it.revertible.position)]
    ensures it.cursor == old(it.cursor) && it.chain == old(it.chain) && it.at == old(it.at)
  {
    it.Save();
    it.Save();
    it.Save();
  }

  /** Reverts to 0, advances back to 2 and reads the cell there; then reverts to 0 again. */
  method RevisitTwo<E>(it: PivotIterator<E, Cell>, c2: Cell) returns (again: int)
    requires it.Valid() && c2 !in it.Repr
    requires it.revertible.position == 2 && it.revertible.Saved() == [0, 0]
    requires it.cursor != null && it.at == 0 && Elements(it.chain) == [Pivot(2, c2)]
    modifies it.Repr
    ensures it.Valid() && fresh(it.Repr - old(it.Repr))
    ensures it.revertible.position == 0 && it.revertible.Saved() == []
    ensures it.cursor != null && it.at == 0 && Elements(it.chain) == [Pivot(2, c2)]
    ensures again == c2.value
  {
    PivotingSteps(c2, c2, c2, c2, c2);
    var _ := it.Revert();
    var _ := it.Advance(2);
    var v, calls := it.Here();
    again := v.value;
    var _ := it.Revert();
  }

  /** Saves at 0 and writes 10 there, then advances to 7 and writes 17. */
  method VisitZeroAndSeven<E>(it: PivotIterator<E, Cell>, c0: Cell, c2: Cell, c7: Cell)
    requires it.Valid() && c0 !in it.Repr && c2 !in it.Repr && c7 !in it.Repr
    requires it.init(0) == c0 && it.init(7) == c7 && c0 != c7
    requires 8 <= |it.revertible.source.elements|
    requires it.revertible.position == 0 && it.revertible.Saved() == []
    requires it.cursor != null && it.at == 0 && Elements(it.chain) == [Pivot(2, c2)]
    modifies it.Repr, c0, c7
    ensures it.Valid() && fresh(it.Repr - old(it.Repr))
    ensures it.revertible.position == 7 && it.revertible.Saved() == [0]
    ensures it.cursor != null && it.at == 2
    ensures Elements(it.chain) == [Pivot(0, c0), Pivot(2, c2), Pivot(7, c7)]
    ensures c0.value == 10 && c7.value == 17
  {
    WriteZero(it, c0, c2);
    WriteSeven(it, c0, c2, c7);
  }

  /** Saves at 0 and writes 10 there. */
  method WriteZero<E>(it: PivotIterator<E, Cell>, c0: Cell, c2: Cell)
    requires it.Valid() && c0 !in it.Repr && it.init(0) == c0
    requires it.revertible.position == 0 && it.revertible.Saved() == []
    requires it.cursor != null && it.at == 0 && Elements(it.chain) == [Pivot(2, c2)]
    modifies it.Repr, c0
    ensures it.Valid() && fresh(it.Repr - old(it.Repr))
    ensures it.revertible.position == 0 && it.revertible.Saved() == [0]
    ensures it.cursor != null && it.at == 0 && Elements(it.chain) == [Pivot(0, c0), Pivot(2, c2)]
    ensures c0.value == 10
  {
    PivotingSteps(c0, c0, c2, c0, c0);
    it.Save();
    var v, calls := it.Here();
    v.value := 10;
  }

  /** Advances from 0 to 7 and writes 17 there. */
  method WriteSeven<E>(it: PivotIterator<E, Cell>, c0: Cell, c2: Cell, c7: Cell)
    requires it.Valid() && c7 !in it.Repr && it.init(7) == c7
    requires it.revertible.position == 0 && it.revertible.Saved() == [0]
    requires it.cursor != null && it.at == 0 && Elements(it.chain) == [Pivot(0, c0), Pivot(2, c2)]
    modifies it.Repr, c7
    ensures it.Valid() && fresh(it.Repr - old(it.Repr))
    ensures it.revertible.position == 7 && it.revertible.Saved() == [0]
    ensures it.cursor != null && it.at == 2
    ensures Elements(it.chain) == [Pivot(0, c0), Pivot(2, c2), Pivot(7, c7)]
    ensures c7.value == 17
  {
    PivotingSteps(c0, c0, c2, c7, c7);
    var _ := it.Advance(7);
    var v, calls := it.Here();
    v.value := 17;
  }

  /** Steps to 8 and creates its pivot; reverts to 0, advances to 1 and writes 11 there. */
  method VisitEightAndOne<E>(it: PivotIterator<E, Cell>, c0: Cell, c1: Cell, c2: Cell, c7: Cell, c8: Cell)
    requires it.Valid() && c1 !in it.Repr
    requires it.init(1) == c1 && it.init(8) == c8
    requires 8 <= |it.revertible.source.elements|
    requires it.revertible.position == 7 && it.revertible.Saved() == [0]
    requires it.cursor != null && it.at == 2
    requires Elements(it.chain) == [Pivot(0, c0), Pivot(2, c2), Pivot(7, c7)]
    modifies it.Repr, c1
    ensures it.Valid() && fresh(it.Repr - old(it.Repr)) && c1.value == 11
    ensures it.cursor != null
    ensures Elements(it.chain) == [Pivot(0, c0), Pivot(1, c1), Pivot(2, c2), Pivot(7, c7), Pivot(8, c8)]
  {
    CreateEight(it, c0, c2, c7, c8);
    WriteOne(it, c0, c1, c2, c7, c8);
  }

  /** Steps from 7 to 8 and creates the pivot there without writing to it. */
  method CreateEight<E>(it: PivotIterator<E, Cell>, c0: Cell, c2: Cell, c7: Cell, c8: Cell)
    requires it.Valid() && it.init(8) == c8
    requires 8 <= |it.revertible.source.elements|
    requires it.revertible.position == 7 && it.revertible.Saved() == [0]
    requires it.cursor != null && it.at == 2
    requires Elements(it.chain) == [Pivot(0, c0), Pivot(2, c2), Pivot(7, c7)]
    modifies it.Repr
    ensures it.Valid() && fresh(it.Repr - old(it.Repr))
    ensures it.revertible.position == 8 && it.revertible.Saved() == [0]
    ensures it.cursor != null && it.at == 3
    ensures Elements(it.chain) == [Pivot(0, c0), Pivot(2, c2), Pivot(7, c7), Pivot(8, c8)]
  {
    PivotingSteps(c0, c0, c2, c7, c8);
    var _ := it.Next();
    var v, calls := it.Here();
  }

  /** Reverts to 0, advances to 1 and writes 11 there. */
  method WriteOne<E>(it: PivotIterator<E, Cell>, c0: Cell, c1: Cell, c2: Cell, c7: Cell, c8: Cell)
    requires it.Valid() && c1 !in it.Repr && it.init(1) == c1
    requires it.revertible.position == 8 && it.revertible.Saved() == [0]
    requires it.cursor != null && it.at == 3
    requires Elements(it.chain) == [Pivot(0, c0), Pivot(2, c2), Pivot(7, c7), Pivot(8, c8)]
    modifies it.Repr, c1
    ensures it.Valid() && fresh(it.Repr - old(it.Repr)) && c1.value == 11
    ensures it.cursor != null
    ensures Elements(it.chain) == [Pivot(0, c0), Pivot(1, c1), Pivot(2, c2), Pivot(7, c7), Pivot(8, c8)]
  {
    BackToOne(it);
    PivotingSteps(c0, c1, c2, c7, c8);
    var v, calls := it.Here();
    v.value := 11;
  }

  /** Reverts to the saved 0 and advances to 1; the pivot chain is left alone. */
  method BackToOne<E>(it: PivotIterator<E, Cell>)
    requires it.Valid() && it.revertible.Saved() == [0]
    modifies it.revertible.Repr
    ensures it.Valid() && it.Repr == old(it.Repr)
    ensures it.revertible.position == 1 && it.revertible.Saved() == []
    ensures it.cursor == old(it.cursor) && it.chain == old(it.chain) && it.at == old(it.at)
  {
    var _ := it.Revert();
    var _ := it.Advance(1);
  }
}
