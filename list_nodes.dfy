/**
 * Doubly-linked list nodes (`ListNode`, `DataListNode`). There is no list object: a chain is
 * the set of nodes linked to each other, described here by a ghost sequence of its nodes in
 * head-to-tail order that the operations take and return.
 */
module ListNodes {
  import opened Failures
  import opened ReversedViews

  /** The nodes of `chain` are linked to each other in sequence order, and to nothing else. */
  ghost predicate Linked<T>(chain: seq<ListNode<T>>)
    reads chain
  {
    && |chain| > 0
    && (forall i, j :: 0 <= i < j < |chain| ==> chain[i] != chain[j])
    && chain[0].last == null
    && chain[|chain| - 1].next == null
    && (forall i :: 0 <= i < |chain| - 1 ==> chain[i].next == chain[i + 1])
    && (forall i :: 1 <= i < |chain| ==> chain[i].last == chain[i - 1])
  }

  /** The elements of the nodes, in chain order. */
  function Elements<T>(chain: seq<ListNode<T>>): (r: seq<T>)
    ensures |r| == |chain|
  {
    if chain == [] then [] else [chain[0].element] + Elements(chain[1..])
  }

  /** A node with no links that belongs to a chain is that chain's only node. */
  lemma DetachedIsAlone<T>(chain: seq<ListNode<T>>, node: ListNode<T>)
    requires Linked(chain) && node in chain
    requires node.next == null && node.last == null
    ensures chain == [node]
  {
    var k :| 0 <= k < |chain| && chain[k] == node;
    LinkedEnds(chain, k);
  }

  /** Only the head of a chain lacks a predecessor, and only its tail lacks a successor. */
  lemma LinkedEnds<T>(chain: seq<ListNode<T>>, k: nat)
    requires Linked(chain) && k < |chain|
    ensures chain[k].last == null ==> k == 0
    ensures chain[k].next == null ==> k == |chain| - 1
  {
    if k < |chain| - 1 {
      assert chain[k].next == chain[k + 1];
    }
    if k > 0 {
      assert chain[k].last == chain[k - 1];
    }
  }

  /** `DataListNode.equals` on another node: equal exactly when the elements are. */
  function NodesEqual<T(==)>(a: ListNode<T>, b: ListNode<T>): (r: bool)
    ensures r <==> a.element == b.element
    ensures a == b ==> r
  {
    a.element == b.element
  }

  /** Along a chain, `next()` fails exactly on the tail and `last()` exactly on the head. */
  lemma NeighboursInChain<T>(chain: seq<ListNode<T>>, k: nat)
    requires Linked(chain) && k < |chain|
    ensures chain[k].NextNode() == if k < |chain| - 1 then Ok(chain[k + 1]) else Err(NoSuchElement)
    ensures chain[k].LastNode() == if k > 0 then Ok(chain[k - 1]) else Err(NoSuchElement)
  {
    LinkedEnds(chain, k);
  }

  /** The k-th element is the k-th node's. */
  lemma {:induction false} ElementsAt<T>(chain: seq<ListNode<T>>, k: nat)
    requires k < |chain|
    ensures Elements(chain)[k] == chain[k].element
  {
    if k > 0 {
      ElementsAt(chain[1..], k - 1);
    }
  }

  /** Appending a node appends its element. */
  lemma {:induction false} ElementsSnoc<T>(chain: seq<ListNode<T>>, node: ListNode<T>)
    ensures Elements(chain + [node]) == Elements(chain) + [node.element]
  {
    if chain == [] {
      assert chain + [node] == [node];
    } else {
      assert (chain + [node])[1..] == chain[1..] + [node];
      ElementsSnoc(chain[1..], node);
    }
  }

  /** Splicing a node between two runs of nodes splices its element between their elements. */
  lemma {:induction false} ElementsSplice<T>(a: seq<ListNode<T>>, node: ListNode<T>, b: seq<ListNode<T>>)
    ensures Elements(a + [node] + b) == Elements(a) + [node.element] + Elements(b)
  {
    if a == [] {
      assert a + [node] + b == [node] + b;
      ElementsCons(node, b);
    } else {
      assert (a + [node] + b)[1..] == a[1..] + [node] + b;
      ElementsSplice(a[1..], node, b);
    }
  }

  /** The elements of a slice of nodes are that slice of the elements. */
  lemma ElementsSlice<T>(chain: seq<ListNode<T>>, i: nat)
    requires i <= |chain|
    ensures Elements(chain[..i]) == Elements(chain)[..i]
    ensures Elements(chain[i..]) == Elements(chain)[i..]
  {
    ElementsPrefix(chain, i);
    ElementsSuffix(chain, i);
  }

  lemma ElementsPrefix<T>(chain: seq<ListNode<T>>, i: nat)
    requires i <= |chain|
    ensures Elements(chain[..i]) == Elements(chain)[..i]
  {
    forall k | 0 <= k < i
      ensures Elements(chain[..i])[k] == Elements(chain)[k]
    {
      ElementsAt(chain[..i], k);
      ElementsAt(chain, k);
    }
  }

  lemma ElementsSuffix<T>(chain: seq<ListNode<T>>, i: nat)
    requires i <= |chain|
    ensures Elements(chain[i..]) == Elements(chain)[i..]
  {
    forall k | 0 <= k < |chain| - i
      ensures Elements(chain[i..])[k] == Elements(chain)[i + k]
    {
      ElementsAt(chain[i..], k);
      ElementsAt(chain, i + k);
    }
  }

  /** Prepending a node prepends its element. */
  lemma ElementsCons<T>(node: ListNode<T>, chain: seq<ListNode<T>>)
    ensures Elements([node] + chain) == [node.element] + Elements(chain)
  {
    assert ([node] + chain)[1..] == chain;
  }

  class ListNode<T> {
    const element: T
    var next: ListNode?<T>
    var last: ListNode?<T>

    /** A detached node holding `element` (`listNodeOf`, the `DataListNode` constructor). */
    constructor (element: T)
      ensures this.element == element && next == null && last == null
    {
      this.element := element;
      next := null;
      last := null;
    }

    /** `next()`: the successor; on the tail, NoSuchElement. `nextOrNull()` is the field itself. */
    function NextNode(): (r: Result<ListNode<T>>)
      reads this
      ensures r.Ok? <==> next != null
      ensures r.Ok? ==> r.value == next
      ensures r.Err? ==> r.error == NoSuchElement
    {
      if next == null then Err(NoSuchElement) else Ok(next)
    }

    /** `last()`: the predecessor; on the head, NoSuchElement. `lastOrNull()` is the field itself. */
    function LastNode(): (r: Result<ListNode<T>>)
      reads this
      ensures r.Ok? <==> last != null
      ensures r.Ok? ==> r.value == last
      ensures r.Err? ==> r.error == NoSuchElement
    {
      if last == null then Err(NoSuchElement) else Ok(last)
    }

    /**
     * `insertAfter`: links the detached `node` between this node and its successor. Inserting
     * a node after itself fails with IllegalArgument and changes nothing.
     */
    method InsertAfter(node: ListNode<T>, ghost chain: seq<ListNode<T>>, ghost at: nat)
      returns (o: Outcome, ghost chain': seq<ListNode<T>>)
      requires Linked(chain) && at < |chain| && chain[at] == this
      requires node.next == null && node.last == null
      modifies this, node, next
      ensures node == this ==> o == Fail(IllegalArgument) && chain' == chain && unchanged(this)
      ensures node != this ==> o == Pass && chain' == chain[..at + 1] + [node] + chain[at + 1..]
      ensures node != this ==> next == node && node.last == this && node.next == old(next)
      ensures node != this && old(next) != null ==> old(next).last == node
      ensures Linked(chain')
    {
      if node == this {
        return Fail(IllegalArgument), chain;
      }
      if node in chain {
        DetachedIsAlone(chain, node);
      }
      ghost var successor := next;
      assert successor != null ==> at + 1 < |chain| && successor == chain[at + 1];
      assert at + 1 < |chain| ==> successor == chain[at + 1];
      assert successor != node;
      if next != null {
        next.last := node;
      }
      node.next := next;
      node.last := this;
      next := node;
      o := Pass;
      chain' := chain[..at + 1] + [node] + chain[at + 1..];
      forall i | 0 <= i < |chain'| - 1
        ensures chain'[i].next == chain'[i + 1]
      {
        if i < at {
          assert chain'[i] == chain[i] && chain'[i + 1] == chain[i + 1];
        } else if at + 1 < i {
          assert chain'[i] == chain[i - 1] && chain'[i + 1] == chain[i];
        }
      }
      forall i | 1 <= i < |chain'|
        ensures chain'[i].last == chain'[i - 1]
      {
        if i <= at {
          assert chain'[i] == chain[i] && chain'[i - 1] == chain[i - 1];
          if at + 1 < |chain| {
            assert chain[i] != chain[at + 1];
          }
        } else if at + 2 < i {
          assert chain'[i] == chain[i - 1] && chain'[i - 1] == chain[i - 2];
          assert chain[i - 1] != chain[at + 1];
        } else if i == at + 2 {
          assert chain'[i] == successor;
        }
      }
      assert chain'[0] == chain[0];
      if at + 1 < |chain| {
        assert chain[0] != chain[at + 1];
      }
    }

    /**
     * `insertBefore`: links the detached `node` between this node's predecessor and this node.
     * Inserting a node before itself fails with IllegalArgument and changes nothing.
     */
    method InsertBefore(node: ListNode<T>, ghost chain: seq<ListNode<T>>, ghost at: nat)
      returns (o: Outcome, ghost chain': seq<ListNode<T>>)
      requires Linked(chain) && at < |chain| && chain[at] == this
      requires node.next == null && node.last == null
      modifies this, node, last
      ensures node == this ==> o == Fail(IllegalArgument) && chain' == chain && unchanged(this)
      ensures node != this ==> o == Pass && chain' == chain[..at] + [node] + chain[at..]
      ensures node != this ==> last == node && node.next == this && node.last == old(last)
      ensures node != this && old(last) != null ==> old(last).next == node
      ensures Linked(chain')
    {
      if node == this {
        return Fail(IllegalArgument), chain;
      }
      if node in chain {
        DetachedIsAlone(chain, node);
      }
      ghost var predecessor := last;
      assert at > 0 ==> predecessor == chain[at - 1];
      assert predecessor != null ==> at > 0;
      assert predecessor != node;
      if last != null {
        last.next := node;
      }
      node.last := last;
      node.next := this;
      last := node;
      o := Pass;
      chain' := chain[..at] + [node] + chain[at..];
      forall i | 0 <= i < |chain'| - 1
        ensures chain'[i].next == chain'[i + 1]
      {
        if i + 1 < at {
          assert chain'[i] == chain[i] && chain'[i + 1] == chain[i + 1];
          assert chain[i] != chain[at - 1];
        } else if at < i {
          assert chain'[i] == chain[i - 1] && chain'[i + 1] == chain[i];
          if at > 0 {
            assert chain[i - 1] != chain[at - 1];
          }
        } else if i + 1 == at {
          assert chain'[i] == predecessor;
        }
      }
      forall i | 1 <= i < |chain'|
        ensures chain'[i].last == chain'[i - 1]
      {
        if i < at {
          assert chain'[i] == chain[i] && chain'[i - 1] == chain[i - 1];
        } else if at + 1 < i {
          assert chain'[i] == chain[i - 1] && chain'[i - 1] == chain[i - 2];
        }
      }
      if at > 0 {
        assert chain'[0] == chain[0];
        assert chain'[|chain'| - 1] == chain[|chain| - 1];
        assert chain[|chain| - 1] != chain[at - 1];
      }
    }

    /** `DataListNode.insertAfter(element)`: inserts a new node holding `element` after this one. */
    method InsertElementAfter(element: T, ghost chain: seq<ListNode<T>>, ghost at: nat)
      returns (node: ListNode<T>, ghost chain': seq<ListNode<T>>)
      requires Linked(chain) && at < |chain| && chain[at] == this
      modifies this, next
      ensures fresh(node) && node.element == element
      ensures chain' == chain[..at + 1] + [node] + chain[at + 1..] && Linked(chain')
    {
      node := new ListNode(element);
      var o;
      o, chain' := InsertAfter(node, chain, at);
    }

    /** `DataListNode.insertBefore(element)`: inserts a new node holding `element` before this one. */
    method InsertElementBefore(element: T, ghost chain: seq<ListNode<T>>, ghost at: nat)
      returns (node: ListNode<T>, ghost chain': seq<ListNode<T>>)
      requires Linked(chain) && at < |chain| && chain[at] == this
      modifies this, last
      ensures fresh(node) && node.element == element
      ensures chain' == chain[..at] + [node] + chain[at..] && Linked(chain')
    {
      node := new ListNode(element);
      var o;
      o, chain' := InsertBefore(node, chain, at);
    }

    /**
     * `seek`: the first node from this one toward the tail that satisfies `condition`,
     * or the tail when none does.
     */
    method Seek(condition: ListNode<T> -> bool, ghost chain: seq<ListNode<T>>, ghost at: nat)
      returns (r: ListNode<T>, ghost k: nat)
      requires Linked(chain) && at < |chain| && chain[at] == this
      ensures at <= k < |chain| && r == chain[k]
      ensures forall j :: at <= j < k ==> !condition(chain[j])
      ensures condition(r) || k == |chain| - 1
      ensures r in chain[at..] && (condition(r) || r == chain[|chain| - 1])
    {
      var tail := this;
      var cursor: ListNode?<T> := this;
      ghost var i := at;
      while cursor != null
        invariant at <= i <= |chain|
        invariant cursor == if i < |chain| then chain[i] else null
        invariant tail == chain[if i == at then at else i - 1]
        invariant forall j :: at <= j < i ==> !condition(chain[j])
        decreases |chain| - i
      {
        if condition(cursor) {
          return cursor, i;
        }
        tail := cursor;
        cursor := cursor.next;
        i := i + 1;
      }
      return tail, |chain| - 1;
    }

    /**
     * `backtrace`: the first node from this one toward the head that satisfies `condition`,
     * or the head when none does.
     */
    method Backtrace(condition: ListNode<T> -> bool, ghost chain: seq<ListNode<T>>, ghost at: nat)
      returns (r: ListNode<T>, ghost k: nat)
      requires Linked(chain) && at < |chain| && chain[at] == this
      ensures k <= at && r == chain[k]
      ensures forall j :: k < j <= at ==> !condition(chain[j])
      ensures condition(r) || k == 0
      ensures r in chain[..at + 1] && (condition(r) || r == chain[0])
    {
      var head := this;
      var cursor: ListNode?<T> := this;
      ghost var i: int := at;
      while cursor != null
        invariant -1 <= i <= at
        invariant cursor == if i >= 0 then chain[i] else null
        invariant head == chain[if i == at then at else i + 1]
        invariant forall j :: i < j <= at ==> !condition(chain[j])
        decreases i
      {
        if condition(cursor) {
          return cursor, i;
        }
        head := cursor;
        cursor := cursor.last;
        i := i - 1;
      }
      return head, 0;
    }

    /** `downToHead`: the nodes from this one back to the head, this one first. */
    method DownToHead(ghost chain: seq<ListNode<T>>, ghost at: nat) returns (nodes: seq<ListNode<T>>)
      requires Linked(chain) && at < |chain| && chain[at] == this
      ensures nodes == Reversed(chain[..at + 1])
    {
      nodes := [];
      var cursor: ListNode?<T> := this;
      ghost var i: int := at;
      while cursor != null
        invariant -1 <= i <= at
        invariant cursor == if i >= 0 then chain[i] else null
        invariant nodes + Reversed(chain[..i + 1]) == Reversed(chain[..at + 1])
        decreases i
      {
        assert chain[..i + 1] == chain[..i] + [chain[i]];
        ReversedSnoc(chain[..i], chain[i]);
        nodes := nodes + [cursor];
        cursor := cursor.last;
        i := i - 1;
      }
    }

    /** `iterator`: the nodes from this one on to the tail, this one first. */
    method Iterate(ghost chain: seq<ListNode<T>>, ghost at: nat) returns (nodes: seq<ListNode<T>>)
      requires Linked(chain) && at < |chain| && chain[at] == this
      ensures nodes == chain[at..]
    {
      nodes := [];
      var cursor: ListNode?<T> := this;
      ghost var i := at;
      while cursor != null
        invariant at <= i <= |chain|
        invariant cursor == if i < |chain| then chain[i] else null
        invariant nodes == chain[at..i]
        decreases |chain| - i
      {
        nodes := nodes + [cursor];
        cursor := cursor.next;
        i := i + 1;
      }
    }

    /** `head`: the last node `downToHead` reaches, the reachable node with no predecessor. */
    method Head(ghost chain: seq<ListNode<T>>, ghost at: nat) returns (r: ListNode<T>)
      requires Linked(chain) && at < |chain| && chain[at] == this
      ensures r == chain[0] && r.last == null
    {
      var nodes := DownToHead(chain, at);
      ReversedAt(chain[..at + 1], at);
      r := nodes[|nodes| - 1];
    }

    /** `tail`: the last node the forward iterator reaches, the reachable node with no successor. */
    method Tail(ghost chain: seq<ListNode<T>>, ghost at: nat) returns (r: ListNode<T>)
      requires Linked(chain) && at < |chain| && chain[at] == this
      ensures r == chain[|chain| - 1] && r.next == null
    {
      var nodes := Iterate(chain, at);
      r := nodes[|nodes| - 1];
    }
  }

  /**
   * `toArrayList`: every node of the chain, head to tail, whichever node it starts from;
   * the empty list when the receiver is null.
   */
  method ToArrayList<T>(node: ListNode?<T>, ghost chain: seq<ListNode<T>>, ghost at: nat)
    returns (nodes: seq<ListNode<T>>)
    requires node == null ==> chain == []
    requires node != null ==> Linked(chain) && at < |chain| && chain[at] == node
    ensures nodes == chain
  {
    if node == null {
      return [];
    }
    var down := node.DownToHead(chain, at);
    nodes := Reversed(down);
    ReversedTwice(chain[..at + 1]);
    assert at + 1 < |chain| ==> node.next == chain[at + 1];
    if node.next != null {
      var rest := node.next.Iterate(chain, at + 1);
      nodes := nodes + rest;
    }
    assert chain[..at + 1] + chain[at + 1..] == chain;
  }

  /**
   * `headOf`: builds a chain from the elements, taken from the last with `fromLast`, by
   * inserting each new node before the current head; fails on no elements (`reduce`).
   */
  method HeadOf<T>(elements: seq<T>) returns (r: Result<ListNode<T>>, ghost chain: seq<ListNode<T>>)
    ensures elements == [] ==> r == Err(UnsupportedOperation)
    ensures elements != [] ==> r.Ok? && Linked(chain) && chain[0] == r.value
    ensures elements != [] ==> Elements(chain) == elements
    ensures forall n :: n in chain ==> fresh(n)
  {
    var produced, _ := FromLastElements(elements);
    if |produced| == 0 {
      return Err(UnsupportedOperation), [];
    }
    var n := |produced|;
    var head := new ListNode(produced[0]);
    chain := [head];
    assert elements[n - 1..] == [elements[n - 1]];
    var i := 1;
    while i < n
      invariant 1 <= i <= n && |chain| == i
      invariant Linked(chain) && chain[0] == head
      invariant Elements(chain) == elements[n - i..]
      invariant forall m :: m in chain ==> fresh(m)
    {
      assert produced[i] == elements[n - 1 - i];
      assert elements[n - i - 1..] == [elements[n - i - 1]] + elements[n - i..];
      var node := new ListNode(produced[i]);
      assert head in chain;
      chain := LinkBefore(head, node, chain);
      head := node;
      i := i + 1;
    }
    r := Ok(head);
  }

  /**
   * The step of `headOf`'s `reduce`: `head.insertBefore(node)`, after which `node` is the head.
   * Part of `HeadOf`.
   */
  method LinkBefore<T>(head: ListNode<T>, node: ListNode<T>, ghost chain: seq<ListNode<T>>)
    returns (ghost chain': seq<ListNode<T>>)
    requires Linked(chain) && chain[0] == head
    requires node.next == null && node.last == null && node !in chain
    modifies head, node
    ensures chain' == [node] + chain && Linked(chain')
    ensures Elements(chain') == [node.element] + Elements(chain)
  {
    var o;
    o, chain' := head.InsertBefore(node, chain, 0);
    ElementsCons(node, chain);
  }

  /**
   * `tailOf`: builds a chain from the elements in order, inserting each new node after the
   * current tail; fails on no elements (`reduce`).
   */
  method TailOf<T>(elements: seq<T>) returns (r: Result<ListNode<T>>, ghost chain: seq<ListNode<T>>)
    ensures elements == [] ==> r == Err(UnsupportedOperation)
    ensures elements != [] ==> r.Ok? && Linked(chain) && chain[|chain| - 1] == r.value
    ensures elements != [] ==> Elements(chain) == elements
    ensures forall n :: n in chain ==> fresh(n)
  {
    if elements == [] {
      return Err(UnsupportedOperation), [];
    }
    var tail := new ListNode(elements[0]);
    chain := [tail];
    var i := 1;
    while i < |elements|
      invariant 1 <= i <= |elements|
      invariant |chain| == i && Linked(chain) && chain[i - 1] == tail
      invariant Elements(chain) == elements[..i]
      invariant forall n :: n in chain ==> fresh(n)
    {
      var node := new ListNode(elements[i]);
      assert tail in chain;
      ghost var previous := chain;
      var o;
      o, chain := tail.InsertAfter(node, chain, i - 1);
      assert chain == previous + [node];
      ElementsSnoc(previous, node);
      assert elements[..i + 1] == elements[..i] + [elements[i]];
      tail := node;
      i := i + 1;
    }
    r := Ok(tail);
  }

  /**
   * The `append_node` scenario: [0], insert 1 after it, insert 2 after its successor, insert -1
   * right after the first node; from any node, `toArrayList` reads 0, -1, 1, 2.
   */
  method AppendNode() returns (second: Result<int>, third: Result<int>, all: seq<int>)
    ensures second == Ok(1) && third == Ok(2)
    ensures all == [0, -1, 1, 2]
  {
    var head;
    ghost var chain;
    head, chain := AppendTwice();
    NeighboursInChain(chain, 0);
    var n1 := head.NextNode();
    second := Ok(n1.value.element);
    NeighboursInChain(chain, 1);
    var n2 := n1.value.NextNode();
    third := Ok(n2.value.element);
    var minus;
    minus, chain := head.InsertElementAfter(-1, chain, 0);
    all := ReadUp(head, chain);
  }

  /** [0], then 1 inserted after it and 2 after that. */
  method AppendTwice() returns (head: ListNode<int>, ghost chain: seq<ListNode<int>>)
    ensures fresh(chain) && Linked(chain) && |chain| == 3 && chain[0] == head
    ensures head.element == 0 && chain[1].element == 1 && chain[2].element == 2
  {
    head := new ListNode(0);
    chain := [head];
    var one;
    one, chain := head.InsertElementAfter(1, chain, 0);
    assert chain == [head, one];
    var next := head.NextNode();
    var two;
    two, chain := next.value.InsertElementAfter(2, chain, 1);
    assert chain == [head, one, two];
  }

  /** `iterator` from the node after the head of the chain 0, -1, 1, 2, and the head before it. */
  method ReadUp(head: ListNode<int>, ghost chain: seq<ListNode<int>>) returns (all: seq<int>)
    requires Linked(chain) && |chain| == 4 && chain[0] == head
    requires head.element == 0 && chain[1].element == -1 && chain[2].element == 1 && chain[3].element == 2
    ensures all == [0, -1, 1, 2]
  {
    NeighboursInChain(chain, 0);
    var from := head.NextNode();
    var nodes := ToArrayList(from.value, chain, 1);
    all := Elements(nodes);
    assert Elements(nodes) == [0, -1, 1, 2] by {
      ElementsAt(nodes, 0);
      ElementsAt(nodes, 1);
      ElementsAt(nodes, 2);
      ElementsAt(nodes, 3);
    }
  }

  /**
   * The `prepend_node` scenario: [0], insert 1 before it, insert 2 before its predecessor,
   * insert -1 right before the first node; `downToHead` from that node reads 0, -1, 1, 2.
   */
  method PrependNode() returns (second: Result<int>, third: Result<int>, all: seq<int>)
    ensures second == Ok(1) && third == Ok(2)
    ensures all == [0, -1, 1, 2]
  {
    var tail;
    ghost var chain;
    tail, chain := PrependTwice();
    NeighboursInChain(chain, 2);
    var n1 := tail.LastNode();
    second := Ok(n1.value.element);
    NeighboursInChain(chain, 1);
    var n2 := n1.value.LastNode();
    third := Ok(n2.value.element);
    var minus;
    minus, chain := tail.InsertElementBefore(-1, chain, 2);
    all := ReadDown(tail, chain);
  }

  /** [0], then 1 inserted before it and 2 before that. */
  method PrependTwice() returns (tail: ListNode<int>, ghost chain: seq<ListNode<int>>)
    ensures fresh(chain) && Linked(chain) && |chain| == 3 && chain[2] == tail
    ensures chain[0].element == 2 && chain[1].element == 1 && tail.element == 0
  {
    tail := new ListNode(0);
    chain := [tail];
    var one;
    one, chain := tail.InsertElementBefore(1, chain, 0);
    assert chain == [one, tail];
    var last := tail.LastNode();
    var two;
    two, chain := last.value.InsertElementBefore(2, chain, 0);
    assert chain == [two, one, tail];
  }

  /** `downToHead` from the tail of the chain 2, 1, -1, 0. */
  method ReadDown(tail: ListNode<int>, ghost chain: seq<ListNode<int>>) returns (all: seq<int>)
    requires Linked(chain) && |chain| == 4 && chain[3] == tail
    requires chain[0].element == 2 && chain[1].element == 1 && chain[2].element == -1 && tail.element == 0
    ensures all == [0, -1, 1, 2]
  {
    var nodes := tail.DownToHead(chain, 3);
    PrependedOrder(chain, nodes);
    all := Elements(nodes);
    assert Elements(nodes) == [0, -1, 1, 2] by {
      ElementsAt(nodes, 0);
      ElementsAt(nodes, 1);
      ElementsAt(nodes, 2);
      ElementsAt(nodes, 3);
    }
  }

  /** A helper of `PrependNode`: `downToHead` from the last of four nodes lists them in reverse. */
  lemma PrependedOrder<T>(chain: seq<ListNode<T>>, nodes: seq<ListNode<T>>)
    requires |chain| == 4 && nodes == Reversed(chain[..4])
    ensures nodes == [chain[3], chain[2], chain[1], chain[0]]
  {
    assert chain[..4] == chain;
    ReversedAt(chain, 0);
    ReversedAt(chain, 1);
    ReversedAt(chain, 2);
    ReversedAt(chain, 3);
  }

  /** `conversion_to_list`: the chain `headOf(0, 1, 2)` builds reads 0, 1, 2 from its head. */
  method ConversionToList() returns (all: Result<seq<int>>)
    ensures all == Ok([0, 1, 2])
  {
    var head, chain := HeadOf([0, 1, 2]);
    var nodes := head.value.Iterate(chain, 0);
    all := Ok(Elements(nodes));
  }
}
