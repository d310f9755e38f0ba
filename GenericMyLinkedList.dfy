// A generic singly-linked list of heap nodes with positional insert, delete and
// access, an in-place bubble sort that exchanges payloads, text rendering and a
// cursor-based enumerator.
//
// The list's abstract value is the ghost sequence Contents; the ghost sequence
// Spine names the nodes of the chain, head first. Operations that the original
// rejects with an exception return a failure value instead and leave the list
// exactly as it was.

module GenericMyLinkedList {
  import opened ListSpec

  /** One cell of the chain: a payload and the link to the next cell. */
  class Node<T> {
    var data: T
    var next: Node?<T>

    constructor (data: T)
      ensures this.data == data && next == null
    {
      this.data := data;
      next := null;
    }
  }

  /** Following next links from head visits exactly the nodes of spine, in order,
      their payloads spell items, and the last link is null. */
  ghost predicate IsChain<T>(head: Node?<T>, spine: seq<Node<T>>, items: seq<T>)
    reads spine
  {
    && |items| == |spine|
    && head == (if spine == [] then null else spine[0])
    && (forall k :: 0 <= k < |spine| ==> spine[k].data == items[k])
    && (forall k {:trigger spine[k].next} :: 0 <= k < |spine| - 1 ==> spine[k].next == spine[k + 1])
    && (spine != [] ==> spine[|spine| - 1].next == null)
  }

  class MyLinkedList<T(!new)> {
    var head: Node?<T>
    var Count: nat

    ghost var Spine: seq<Node<T>>
    ghost var Contents: seq<T>

    /** Count is the length of the chain, the chain spells Contents, and no node
        occurs twice in it (so it is acyclic). */
    ghost predicate Valid()
      reads this, Spine
    {
      && Count == |Spine|
      && IsChain(head, Spine, Contents)
      && Distinct(Spine)
    }

    constructor ()
      ensures Valid() && Contents == [] && Count == 0
    {
      head := null;
      Count := 0;
      Spine := [];
      Contents := [];
    }

    /** Insert data so that it becomes the element at position index; the default
        index prepends. Fails, changing nothing, unless 0 <= index <= Count. */
    method Insert(data: T, index: int := 0) returns (ok: bool)
      requires Valid()
      modifies this, Spine
      ensures Valid()
      ensures ok <==> 0 <= index <= old(Count)
      ensures ok ==> Contents == Inserted(old(Contents), index, data) && Count == old(Count) + 1
      ensures ok ==> fresh(Spine[index]) && Spine == Inserted(old(Spine), index, Spine[index])
      ensures !ok ==> && Contents == old(Contents) && Spine == old(Spine)
                      && Count == old(Count) && head == old(head)
                      && unchanged(Spine)
    {
      if index < 0 || index > Count {
        return false;
      }
      ghost var spine := Spine;
      var n := new Node(data);
      if index == 0 {
        n.next := head;
        head := n;
      } else {
        var position := head;
        for i := 0 to index - 1
          invariant position == spine[i]
        {
          position := position.next;
        }
        n.next := position.next;
        position.next := n;
      }
      Count := Count + 1;
      Spine := Inserted(spine, index, n);
      Contents := Inserted(Contents, index, data);
      InsertedDistinct(spine, index, n);
      assert forall k :: 0 <= k < |Spine| - 1 ==> Spine[k].next == Spine[k + 1];
      ok := true;
    }

    /** Insert data at the end: Insert at position Count, which never fails. */
    method Append(data: T)
      requires Valid()
      modifies this, Spine
      ensures Valid()
      ensures Contents == old(Contents) + [data] && Count == old(Count) + 1
      ensures fresh(Spine[|Spine| - 1]) && Spine == old(Spine) + [Spine[|Spine| - 1]]
    {
      var ok := Insert(data, Count);
      InsertedAtEnd(old(Contents), data);
      InsertedAtEnd(old(Spine), Spine[|Spine| - 1]);
    }

    /** Remove the element at position index; the default index removes the
        head. Fails, changing nothing, unless 0 <= index < Count. The removed
        node's own link is cleared. */
    method Delete(index: int := 0) returns (ok: bool)
      requires Valid()
      modifies this, Spine
      ensures Valid()
      ensures ok <==> 0 <= index < old(Count)
      ensures ok ==> Contents == Removed(old(Contents), index) && Count == old(Count) - 1
      ensures ok ==> Spine == Removed(old(Spine), index) && old(Spine)[index].next == null
      ensures !ok ==> && Contents == old(Contents) && Spine == old(Spine)
                      && Count == old(Count) && head == old(head)
                      && unchanged(Spine)
    {
      if index < 0 || index >= Count {
        return false;
      }
      ghost var spine := Spine;
      var position := head;
      if index == 0 {
        head := head.next;
      } else {
        var behindPosition := position;
        position := position.next;
        for i := 0 to index - 1
          invariant behindPosition == spine[i] && position == spine[i + 1]
        {
          behindPosition := position;
          position := position.next;
        }
        behindPosition.next := position.next;
      }
      position.next := null;
      Count := Count - 1;
      Spine := Removed(spine, index);
      Contents := Removed(Contents, index);
      RemovedDistinct(spine, index);
      assert forall k :: 0 <= k < |Spine| - 1 ==> Spine[k].next == Spine[k + 1];
      ok := true;
    }

    /** The element at position index, or None unless 0 <= index < Count. */
    method ItemAt(index: int) returns (r: Option<T>)
      requires Valid()
      ensures r == if 0 <= index < Count then Some(Contents[index]) else None
    {
      if index < 0 || index >= Count {
        return None;
      }
      var position := head;
      for i := 0 to index
        invariant position == Spine[i]
      {
        position := position.next;
      }
      return Some(position.data);
    }

    /** ItemAt(0): the head element, None on an empty list. */
    method First() returns (r: Option<T>)
      requires Valid()
      ensures r == if Count == 0 then None else Some(Contents[0])
    {
      r := ItemAt(0);
    }

    /** ItemAt(Count - 1): the tail element, None on an empty list. */
    method Last() returns (r: Option<T>)
      requires Valid()
      ensures r == if Count == 0 then None else Some(Contents[Count - 1])
    {
      r := ItemAt(Count - 1);
    }

    /** Exchange the payloads of the node at position j and its successor; the
        nodes themselves stay where they are. */
    method Swap(ghost j: nat, position: Node<T>)
      requires Valid() && j + 1 < |Spine| && position == Spine[j]
      modifies this`Contents, position, position.next
      ensures Valid()
      ensures Contents == SwapAt(old(Contents), j)
    {
      assert position.next == Spine[j + 1];
      var temp := position.data;
      position.data := position.next.data;
      position.next.data := temp;
      Contents := SwapAt(Contents, j);
    }

    /** Bubble sort by cmp: Count - 1 passes over the chain, exchanging the
        payloads of every adjacent pair whose front compares greater than zero.
        The nodes and their order are untouched, and the result is a permutation
        of the input. Under a total preorder it is also sorted and stable. */
    method Sort(cmp: (T, T) -> int)
      requires Valid()
      modifies this`Contents, Spine
      ensures Valid() && Spine == old(Spine)
      ensures Contents == BubbleSort(cmp, old(Contents))
      ensures multiset(Contents) == multiset(old(Contents))
      ensures TotalPreorder(cmp) ==>
                && Sorted(cmp, Contents)
                && forall e :: Ties(cmp, Contents, e) == Ties(cmp, old(Contents), e)
      ensures old(Count) <= 1 ==> Contents == old(Contents)
    {
      var n: int := Count;
      ghost var target := BubbleSort(cmp, Contents);
      var i := 0;
      while i < n - 1
        invariant Valid() && n == |Contents| && 0 <= i && Spine == old(Spine)
        invariant Passes(cmp, Contents, i) == target
      {
        Pass(cmp, n - i);
        i := i + 1;
      }
      PassesPermutes(cmp, old(Contents), 0);
      if TotalPreorder(cmp) {
        BubbleSortCorrect(cmp, old(Contents));
      }
    }

    /** One pass of Sort over the first end elements: walk the chain once,
        exchanging the payloads of each neighbouring pair out of order. */
    method Pass(cmp: (T, T) -> int, end: int)
      requires Valid() && 1 < end <= Count
      modifies this`Contents, Spine
      ensures Valid() && Spine == old(Spine)
      ensures Contents == PassFrom(cmp, old(Contents), 0, end)
    {
      ghost var start := Contents;
      var position := head;
      var j := 0;
      while j < end - 1
        invariant Valid() && |Contents| == |start| && Spine == old(Spine)
        invariant 0 <= j <= end - 1
        invariant position == Spine[j]
        invariant PassFrom(cmp, Contents, j, end) == PassFrom(cmp, start, 0, end)
      {
        assert position.next == Spine[j + 1];
        if cmp(position.data, position.next.data) > 0 {
          Swap(j, position);
        }
        position := position.next;
        j := j + 1;
      }
    }

    /** Every element's text followed by a line break, head to tail. */
    method ToString(text: T -> string) returns (r: string)
      requires Valid()
      ensures r == Render(text, Contents)
    {
      r := "";
      var position := head;
      ghost var k := 0;
      while position != null
        invariant 0 <= k <= |Spine|
        invariant position == if k < |Spine| then Spine[k] else null
        invariant r == Render(text, Contents[..k])
        decreases |Spine| - k
      {
        assert position.next == if k + 1 < |Spine| then Spine[k + 1] else null;
        RenderAppend(text, Contents[..k], position.data);
        assert Contents[..k + 1] == Contents[..k] + [position.data];
        r := r + text(position.data) + "\n";
        position := position.next;
        k := k + 1;
      }
      assert Contents[..k] == Contents;
    }

    /** A fresh cursor positioned before the head. */
    method GetEnumerator() returns (e: MyLinkedListEnumerator<T>)
      requires Valid()
      ensures fresh(e) && e.Valid()
      ensures e.Chain == Spine && e.Elements == Contents && e.Position == 0
    {
      e := new MyLinkedListEnumerator(head, Spine, Contents);
    }
  }

  /** A forward cursor over a chain it does not own. Position counts the elements
      delivered in the current pass: 0 before the first MoveNext, after the end
      and after Reset; k when Current is the element at position k - 1. */
  class MyLinkedListEnumerator<T> {
    const head: Node?<T>
    var currentNode: Node?<T>
    var current: Option<T>

    ghost const Chain: seq<Node<T>>
    ghost const Elements: seq<T>
    ghost var Position: nat

    ghost predicate Valid()
      reads this, Chain
    {
      && IsChain(head, Chain, Elements)
      && Position <= |Chain|
      && currentNode == (if Position == 0 then null else Chain[Position - 1])
      && current == (if Position == 0 then None else Some(Elements[Position - 1]))
    }

    constructor (head: Node?<T>, ghost chain: seq<Node<T>>, ghost elements: seq<T>)
      requires IsChain(head, chain, elements)
      ensures Valid() && Chain == chain && Elements == elements && Position == 0
    {
      this.head := head;
      currentNode := null;
      current := None;
      Chain := chain;
      Elements := elements;
      Position := 0;
    }

    /** The element last moved to, None when the cursor is not on an element. */
    function Current(): (r: Option<T>)
      requires Valid()
      reads this, Chain
      ensures r == if Position == 0 then None else Some(Elements[Position - 1])
    {
      current
    }

    /** Step to the next element: true while there is one, false once past the
        last (or at once on an empty chain), after which the cursor is back
        before the head. */
    method MoveNext() returns (more: bool)
      requires Valid()
      modifies this
      ensures Valid()
      ensures more <==> old(Position) < |Elements|
      ensures Position == if more then old(Position) + 1 else 0
    {
      assert currentNode != null ==>
        currentNode.next == if Position < |Chain| then Chain[Position] else null;
      if head == null {
        assert Chain == [];
        return false;
      } else if currentNode == null {
        currentNode := head;
        current := Some(currentNode.data);
        Position := 1;
      } else if currentNode.next == null {
        currentNode := null;
        current := None;
        Position := 0;
        return false;
      } else {
        currentNode := currentNode.next;
        current := Some(currentNode.data);
        Position := Position + 1;
      }
      return true;
    }

    /** Put the cursor back before the head. */
    method Reset()
      requires Valid()
      modifies this
      ensures Valid() && Position == 0
    {
      currentNode := null;
      current := None;
      Position := 0;
    }
  }

  /** What a foreach loop over the list sees: MoveNext until it returns false,
      taking Current after each true. It yields the elements head to tail. */
  method Collect<T(!new)>(list: MyLinkedList<T>) returns (items: seq<T>)
    requires list.Valid()
    ensures items == list.Contents
  {
    var e := list.GetEnumerator();
    items := [];
    var more := e.MoveNext();
    while more
      invariant e.Valid() && e.Elements == list.Contents
      invariant more ==> 1 <= e.Position && items == list.Contents[..e.Position - 1]
      invariant !more ==> items == list.Contents
      decreases if more then |e.Elements| - e.Position + 1 else 0
    {
      var x := e.Current();
      assert list.Contents[..e.Position] == items + [x.value];
      items := items + [x.value];
      more := e.MoveNext();
    }
  }

  /** The natural order of int: the sign of a - b, as Int32.CompareTo gives it. */
  function CompareInt(a: int, b: int): (r: int)
    ensures r < 0 <==> a < b
    ensures r == 0 <==> a == b
  {
    if a < b then -1 else if a > b then 1 else 0
  }

  /** Bubble sort by the natural order puts 3, 1, 2 in order. */
  lemma SortThreeOneTwo()
    ensures BubbleSort(CompareInt, [3, 1, 2]) == [1, 2, 3]
  {
    assert PassFrom(CompareInt, [3, 1, 2], 0, 3) == [1, 2, 3] by {
      assert StepAt(CompareInt, [3, 1, 2], 0) == [1, 3, 2];
      assert StepAt(CompareInt, [1, 3, 2], 1) == [1, 2, 3];
    }
    assert PassFrom(CompareInt, [1, 2, 3], 0, 2) == [1, 2, 3] by {
      assert StepAt(CompareInt, [1, 2, 3], 0) == [1, 2, 3];
    }
  }

  /** Append 3, 1 and 2 to an empty list. */
  method AppendThree() returns (list: MyLinkedList<int>)
    ensures fresh(list) && fresh(list.Spine) && list.Valid()
    ensures list.Contents == [3, 1, 2] && list.Count == 3
  {
    list := new MyLinkedList<int>();
    list.Append(3);
    list.Append(1);
    list.Append(2);
  }

  /** Sort that list by the natural order. */
  method AppendAndSort() returns (list: MyLinkedList<int>)
    ensures fresh(list) && fresh(list.Spine) && list.Valid()
    ensures list.Contents == [1, 2, 3] && list.Count == 3
  {
    list := AppendThree();
    SortThreeOneTwo();
    list.Sort(CompareInt);
  }

  /** On the sorted list 1, 2, 3: delete the head, then read positions 0, 1
      and 2; the last one is out of range. */
  method DeleteAndRead() returns (count: nat, first: Option<int>, second: Option<int>, third: Option<int>)
    ensures count == 2 && first == Some(2) && second == Some(3) && third == None
  {
    var list := AppendAndSort();
    var ok := list.Delete(0);
    assert list.Contents == [2, 3];
    count := list.Count;
    first := list.ItemAt(0);
    second := list.ItemAt(1);
    third := list.ItemAt(2);
  }
}
