# MyLinkedList: a verified model of a generic singly-linked list

This project models `MyLinkedList<T>`, a generic singly-linked list, in Dafny.
It covers:

- The chain of `Node` cells: a payload plus a link to the next cell.
- Positional insertion and deletion (`Insert`, `Append`, `Delete`).
- Positional access (`ItemAt`, `First`, `Last`).
- An in-place bubble sort that exchanges payloads between neighbouring nodes (`Sort`, `Swap`).
- Text rendering (`ToString`).
- The hand-written cursor enumerator (`GetEnumerator`, `MoveNext`, `Current`, `Reset`).

The model has two files:

- `ListSpec.dfy` is pure:
  - positional splicing of sequences;
  - rendering;
  - comparisons and the value-level bubble sort `BubbleSort`, with the proof that it sorts, permutes and is stable.
- `GenericMyLinkedList.dfy` is imperative. It has three classes:
  - `Node`;
  - `MyLinkedList`, whose methods follow the original's loops over real heap nodes;
  - `MyLinkedListEnumerator`.

  It also holds two clients:
  - `Collect`, the loop a `foreach` over the list performs;
  - a worked example, `AppendThree`, `AppendAndSort` and `DeleteAndRead`. It appends 3, 1 and 2, sorts the list in natural order, deletes the head, and reads positions 0 to 2.

The list keeps two ghost fields:

- `Spine` is the sequence of nodes from head to tail.
- `Contents` is the sequence of their payloads.

`Valid()` says four things:

- following `next` from `head` visits exactly `Spine`;
- the chain ends in `null`;
- no node occurs twice, so the chain is acyclic;
- `Count == |Spine|`.

Every method is proved against these two sequences:

- In `Insert` and `Delete`, the new `Contents` is the old one with the element spliced in or out, and the new `Spine` is the old one with the node spliced the same way.
- `Sort` ends with `Contents == BubbleSort(cmp, old(Contents))` and `Spine == old(Spine)`. So the same nodes stay in the same order and only payloads move. What `BubbleSort` guarantees is proved separately in `BubbleSortCorrect`.

The original throws `InvalidOperationException` for an index out of range. The model returns a failure value instead (`ok == false`, or `None`), and the list is then exactly as it was.

The original has two `Sort` overloads: one uses the elements' own `CompareTo`, the other uses an `IComparer<T>`. Their bodies are the same, so both become one `Sort(cmp)` whose three-way comparison is a parameter.

`Sort` is proved in two parts:

- The outer loop is `Sort` itself.
- The inner loop, one pass along the chain, is the method `Pass`.

This splits the nested loops into two smaller proofs without changing what is executed.

"Sorted" and "stable" only mean something when the comparison is a total preorder (`TotalPreorder`), so `Sort` promises those two only under that condition. Bubble sort is stable because it exchanges neighbours only when the front one compares strictly greater. The model states stability through `Ties(cmp, s, e)`: for every `e`, the elements that compare equal to `e` appear in the same relative order after the sort as before.

## Model

| member | source | states |
|---|---|---|
| GenericMyLinkedList.Node.constructor | ADT/GenericMyLinkedList.cs:12-15 | a new node holds the given payload and links to nothing |
| GenericMyLinkedList.MyLinkedList.constructor | ADT/GenericMyLinkedList.cs:18-20 | a new list has no head, Count 0 and empty contents |
| GenericMyLinkedList.MyLinkedList.Insert | ADT/GenericMyLinkedList.cs:36-58 | succeeds exactly when 0 <= index <= Count; then the payload becomes the element at position index, Count grows by one, and a fresh node is spliced into the chain at that position; otherwise list, chain and nodes are unchanged |
| GenericMyLinkedList.MyLinkedList.Append | ADT/GenericMyLinkedList.cs:63-66 | via Insert at Count: the contents gain the payload at the end, Count grows by one, and a fresh node is added after the old nodes, which keep their order |
| GenericMyLinkedList.MyLinkedList.Delete | ADT/GenericMyLinkedList.cs:73-94 | succeeds exactly when 0 <= index < Count; then the element at position index is spliced out of the contents and its node out of the chain, Count drops by one, and the removed node's link is cleared; otherwise list, chain and nodes are unchanged |
| GenericMyLinkedList.MyLinkedList.ItemAt | ADT/GenericMyLinkedList.cs:102-115 | the element at position index when 0 <= index < Count, and failure otherwise |
| GenericMyLinkedList.MyLinkedList.First | ADT/GenericMyLinkedList.cs:21-24 | the head element, failure on an empty list |
| GenericMyLinkedList.MyLinkedList.Last | ADT/GenericMyLinkedList.cs:25-28 | the tail element, failure on an empty list (its index is Count - 1 = -1) |
| GenericMyLinkedList.MyLinkedList.Swap | ADT/GenericMyLinkedList.cs:153-158 | the payloads of a node and its successor are exchanged; the chain is still valid |
| GenericMyLinkedList.MyLinkedList.Sort | ADT/GenericMyLinkedList.cs:117-151 | the contents become BubbleSort of the old contents, a permutation of them for every comparison, and the chain keeps the same nodes in the same order; under a total preorder the result is also sorted and stable; a list of at most one element is unchanged |
| GenericMyLinkedList.MyLinkedList.Pass | ADT/GenericMyLinkedList.cs:141-149 | one walk along the chain performs one pass of the value-level bubble sort over the first end elements, on the same nodes |
| GenericMyLinkedList.MyLinkedList.ToString | ADT/GenericMyLinkedList.cs:164-175 | the text of every element followed by a line break, from head to tail |
| GenericMyLinkedList.MyLinkedList.GetEnumerator | ADT/GenericMyLinkedList.cs:177-180 | a fresh cursor over the list's chain and contents, positioned before the head |
| GenericMyLinkedList.MyLinkedListEnumerator.constructor | ADT/GenericMyLinkedList.cs:193-198 | a cursor over the given chain, before its head, with no current element |
| GenericMyLinkedList.MyLinkedListEnumerator.Current | ADT/GenericMyLinkedList.cs:200-203 | the element at position Position - 1, or none before the first step |
| GenericMyLinkedList.MyLinkedListEnumerator.MoveNext | ADT/GenericMyLinkedList.cs:214-237 | returns true exactly when an element is left, and then steps onto it; otherwise returns false and is back before the head, so the next call restarts; an empty chain gives false at once |
| GenericMyLinkedList.MyLinkedListEnumerator.Reset | ADT/GenericMyLinkedList.cs:239-243 | the cursor is back before the head |
| GenericMyLinkedList.Collect | ADT/GenericMyLinkedList.cs:177-243 | calling MoveNext until it returns false, and taking Current after each true, yields exactly the list's elements from head to tail |
| GenericMyLinkedList.CompareInt | ADT/GenericMyLinkedList.cs:126 | the natural order of int used by Sort(): negative exactly when a < b, zero exactly when a == b |
| GenericMyLinkedList.SortThreeOneTwo | ADT/GenericMyLinkedList.cs:117-133 | two passes of bubble sort in natural order turn 3, 1, 2 into 1, 2, 3 |
| GenericMyLinkedList.AppendThree | ADT/GenericMyLinkedList.cs:63-66 | three Appends on an empty list give the contents 3, 1, 2 and Count 3, on fresh nodes |
| GenericMyLinkedList.AppendAndSort | ADT/GenericMyLinkedList.cs:117-133 | sorting that list in natural order gives 1, 2, 3 |
| GenericMyLinkedList.DeleteAndRead | ADT/GenericMyLinkedList.cs:73-115 | deleting the head of 1, 2, 3 leaves Count 2 with 2 and 3 at positions 0 and 1, and position 2 out of range |
| ListSpec.Inserted | ADT/GenericMyLinkedList.cs:36-58 | position by position: the elements before index are kept, x sits at index, and the rest move up by one |
| ListSpec.Removed | ADT/GenericMyLinkedList.cs:73-94 | position by position: the elements before index are kept, and the later ones move down by one |
| ListSpec.RemoveInserted | ADT/GenericMyLinkedList.cs:36-94 | deleting at a position just inserted at gives back the original list |
| ListSpec.InsertRemoved | ADT/GenericMyLinkedList.cs:36-94 | re-inserting a deleted element where it was gives back the original list |
| ListSpec.InsertedAtEnd | ADT/GenericMyLinkedList.cs:63-66 | inserting at position Count is appending |
| ListSpec.InsertedDistinct | ADT/GenericMyLinkedList.cs:40-56 | splicing a fresh node into an acyclic chain keeps it acyclic |
| ListSpec.RemovedDistinct | ADT/GenericMyLinkedList.cs:76-92 | splicing a node out of an acyclic chain keeps it acyclic |
| ListSpec.RenderConcat | ADT/GenericMyLinkedList.cs:164-175 | the text of a concatenation is the concatenation of the texts |
| ListSpec.RenderAppend | ADT/GenericMyLinkedList.cs:171 | one step of the rendering loop appends the element's text and a line break |
| ListSpec.SwapAt | ADT/GenericMyLinkedList.cs:153-158 | positions j and j + 1 exchanged, every other position and the length kept |
| ListSpec.SwapAtPermutes | ADT/GenericMyLinkedList.cs:153-158 | an exchange of neighbours keeps the multiset of elements |
| ListSpec.TiesSwapFront | ADT/GenericMyLinkedList.cs:144-147 | exchanging the first two elements keeps the elements equal to e in order unless both are equal to e |
| ListSpec.SwapTies | ADT/GenericMyLinkedList.cs:144-147 | exchanging any two neighbours keeps the elements equal to e in order unless both are equal to e |
| ListSpec.SwapKeepsTies | ADT/GenericMyLinkedList.cs:144-147 | under a total preorder, an exchange of neighbours that compare strictly greater keeps the elements equal to any e in order |
| ListSpec.StepAt | ADT/GenericMyLinkedList.cs:144-147 | one comparison of a pass, with the exchange it may trigger, keeps the length |
| ListSpec.PassFrom | ADT/GenericMyLinkedList.cs:142-149 | the rest of one pass keeps the length |
| ListSpec.Passes | ADT/GenericMyLinkedList.cs:139-150 | the remaining passes keep the length |
| ListSpec.BubbleSort | ADT/GenericMyLinkedList.cs:135-151 | bubble sort keeps the length and leaves sequences of at most one element alone |
| ListSpec.BubbleKeep | ADT/GenericMyLinkedList.cs:144-148 | a pair left alone carries the largest element seen so far one step on |
| ListSpec.BubbleSwap | ADT/GenericMyLinkedList.cs:144-148 | an exchanged pair carries the largest element seen so far one step on |
| ListSpec.SwapKeepsPassesDone | ADT/GenericMyLinkedList.cs:142-149 | exchanges in front of the finished tail leave the finished tail sorted and bounding everything before it |
| ListSpec.BubbleStart | ADT/GenericMyLinkedList.cs:141-142 | under a total preorder a pass starts with its first element as the largest seen |
| ListSpec.PassComplete | ADT/GenericMyLinkedList.cs:142-149 | a pass that carried the largest unfinished element to the end finishes one more position |
| ListSpec.PassesDoneSorted | ADT/GenericMyLinkedList.cs:139 | after Count - 1 passes the whole sequence is sorted |
| ListSpec.OrderStep | ADT/GenericMyLinkedList.cs:144-148 | one step of a pass keeps the finished tail and moves the largest unfinished element on |
| ListSpec.PassFromOrders | ADT/GenericMyLinkedList.cs:142-149 | a full pass finishes one more position at the end |
| ListSpec.PassesOrder | ADT/GenericMyLinkedList.cs:139-150 | under a total preorder the remaining passes leave the sequence sorted |
| ListSpec.PassFromPermutes | ADT/GenericMyLinkedList.cs:142-149 | a pass keeps the multiset of elements |
| ListSpec.PassesPermutes | ADT/GenericMyLinkedList.cs:139-150 | the passes keep the multiset of elements |
| ListSpec.PassFromKeepsTies | ADT/GenericMyLinkedList.cs:142-149 | under a total preorder a pass keeps the relative order of the elements equal to any e |
| ListSpec.PassesKeepTies | ADT/GenericMyLinkedList.cs:139-150 | under a total preorder the passes keep the relative order of the elements equal to any e |
| ListSpec.BubbleSortCorrect | ADT/GenericMyLinkedList.cs:117-151 | under a total preorder bubble sort returns a sorted permutation of its input in which elements that compare equal keep their relative order |

## Left out

- Exceptions: the `InvalidOperationException` of `Insert`, `Delete` and `ItemAt` (and so of `First` and `Last`) is a failure result, and the list is left unchanged.
- `Count` is an unbounded natural number; the 32-bit overflow of `Count++` past `int.MaxValue` nodes is not modelled.
- The two `Sort` overloads are one method. For `Sort()`, the comparison `cmp` is the elements' own `CompareTo`; for `Sort(IComparer<T>)`, it is `IComparer<T>.Compare`. The `where T : IComparable` constraint itself is not modelled.
- GenericMyLinkedList.MyLinkedList.Sort: promises sorted and stable only when `cmp` is a total preorder. For any other comparison it promises the exact result of the bubble-sort passes, that this result is a permutation of the input, and that the nodes stay in place.
- Elements are value types: `MyLinkedList<T(!new)>` admits no element type that holds references, because `TotalPreorder` quantifies over all values of `T`. So class-typed payloads such as `ClubMember`, and their aliasing and mutation through other references while they sit in the list, are not modelled.
- `ToString` takes the elements' `ToString()` as a parameter `text`; the text of a single element is not modelled.
- `default(T)`, the value of `Current` before the first step and after the end, is modelled as `None`.
- The enumerator's `Dispose`, the non-generic `IEnumerable.GetEnumerator` and the `IEnumerator.Current` that forward to the generic members, and the rest of the .NET enumerable interfaces are not modelled.
- Changing the list while an enumerator is live is not modelled. The enumerator's contracts assume the chain it was created over is still intact, and the original leaves this case undefined.
- `UnitTestProject1/ClubMember.cs` (an element type with comparers used by tests) is not part of this model.
