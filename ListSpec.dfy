// Pure specification of the linked list: the failure-or-value type that replaces
// the list's exceptions, the text rendering of a sequence, and the ordering
// facts that the in-place bubble sort of MyLinkedList is proved against.

module ListSpec {

  /** The value of an access that may fail: None is the out-of-range case. */
  datatype Option<T> = None | Some(value: T)

  // ---------------------------------------------------------------------------
  // Positional splicing

  /** s with x spliced in so that it becomes the element at position i. */
  function Inserted<T>(s: seq<T>, i: nat, x: T): (r: seq<T>)
    requires i <= |s|
    ensures |r| == |s| + 1 && r[i] == x
    ensures forall k :: 0 <= k < i ==> r[k] == s[k]
    ensures forall k :: i < k < |r| ==> r[k] == s[k - 1]
  {
    s[..i] + [x] + s[i..]
  }

  /** s with the element at position i spliced out. */
  function Removed<T>(s: seq<T>, i: nat): (r: seq<T>)
    requires i < |s|
    ensures |r| == |s| - 1
    ensures forall k :: 0 <= k < i ==> r[k] == s[k]
    ensures forall k :: i <= k < |r| ==> r[k] == s[k + 1]
  {
    s[..i] + s[i + 1..]
  }

  /** Removing what was just inserted gives back the original sequence. */
  lemma RemoveInserted<T>(s: seq<T>, i: nat, x: T)
    requires i <= |s|
    ensures Removed(Inserted(s, i, x), i) == s
  {
    var r := Removed(Inserted(s, i, x), i);
    assert forall k :: 0 <= k < |s| ==> r[k] == s[k];
  }

  /** Inserting the removed element where it was gives back the original. */
  lemma InsertRemoved<T>(s: seq<T>, i: nat)
    requires i < |s|
    ensures Inserted(Removed(s, i), i, s[i]) == s
  {
    var r := Inserted(Removed(s, i), i, s[i]);
    assert forall k :: 0 <= k < |s| ==> r[k] == s[k];
  }

  /** Appending is inserting at the end. */
  lemma InsertedAtEnd<T>(s: seq<T>, x: T)
    ensures Inserted(s, |s|, x) == s + [x]
  {
    assert s[..|s|] == s;
  }

  /** No element occurs twice in s. */
  ghost predicate Distinct<T>(s: seq<T>)
  {
    forall k, l :: 0 <= k < l < |s| ==> s[k] != s[l]
  }

  /** Splicing in a new element keeps the elements distinct. */
  lemma InsertedDistinct<T>(s: seq<T>, i: nat, x: T)
    requires i <= |s| && Distinct(s) && x !in s
    ensures Distinct(Inserted(s, i, x))
  {
  }

  /** Splicing out an element keeps the elements distinct. */
  lemma RemovedDistinct<T>(s: seq<T>, i: nat)
    requires i < |s| && Distinct(s)
    ensures Distinct(Removed(s, i))
  {
  }

  // ---------------------------------------------------------------------------
  // Rendering

  /** Every element's text followed by a line break, head to tail. */
  function Render<T>(text: T -> string, s: seq<T>): (r: string)
  {
    if s == [] then "" else text(s[0]) + "\n" + Render(text, s[1..])
  }

  /** Rendering distributes over concatenation: the text of s + t is the text of s
      followed by the text of t. */
  lemma {:induction false} RenderConcat<T>(text: T -> string, s: seq<T>, t: seq<T>)
    ensures Render(text, s + t) == Render(text, s) + Render(text, t)
  {
    if s == [] {
      assert s + t == t;
    } else {
      assert (s + t)[1..] == s[1..] + t;
      RenderConcat(text, s[1..], t);
    }
  }

  /** Appending one element appends its text and a line break: the step the
      accumulating loop of ToString takes. */
  lemma RenderAppend<T>(text: T -> string, s: seq<T>, x: T)
    ensures Render(text, s + [x]) == Render(text, s) + text(x) + "\n"
  {
    RenderConcat(text, s, [x]);
    assert Render(text, [x]) == text(x) + "\n" + Render(text, []);
  }

  // ---------------------------------------------------------------------------
  // Orderings

  /** a may stand in front of b: the comparison does not put a after b. */
  ghost predicate Le<T>(cmp: (T, T) -> int, a: T, b: T)
  {
    cmp(a, b) <= 0
  }

  /** What the list needs of a three-way comparison (IComparable.CompareTo or
      IComparer.Compare): of any two elements at least one may stand in front
      of the other, and "may stand in front of" is transitive. */
  ghost predicate TotalPreorder<T(!new)>(cmp: (T, T) -> int)
  {
    && (forall a, b :: Le(cmp, a, b) || Le(cmp, b, a))
    && (forall a, b, c :: Le(cmp, a, b) && Le(cmp, b, c) ==> Le(cmp, a, c))
  }

  /** Every adjacent pair is in order. */
  ghost predicate Sorted<T>(cmp: (T, T) -> int, s: seq<T>)
  {
    forall k :: 0 <= k < |s| - 1 ==> Le(cmp, s[k], s[k + 1])
  }

  /** a and b compare equal: each may stand in front of the other. */
  ghost predicate Tied<T>(cmp: (T, T) -> int, a: T, b: T)
  {
    Le(cmp, a, b) && Le(cmp, b, a)
  }

  /** The elements of s that compare equal to e, in their order in s. A sort is
      stable when it keeps Ties(cmp, s, e) for every e. */
  ghost function Ties<T>(cmp: (T, T) -> int, s: seq<T>, e: T): (r: seq<T>)
  {
    if s == [] then []
    else (if Tied(cmp, s[0], e) then [s[0]] else []) + Ties(cmp, s[1..], e)
  }

  // ---------------------------------------------------------------------------
  // Exchanging neighbours

  /** s with the elements at positions j and j + 1 exchanged. */
  function SwapAt<T>(s: seq<T>, j: nat): (r: seq<T>)
    requires j + 1 < |s|
    ensures |r| == |s| && r[j] == s[j + 1] && r[j + 1] == s[j]
    ensures forall k :: 0 <= k < |s| && k != j && k != j + 1 ==> r[k] == s[k]
  {
    s[j := s[j + 1]][j + 1 := s[j]]
  }

  /** Exchanging two neighbours keeps the multiset of elements. */
  lemma SwapAtPermutes<T>(s: seq<T>, j: nat)
    requires j + 1 < |s|
    ensures multiset(SwapAt(s, j)) == multiset(s)
  {
    var r := s[j := s[j + 1]];
    assert multiset(r) == multiset(s) - multiset{s[j]} + multiset{s[j + 1]};
    assert multiset(r[j + 1 := s[j]]) == multiset(r) - multiset{s[j + 1]} + multiset{s[j]};
  }

  /** Exchanging the first two elements keeps the ties with e unless both of
      them are tied with e. */
  lemma TiesSwapFront<T>(cmp: (T, T) -> int, a: T, b: T, rest: seq<T>, e: T)
    requires !(Tied(cmp, a, e) && Tied(cmp, b, e))
    ensures Ties(cmp, [a, b] + rest, e) == Ties(cmp, [b, a] + rest, e)
  {
    assert ([a, b] + rest)[1..] == [b] + rest && ([b] + rest)[1..] == rest;
    assert ([b, a] + rest)[1..] == [a] + rest && ([a] + rest)[1..] == rest;
  }

  /** Exchanging two neighbours keeps the ties with e unless both of them are
      tied with e. */
  lemma {:induction false} SwapTies<T>(cmp: (T, T) -> int, s: seq<T>, j: nat, e: T)
    requires j + 1 < |s| && !(Tied(cmp, s[j], e) && Tied(cmp, s[j + 1], e))
    ensures Ties(cmp, SwapAt(s, j), e) == Ties(cmp, s, e)
    decreases j
  {
    if j == 0 {
      assert s == [s[0], s[1]] + s[2..];
      assert SwapAt(s, 0) == [s[1], s[0]] + s[2..];
      TiesSwapFront(cmp, s[0], s[1], s[2..], e);
    } else {
      var r := SwapAt(s, j);
      assert r[0] == s[0] && r[1..] == SwapAt(s[1..], j - 1);
      SwapTies(cmp, s[1..], j - 1, e);
    }
  }

  /** Exchanging two neighbours whose front compares strictly greater keeps the
      order among the elements that compare equal to any e: under a total
      preorder the two cannot both compare equal to e. */
  lemma SwapKeepsTies<T(!new)>(cmp: (T, T) -> int, s: seq<T>, j: nat, e: T)
    requires TotalPreorder(cmp) && j + 1 < |s| && !Le(cmp, s[j], s[j + 1])
    ensures Ties(cmp, SwapAt(s, j), e) == Ties(cmp, s, e)
  {
    SwapTies(cmp, s, j, e);
  }

  // ---------------------------------------------------------------------------
  // Bubble sort on values

  /** The step of a pass at the pair starting at position j: the pair is
      exchanged when its front compares greater than zero. */
  function StepAt<T>(cmp: (T, T) -> int, s: seq<T>, j: nat): (r: seq<T>)
    requires j + 1 < |s|
    ensures |r| == |s|
  {
    if cmp(s[j], s[j + 1]) > 0 then SwapAt(s, j) else s
  }

  /** The rest of one pass, from the pair at position j up to the pair ending at
      position end - 1. */
  function PassFrom<T>(cmp: (T, T) -> int, s: seq<T>, j: nat, end: nat): (r: seq<T>)
    requires end <= |s|
    ensures |r| == |s|
    decreases end - j
  {
    if j + 1 >= end then s
    else PassFrom(cmp, StepAt(cmp, s, j), j + 1, end)
  }

  /** Passes number done, done + 1, ..., |s| - 2; pass number i stops in front of
      the last i positions. */
  function Passes<T>(cmp: (T, T) -> int, s: seq<T>, done: nat): (r: seq<T>)
    ensures |r| == |s|
    decreases |s| - done
  {
    if done + 1 >= |s| then s
    else Passes(cmp, PassFrom(cmp, s, 0, |s| - done), done + 1)
  }

  /** Bubble sort by cmp: |s| - 1 passes, so none on at most one element. */
  function BubbleSort<T>(cmp: (T, T) -> int, s: seq<T>): (r: seq<T>)
    ensures |r| == |s|
    ensures |s| <= 1 ==> r == s
  {
    Passes(cmp, s, 0)
  }

  // ---------------------------------------------------------------------------
  // Bubble sort sorts

  /** After `done` passes the last `done` positions are in order, and everything
      in front of them compares at most the first of them. */
  ghost predicate PassesDone<T>(cmp: (T, T) -> int, s: seq<T>, done: nat)
    requires done <= |s|
  {
    && (forall k :: |s| - done <= k < |s| - 1 ==> Le(cmp, s[k], s[k + 1]))
    && (done > 0 ==> forall k :: 0 <= k < |s| - done ==> Le(cmp, s[k], s[|s| - done]))
  }

  /** Within a pass: the element at j is a largest one of s[..j + 1]. */
  ghost predicate BubbledTo<T>(cmp: (T, T) -> int, s: seq<T>, j: nat)
    requires j < |s|
  {
    forall k :: 0 <= k <= j ==> Le(cmp, s[k], s[j])
  }

  /** Under a total preorder every element may stand in front of itself, so a
      pass starts with its first element as the largest seen. */
  lemma BubbleStart<T(!new)>(cmp: (T, T) -> int, s: seq<T>)
    requires TotalPreorder(cmp) && |s| > 0
    ensures BubbledTo(cmp, s, 0)
  {
  }

  /** A pair left alone carries the largest element one step on. */
  lemma BubbleKeep<T(!new)>(cmp: (T, T) -> int, s: seq<T>, j: nat)
    requires TotalPreorder(cmp) && j + 1 < |s|
    requires BubbledTo(cmp, s, j) && Le(cmp, s[j], s[j + 1])
    ensures BubbledTo(cmp, s, j + 1)
  {
    forall k | 0 <= k <= j + 1
      ensures Le(cmp, s[k], s[j + 1])
    {
      if k == j + 1 {
        BubbleStart(cmp, s[k..]);
      } else {
        assert Le(cmp, s[k], s[j]);
      }
    }
  }

  /** An exchanged pair carries the largest element one step on. */
  lemma BubbleSwap<T(!new)>(cmp: (T, T) -> int, s: seq<T>, j: nat)
    requires TotalPreorder(cmp) && j + 1 < |s|
    requires BubbledTo(cmp, s, j) && !Le(cmp, s[j], s[j + 1])
    ensures BubbledTo(cmp, SwapAt(s, j), j + 1)
  {
    var s' := SwapAt(s, j);
    forall k | 0 <= k <= j + 1
      ensures Le(cmp, s'[k], s'[j + 1])
    {
      if k == j + 1 {
        BubbleStart(cmp, s'[k..]);
      } else if k == j {
        assert Le(cmp, s[j + 1], s[j]);
      } else {
        assert s'[k] == s[k] && Le(cmp, s[k], s[j]);
      }
    }
  }

  /** Exchanges in front of the finished part leave the finished part alone. */
  lemma SwapKeepsPassesDone<T>(cmp: (T, T) -> int, s: seq<T>, done: nat, j: nat)
    requires done <= |s| && j + 1 < |s| - done
    requires PassesDone(cmp, s, done)
    ensures PassesDone(cmp, SwapAt(s, j), done)
  {
    var s' := SwapAt(s, j);
    if done > 0 {
      forall k | 0 <= k < |s| - done
        ensures Le(cmp, s'[k], s'[|s| - done])
      {
        var k0 := if k == j then j + 1 else if k == j + 1 then j else k;
        assert s'[k] == s[k0];
      }
    }
  }

  /** A pass that has carried the largest element of the unfinished part to its
      end finishes one more position. */
  lemma PassComplete<T>(cmp: (T, T) -> int, s: seq<T>, done: nat)
    requires done < |s|
    requires PassesDone(cmp, s, done) && BubbledTo(cmp, s, |s| - done - 1)
    ensures PassesDone(cmp, s, done + 1)
  {
  }

  /** Once all but the first position are finished, the whole sequence is sorted. */
  lemma PassesDoneSorted<T>(cmp: (T, T) -> int, s: seq<T>)
    requires |s| > 0 && PassesDone(cmp, s, |s| - 1)
    ensures Sorted(cmp, s)
  {
  }

  /** One step of pass number done + 1 carries the largest element of the
      unfinished part on, and leaves the finished part alone. */
  lemma OrderStep<T(!new)>(cmp: (T, T) -> int, s: seq<T>, done: nat, j: nat)
    requires TotalPreorder(cmp) && j + 1 + done < |s|
    requires PassesDone(cmp, s, done) && BubbledTo(cmp, s, j)
    ensures PassesDone(cmp, StepAt(cmp, s, j), done) && BubbledTo(cmp, StepAt(cmp, s, j), j + 1)
  {
    if cmp(s[j], s[j + 1]) > 0 {
      BubbleSwap(cmp, s, j);
      SwapKeepsPassesDone(cmp, s, done, j);
    } else {
      BubbleKeep(cmp, s, j);
    }
  }

  /** The rest of pass number done + 1 finishes one more position. */
  lemma {:induction false} PassFromOrders<T(!new)>(cmp: (T, T) -> int, s: seq<T>, done: nat, j: nat)
    requires TotalPreorder(cmp) && j + done < |s|
    requires PassesDone(cmp, s, done) && BubbledTo(cmp, s, j)
    ensures PassesDone(cmp, PassFrom(cmp, s, j, |s| - done), done + 1)
    decreases |s| - done - j
  {
    if j + 1 >= |s| - done {
      PassComplete(cmp, s, done);
    } else {
      OrderStep(cmp, s, done, j);
      PassFromOrders(cmp, StepAt(cmp, s, j), done, j + 1);
    }
  }

  /** The remaining passes leave the sequence sorted. */
  lemma {:induction false} PassesOrder<T(!new)>(cmp: (T, T) -> int, s: seq<T>, done: nat)
    requires TotalPreorder(cmp) && done <= |s| && (|s| == 0 || done < |s|)
    requires PassesDone(cmp, s, done)
    ensures Sorted(cmp, Passes(cmp, s, done))
    decreases |s| - done
  {
    if done + 1 >= |s| {
      if |s| > 0 {
        PassesDoneSorted(cmp, s);
      }
    } else {
      BubbleStart(cmp, s);
      PassFromOrders(cmp, s, done, 0);
      PassesOrder(cmp, PassFrom(cmp, s, 0, |s| - done), done + 1);
    }
  }

  // ---------------------------------------------------------------------------
  // Bubble sort permutes, stably

  /** A pass only exchanges neighbours, so it keeps the multiset of elements. */
  lemma {:induction false} PassFromPermutes<T>(cmp: (T, T) -> int, s: seq<T>, j: nat, end: nat)
    requires end <= |s|
    ensures multiset(PassFrom(cmp, s, j, end)) == multiset(s)
    decreases end - j
  {
    if j + 1 < end {
      if cmp(s[j], s[j + 1]) > 0 {
        SwapAtPermutes(s, j);
      }
      PassFromPermutes(cmp, StepAt(cmp, s, j), j + 1, end);
    }
  }

  /** So do the passes of the sort. */
  lemma {:induction false} PassesPermutes<T>(cmp: (T, T) -> int, s: seq<T>, done: nat)
    ensures multiset(Passes(cmp, s, done)) == multiset(s)
    decreases |s| - done
  {
    if done + 1 < |s| {
      PassFromPermutes(cmp, s, 0, |s| - done);
      PassesPermutes(cmp, PassFrom(cmp, s, 0, |s| - done), done + 1);
    }
  }

  /** A pass only exchanges neighbours that compare strictly out of order, so it
      keeps the order among elements that compare equal. */
  lemma {:induction false} PassFromKeepsTies<T(!new)>(cmp: (T, T) -> int, s: seq<T>, j: nat, end: nat, e: T)
    requires TotalPreorder(cmp) && end <= |s|
    ensures Ties(cmp, PassFrom(cmp, s, j, end), e) == Ties(cmp, s, e)
    decreases end - j
  {
    if j + 1 < end {
      if cmp(s[j], s[j + 1]) > 0 {
        SwapKeepsTies(cmp, s, j, e);
      }
      PassFromKeepsTies(cmp, StepAt(cmp, s, j), j + 1, end, e);
    }
  }

  /** So do the passes of the sort. */
  lemma {:induction false} PassesKeepTies<T(!new)>(cmp: (T, T) -> int, s: seq<T>, done: nat, e: T)
    requires TotalPreorder(cmp)
    ensures Ties(cmp, Passes(cmp, s, done), e) == Ties(cmp, s, e)
    decreases |s| - done
  {
    if done + 1 < |s| {
      PassFromKeepsTies(cmp, s, 0, |s| - done, e);
      PassesKeepTies(cmp, PassFrom(cmp, s, 0, |s| - done), done + 1, e);
    }
  }

  /** Under a total preorder, bubble sort returns a sorted permutation of its
      input in which elements that compare equal keep their relative order. */
  lemma BubbleSortCorrect<T(!new)>(cmp: (T, T) -> int, s: seq<T>)
    requires TotalPreorder(cmp)
    ensures Sorted(cmp, BubbleSort(cmp, s))
    ensures multiset(BubbleSort(cmp, s)) == multiset(s)
    ensures forall e :: Ties(cmp, BubbleSort(cmp, s), e) == Ties(cmp, s, e)
  {
    PassesOrder(cmp, s, 0);
    PassesPermutes(cmp, s, 0);
    forall e
      ensures Ties(cmp, BubbleSort(cmp, s), e) == Ties(cmp, s, e)
    {
      PassesKeepTies(cmp, s, 0, e);
    }
  }
}
