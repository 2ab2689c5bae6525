/**
 * The pure part of the session queue (labelling_app.py): building the queue
 * of unlabeled images from the catalog, removing the saved image (`list.pop`),
 * and the cursor arithmetic of the Previous, Next and Save actions.
 */
module SessionQueue {
  import opened StringOrder

  /** `a` is `b` with some elements left out, the rest in their order. */
  predicate IsSubsequence(a: seq<string>, b: seq<string>)
    decreases |b|
  {
    a == [] ||
    (b != [] && ((a[0] == b[0] && IsSubsequence(a[1..], b[1..])) || IsSubsequence(a, b[1..])))
  }

  /** The comprehension of `initialize_state`: catalog entries whose name has no label record. */
  function Unlabeled(catalog: seq<string>, labeled: set<string>): (r: seq<string>)
    ensures forall x :: x in r <==> x in catalog && x !in labeled
  {
    if catalog == [] then []
    else
      var rest := Unlabeled(catalog[1..], labeled);
      assert catalog == [catalog[0]] + catalog[1..];
      if catalog[0] in labeled then rest else [catalog[0]] + rest
  }

  /** `list.pop(i)`: the queue without its element at `i`. */
  function RemoveAt(q: seq<string>, i: nat): (r: seq<string>)
    requires i < |q|
    ensures |r| == |q| - 1
  {
    q[..i] + q[i + 1..]
  }

  /** Previous: `max(0, idx - 1)`. */
  function PrevIndex(idx: nat): (r: nat)
    ensures r <= idx <= r + 1
  {
    if idx == 0 then 0 else idx - 1
  }

  /** Next: `min(len(queue) - 1, idx + 1)`. */
  function NextIndex(idx: nat, n: nat): (r: nat)
    requires n > 0
    ensures r < n
    ensures idx < n ==> idx <= r <= idx + 1
  {
    if idx + 1 <= n - 1 then idx + 1 else n - 1
  }

  /** The navigation block: Previous wins when both buttons report a press. */
  function Navigate(prev: bool, next: bool, idx: nat, n: nat): (r: nat)
    requires n > 0
    ensures idx < n ==> r < n
    // the last disjunct is only reached from a cursor past the end, which a valid session never has
    ensures r == idx || r + 1 == idx || r == idx + 1 || r == n - 1
  {
    if prev then PrevIndex(idx) else if next then NextIndex(idx, n) else idx
  }

  /** After a pop: an index past the end moves to the last element, or to 0 when nothing is left. */
  function ClampAfterPop(index: nat, n: nat): (r: nat)
    ensures n > 0 ==> r < n
    ensures n == 0 ==> r == 0
    ensures index < n ==> r == index
    ensures 0 < n <= index ==> r == n - 1
  {
    if index >= n then (if n == 0 then 0 else n - 1) else index
  }

  // ---- the queue is a subsequence of the catalog ----

  lemma {:induction false} SubsequenceLength(a: seq<string>, b: seq<string>)
    requires IsSubsequence(a, b)
    ensures |a| <= |b|
    decreases |b|
  {
    if a != [] {
      if a[0] == b[0] && IsSubsequence(a[1..], b[1..]) {
        SubsequenceLength(a[1..], b[1..]);
      } else {
        SubsequenceLength(a, b[1..]);
      }
    }
  }

  lemma {:induction false} SubsequenceMultiset(a: seq<string>, b: seq<string>)
    requires IsSubsequence(a, b)
    ensures multiset(a) <= multiset(b)
    decreases |b|
  {
    if a != [] {
      assert b == [b[0]] + b[1..];
      if a[0] == b[0] && IsSubsequence(a[1..], b[1..]) {
        SubsequenceMultiset(a[1..], b[1..]);
        assert a == [a[0]] + a[1..];
      } else {
        SubsequenceMultiset(a, b[1..]);
      }
    }
  }

  lemma {:induction false} SubsequenceSorted(a: seq<string>, b: seq<string>)
    requires IsSubsequence(a, b) && Sorted(b)
    ensures Sorted(a)
    decreases |b|
  {
    if a != [] {
      SortedTail(b);
      if a[0] == b[0] && IsSubsequence(a[1..], b[1..]) {
        SubsequenceSorted(a[1..], b[1..]);
        SubsequenceMultiset(a[1..], b[1..]);
        forall y | y in a[1..] ensures LessEq(a[0], y) {
          assert y in multiset(b[1..]);
          HeadIsLeast(b, y);
        }
        SortedCons(a[0], a[1..]);
        assert a == [a[0]] + a[1..];
      } else {
        SubsequenceSorted(a, b[1..]);
      }
    }
  }

  lemma {:induction false} SubsequenceTransitive(a: seq<string>, b: seq<string>, c: seq<string>)
    requires IsSubsequence(a, b) && IsSubsequence(b, c)
    ensures IsSubsequence(a, c)
    decreases |c|
  {
    if a != [] {
      if b[0] == c[0] && IsSubsequence(b[1..], c[1..]) {
        if a[0] == b[0] && IsSubsequence(a[1..], b[1..]) {
          SubsequenceTransitive(a[1..], b[1..], c[1..]);
        } else {
          SubsequenceTransitive(a, b[1..], c[1..]);
        }
      } else {
        SubsequenceTransitive(a, b, c[1..]);
      }
    }
  }

  lemma {:induction false} SubsequenceReflexive(a: seq<string>)
    ensures IsSubsequence(a, a)
    decreases |a|
  {
    if a != [] {
      SubsequenceReflexive(a[1..]);
    }
  }

  /** The initial queue keeps the catalog's order: it is a subsequence of it. */
  lemma {:induction false} UnlabeledIsSubsequence(catalog: seq<string>, labeled: set<string>)
    ensures IsSubsequence(Unlabeled(catalog, labeled), catalog)
    decreases |catalog|
  {
    if catalog != [] {
      var r := Unlabeled(catalog, labeled);
      UnlabeledIsSubsequence(catalog[1..], labeled);
      if catalog[0] !in labeled {
        assert r[1..] == Unlabeled(catalog[1..], labeled);
      }
    }
  }

  /** Popping an element leaves a subsequence. */
  lemma {:induction false} RemoveAtIsSubsequence(q: seq<string>, i: nat)
    requires i < |q|
    ensures IsSubsequence(RemoveAt(q, i), q)
    decreases i
  {
    if i == 0 {
      assert RemoveAt(q, 0) == q[1..];
      SubsequenceReflexive(q[1..]);
    } else {
      RemoveAtIsSubsequence(q[1..], i - 1);
      assert RemoveAt(q, i) == [q[0]] + RemoveAt(q[1..], i - 1);
    }
  }

  /** `pop(i)` removes exactly the element at `i`; the others keep their order. */
  lemma RemoveAtSpec(q: seq<string>, i: nat)
    requires i < |q|
    ensures |RemoveAt(q, i)| == |q| - 1
    ensures forall k :: 0 <= k < i ==> RemoveAt(q, i)[k] == q[k]
    ensures forall k :: i <= k < |q| - 1 ==> RemoveAt(q, i)[k] == q[k + 1]
    ensures multiset(RemoveAt(q, i)) + multiset{q[i]} == multiset(q)
  {
    assert q == q[..i] + [q[i]] + q[i + 1..];
  }

  /** In a queue without repetitions, the popped name is gone. */
  lemma RemovedIsGone(q: seq<string>, i: nat)
    requires i < |q| && Distinct(q)
    ensures q[i] !in RemoveAt(q, i)
    ensures Distinct(RemoveAt(q, i))
  {
    var r := RemoveAt(q, i);
    RemoveAtSpec(q, i);
    DistinctSubMultiset(r, q);
    DistinctCounts(q);
    assert multiset(q)[q[i]] == multiset(r)[q[i]] + 1;
    assert multiset(r)[q[i]] == 0;
  }

  // ---- the cursor ----

  /** Previous and Next keep the cursor on an element of the queue. */
  lemma NavigationInRange(prev: bool, next: bool, idx: nat, n: nat)
    requires idx < n
    ensures Navigate(prev, next, idx, n) < n
    ensures PrevIndex(idx) <= idx <= NextIndex(idx, n)
  {
  }

  /**
   * A disabled button would be a no-op: Previous at 0 and Next at the last
   * element leave the cursor alone, and repeating either at its boundary
   * changes nothing.
   */
  lemma NavigationIdempotentAtBoundary(n: nat)
    requires n > 0
    ensures PrevIndex(0) == 0 && PrevIndex(PrevIndex(0)) == PrevIndex(0)
    ensures NextIndex(n - 1, n) == n - 1 && NextIndex(NextIndex(n - 1, n), n) == NextIndex(n - 1, n)
  {
  }

  /** An enabled button moves the cursor by exactly one. */
  lemma EnabledButtonsMove(idx: nat, n: nat)
    requires idx < n
    ensures idx != 0 ==> PrevIndex(idx) == idx - 1
    ensures idx < n - 1 ==> NextIndex(idx, n) == idx + 1
  {
  }

  /** Previous takes precedence over Next. */
  lemma PreviousWins(next: bool, idx: nat, n: nat)
    requires n > 0
    ensures Navigate(true, next, idx, n) == PrevIndex(idx)
  {
  }

  /** Saving the middle of [a, b, c] leaves [a, c] with the cursor on c. */
  lemma SaveMiddleScenario()
    ensures RemoveAt(["a.jpg", "b.jpg", "c.jpg"], 1) == ["a.jpg", "c.jpg"]
    ensures ClampAfterPop(1, 2) == 1
    ensures ["a.jpg", "c.jpg"][ClampAfterPop(1, 2)] == "c.jpg"
  {
  }

  /** Saving the last of [a, b, c] leaves [a, b] with the cursor pulled back onto b. */
  lemma SaveLastScenario()
    ensures RemoveAt(["a.jpg", "b.jpg", "c.jpg"], 2) == ["a.jpg", "b.jpg"]
    ensures ClampAfterPop(2, 2) == 1
    ensures ["a.jpg", "b.jpg"][ClampAfterPop(2, 2)] == "b.jpg"
  {
  }

  /** For a cursor that was in range before the pop, the clamp is `min(index, len - 1)`, or 0 when nothing is left. */
  lemma ClampIsMin(index: nat, n: nat)
    requires index <= n
    ensures ClampAfterPop(index, n) == if n == 0 then 0 else if index < n - 1 then index else n - 1
  {
  }
}
