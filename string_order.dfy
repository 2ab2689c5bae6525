/**
 * The order Python's `sorted` uses on file names: strings compared
 * lexicographically by code point, a proper prefix before any extension of it.
 * `sorted` itself is modelled by an insertion sort; `SortedUnique` shows that
 * the result does not depend on which sorting algorithm is used.
 */
module StringOrder {

  /**
   * `a <= b` on Python strings: the first differing character decides, and a
   * prefix comes before every extension of it ("a.jpg" before "a.jpg2").
   */
  predicate LessEq(a: string, b: string)
    ensures a <= b ==> LessEq(a, b)
    ensures LessEq(a, b) && a != [] ==> b != [] && a[0] <= b[0]
  {
    |a| == 0 || (|b| > 0 && (a[0] < b[0] || (a[0] == b[0] && LessEq(a[1..], b[1..]))))
  }

  lemma {:induction false} Reflexive(a: string)
    ensures LessEq(a, a)
  {
    if |a| > 0 {
      Reflexive(a[1..]);
    }
  }

  lemma {:induction false} Total(a: string, b: string)
    ensures LessEq(a, b) || LessEq(b, a)
  {
    if |a| > 0 && |b| > 0 && a[0] == b[0] {
      Total(a[1..], b[1..]);
    }
  }

  lemma {:induction false} Antisymmetric(a: string, b: string)
    requires LessEq(a, b) && LessEq(b, a)
    ensures a == b
  {
    if |a| > 0 && |b| > 0 {
      Antisymmetric(a[1..], b[1..]);
      assert a == [a[0]] + a[1..] && b == [b[0]] + b[1..];
    }
  }

  lemma {:induction false} Transitive(a: string, b: string, c: string)
    requires LessEq(a, b) && LessEq(b, c)
    ensures LessEq(a, c)
  {
    if |a| > 0 && a[0] == b[0] && b[0] == c[0] {
      Transitive(a[1..], b[1..], c[1..]);
    }
  }

  /** Every element is at most every later element. */
  predicate Sorted(s: seq<string>)
  {
    forall i, j :: 0 <= i < j < |s| ==> LessEq(s[i], s[j])
  }

  /** Every element of `s` is at least `x`. */
  predicate AtMostAll(x: string, s: seq<string>)
  {
    forall y :: y in s ==> LessEq(x, y)
  }

  lemma SortedCons(x: string, s: seq<string>)
    ensures Sorted([x] + s) <==> AtMostAll(x, s) && Sorted(s)
  {
    var t := [x] + s;
    if Sorted(t) {
      forall y | y in s ensures LessEq(x, y) {
        var k :| 0 <= k < |s| && s[k] == y;
        assert t[0] == x && t[k + 1] == y;
        assert LessEq(t[0], t[k + 1]);
      }
      forall i, j | 0 <= i < j < |s| ensures LessEq(s[i], s[j]) {
        assert t[i + 1] == s[i] && t[j + 1] == s[j];
      }
    }
    if AtMostAll(x, s) && Sorted(s) {
      forall i, j | 0 <= i < j < |t| ensures LessEq(t[i], t[j]) {
        assert t[j] == s[j - 1];
        if i > 0 {
          assert t[i] == s[i - 1];
        }
      }
    }
  }

  /** Distinct elements: no value occurs twice. */
  predicate Distinct(s: seq<string>)
  {
    s == [] || (s[0] !in s[1..] && Distinct(s[1..]))
  }

  /** No repetition means every value occurs at most once. */
  lemma {:induction false} DistinctCounts(s: seq<string>)
    ensures Distinct(s) <==> forall x :: multiset(s)[x] <= 1
  {
    if s != [] {
      DistinctCounts(s[1..]);
      assert s == [s[0]] + s[1..];
      assert multiset(s) == multiset{s[0]} + multiset(s[1..]);
      if Distinct(s) {
        assert multiset(s[1..])[s[0]] == 0;
      }
      if forall x :: multiset(s)[x] <= 1 {
        assert forall x :: multiset(s[1..])[x] <= multiset(s)[x];
        assert s[0] !in multiset(s[1..]) by {
          assert multiset(s)[s[0]] == 1 + multiset(s[1..])[s[0]];
        }
      }
    }
  }

  /** Taking some of the elements of a sequence without repetition keeps them distinct. */
  lemma DistinctSubMultiset(a: seq<string>, b: seq<string>)
    requires multiset(a) <= multiset(b) && Distinct(b)
    ensures Distinct(a)
  {
    DistinctCounts(a);
    DistinctCounts(b);
    forall x ensures multiset(a)[x] <= 1 {
      assert multiset(a)[x] <= multiset(b)[x];
    }
  }

  /** Inserts `x` before the first element it is at most. */
  function Insert(x: string, s: seq<string>): (r: seq<string>)
    ensures |r| == |s| + 1
    ensures multiset(r) == multiset(s) + multiset{x}
  {
    if s == [] then [x]
    else if LessEq(x, s[0]) then [x] + s
    else
      assert s == [s[0]] + s[1..];
      [s[0]] + Insert(x, s[1..])
  }

  /** Python's `sorted`, as an insertion sort. */
  function Sort(s: seq<string>): (r: seq<string>)
    ensures |r| == |s|
    ensures multiset(r) == multiset(s)
  {
    if s == [] then []
    else
      assert s == [s[0]] + s[1..];
      Insert(s[0], Sort(s[1..]))
  }

  lemma {:induction false} InsertSpec(x: string, s: seq<string>)
    requires Sorted(s)
    ensures Sorted(Insert(x, s))
  {
    if s == [] {
    } else {
      assert s == [s[0]] + s[1..];
      SortedCons(s[0], s[1..]);
      if LessEq(x, s[0]) {
        forall y | y in s ensures LessEq(x, y) {
          if y != s[0] {
            Transitive(x, s[0], y);
          }
        }
        SortedCons(x, s);
      } else {
        Total(x, s[0]);
        var t := Insert(x, s[1..]);
        InsertSpec(x, s[1..]);
        forall y | y in t ensures LessEq(s[0], y) {
          assert y in multiset(t);
          assert y == x || y in multiset(s[1..]);
        }
        SortedCons(s[0], t);
      }
    }
  }

  lemma {:induction false} SortSpec(s: seq<string>)
    ensures Sorted(Sort(s))
    ensures multiset(Sort(s)) == multiset(s)
  {
    if s != [] {
      SortSpec(s[1..]);
      InsertSpec(s[0], Sort(s[1..]));
    }
  }

  /** The head of a sorted sequence is at most each of its elements. */
  lemma HeadIsLeast(s: seq<string>, y: string)
    requires Sorted(s) && y in s
    ensures LessEq(s[0], y)
  {
    var k :| 0 <= k < |s| && s[k] == y;
    if k == 0 {
      Reflexive(y);
    }
  }

  lemma SortedTail(s: seq<string>)
    requires Sorted(s) && s != []
    ensures Sorted(s[1..])
  {
    forall i, j | 0 <= i < j < |s| - 1 ensures LessEq(s[1..][i], s[1..][j]) {
      assert s[1..][i] == s[i + 1] && s[1..][j] == s[j + 1];
    }
  }

  /** Two non-empty sorted sequences with the same elements start with the same element. */
  lemma SameHead(a: seq<string>, b: seq<string>)
    requires Sorted(a) && Sorted(b) && multiset(a) == multiset(b) && a != [] && b != []
    ensures a[0] == b[0]
  {
    assert a[0] in multiset(b) && b[0] in multiset(a);
    HeadIsLeast(b, a[0]);
    HeadIsLeast(a, b[0]);
    Antisymmetric(a[0], b[0]);
  }

  /** Two sorted sequences with the same elements are equal: the sorted listing is unique. */
  lemma {:induction false} SortedUnique(a: seq<string>, b: seq<string>)
    requires Sorted(a) && Sorted(b) && multiset(a) == multiset(b)
    ensures a == b
  {
    assert |a| == |multiset(a)| == |multiset(b)| == |b|;
    if a != [] {
      SameHead(a, b);
      assert a == [a[0]] + a[1..] && b == [b[0]] + b[1..];
      assert multiset(a[1..]) == multiset(a) - multiset{a[0]};
      assert multiset(b[1..]) == multiset(b) - multiset{b[0]};
      SortedTail(a);
      SortedTail(b);
      SortedUnique(a[1..], b[1..]);
    }
  }
}
