/**
  Runs of equal adjacent page numbers: the reference definitions both copies
  of the array utilities are measured against.

  A user may list pages with repetitions, e.g. (0, 2, 2, 8, 8, 1, 1, 1). The
  filtered list keeps one element per run of equal neighbours, (0, 2, 8, 1),
  and the index list gives, for each position of the original list, the
  position of its run in the filtered list, (0, 1, 1, 2, 2, 3, 3, 3).
  The element before the first one is taken to be -1.
*/
module PageRuns {

  /** The value the run detection compares position i with. */
  function Previous(a: seq<int>, i: nat): int
    requires i < |a|
  {
    if i == 0 then -1 else a[i - 1]
  }

  /** Position i starts a new run. */
  predicate StartsRun(a: seq<int>, i: nat)
    requires i < |a|
  {
    a[i] != Previous(a, i)
  }

  /** The first element of every run, in order. */
  function CollapseRuns(a: seq<int>): seq<int>
    decreases |a|
  {
    if |a| == 0 then []
    else CollapseRuns(a[..|a| - 1]) + (if StartsRun(a, |a| - 1) then [a[|a| - 1]] else [])
  }

  /** Number of positions j in 1..i where the value changes from a[j - 1]. */
  function ChangesUpTo(a: seq<int>, i: nat): nat
    requires i < |a|
  {
    if i == 0 then 0 else ChangesUpTo(a, i - 1) + (if a[i] != a[i - 1] then 1 else 0)
  }

  /** The index list as both copies compute it: position 0 holds a[0] itself. */
  function RunIndexesAsWritten(a: seq<int>): (r: seq<int>)
    ensures |r| == |a|
    ensures |a| > 0 ==> r[0] == a[0]
    ensures forall i | 1 <= i < |a| :: r[i] == ChangesUpTo(a, i)
  {
    seq(|a|, i requires 0 <= i < |a| => if i == 0 then a[0] else ChangesUpTo(a, i))
  }

  /** The index list as documented: every position, the first included, holds its run's position. */
  function RunIndexes(a: seq<int>): (r: seq<int>)
    ensures |r| == |a|
    ensures forall i | 0 <= i < |a| :: r[i] == ChangesUpTo(a, i)
  {
    seq(|a|, i requires 0 <= i < |a| => ChangesUpTo(a, i))
  }

  lemma {:induction false} CollapsePrefix(a: seq<int>, n: nat)
    requires n < |a|
    ensures CollapseRuns(a[..n + 1]) == CollapseRuns(a[..n]) + (if StartsRun(a, n) then [a[n]] else [])
  {
    var b := a[..n + 1];
    assert b[..|b| - 1] == a[..n];
    assert Previous(b, n) == Previous(a, n);
  }

  /** The filtered list ends with the input's last value, unless it is empty, in which case the input was all -1. */
  lemma {:induction false} CollapseLast(a: seq<int>)
    requires |a| > 0
    ensures var c := CollapseRuns(a);
            if |c| > 0 then c[|c| - 1] == a[|a| - 1] else a[|a| - 1] == -1
    decreases |a|
  {
    var n := |a| - 1;
    if n > 0 && !StartsRun(a, n) {
      CollapseLast(a[..n]);
    }
  }

  /** No two neighbours of the filtered list are equal. */
  lemma {:induction false} CollapseHasNoEqualNeighbours(a: seq<int>)
    ensures var c := CollapseRuns(a);
            forall i | 0 <= i < |c| - 1 :: c[i] != c[i + 1]
    decreases |a|
  {
    if |a| > 0 {
      var n := |a| - 1;
      CollapseHasNoEqualNeighbours(a[..n]);
      var c0 := CollapseRuns(a[..n]);
      if StartsRun(a, n) && |c0| > 0 {
        CollapseLast(a[..n]);
      }
    }
  }

  /** The filtered list is no longer than the input and holds only input values. */
  lemma {:induction false} CollapseIsSubsequence(a: seq<int>)
    ensures |CollapseRuns(a)| <= |a|
    ensures forall x | x in CollapseRuns(a) :: x in a
    decreases |a|
  {
    if |a| > 0 {
      var n := |a| - 1;
      CollapseIsSubsequence(a[..n]);
      forall x | x in a[..n] ensures x in a { }
    }
  }

  /** A leading -1 never shows in the filtered list: it equals the assumed previous value. */
  lemma {:induction false} LeadingMinusOneDropped(b: seq<int>)
    ensures CollapseRuns([-1] + b) == CollapseRuns(b)
    decreases |b|
  {
    var a := [-1] + b;
    if |b| == 0 {
      assert a[..0] == [];
    } else {
      var n := |b| - 1;
      LeadingMinusOneDropped(b[..n]);
      assert a[..n + 1] == [-1] + b[..n];
      assert StartsRun(a, n + 1) == StartsRun(b, n);
    }
  }

  /** The filtered list up to position i has one element per change, plus the first value. */
  lemma {:induction false} CollapseCountsChanges(a: seq<int>, i: nat)
    requires i < |a| && a[0] != -1
    ensures |CollapseRuns(a[..i + 1])| == ChangesUpTo(a, i) + 1
    ensures CollapseRuns(a[..i + 1])[ChangesUpTo(a, i)] == a[i]
  {
    CollapsePrefix(a, i);
    if i == 0 {
      assert a[..0] == [];
    } else {
      CollapseCountsChanges(a, i - 1);
    }
  }

  lemma {:induction false} CollapsePrefixIsPrefix(a: seq<int>, n: nat)
    requires n <= |a|
    ensures CollapseRuns(a[..n]) <= CollapseRuns(a)
    decreases |a| - n
  {
    if n < |a| {
      CollapsePrefix(a, n);
      CollapsePrefixIsPrefix(a, n + 1);
    } else {
      assert a[..n] == a;
    }
  }

  /**
    The documented index list locates every position's run: the filtered list
    at RunIndexes(a)[i] holds a[i]. A leading -1 is excluded since the
    filtered list drops it.
  */
  lemma RunIndexesLocateRuns(a: seq<int>)
    requires |a| > 0 && a[0] != -1
    ensures var c := CollapseRuns(a);
            var r := RunIndexes(a);
            forall i | 0 <= i < |a| :: 0 <= r[i] < |c| && c[r[i]] == a[i]
  {
    var c := CollapseRuns(a);
    forall i | 0 <= i < |a|
      ensures ChangesUpTo(a, i) < |c| && c[ChangesUpTo(a, i)] == a[i]
    {
      CollapseCountsChanges(a, i);
      CollapsePrefixIsPrefix(a, i + 1);
    }
  }

  /** Both index lists grow by 0 or 1 from one position to the next, starting at position 1. */
  lemma RunIndexesStepByOne(a: seq<int>, i: nat)
    requires 1 <= i < |a| - 1
    ensures RunIndexes(a)[i] <= RunIndexes(a)[i + 1] <= RunIndexes(a)[i] + 1
    ensures RunIndexesAsWritten(a)[i] <= RunIndexesAsWritten(a)[i + 1] <= RunIndexesAsWritten(a)[i] + 1
    ensures RunIndexes(a)[i + 1] == RunIndexes(a)[i] <==> a[i + 1] == a[i]
  {
  }

  /**
    The index list as written puts a[0] at position 0 instead of 0: for
    (5, 5, 6) it gives (5, 0, 1), and 5 is not a position of the filtered
    list (5, 6). The documented example only works because it starts with 0.
  */
  lemma RunIndexesAsWrittenMisplacesFirst()
    ensures RunIndexesAsWritten([5, 5, 6]) == [5, 0, 1]
    ensures CollapseRuns([5, 5, 6]) == [5, 6]
    ensures RunIndexes([5, 5, 6]) == [0, 0, 1]
    ensures RunIndexesAsWritten([0, 4, 4, 6, 6, 6, 3]) == [0, 1, 1, 2, 2, 2, 3]
  {
    var a := [5, 5, 6];
    assert ChangesUpTo(a, 1) == 0 && ChangesUpTo(a, 2) == 1;
    assert a[..2] == [5, 5] && a[..2][..1] == [5] && a[..2][..1][..0] == [];
    assert CollapseRuns([5]) == [5];
    var b := [0, 4, 4, 6, 6, 6, 3];
    assert ChangesUpTo(b, 1) == 1 && ChangesUpTo(b, 2) == 1 && ChangesUpTo(b, 3) == 2;
    assert ChangesUpTo(b, 4) == 2 && ChangesUpTo(b, 5) == 2 && ChangesUpTo(b, 6) == 3;
  }

  lemma CollapseExamplePrefix()
    ensures CollapseRuns([0, 1, 2]) == [0, 1, 2]
  {
    var a := [0, 1, 2];
    assert a[..0] == [] && a[..3] == a;
    CollapsePrefix(a, 0);
    assert CollapseRuns(a[..1]) == [0];
    CollapsePrefix(a, 1);
    assert CollapseRuns(a[..2]) == [0, 1];
    CollapsePrefix(a, 2);
  }

  /** The documented examples: (0, 1, 2, 2, 3) collapses to (0, 1, 2, 3). */
  lemma CollapseExamples()
    ensures CollapseRuns([0, 1, 2, 2, 3]) == [0, 1, 2, 3]
  {
    var a := [0, 1, 2, 2, 3];
    assert a[..3] == [0, 1, 2] && a[..5] == a;
    CollapseExamplePrefix();
    CollapsePrefix(a, 3);
    assert CollapseRuns(a[..4]) == [0, 1, 2];
    CollapsePrefix(a, 4);
  }

  lemma CollapseDocumentedPrefix()
    ensures CollapseRuns([0, 2, 2, 8]) == [0, 2, 8]
  {
    var b := [0, 2, 2, 8];
    assert b[..0] == [] && b[..4] == b;
    CollapsePrefix(b, 0);
    assert CollapseRuns(b[..1]) == [0];
    CollapsePrefix(b, 1);
    assert CollapseRuns(b[..2]) == [0, 2];
    CollapsePrefix(b, 2);
    assert CollapseRuns(b[..3]) == [0, 2];
    CollapsePrefix(b, 3);
  }

  lemma CollapseDocumentedExample()
    ensures CollapseRuns([0, 2, 2, 8, 8, 1, 1, 1]) == [0, 2, 8, 1]
  {
    var b := [0, 2, 2, 8, 8, 1, 1, 1];
    assert b[..4] == [0, 2, 2, 8] && b[..8] == b;
    CollapseDocumentedPrefix();
    CollapsePrefix(b, 4);
    assert CollapseRuns(b[..5]) == [0, 2, 8];
    CollapsePrefix(b, 5);
    assert CollapseRuns(b[..6]) == [0, 2, 8, 1];
    CollapsePrefix(b, 6);
    assert CollapseRuns(b[..7]) == [0, 2, 8, 1];
    CollapsePrefix(b, 7);
  }
}
