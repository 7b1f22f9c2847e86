/**
  The current-page model: an index, initially 0, whose changes are announced
  to the listeners. Dispatched events are kept as an appended trace of the
  page indexes they carry.
*/
module CurrentPageModel {
  import PageRuns

  datatype PageModel = PageModel(currentPageIndex: int, dispatched: seq<int>)

  const NewPageModel := PageModel(0, [])

  /** setCurrentPageIndex: stores the index and announces it, but only when it differs from the stored one. */
  function SetCurrentPageIndex(m: PageModel, index: int): (r: PageModel)
    ensures r.currentPageIndex == index
    ensures index != m.currentPageIndex <==> |r.dispatched| == |m.dispatched| + 1
    ensures index != m.currentPageIndex ==> r.dispatched == m.dispatched + [index]
    ensures index == m.currentPageIndex ==> r == m
  {
    if m.currentPageIndex != index then PageModel(index, m.dispatched + [index]) else m
  }

  /** Setting the same index twice announces it at most once. */
  lemma SetTwiceDispatchesOnce(m: PageModel, index: int)
    ensures SetCurrentPageIndex(SetCurrentPageIndex(m, index), index) == SetCurrentPageIndex(m, index)
    ensures |SetCurrentPageIndex(SetCurrentPageIndex(m, index), index).dispatched| <= |m.dispatched| + 1
  {
  }

  /** The initial index is 0, so a first setCurrentPageIndex(0) announces nothing. */
  lemma FirstZeroIsSilent()
    ensures SetCurrentPageIndex(NewPageModel, 0).dispatched == []
    ensures SetCurrentPageIndex(NewPageModel, 3).dispatched == [3]
  {
  }

  /** Applies the calls in order, starting from m. */
  function Run(m: PageModel, indexes: seq<int>): PageModel
    decreases |indexes|
  {
    if |indexes| == 0 then m
    else SetCurrentPageIndex(Run(m, indexes[..|indexes| - 1]), indexes[|indexes| - 1])
  }

  /**
    From the initial model, the announced indexes are exactly the runs of the
    called indexes: one event per run of equal consecutive calls, the leading
    run of zeros announcing nothing; and the stored index is the last one set.
  */
  lemma {:induction false} RunDispatchesRuns(indexes: seq<int>)
    ensures var m := Run(NewPageModel, indexes);
            var runs := PageRuns.CollapseRuns([0] + indexes);
            && |runs| > 0 && runs[0] == 0
            && m.dispatched == runs[1..]
            && m.currentPageIndex == ([0] + indexes)[|indexes|]
    decreases |indexes|
  {
    var a := [0] + indexes;
    var n := |indexes|;
    if n == 0 {
      assert PageRuns.CollapseRuns(a) == PageRuns.CollapseRuns([]) + [0];
    } else {
      var init := indexes[..n - 1];
      RunDispatchesRuns(init);
      assert a[..n] == [0] + init;
      assert a[..n + 1] == a;
      PageRuns.CollapsePrefix(a, n);
      var before := Run(NewPageModel, init);
      assert before.currentPageIndex == a[n - 1];
    }
  }

  /** No two consecutive announcements carry the same index, and none of them repeats the initial 0 first. */
  lemma RunAnnouncesChanges(indexes: seq<int>)
    ensures var d := Run(NewPageModel, indexes).dispatched;
            && (|d| > 0 ==> d[0] != 0)
            && (forall k | 0 <= k < |d| - 1 :: d[k] != d[k + 1])
            && |d| <= |indexes|
  {
    var a := [0] + indexes;
    RunDispatchesRuns(indexes);
    PageRuns.CollapseHasNoEqualNeighbours(a);
    PageRuns.CollapseIsSubsequence(a);
    var runs := PageRuns.CollapseRuns(a);
    var d := runs[1..];
    forall k | 0 <= k < |d| - 1 ensures d[k] != d[k + 1] {
      assert d[k] == runs[k + 1] && d[k + 1] == runs[k + 2];
    }
    if |d| > 0 {
      assert d[0] == runs[1];
    }
  }
}
