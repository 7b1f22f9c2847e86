/**
  The array utilities of the view package: loops over the user's page list,
  each proved to compute the reference definition of `PageRuns` or
  `ArrayText`.
*/
module ArrayUtils {
  import opened PageRuns
  import opened ArrayText

  /** `deleteDuplicatedPages`: keeps a value whenever it differs from the previous one, starting from -1. */
  method DeleteDuplicatedPages(pages: seq<int>) returns (r: seq<int>)
    ensures r == CollapseRuns(pages)
    ensures |r| <= |pages| && forall i | 0 <= i < |r| - 1 :: r[i] != r[i + 1]
  {
    var result: seq<int> := [];
    var lastInt := -1;
    for i := 0 to |pages|
      invariant result == CollapseRuns(pages[..i])
      invariant lastInt == if i == 0 then -1 else pages[i - 1]
    {
      CollapsePrefix(pages, i);
      if lastInt != pages[i] {
        result := result + [pages[i]];
      }
      lastInt := pages[i];
    }
    assert pages[..|pages|] == pages;
    r := result;
    CollapseHasNoEqualNeighbours(pages);
    CollapseIsSubsequence(pages);
  }

  /**
    `calculateIndexesInDuplicateArray`: same length as the input; position 0
    receives the input's first value and every later position the number of
    value changes up to it.
  */
  method CalculateIndexesInDuplicateArray(originalUserPages: seq<int>) returns (r: seq<int>)
    ensures r == RunIndexesAsWritten(originalUserPages)
  {
    var a := originalUserPages;
    var result := seq(|a|, _ => 0);
    if |a| == 0 {
      return result;
    }
    var index := 0;
    result := result[0 := a[0]];
    for i := 1 to |a|
      invariant |result| == |a|
      invariant index == ChangesUpTo(a, i - 1)
      invariant result[0] == a[0]
      invariant forall k | 1 <= k < i :: result[k] == ChangesUpTo(a, k)
    {
      if a[i] != a[i - 1] {
        index := index + 1;
      }
      result := result[i := index];
    }
    r := result;
  }

  /** `arrayToString`: "[" then the elements separated by commas, then "]". */
  method ArrayToString(values: seq<int>) returns (s: string)
    ensures s == ArrayString(values)
  {
    var builder := "[";
    for i := 0 to |values|
      invariant builder == TextPrefix(values, i)
    {
      TextPrefixStep(values, i);
      builder := builder + IntToString(values[i]);
      if i != |values| - 1 {
        builder := builder + ",";
      }
    }
    TextPrefixDone(values);
    s := builder + "]";
  }
}
