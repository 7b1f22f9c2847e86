/**
  The older copy of the array utilities (package fr.jzap). Its loops are
  written here as tail recursion carrying the loop variables; each is proved
  to compute the same reference definition as the newer copy.
*/
module LegacyArrayUtils {
  import opened PageRuns
  import opened ArrayText

  /** `deleteDuplicatedPages`, from position i with the previous value `lastInt` and the kept values `result`. */
  function DeleteFrom(pages: seq<int>, i: nat, lastInt: int, result: seq<int>): (r: seq<int>)
    requires i <= |pages|
    requires lastInt == if i == 0 then -1 else pages[i - 1]
    requires result == CollapseRuns(pages[..i])
    ensures r == CollapseRuns(pages)
    decreases |pages| - i
  {
    if i == |pages| then
      assert pages[..i] == pages;
      result
    else
      CollapsePrefix(pages, i);
      DeleteFrom(pages, i + 1, pages[i], if lastInt != pages[i] then result + [pages[i]] else result)
  }

  /** `deleteDuplicatedPages`: one value per run of equal neighbours. */
  function DeleteDuplicatedPages(pages: seq<int>): (r: seq<int>)
    ensures r == CollapseRuns(pages)
  {
    assert pages[..0] == [];
    DeleteFrom(pages, 0, -1, [])
  }

  /** The index loop from position i, with the running change count `index`. */
  function IndexesFrom(a: seq<int>, i: nat, index: nat, result: seq<int>): (r: seq<int>)
    requires 1 <= i <= |a| && |result| == |a|
    requires index == ChangesUpTo(a, i - 1)
    requires result[0] == a[0] && forall k | 1 <= k < i :: result[k] == ChangesUpTo(a, k)
    ensures r == RunIndexesAsWritten(a)
    decreases |a| - i
  {
    if i == |a| then result
    else
      var index' := if a[i] != a[i - 1] then index + 1 else index;
      IndexesFrom(a, i + 1, index', result[i := index'])
  }

  /** `calculateIndexesInDuplicateArray`: position 0 holds a[0], later positions count the value changes. */
  function CalculateIndexesInDuplicateArray(originalUserPages: seq<int>): (r: seq<int>)
    ensures r == RunIndexesAsWritten(originalUserPages)
  {
    var a := originalUserPages;
    if |a| == 0 then []
    else IndexesFrom(a, 1, 0, seq(|a|, _ => 0)[0 := a[0]])
  }

  /** The text loop from position i. */
  function TextFrom(values: seq<int>, i: nat, builder: string): (s: string)
    requires i <= |values| && builder == TextPrefix(values, i)
    ensures s == ArrayString(values)
    decreases |values| - i
  {
    if i == |values| then
      TextPrefixDone(values);
      builder + "]"
    else
      TextPrefixStep(values, i);
      var appended := builder + IntToString(values[i]);
      TextFrom(values, i + 1, if i != |values| - 1 then appended + "," else appended)
  }

  /** `arrayToString`: bracketed, comma-separated decimal values. */
  function ArrayToString(values: seq<int>): (s: string)
    ensures s == ArrayString(values)
  {
    TextFrom(values, 0, "[")
  }
}
