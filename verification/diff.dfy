/** Diff aggregation (`TinyBot.get_lines`): for every pull request, the changed
    files under the project directory, in source order, followed by a synthetic
    "total" row; pull requests that touch nothing under the directory get no entry. */
module Diff {
  import opened Text

  /** One entry of a pull request's changed-file list. */
  datatype FileChange = FileChange(filename: string, additions: nat, deletions: nat)

  /** One `(filename, lines added, lines deleted)` tuple of the source's `Lines`. */
  datatype Row = Row(name: string, additions: nat, deletions: nat)

  type Lines = seq<Row>

  /** A pull request's URL with its changed files (one item of `pr_files`). */
  datatype PrFiles = PrFiles(url: string, files: seq<FileChange>)

  /** A pull request's URL with its aggregated rows (one item of the result map). */
  datatype PrLines = PrLines(url: string, lines: Lines)

  /** The name of the synthetic last row. */
  const TotalName: string := "total"

  predicate InProject(f: FileChange, dir: string) {
    StartsWith(f.filename, dir)
  }

  function AsRow(f: FileChange): Row {
    Row(f.filename, f.additions, f.deletions)
  }

  /** The rows of the files under `dir`, in the order of `files`. */
  function MatchedRows(files: seq<FileChange>, dir: string): (rows: Lines)
    ensures |rows| <= |files|
    ensures forall k :: 0 <= k < |rows| ==> StartsWith(rows[k].name, dir)
  {
    if files == [] then []
    else
      var last := files[|files| - 1];
      MatchedRows(files[..|files| - 1], dir) + (if InProject(last, dir) then [AsRow(last)] else [])
  }

  /** The positions of the files under `dir`, ascending. */
  function MatchIndices(files: seq<FileChange>, dir: string): (idx: seq<nat>)
    ensures forall k :: 0 <= k < |idx| ==> idx[k] < |files| && InProject(files[idx[k]], dir)
    ensures forall k, l :: 0 <= k < l < |idx| ==> idx[k] < idx[l]
    ensures forall i :: 0 <= i < |files| && InProject(files[i], dir) ==> i in idx
  {
    if files == [] then []
    else
      var n := |files| - 1;
      MatchIndices(files[..n], dir) + (if InProject(files[n], dir) then [n] else [])
  }

  function SumAdditions(rows: Lines): nat {
    if rows == [] then 0 else SumAdditions(rows[..|rows| - 1]) + rows[|rows| - 1].additions
  }

  function SumDeletions(rows: Lines): nat {
    if rows == [] then 0 else SumDeletions(rows[..|rows| - 1]) + rows[|rows| - 1].deletions
  }

  function TotalRow(rows: Lines): Row {
    Row(TotalName, SumAdditions(rows), SumDeletions(rows))
  }

  /** The rows `get_lines` produces for one pull request: the matched files, then the
      total row when at least one file matched; nothing at all otherwise. */
  function DiffRows(files: seq<FileChange>, dir: string): (lines: Lines)
    ensures lines != [] ==> |lines| >= 2
    ensures lines != [] ==> lines[|lines| - 1] == TotalRow(lines[..|lines| - 1])
  {
    var m := MatchedRows(files, dir);
    if m == [] then [] else m + [TotalRow(m)]
  }

  /** A pull request gets rows exactly when one of its files lies under `dir`. */
  lemma {:induction false} DiffRowsEmpty(files: seq<FileChange>, dir: string)
    ensures DiffRows(files, dir) == [] <==> forall i :: 0 <= i < |files| ==> !InProject(files[i], dir)
  {
    MatchedRowsEmpty(files, dir);
  }

  lemma {:induction false} MatchedRowsEmpty(files: seq<FileChange>, dir: string)
    ensures MatchedRows(files, dir) == [] <==> forall i :: 0 <= i < |files| ==> !InProject(files[i], dir)
  {
    if files != [] {
      var n := |files| - 1;
      var init := files[..n];
      if InProject(files[n], dir) {
        assert MatchedRows(files, dir) == MatchedRows(init, dir) + [AsRow(files[n])];
      } else {
        assert MatchedRows(files, dir) == MatchedRows(init, dir);
        MatchedRowsEmpty(init, dir);
        assert forall i :: 0 <= i < n ==> init[i] == files[i];
      }
    }
  }

  /** The whole result map of `get_lines`, as its entries in insertion order. */
  function LinesByPr(prs: seq<PrFiles>, dir: string): (r: seq<PrLines>)
    ensures |r| <= |prs|
    ensures forall k :: 0 <= k < |r| ==> r[k].lines != []
  {
    if prs == [] then []
    else
      var n := |prs| - 1;
      var rows := DiffRows(prs[n].files, dir);
      LinesByPr(prs[..n], dir) + (if rows != [] then [PrLines(prs[n].url, rows)] else [])
  }

  /** Every entry of the result map is the rows of one input pull request. */
  lemma {:induction false} LinesByPrSound(prs: seq<PrFiles>, dir: string)
    ensures forall k :: 0 <= k < |LinesByPr(prs, dir)| ==>
      exists i :: 0 <= i < |prs| && LinesByPr(prs, dir)[k] == PrLines(prs[i].url, DiffRows(prs[i].files, dir))
  {
    if prs == [] {
      assert LinesByPr(prs, dir) == [];
    } else {
      var n := |prs| - 1;
      var init := prs[..n];
      LinesByPrSound(init, dir);
      var r0 := LinesByPr(init, dir);
      var r := LinesByPr(prs, dir);
      forall k | 0 <= k < |r|
        ensures exists i :: 0 <= i < |prs| && r[k] == PrLines(prs[i].url, DiffRows(prs[i].files, dir))
      {
        if k < |r0| {
          var i :| 0 <= i < |init| && r0[k] == PrLines(init[i].url, DiffRows(init[i].files, dir));
          assert prs[i] == init[i] && r[k] == r0[k];
        } else {
          assert r[k] == PrLines(prs[n].url, DiffRows(prs[n].files, dir));
        }
      }
    }
  }

  /** A pull request has an entry exactly when some of its files matched. */
  lemma {:induction false} LinesByPrComplete(prs: seq<PrFiles>, dir: string, i: nat)
    requires i < |prs|
    ensures DiffRows(prs[i].files, dir) != [] <==> PrLines(prs[i].url, DiffRows(prs[i].files, dir)) in LinesByPr(prs, dir)
    decreases |prs|
  {
    var n := |prs| - 1;
    if i < n {
      var init := prs[..n];
      assert prs[i] == init[i];
      LinesByPrComplete(init, dir, i);
      LinesByPrEarlier(prs, dir, i);
    } else {
      LinesByPrLast(prs, dir);
    }
  }

  /** The last pull request's entry is appended exactly when its rows are non-empty. */
  lemma LinesByPrLast(prs: seq<PrFiles>, dir: string)
    requires prs != []
    ensures var n := |prs| - 1;
      var rows := DiffRows(prs[n].files, dir);
      rows != [] <==> PrLines(prs[n].url, rows) in LinesByPr(prs, dir)
  {
    var n := |prs| - 1;
    var r0 := LinesByPr(prs[..n], dir);
    var rows := DiffRows(prs[n].files, dir);
    var e := PrLines(prs[n].url, rows);
    var tail := if rows != [] then [e] else [];
    assert LinesByPr(prs, dir) == r0 + tail;
    if rows == [] {
      assert e !in r0 by {
        assert forall k :: 0 <= k < |r0| ==> r0[k].lines != [];
      }
    }
  }

  /** An earlier pull request's entry is in the map exactly when it was there before the
      last pull request was added. */
  lemma LinesByPrEarlier(prs: seq<PrFiles>, dir: string, i: nat)
    requires i < |prs| - 1
    requires var n := |prs| - 1;
      var e := PrLines(prs[i].url, DiffRows(prs[i].files, dir));
      DiffRows(prs[i].files, dir) != [] <==> e in LinesByPr(prs[..n], dir)
    ensures DiffRows(prs[i].files, dir) != [] <==> PrLines(prs[i].url, DiffRows(prs[i].files, dir)) in LinesByPr(prs, dir)
  {
    var n := |prs| - 1;
    var r0 := LinesByPr(prs[..n], dir);
    var rows := DiffRows(prs[n].files, dir);
    var tail := if rows != [] then [PrLines(prs[n].url, rows)] else [];
    var e := PrLines(prs[i].url, DiffRows(prs[i].files, dir));
    assert LinesByPr(prs, dir) == r0 + tail;
    assert e in r0 + tail <==> e in r0 || e in tail;
    if e in tail {
      assert e.lines == rows;
    }
  }

  predicate DistinctUrls(prs: seq<PrFiles>) {
    forall i, j :: 0 <= i < j < |prs| ==> prs[i].url != prs[j].url
  }

  /** The positions of the pull requests that touch the directory, ascending. That
      each one does touch it follows from `LinesByPrIsSelection`. */
  function TouchedIndices(prs: seq<PrFiles>, dir: string): (idx: seq<nat>)
    ensures forall k :: 0 <= k < |idx| ==> idx[k] < |prs|
    ensures forall k, l :: 0 <= k < l < |idx| ==> idx[k] < idx[l]
  {
    if prs == [] then []
    else
      var n := |prs| - 1;
      TouchedIndices(prs[..n], dir) + (if DiffRows(prs[n].files, dir) != [] then [n] else [])
  }

  /** The entries are exactly the touched pull requests with their rows, in input order. */
  lemma {:induction false} LinesByPrIsSelection(prs: seq<PrFiles>, dir: string)
    ensures |LinesByPr(prs, dir)| == |TouchedIndices(prs, dir)|
    ensures forall k :: 0 <= k < |TouchedIndices(prs, dir)| ==>
      var i := TouchedIndices(prs, dir)[k];
      LinesByPr(prs, dir)[k] == PrLines(prs[i].url, DiffRows(prs[i].files, dir))
  {
    if prs != [] {
      var n := |prs| - 1;
      var init := prs[..n];
      LinesByPrIsSelection(init, dir);
      var r0, i0 := LinesByPr(init, dir), TouchedIndices(init, dir);
      var r, idx := LinesByPr(prs, dir), TouchedIndices(prs, dir);
      var rows := DiffRows(prs[n].files, dir);
      if rows != [] {
        assert r == r0 + [PrLines(prs[n].url, rows)] && idx == i0 + [n];
      } else {
        assert r == r0 && idx == i0;
      }
      forall k | 0 <= k < |idx|
        ensures r[k] == PrLines(prs[idx[k]].url, DiffRows(prs[idx[k]].files, dir))
      {
        if k < |i0| {
          assert idx[k] == i0[k] && r[k] == r0[k] && prs[i0[k]] == init[i0[k]];
        }
      }
    }
  }

  /** Pull requests with distinct URLs, as the keys of a dict are, give entries with
      distinct URLs: at most one entry per pull request. */
  lemma LinesByPrDistinct(prs: seq<PrFiles>, dir: string)
    requires DistinctUrls(prs)
    ensures var r := LinesByPr(prs, dir);
      forall j, k :: 0 <= j < k < |r| ==> r[j].url != r[k].url
  {
    LinesByPrIsSelection(prs, dir);
    var r, idx := LinesByPr(prs, dir), TouchedIndices(prs, dir);
    forall j, k | 0 <= j < k < |r|
      ensures r[j].url != r[k].url
    {
      assert r[j].url == prs[idx[j]].url && r[k].url == prs[idx[k]].url;
    }
  }

  // ---------------------------------------------------------------------------
  // Properties

  /** The matched rows are exactly the files at the matching positions, in order. */
  lemma {:induction false} MatchedRowsAreSelection(files: seq<FileChange>, dir: string)
    ensures |MatchedRows(files, dir)| == |MatchIndices(files, dir)|
    ensures forall k :: 0 <= k < |MatchIndices(files, dir)| ==>
      MatchedRows(files, dir)[k] == AsRow(files[MatchIndices(files, dir)[k]])
  {
    if files != [] {
      var n := |files| - 1;
      var init := files[..n];
      MatchedRowsAreSelection(init, dir);
      var m0, i0 := MatchedRows(init, dir), MatchIndices(init, dir);
      var m, idx := MatchedRows(files, dir), MatchIndices(files, dir);
      if InProject(files[n], dir) {
        assert m == m0 + [AsRow(files[n])] && idx == i0 + [n];
      } else {
        assert m == m0 && idx == i0;
      }
      forall k | 0 <= k < |idx|
        ensures m[k] == AsRow(files[idx[k]])
      {
        if k < |i0| {
          assert idx[k] == i0[k] && m[k] == m0[k] && files[i0[k]] == init[i0[k]];
        }
      }
    }
  }

  lemma {:induction false} MatchedRowsAppend(a: seq<FileChange>, b: seq<FileChange>, dir: string)
    ensures MatchedRows(a + b, dir) == MatchedRows(a, dir) + MatchedRows(b, dir)
    decreases |b|
  {
    if b == [] {
      assert a + b == a;
    } else {
      var n := |b| - 1;
      assert (a + b)[..|a + b| - 1] == a + b[..n];
      MatchedRowsAppend(a, b[..n], dir);
    }
  }

  lemma {:induction false} SumsAppend(a: Lines, b: Lines)
    ensures SumAdditions(a + b) == SumAdditions(a) + SumAdditions(b)
    ensures SumDeletions(a + b) == SumDeletions(a) + SumDeletions(b)
    decreases |b|
  {
    if b == [] {
      assert a + b == a;
    } else {
      var n := |b| - 1;
      assert (a + b)[..|a + b| - 1] == a + b[..n];
      SumsAppend(a, b[..n]);
    }
  }

  /** A file outside the project directory, wherever it sits in the list, changes
      neither the rows nor the total. */
  lemma OutsideFileIgnored(a: seq<FileChange>, f: FileChange, b: seq<FileChange>, dir: string)
    requires !InProject(f, dir)
    ensures DiffRows(a + [f] + b, dir) == DiffRows(a + b, dir)
  {
    MatchedRowsAppend(a + [f], b, dir);
    MatchedRowsAppend(a, [f], dir);
    MatchedRowsAppend(a, b, dir);
    assert [f][..0] == [];
    assert MatchedRows([f], dir) == [];
    assert MatchedRows(a + [f] + b, dir) == MatchedRows(a + b, dir);
  }

  /** The total row counts the matched files and nothing else. */
  lemma {:induction false} TotalCountsMatchedFiles(a: seq<FileChange>, b: seq<FileChange>, dir: string)
    requires MatchedRows(a + b, dir) != []
    ensures var rows := DiffRows(a + b, dir);
      rows[|rows| - 1].additions == SumAdditions(MatchedRows(a, dir)) + SumAdditions(MatchedRows(b, dir))
      && rows[|rows| - 1].deletions == SumDeletions(MatchedRows(a, dir)) + SumDeletions(MatchedRows(b, dir))
  {
    MatchedRowsAppend(a, b, dir);
    SumsAppend(MatchedRows(a, dir), MatchedRows(b, dir));
  }

  /** A pull request that touches nothing under the directory has no key in the result. */
  lemma UntouchedPrHasNoEntry(prs: seq<PrFiles>, dir: string, i: nat)
    requires DistinctUrls(prs)
    requires i < |prs| && DiffRows(prs[i].files, dir) == []
    ensures forall k :: 0 <= k < |LinesByPr(prs, dir)| ==> LinesByPr(prs, dir)[k].url != prs[i].url
  {
    var r := LinesByPr(prs, dir);
    LinesByPrSound(prs, dir);
    forall k | 0 <= k < |r|
      ensures r[k].url != prs[i].url
    {
      var j :| 0 <= j < |prs| && r[k] == PrLines(prs[j].url, DiffRows(prs[j].files, dir));
      assert j != i;
    }
  }

  // ---------------------------------------------------------------------------
  // The loops of `get_lines`

  /** The inner loop of `get_lines` for one pull request's files. */
  method CollectRows(files: seq<FileChange>, dir: string) returns (lines: Lines)
    ensures lines == DiffRows(files, dir)
  {
    var nFiles, totalAdditions, totalDeletions := 0, 0, 0;
    lines := [];
    var i := 0;
    while i < |files|
      invariant 0 <= i <= |files|
      invariant lines == MatchedRows(files[..i], dir)
      invariant nFiles == |lines|
      invariant totalAdditions == SumAdditions(lines) && totalDeletions == SumDeletions(lines)
    {
      var file := files[i];
      assert files[..i + 1][..i] == files[..i];
      if StartsWith(file.filename, dir) {
        var additions, deletions := file.additions, file.deletions;
        totalAdditions := totalAdditions + additions;
        totalDeletions := totalDeletions + deletions;
        lines := lines + [Row(file.filename, additions, deletions)];
        assert lines[..|lines| - 1] == MatchedRows(files[..i], dir);
        nFiles := nFiles + 1;
      }
      i := i + 1;
    }
    assert files[..i] == files;
    if nFiles > 0 {
      lines := lines + [Row(TotalName, totalAdditions, totalDeletions)];
    }
  }

  /** `get_lines`: the outer loop over the pull requests. */
  method GetLines(prs: seq<PrFiles>, dir: string) returns (r: seq<PrLines>)
    ensures r == LinesByPr(prs, dir)
  {
    r := [];
    var i := 0;
    while i < |prs|
      invariant 0 <= i <= |prs|
      invariant r == LinesByPr(prs[..i], dir)
    {
      assert prs[..i + 1][..i] == prs[..i];
      var rows := CollectRows(prs[i].files, dir);
      if rows != [] {
        r := r + [PrLines(prs[i].url, rows)];
      }
      i := i + 1;
    }
    assert prs[..i] == prs;
  }
}
