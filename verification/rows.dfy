/**
  The file table as a sequence of rows, and the table operations that only
  shuffle rows and paths: which paths a "Normalize" button hands over,
  the master check box, removing the checked rows, and the list of files a
  batch processes.
*/
module Rows {

  /**
    One row of the file table: the path stored in its file-name cell (empty
    when the row has none), its check box, whether the current filter hides
    it, and its "convert to mono" box.
  */
  datatype Row = Row(path: string, checked: bool, hidden: bool, mono: bool)

  /** Whether `get_selected_filepaths(only_checked)` lists the row's path. */
  predicate Listed(row: Row, onlyChecked: bool) {
    row.path != [] && (!onlyChecked || row.checked)
  }

  /** Some row listed under `onlyChecked` has path `p`. */
  predicate PathListed(rows: seq<Row>, onlyChecked: bool, p: string) {
    exists i :: 0 <= i < |rows| && Listed(rows[i], onlyChecked) && rows[i].path == p
  }

  /**
    `get_selected_filepaths`: the paths of the rows that have one (and, with
    `onlyChecked`, are ticked), in table order.
  */
  function SelectedFilepaths(rows: seq<Row>, onlyChecked: bool): (r: seq<string>)
    ensures |r| <= |rows|
    ensures forall i :: 0 <= i < |rows| && Listed(rows[i], onlyChecked) ==> rows[i].path in r
    ensures forall k :: 0 <= k < |r| ==> PathListed(rows, onlyChecked, r[k])
  {
    if rows == [] then []
    else
      var rest := SelectedFilepaths(rows[1..], onlyChecked);
      var head := if Listed(rows[0], onlyChecked) then [rows[0].path] else [];
      var r := head + rest;
      forall k | 0 <= k < |r|
        ensures PathListed(rows, onlyChecked, r[k])
      {
        if k < |head| {
          assert r[k] == rows[0].path && Listed(rows[0], onlyChecked);
        } else {
          assert r[k] == rest[k - |head|];
          assert PathListed(rows[1..], onlyChecked, rest[k - |head|]);
          var i :| 0 <= i < |rows[1..]| && Listed(rows[1..][i], onlyChecked) && rows[1..][i].path == rest[k - |head|];
          assert rows[i + 1] == rows[1..][i];
          assert Listed(rows[i + 1], onlyChecked) && rows[i + 1].path == r[k];
        }
      }
      forall i | 0 <= i < |rows| && Listed(rows[i], onlyChecked)
        ensures rows[i].path in r
      {
        if i == 0 {
          assert r[0] == rows[0].path;
        } else {
          assert rows[i] == rows[1..][i - 1];
          assert rows[i].path in rest;
        }
      }
      r
  }

  /** Selection works row by row, so it keeps the table's order. */
  lemma {:induction false} SelectedFilepathsAppend(a: seq<Row>, b: seq<Row>, onlyChecked: bool)
    ensures SelectedFilepaths(a + b, onlyChecked)
            == SelectedFilepaths(a, onlyChecked) + SelectedFilepaths(b, onlyChecked)
    decreases |a|
  {
    if a != [] {
      assert (a + b)[0] == a[0];
      assert (a + b)[1..] == a[1..] + b;
      SelectedFilepathsAppend(a[1..], b, onlyChecked);
      SelectedFilepathsCons(a + b, onlyChecked);
      SelectedFilepathsCons(a, onlyChecked);
      var head := if Listed(a[0], onlyChecked) then [a[0].path] else [];
      ConcatAssociative(head, SelectedFilepaths(a[1..], onlyChecked), SelectedFilepaths(b, onlyChecked));
    } else {
      assert a + b == b;
    }
  }

  /**
    `toggle_all_checkboxes`: hidden rows are unticked, visible rows take the
    master box's state; nothing else about a row changes.
  */
  function ToggleAll(rows: seq<Row>, master: bool): (r: seq<Row>)
    ensures |r| == |rows|
    ensures forall i :: 0 <= i < |rows| ==> r[i] == rows[i].(checked := r[i].checked)
    ensures forall i :: 0 <= i < |rows| ==> (r[i].checked <==> master && !rows[i].hidden)
  {
    seq(|rows|, i requires 0 <= i < |rows| => rows[i].(checked := master && !rows[i].hidden))
  }

  /** The rows no filter hides. */
  function Visible(rows: seq<Row>): (r: seq<Row>)
    ensures |r| <= |rows|
    ensures forall row :: row in r <==> row in rows && !row.hidden
  {
    if rows == [] then []
    else (if rows[0].hidden then [] else [rows[0]]) + Visible(rows[1..])
  }

  /** After unticking the master box, "Normalize Selected" hands over nothing. */
  lemma {:induction false} UntickAllSelectsNothing(rows: seq<Row>)
    ensures SelectedFilepaths(ToggleAll(rows, false), true) == []
    decreases |rows|
  {
    if rows != [] {
      assert ToggleAll(rows, false)[1..] == ToggleAll(rows[1..], false);
      UntickAllSelectsNothing(rows[1..]);
    }
  }

  /**
    After ticking the master box, "Normalize Selected" hands over exactly the
    paths of the visible rows, in table order.
  */
  lemma {:induction false} TickAllSelectsVisible(rows: seq<Row>)
    ensures SelectedFilepaths(ToggleAll(rows, true), true) == SelectedFilepaths(Visible(rows), false)
    decreases |rows|
  {
    if rows != [] {
      assert ToggleAll(rows, true)[1..] == ToggleAll(rows[1..], true);
      TickAllSelectsVisible(rows[1..]);
      var head := if rows[0].hidden then [] else [rows[0]];
      SelectedFilepathsAppend(head, Visible(rows[1..]), false);
      assert head != [] ==> head[1..] == [];
    }
  }

  /** The rows whose box is not ticked, in table order. */
  function Unchecked(rows: seq<Row>): (r: seq<Row>)
    ensures |r| <= |rows|
    ensures forall row :: row in r <==> row in rows && !row.checked
  {
    if rows == [] then []
    else (if rows[0].checked then [] else [rows[0]]) + Unchecked(rows[1..])
  }

  lemma {:induction false} UncheckedAppend(a: seq<Row>, b: seq<Row>)
    ensures Unchecked(a + b) == Unchecked(a) + Unchecked(b)
    decreases |a|
  {
    if a != [] {
      assert (a + b)[1..] == a[1..] + b;
      UncheckedAppend(a[1..], b);
    } else {
      assert a + b == b;
    }
  }

  /** Paths of the ticked rows. */
  function CheckedPaths(rows: seq<Row>): set<string> {
    set i | 0 <= i < |rows| && rows[i].checked :: rows[i].path
  }

  predicate StrictlyIncreasing(s: seq<nat>) {
    forall a, b :: 0 <= a < b < |s| ==> s[a] < s[b]
  }

  /** Paths of the rows at the given indices. */
  function PathsAt(rows: seq<Row>, idx: seq<nat>): set<string>
    requires forall k :: 0 <= k < |idx| ==> idx[k] < |rows|
  {
    set k | 0 <= k < |idx| :: rows[idx[k]].path
  }

  /** A row that is not ticked survives filtering unchanged. */
  lemma {:induction false} UncheckedOfUnticked(rows: seq<Row>)
    requires forall i :: 0 <= i < |rows| ==> !rows[i].checked
    ensures Unchecked(rows) == rows
    decreases |rows|
  {
    if rows != [] {
      UncheckedOfUnticked(rows[1..]);
    }
  }

  /**
    One step of the removal loop: removing row `p` of a table whose rows from
    `p` on are the filtered original rows from `b` on extends the filtered
    part down to `p`, provided `p` was ticked and the rows between were not.
  */
  lemma RemoveStep(rows: seq<Row>, p: nat, b: nat)
    requires p < b <= |rows|
    requires rows[p].checked
    requires forall j :: p < j < b ==> !rows[j].checked
    ensures Unchecked(rows[p + 1..b] + rows[b..]) == Unchecked(rows[p..])
  {
    var from := rows[p..];
    assert from[0] == rows[p];
    assert from[1..] == rows[p + 1..];
    assert Unchecked(from) == Unchecked(rows[p + 1..]);
    assert rows[p + 1..b] + rows[b..] == rows[p + 1..];
  }

  /** Facts about the list of ticked row indices the removal walks backwards. */
  predicate IndicesOfChecked(rows: seq<Row>, idx: seq<nat>) {
    && StrictlyIncreasing(idx)
    && (forall k :: 0 <= k < |idx| ==> idx[k] < |rows| && rows[idx[k]].checked)
    && (forall j :: 0 <= j < |rows| && rows[j].checked ==> j in idx)
  }

  /** First loop of `remove_selected_files`: the indices of ticked rows, ascending. */
  method CheckedIndices(rows: seq<Row>) returns (idx: seq<nat>)
    ensures IndicesOfChecked(rows, idx)
  {
    idx := [];
    var i := 0;
    while i < |rows|
      invariant i <= |rows|
      invariant StrictlyIncreasing(idx)
      invariant forall k :: 0 <= k < |idx| ==> idx[k] < i && rows[idx[k]].checked
      invariant forall j :: 0 <= j < i && rows[j].checked ==> j in idx
    {
      if rows[i].checked {
        idx := idx + [i];
      }
      i := i + 1;
    }
  }

  /** Where the untouched prefix ends once `idx[k..]` has been removed. */
  function Bound(rows: seq<Row>, idx: seq<nat>, k: nat): (b: nat)
    requires IndicesOfChecked(rows, idx) && k <= |idx|
    ensures b <= |rows|
  {
    if k < |idx| then idx[k] else |rows|
  }

  /** No ticked row lies strictly between two neighbouring ticked indices. */
  lemma NoCheckedBetween(rows: seq<Row>, idx: seq<nat>, k: nat)
    requires IndicesOfChecked(rows, idx) && k < |idx|
    ensures idx[k] < Bound(rows, idx, k + 1)
    ensures forall j :: idx[k] < j < Bound(rows, idx, k + 1) ==> !rows[j].checked
  {
    forall j | idx[k] < j < Bound(rows, idx, k + 1) ensures !rows[j].checked {
      forall m | 0 <= m < |idx| ensures idx[m] != j {
        assert m <= k ==> idx[m] <= idx[k];
        assert m > k ==> idx[k + 1] <= idx[m];
      }
    }
  }

  /**
    Removing row `idx[k]` from the table in which the rows `idx[k + 1..]`
    are already gone extends the filtered part down to `idx[k]`.
  */
  lemma RemovalStep(rows: seq<Row>, idx: seq<nat>, k: nat, kept: seq<Row>)
    requires IndicesOfChecked(rows, idx) && k < |idx|
    requires kept == rows[..Bound(rows, idx, k + 1)] + Unchecked(rows[Bound(rows, idx, k + 1)..])
    ensures idx[k] < |kept| && kept[idx[k]] == rows[idx[k]]
    ensures kept[..idx[k]] + kept[idx[k] + 1..] == rows[..Bound(rows, idx, k)] + Unchecked(rows[Bound(rows, idx, k)..])
  {
    NoCheckedBetween(rows, idx, k);
    RemoveRow(rows, idx[k], Bound(rows, idx, k + 1), kept);
  }

  lemma RemoveRow(rows: seq<Row>, p: nat, b: nat, kept: seq<Row>)
    requires p < b <= |rows|
    requires rows[p].checked
    requires forall j :: p < j < b ==> !rows[j].checked
    requires kept == rows[..b] + Unchecked(rows[b..])
    ensures p < |kept| && kept[p] == rows[p]
    ensures kept[..p] + kept[p + 1..] == rows[..p] + Unchecked(rows[p..])
  {
    KeptAround(rows, p, b, kept);
    UntickedRun(rows, p, b);
  }

  /** The table with the filtered tail, seen around row `p`. */
  lemma KeptAround(rows: seq<Row>, p: nat, b: nat, kept: seq<Row>)
    requires p < b <= |rows|
    requires kept == rows[..b] + Unchecked(rows[b..])
    ensures p < |kept| && kept[p] == rows[p]
    ensures kept[..p] == rows[..p]
    ensures kept[p + 1..] == rows[p + 1..b] + Unchecked(rows[b..])
  {
    assert rows[..b] == rows[..p] + [rows[p]] + rows[p + 1..b];
  }

  /** Filtering from a ticked row `p` over unticked rows up to `b`. */
  lemma UntickedRun(rows: seq<Row>, p: nat, b: nat)
    requires p < b <= |rows|
    requires rows[p].checked
    requires forall j :: p < j < b ==> !rows[j].checked
    ensures rows[p + 1..b] + Unchecked(rows[b..]) == Unchecked(rows[p..])
  {
    var run := rows[p + 1..b];
    assert forall i :: 0 <= i < |run| ==> run[i] == rows[p + 1 + i];
    UncheckedOfUnticked(run);
    UncheckedAppend(run, rows[b..]);
    RemoveStep(rows, p, b);
  }

  lemma PathsAtStep(rows: seq<Row>, idx: seq<nat>, k: nat)
    requires IndicesOfChecked(rows, idx) && k < |idx|
    ensures PathsAt(rows, idx[k..]) == {rows[idx[k]].path} + PathsAt(rows, idx[k + 1..])
  {
    assert idx[k..] == [idx[k]] + idx[k + 1..];
    forall p | p in PathsAt(rows, idx[k..]) ensures p in {rows[idx[k]].path} + PathsAt(rows, idx[k + 1..]) {
      var m :| 0 <= m < |idx[k..]| && idx[k..][m] < |rows| && rows[idx[k..][m]].path == p;
      if m > 0 {
        assert idx[k..][m] == idx[k + 1..][m - 1];
      }
    }
    forall p | p in PathsAt(rows, idx[k + 1..]) ensures p in PathsAt(rows, idx[k..]) {
      var m :| 0 <= m < |idx[k + 1..]| && idx[k + 1..][m] < |rows| && rows[idx[k + 1..][m]].path == p;
      assert idx[k + 1..][m] == idx[k..][m + 1];
    }
  }

  /** No ticked row comes before the first ticked index. */
  lemma NoCheckedBefore(rows: seq<Row>, idx: seq<nat>)
    requires IndicesOfChecked(rows, idx)
    ensures forall j :: 0 <= j < Bound(rows, idx, 0) ==> !rows[j].checked
  {
    forall j | 0 <= j < Bound(rows, idx, 0) ensures !rows[j].checked {
      forall m | 0 <= m < |idx| ensures idx[m] != j {
        assert idx[0] <= idx[m];
      }
    }
  }

  /** With every ticked row removed, the table is the unticked rows. */
  lemma RemovalDone(rows: seq<Row>, idx: seq<nat>)
    requires IndicesOfChecked(rows, idx)
    ensures rows[..Bound(rows, idx, 0)] + Unchecked(rows[Bound(rows, idx, 0)..]) == Unchecked(rows)
  {
    NoCheckedBefore(rows, idx);
    UntickedPrefix(rows, Bound(rows, idx, 0));
  }

  lemma UntickedPrefix(rows: seq<Row>, b: nat)
    requires b <= |rows|
    requires forall j :: 0 <= j < b ==> !rows[j].checked
    ensures rows[..b] + Unchecked(rows[b..]) == Unchecked(rows)
  {
    UntickedPrefixKept(rows, b);
    SplitAt(rows, b);
    UncheckedAppend(rows[..b], rows[b..]);
  }

  lemma UntickedPrefixKept(rows: seq<Row>, b: nat)
    requires b <= |rows|
    requires forall j :: 0 <= j < b ==> !rows[j].checked
    ensures Unchecked(rows[..b]) == rows[..b]
  {
    var prefix := rows[..b];
    assert forall i :: 0 <= i < |prefix| ==> prefix[i] == rows[i];
    UncheckedOfUnticked(prefix);
  }

  lemma SplitAt(rows: seq<Row>, b: nat)
    requires b <= |rows|
    ensures rows[..b] + rows[b..] == rows
  {
  }

  /** The removed paths are exactly the paths of ticked rows. */
  lemma RemovedPaths(rows: seq<Row>, idx: seq<nat>)
    requires IndicesOfChecked(rows, idx)
    ensures PathsAt(rows, idx) == CheckedPaths(rows)
  {
    forall p | p in CheckedPaths(rows) ensures p in PathsAt(rows, idx) {
      var j :| 0 <= j < |rows| && rows[j].checked && rows[j].path == p;
      var m :| 0 <= m < |idx| && idx[m] == j;
    }
  }

  /**
    `remove_selected_files`: collects the ticked rows, then removes them from
    the last to the first, dropping each removed row's path from the
    measured loudness values. The remaining rows are the unticked ones in
    their order, and exactly the paths of ticked rows lose their value.
  */
  method RemoveSelected(rows: seq<Row>, lufs: map<string, real>)
    returns (kept: seq<Row>, lufs': map<string, real>)
    ensures kept == Unchecked(rows)
    ensures lufs'.Keys == lufs.Keys - CheckedPaths(rows)
    ensures forall p :: p in lufs' ==> lufs'[p] == lufs[p]
  {
    var toRemove := CheckedIndices(rows);
    kept := rows;
    lufs' := lufs;
    var k := |toRemove|;
    while k > 0
      invariant 0 <= k <= |toRemove|
      invariant RemovedFrom(rows, toRemove, k, kept, lufs, lufs')
    {
      k := k - 1;
      var row := toRemove[k];
      RemovalKeepsInvariant(rows, toRemove, k, kept, lufs, lufs');
      lufs' := lufs' - {kept[row].path};
      kept := kept[..row] + kept[row + 1..];
    }
    RemovalDone(rows, toRemove);
    RemovedPaths(rows, toRemove);
  }

  /**
    The state of `remove_selected_files` once the ticked rows `idx[k..]`
    are gone: those rows are filtered out and their paths have lost their
    measured values, which are otherwise untouched.
  */
  predicate RemovedFrom(rows: seq<Row>, idx: seq<nat>, k: nat, kept: seq<Row>,
                        lufs: map<string, real>, lufs': map<string, real>)
    requires IndicesOfChecked(rows, idx) && k <= |idx|
  {
    && kept == rows[..Bound(rows, idx, k)] + Unchecked(rows[Bound(rows, idx, k)..])
    && lufs'.Keys == lufs.Keys - PathsAt(rows, idx[k..])
    && (forall p :: p in lufs' ==> lufs'[p] == lufs[p])
  }

  /** Removing the ticked row `idx[k]` extends the state by that row. */
  lemma RemovalKeepsInvariant(rows: seq<Row>, idx: seq<nat>, k: nat, kept: seq<Row>,
                              lufs: map<string, real>, lufs': map<string, real>)
    requires IndicesOfChecked(rows, idx) && k < |idx|
    requires RemovedFrom(rows, idx, k + 1, kept, lufs, lufs')
    ensures idx[k] < |kept| && kept[idx[k]].path == rows[idx[k]].path
    ensures RemovedFrom(rows, idx, k, kept[..idx[k]] + kept[idx[k] + 1..], lufs, lufs' - {kept[idx[k]].path})
  {
    RemovalStep(rows, idx, k, kept);
    PathsAtStep(rows, idx, k);
  }

  /** One entry of `files_to_process`: a path and its row's mono setting. */
  datatype Job = Job(path: string, mono: bool)

  /**
    The building of `files_to_process` in `normalize_files`: every row whose
    path is among the requested ones, in table order, with that row's mono
    setting.
  */
  function FilesToProcess(rows: seq<Row>, filepaths: seq<string>): (r: seq<Job>)
    ensures |r| <= |rows|
    ensures forall i :: 0 <= i < |rows| && rows[i].path != [] && rows[i].path in filepaths
              ==> Job(rows[i].path, rows[i].mono) in r
    ensures forall k :: 0 <= k < |r| ==>
              && r[k].path != [] && r[k].path in filepaths
              && exists i :: 0 <= i < |rows| && r[k] == Job(rows[i].path, rows[i].mono)
  {
    if rows == [] then []
    else
      var row := rows[0];
      var rest := FilesToProcess(rows[1..], filepaths);
      assert forall i :: 1 <= i < |rows| ==> rows[i] == rows[1..][i - 1];
      (if row.path != [] && row.path in filepaths then [Job(row.path, row.mono)] else []) + rest
  }

  /** `files_to_process` follows the table's order. */
  lemma {:induction false} FilesToProcessAppend(a: seq<Row>, b: seq<Row>, filepaths: seq<string>)
    ensures FilesToProcess(a + b, filepaths) == FilesToProcess(a, filepaths) + FilesToProcess(b, filepaths)
    decreases |a|
  {
    if a != [] {
      assert (a + b)[0] == a[0];
      assert (a + b)[1..] == a[1..] + b;
      FilesToProcessAppend(a[1..], b, filepaths);
      var head := if a[0].path != [] && a[0].path in filepaths then [Job(a[0].path, a[0].mono)] else [];
      assert FilesToProcess(a + b, filepaths) == head + FilesToProcess(a[1..] + b, filepaths);
      assert FilesToProcess(a, filepaths) == head + FilesToProcess(a[1..], filepaths);
      ConcatAssociative(head, FilesToProcess(a[1..], filepaths), FilesToProcess(b, filepaths));
    } else {
      assert a + b == b;
    }
  }

  lemma ConcatAssociative<T>(x: seq<T>, y: seq<T>, z: seq<T>)
    ensures x + (y + z) == (x + y) + z
  {
  }

  /** Some row listed under `onlyChecked` would be processed as job `j`. */
  predicate JobListed(rows: seq<Row>, onlyChecked: bool, j: Job) {
    exists i :: 0 <= i < |rows| && Listed(rows[i], onlyChecked) && j == Job(rows[i].path, rows[i].mono)
  }

  /** The jobs of the rows a button meant: exactly the listed rows, in order. */
  function SelectedJobs(rows: seq<Row>, onlyChecked: bool): (r: seq<Job>)
    ensures |r| <= |rows|
    ensures forall k :: 0 <= k < |r| ==> JobListed(rows, onlyChecked, r[k])
  {
    if rows == [] then []
    else
      var rest := SelectedJobs(rows[1..], onlyChecked);
      var head := if Listed(rows[0], onlyChecked) then [Job(rows[0].path, rows[0].mono)] else [];
      var r := head + rest;
      forall k | 0 <= k < |r|
        ensures JobListed(rows, onlyChecked, r[k])
      {
        if k < |head| {
          assert r[k] == Job(rows[0].path, rows[0].mono) && Listed(rows[0], onlyChecked);
        } else {
          assert r[k] == rest[k - |head|];
          assert JobListed(rows[1..], onlyChecked, rest[k - |head|]);
          var i :| 0 <= i < |rows[1..]| && Listed(rows[1..][i], onlyChecked)
                   && rest[k - |head|] == Job(rows[1..][i].path, rows[1..][i].mono);
          assert rows[i + 1] == rows[1..][i];
          assert Listed(rows[i + 1], onlyChecked) && r[k] == Job(rows[i + 1].path, rows[i + 1].mono);
        }
      }
      r
  }

  /** Every listed row has its job among the selected jobs. */
  lemma {:induction false} SelectedJobsComplete(rows: seq<Row>, onlyChecked: bool, i: nat)
    requires i < |rows| && Listed(rows[i], onlyChecked)
    ensures Job(rows[i].path, rows[i].mono) in SelectedJobs(rows, onlyChecked)
    decreases i
  {
    if i > 0 {
      SelectedJobsComplete(rows[1..], onlyChecked, i - 1);
    }
  }

  /**
    The corrected job list answers the request one to one: job `k` is for
    the `k`-th path the button handed over, with that row's mono setting.
  */
  lemma {:induction false} SelectedJobsMatchRequest(rows: seq<Row>, onlyChecked: bool)
    ensures JobPaths(SelectedJobs(rows, onlyChecked)) == SelectedFilepaths(rows, onlyChecked)
    decreases |rows|
  {
    if rows != [] {
      SelectedJobsMatchRequest(rows[1..], onlyChecked);
      SelectedJobsCons(rows, onlyChecked);
      SelectedFilepathsCons(rows, onlyChecked);
      var head := if Listed(rows[0], onlyChecked) then [Job(rows[0].path, rows[0].mono)] else [];
      JobPathsAppend(head, SelectedJobs(rows[1..], onlyChecked));
      assert JobPaths(head) == if Listed(rows[0], onlyChecked) then [rows[0].path] else [];
    }
  }

  /** The path of every job, in job order. */
  function JobPaths(jobs: seq<Job>): (r: seq<string>)
    ensures |r| == |jobs|
    ensures forall k :: 0 <= k < |jobs| ==> r[k] == jobs[k].path
  {
    seq(|jobs|, k requires 0 <= k < |jobs| => jobs[k].path)
  }

  lemma JobPathsAppend(a: seq<Job>, b: seq<Job>)
    ensures JobPaths(a + b) == JobPaths(a) + JobPaths(b)
  {
  }

  /** The first row contributes its job, if listed, ahead of the others'. */
  lemma SelectedJobsCons(rows: seq<Row>, onlyChecked: bool)
    requires rows != []
    ensures SelectedJobs(rows, onlyChecked)
            == (if Listed(rows[0], onlyChecked) then [Job(rows[0].path, rows[0].mono)] else [])
               + SelectedJobs(rows[1..], onlyChecked)
  {
  }

  /** The first row contributes its path, if listed, ahead of the others'. */
  lemma SelectedFilepathsCons(rows: seq<Row>, onlyChecked: bool)
    requires rows != []
    ensures SelectedFilepaths(rows, onlyChecked)
            == (if Listed(rows[0], onlyChecked) then [rows[0].path] else [])
               + SelectedFilepaths(rows[1..], onlyChecked)
  {
  }

  /** All paths in the table are different. */
  predicate DistinctPaths(rows: seq<Row>) {
    forall i, j :: 0 <= i < j < |rows| && rows[i].path != [] ==> rows[i].path != rows[j].path
  }

  /**
    When no path is in the table twice, re-matching the selected paths
    against the table yields exactly the jobs of the selected rows.
  */
  lemma {:induction false} FilesToProcessOfSelection(rows: seq<Row>, onlyChecked: bool, sel: seq<string>)
    requires DistinctPaths(rows)
    requires forall p :: p in sel <==> PathListed(rows, onlyChecked, p)
    ensures FilesToProcess(rows, sel) == SelectedJobs(rows, onlyChecked)
    decreases |rows|
  {
    if rows != [] {
      var tail := rows[1..];
      assert forall i :: 1 <= i < |rows| ==> rows[i] == tail[i - 1];
      var sel' := SelectedFilepaths(tail, onlyChecked);
      assert forall p :: p in sel' <==> exists i :: 0 <= i < |tail| && Listed(tail[i], onlyChecked) && tail[i].path == p by {
        forall p ensures p in sel' <==> exists i :: 0 <= i < |tail| && Listed(tail[i], onlyChecked) && tail[i].path == p {
          if p in sel' {
            var k :| 0 <= k < |sel'| && sel'[k] == p;
          }
        }
      }
      FilesToProcessOfSelection(tail, onlyChecked, sel');
      assert FilesToProcess(tail, sel) == FilesToProcess(tail, sel') by {
        FilesToProcessSamePaths(tail, sel, sel');
      }
      assert rows[0].path != [] ==> (rows[0].path in sel <==> Listed(rows[0], onlyChecked));
    }
  }

  /** Only the requested paths that occur in the rows matter. */
  lemma {:induction false} FilesToProcessSamePaths(rows: seq<Row>, s1: seq<string>, s2: seq<string>)
    requires forall i :: 0 <= i < |rows| && rows[i].path != [] ==> (rows[i].path in s1 <==> rows[i].path in s2)
    ensures FilesToProcess(rows, s1) == FilesToProcess(rows, s2)
    decreases |rows|
  {
    if rows != [] {
      assert forall i :: 1 <= i < |rows| ==> rows[i] == rows[1..][i - 1];
      FilesToProcessSamePaths(rows[1..], s1, s2);
    }
  }

  /**
    The table does not keep paths unique. When a file sits in two rows, one
    ticked and one not, "Normalize Selected" hands over the path once but
    the batch processes both rows. The unticked row's mono setting is
    processed last, and its output overwrites the ticked row's output.
  */
  lemma DuplicateUntickedRowIsProcessed(p: string)
    requires p != []
    ensures var rows := [Row(p, true, false, false), Row(p, false, false, true)];
            && SelectedFilepaths(rows, true) == [p]
            && FilesToProcess(rows, SelectedFilepaths(rows, true)) == [Job(p, false), Job(p, true)]
            && SelectedJobs(rows, true) == [Job(p, false)]
  {
    var rows := [Row(p, true, false, false), Row(p, false, false, true)];
    assert rows[1..][1..] == [];
    assert SelectedFilepaths(rows[1..], true) == [];
  }
}
