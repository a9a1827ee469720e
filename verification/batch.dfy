/**
  The bookkeeping of `normalize_files`: the guards that stop a batch before
  it starts, the overwrite question, the per-file steps in which any failure
  is caught and recorded while the batch goes on, and the summary lists that
  show at most five entries.

  The file system is a set of existing paths. Decoding, measuring and
  exporting are done by libraries, so their behaviour is given by `Env`:
  whether a file can be loaded and measured, what the meter reads for it,
  and what the export does.
*/
module Batch {
  import opened Text
  import opened Paths
  import opened Presets
  import opened Output
  import opened Refinement
  import opened Rows

  /**
    The settings read from the main window. The target is read once, when
    the batch starts; the other fields are read again by every call of
    `get_output_filename`.
  */
  datatype Settings = Settings(
    target: int,
    suffixText: string,
    table: Table,
    useOverride: bool,
    folder: string)

  /** What an export call does: raise, write the file, or return without writing. */
  datatype ExportEffect = Raises | Writes | WritesNothing

  /**
    The behaviour of the audio libraries. `measurable` says whether a file
    gets through everything from `AudioSegment.from_file` to the last meter
    reading without an exception (pyloudnorm raises, for one, on audio
    shorter than its 400 ms gating block); `meter` is what the meter then
    reads; `exporter` is what `seg.export` does at a path.
  */
  datatype Env = Env(
    measurable: string -> bool,
    meter: (string, bool) -> Meter,
    exporter: string -> ExportEffect)

  /** The exceptions a file can fail with; their message texts are not modelled. */
  datatype FileError =
    | InputNotFound(path: string)
    | MeasureFailed
    | InvalidOutputPath
    | ExportFailed(out: string)
    | OutputNotCreated(out: string)

  /** One entry of `failed_files`: the input's base name and what went wrong. */
  datatype Failure = Failure(name: string, error: FileError)

  datatype FileResult = Done(out: string, refinement: Outcome) | Failed(error: FileError)

  /** A file's result and the file system after it. */
  datatype Step = Step(result: FileResult, fs: set<string>)

  /** The path a job is written to: `get_output_filename` of its input. */
  function OutPath(s: Settings, job: Job): string {
    OutputFilename(job.path, s.suffixText, s.table, s.useOverride, s.folder)
  }

  /** The output path of every job, in job order. */
  function OutPaths(s: Settings, jobs: seq<Job>): (r: seq<string>)
    ensures |r| == |jobs|
  {
    seq(|jobs|, i requires 0 <= i < |jobs| => OutPath(s, jobs[i]))
  }

  /**
    The path each job is exported to. The window keeps handling events
    between files, so the suffix, the presets and the override folder may
    have changed since the batch started: `during(k)` holds the settings as
    they are when job `k` reaches its export.
  */
  function ExportPaths(during: nat -> Settings, jobs: seq<Job>): (r: seq<string>)
    ensures |r| == |jobs|
  {
    seq(|jobs|, i requires 0 <= i < |jobs| => OutPath(during(i), jobs[i]))
  }

  /** The override folder is not left empty while it is enabled, at any of the first `n` exports. */
  predicate FolderKept(during: nat -> Settings, n: nat) {
    forall k: nat :: k < n ==> !(during(k).useOverride && during(k).folder == [])
  }

  /** Settings left alone during the batch give the paths the overwrite check saw. */
  lemma UnchangedSettings(s: Settings, during: nat -> Settings, jobs: seq<Job>)
    requires forall k: nat :: k < |jobs| ==> during(k) == s
    ensures ExportPaths(during, jobs) == OutPaths(s, jobs)
    ensures !(s.useOverride && s.folder == []) ==> FolderKept(during, |jobs|)
  {
  }

  /** The sentinel, and an empty path, are not places to write to. */
  predicate UsableOutPath(out: string) {
    out != [] && out != NoOverrideFolder
  }

  /**
    The body of the batch loop for one file written to `out`: the input
    must exist and be measurable; it is refined; the output path must be
    usable; the export must not raise; and the output must exist afterwards,
    which it also does when an export that wrote nothing left an older file
    at that path. Only an export that writes changes the file system, by
    adding the output path.
  */
  function ProcessFile(env: Env, target: int, fs: set<string>, job: Job, out: string): (r: Step)
    ensures r.result.Done? <==>
              && job.path in fs
              && env.measurable(job.path)
              && UsableOutPath(out)
              && (env.exporter(out) == Writes || (env.exporter(out) == WritesNothing && out in fs))
    ensures r.result.Done? ==>
              && r.result.out == out
              && r.result.out in r.fs
              && r.result.refinement == Refine(env.meter(job.path, job.mono), target as real)
    ensures job.path !in fs ==> r.result == Failed(InputNotFound(job.path))
    ensures r.result == Failed(InvalidOutputPath) <==>
              job.path in fs && env.measurable(job.path) && !UsableOutPath(out)
    ensures r.fs == fs || (UsableOutPath(out) && r.fs == fs + {out})
  {
    if job.path !in fs then Step(Failed(InputNotFound(job.path)), fs)
    else if !env.measurable(job.path) then Step(Failed(MeasureFailed), fs)
    else
      var refinement := Refine(env.meter(job.path, job.mono), target as real);
      if !UsableOutPath(out) then Step(Failed(InvalidOutputPath), fs)
      else match env.exporter(out)
        case Raises => Step(Failed(ExportFailed(out)), fs)
        case WritesNothing =>
          if out in fs then Step(Done(out, refinement), fs) else Step(Failed(OutputNotCreated(out)), fs)
        case Writes => Step(Done(out, refinement), fs + {out})
  }

  /** Counters and file system while the batch runs. */
  datatype Progress = Progress(fs: set<string>, successful: nat, failed: seq<Failure>)

  /** The counters after one more file. */
  function Advance(p: Progress, job: Job, step: Step): (r: Progress)
    ensures r.fs == step.fs
    ensures step.result.Done? ==> r.successful == p.successful + 1 && r.failed == p.failed
    ensures step.result.Failed? ==>
              r.successful == p.successful && r.failed == p.failed + [Failure(Basename(job.path), step.result.error)]
  {
    match step.result
    case Done(_, _) => Progress(step.fs, p.successful + 1, p.failed)
    case Failed(e) => Progress(step.fs, p.successful, p.failed + [Failure(Basename(job.path), e)])
  }

  /**
    Reference definition of the batch loop: the state after the first `i`
    jobs, each one's failure appended to `failed` in processing order.
  */
  function RunJobs(env: Env, target: int, fs: set<string>, jobs: seq<Job>, outs: seq<string>, i: nat): (r: Progress)
    requires |outs| == |jobs| && i <= |jobs|
    ensures r.successful + |r.failed| == i
  {
    if i == 0 then Progress(fs, 0, [])
    else
      var p := RunJobs(env, target, fs, jobs, outs, i - 1);
      Advance(p, jobs[i - 1], ProcessFile(env, target, p.fs, jobs[i - 1], outs[i - 1]))
  }

  /** One more job: the state after `i` jobs is the state after `i - 1` advanced by job `i - 1`. */
  lemma RunJobsStep(env: Env, target: int, fs: set<string>, jobs: seq<Job>, outs: seq<string>, i: nat)
    requires |outs| == |jobs| && 0 < i <= |jobs|
    ensures var p := RunJobs(env, target, fs, jobs, outs, i - 1);
            RunJobs(env, target, fs, jobs, outs, i)
            == Advance(p, jobs[i - 1], ProcessFile(env, target, p.fs, jobs[i - 1], outs[i - 1]))
  {
  }

  /** Files are only ever added: the batch deletes nothing. */
  lemma {:induction false} RunJobsOnlyAdds(env: Env, target: int, fs: set<string>, jobs: seq<Job>,
                                           outs: seq<string>, i: nat)
    requires |outs| == |jobs| && i <= |jobs|
    ensures fs <= RunJobs(env, target, fs, jobs, outs, i).fs
    ensures RunJobs(env, target, fs, jobs, outs, i).fs <= fs + set k | 0 <= k < i :: outs[k]
    decreases i
  {
    if i > 0 {
      var last := i - 1;
      RunJobsOnlyAdds(env, target, fs, jobs, outs, last);
      RunJobsStep(env, target, fs, jobs, outs, i);
      var before := set k | 0 <= k < last :: outs[k];
      var after := set k | 0 <= k < i :: outs[k];
      assert before <= after;
      assert 0 <= last < i;
      assert outs[last] in after;
      var p := RunJobs(env, target, fs, jobs, outs, last);
      var step := ProcessFile(env, target, p.fs, jobs[last], outs[last]);
      assert step.fs == p.fs || step.fs == p.fs + {outs[last]};
    }
  }

  /** Each failure names a job already run, and failures keep the jobs' order. */
  predicate FailuresInJobOrder(failed: seq<Failure>, jobs: seq<Job>, i: nat, at: seq<nat>) {
    && |at| == |failed|
    && (forall k :: 0 <= k < |at| ==> at[k] < i && at[k] < |jobs| && failed[k].name == Basename(jobs[at[k]].path))
    && (forall a, b :: 0 <= a < b < |at| ==> at[a] < at[b])
  }

  lemma ExtendFailures(failed: seq<Failure>, jobs: seq<Job>, i: nat, at: seq<nat>, f: Failure)
    requires i < |jobs|
    requires FailuresInJobOrder(failed, jobs, i, at)
    requires f.name == Basename(jobs[i].path)
    ensures FailuresInJobOrder(failed + [f], jobs, i + 1, at + [i])
  {
  }

  /**
    The failures of the first `i` jobs come from distinct jobs, in the order
    the jobs were run: there is an ascending choice of job indices whose
    base names are the failure names.
  */
  lemma {:induction false} FailuresComeFromJobs(env: Env, target: int, fs: set<string>, jobs: seq<Job>,
                                                outs: seq<string>, i: nat)
    returns (at: seq<nat>)
    requires |outs| == |jobs| && i <= |jobs|
    ensures FailuresInJobOrder(RunJobs(env, target, fs, jobs, outs, i).failed, jobs, i, at)
    decreases i
  {
    if i == 0 {
      at := [];
    } else {
      var before := FailuresComeFromJobs(env, target, fs, jobs, outs, i - 1);
      var p := RunJobs(env, target, fs, jobs, outs, i - 1);
      var step := ProcessFile(env, target, p.fs, jobs[i - 1], outs[i - 1]);
      RunJobsStep(env, target, fs, jobs, outs, i);
      if step.result.Done? {
        at := before;
      } else {
        ExtendFailures(p.failed, jobs, i - 1, before, Failure(Basename(jobs[i - 1].path), step.result.error));
        at := before + [i - 1];
      }
    }
  }

  /**
    The overwrite question's list: the base names of the usable output
    paths that already exist, in job order (`ExistingOutputsAppend`).
  */
  function ExistingOutputs(fs: set<string>, outs: seq<string>): (r: seq<string>)
    ensures |r| <= |outs|
    ensures forall x :: x in r <==>
              exists j :: 0 <= j < |outs| && UsableOutPath(outs[j]) && outs[j] in fs && x == Basename(outs[j])
  {
    if outs == [] then []
    else
      var rest := ExistingOutputs(fs, outs[1..]);
      var head := if UsableOutPath(outs[0]) && outs[0] in fs then [Basename(outs[0])] else [];
      assert forall j :: 1 <= j < |outs| ==> outs[j] == outs[1..][j - 1];
      forall x | x in rest
        ensures exists j :: 0 <= j < |outs| && UsableOutPath(outs[j]) && outs[j] in fs && x == Basename(outs[j])
      {
        var j :| 0 <= j < |outs[1..]| && UsableOutPath(outs[1..][j]) && outs[1..][j] in fs
                 && x == Basename(outs[1..][j]);
        assert outs[j + 1] == outs[1..][j];
      }
      head + rest
  }

  /** The overwrite list goes through the outputs in order: it splits where the outputs split. */
  lemma {:induction false} ExistingOutputsAppend(fs: set<string>, a: seq<string>, b: seq<string>)
    ensures ExistingOutputs(fs, a + b) == ExistingOutputs(fs, a) + ExistingOutputs(fs, b)
    decreases |a|
  {
    if a == [] {
      assert a + b == b;
    } else {
      assert (a + b)[0] == a[0];
      assert (a + b)[1..] == a[1..] + b;
      ExistingOutputsAppend(fs, a[1..], b);
      var head := if UsableOutPath(a[0]) && a[0] in fs then [Basename(a[0])] else [];
      ConcatAssociative(head, ExistingOutputs(fs, a[1..]), ExistingOutputs(fs, b));
    }
  }

  /** How a call of `normalize_files` ends. */
  datatype BatchOutcome =
    | NoFilesSelected
    | MissingOverrideFolder
    | OverwriteDeclined(existing: seq<string>)
    | Completed(successful: nat, failed: seq<Failure>)

  /**
    `normalize_files` once its list of jobs is built: an empty request and
    a missing override folder stop it before anything else; existing
    outputs, named from the settings `s` at the start, are listed and the
    batch stops unless overwriting is confirmed; otherwise every job is run
    in order and exported under the settings `during` gives for it, each
    failure recorded and the batch carried on, and every job counted
    exactly once.
  */
  method NormalizeJobs(filepaths: seq<string>, jobs: seq<Job>, s: Settings, during: nat -> Settings,
                       env: Env, fs: set<string>, confirmOverwrite: bool)
    returns (outcome: BatchOutcome, fs': set<string>)
    ensures filepaths == [] <==> outcome == NoFilesSelected
    ensures outcome == MissingOverrideFolder <==> filepaths != [] && s.useOverride && s.folder == []
    ensures outcome.OverwriteDeclined? <==>
              && filepaths != [] && !(s.useOverride && s.folder == [])
              && ExistingOutputs(fs, OutPaths(s, jobs)) != []
              && !confirmOverwrite
    ensures outcome.OverwriteDeclined? ==> outcome.existing == ExistingOutputs(fs, OutPaths(s, jobs))
    ensures !outcome.Completed? ==> fs' == fs
    ensures outcome.Completed? ==>
              && outcome.successful + |outcome.failed| == |jobs|
              && RunJobs(env, s.target, fs, jobs, ExportPaths(during, jobs), |jobs|)
                 == Progress(fs', outcome.successful, outcome.failed)
    ensures outcome.Completed? && FolderKept(during, |jobs|) ==> NoInvalidOutputPath(outcome.failed)
  {
    fs' := fs;
    if filepaths == [] {
      return NoFilesSelected, fs';
    }
    if s.useOverride && s.folder == [] {
      return MissingOverrideFolder, fs';
    }
    var existing := ExistingOutputs(fs, OutPaths(s, jobs));
    if existing != [] && !confirmOverwrite {
      return OverwriteDeclined(existing), fs';
    }
    var outs := ExportPaths(during, jobs);
    var successful, failed;
    successful, failed, fs' := RunBatch(env, s.target, fs, jobs, outs);
    outcome := Completed(successful, failed);
    if FolderKept(during, |jobs|) {
      ExportPathsUsable(during, jobs);
      NoInvalidOutputPathInBatch(env, s.target, fs, jobs, outs, |jobs|);
    }
  }

  /**
    `normalize_files(filepaths)` as written, on the table `rows`: the jobs
    are every row whose path was requested, so a file listed in two rows
    is processed twice.
  */
  method NormalizeFiles(rows: seq<Row>, filepaths: seq<string>, s: Settings, during: nat -> Settings,
                        env: Env, fs: set<string>, confirmOverwrite: bool)
    returns (outcome: BatchOutcome, fs': set<string>)
    ensures filepaths == [] <==> outcome == NoFilesSelected
    ensures outcome == MissingOverrideFolder <==> filepaths != [] && s.useOverride && s.folder == []
    ensures var jobs := FilesToProcess(rows, filepaths);
            outcome.OverwriteDeclined? <==>
              && filepaths != [] && !(s.useOverride && s.folder == [])
              && ExistingOutputs(fs, OutPaths(s, jobs)) != []
              && !confirmOverwrite
    ensures var jobs := FilesToProcess(rows, filepaths);
            outcome.OverwriteDeclined? ==> outcome.existing == ExistingOutputs(fs, OutPaths(s, jobs))
    ensures !outcome.Completed? ==> fs' == fs
    ensures var jobs := FilesToProcess(rows, filepaths);
            outcome.Completed? ==>
              && outcome.successful + |outcome.failed| == |jobs|
              && RunJobs(env, s.target, fs, jobs, ExportPaths(during, jobs), |jobs|)
                 == Progress(fs', outcome.successful, outcome.failed)
  {
    outcome, fs' := NormalizeJobs(filepaths, FilesToProcess(rows, filepaths), s, during, env, fs, confirmOverwrite);
  }

  /**
    "Normalize All" (`onlyChecked` false) and "Normalize Selected"
    (`onlyChecked` true) with one job per listed row: the batch counts
    exactly the paths the button handed over.
  */
  method NormalizeSelected(rows: seq<Row>, onlyChecked: bool, s: Settings, during: nat -> Settings,
                           env: Env, fs: set<string>, confirmOverwrite: bool)
    returns (outcome: BatchOutcome, fs': set<string>)
    ensures SelectedFilepaths(rows, onlyChecked) == [] <==> outcome == NoFilesSelected
    ensures outcome == MissingOverrideFolder <==>
              SelectedFilepaths(rows, onlyChecked) != [] && s.useOverride && s.folder == []
    ensures var jobs := SelectedJobs(rows, onlyChecked);
            outcome.OverwriteDeclined? <==>
              && SelectedFilepaths(rows, onlyChecked) != [] && !(s.useOverride && s.folder == [])
              && ExistingOutputs(fs, OutPaths(s, jobs)) != []
              && !confirmOverwrite
    ensures var jobs := SelectedJobs(rows, onlyChecked);
            outcome.OverwriteDeclined? ==> outcome.existing == ExistingOutputs(fs, OutPaths(s, jobs))
    ensures !outcome.Completed? ==> fs' == fs
    ensures outcome.Completed? ==>
              outcome.successful + |outcome.failed| == |SelectedFilepaths(rows, onlyChecked)|
    ensures var jobs := SelectedJobs(rows, onlyChecked);
            outcome.Completed? ==>
              RunJobs(env, s.target, fs, jobs, ExportPaths(during, jobs), |jobs|)
              == Progress(fs', outcome.successful, outcome.failed)
  {
    var filepaths := SelectedFilepaths(rows, onlyChecked);
    var jobs := SelectedJobs(rows, onlyChecked);
    SelectedJobsMatchRequest(rows, onlyChecked);
    outcome, fs' := NormalizeJobs(filepaths, jobs, s, during, env, fs, confirmOverwrite);
  }

  /**
    The loop of `normalize_files`: every job is processed in order, a
    failure is recorded under the input's base name and the loop goes on.
  */
  method RunBatch(env: Env, target: int, fs: set<string>, jobs: seq<Job>, outs: seq<string>)
    returns (successful: nat, failed: seq<Failure>, fs': set<string>)
    requires |outs| == |jobs|
    ensures successful + |failed| == |jobs|
    ensures RunJobs(env, target, fs, jobs, outs, |jobs|) == Progress(fs', successful, failed)
  {
    successful := 0;
    failed := [];
    fs' := fs;
    var i := 0;
    while i < |jobs|
      invariant i <= |jobs|
      invariant RunJobs(env, target, fs, jobs, outs, i) == Progress(fs', successful, failed)
    {
      var step := ProcessFile(env, target, fs', jobs[i], outs[i]);
      assert RunJobs(env, target, fs, jobs, outs, i + 1)
             == Advance(Progress(fs', successful, failed), jobs[i], step);
      if step.result.Done? {
        successful := successful + 1;
      } else {
        failed := failed + [Failure(Basename(jobs[i].path), step.result.error)];
      }
      fs' := step.fs;
      i := i + 1;
    }
  }

  /**
    While every job's output path is usable, no file fails for want of an
    output path: the per-file check on the sentinel does not fire.
  */
  lemma {:induction false} NoInvalidOutputPathInBatch(env: Env, target: int, fs: set<string>,
                                                      jobs: seq<Job>, outs: seq<string>, i: nat)
    requires |outs| == |jobs| && i <= |jobs|
    requires forall k :: 0 <= k < |outs| ==> UsableOutPath(outs[k])
    ensures NoInvalidOutputPath(RunJobs(env, target, fs, jobs, outs, i).failed)
    decreases i
  {
    if i > 0 {
      NoInvalidOutputPathInBatch(env, target, fs, jobs, outs, i - 1);
      var p := RunJobs(env, target, fs, jobs, outs, i - 1);
      var step := ProcessFile(env, target, p.fs, jobs[i - 1], outs[i - 1]);
      RunJobsStep(env, target, fs, jobs, outs, i);
      assert UsableOutPath(outs[i - 1]);
      assert step.result != Failed(InvalidOutputPath);
      AdvanceKeepsValid(p, jobs[i - 1], step);
    }
  }

  /** A step that did not fail for its output path adds no such failure. */
  lemma AdvanceKeepsValid(p: Progress, job: Job, step: Step)
    requires NoInvalidOutputPath(p.failed)
    requires step.result != Failed(InvalidOutputPath)
    ensures NoInvalidOutputPath(Advance(p, job, step).failed)
  {
  }

  /** No recorded failure is an invalid output path. */
  predicate NoInvalidOutputPath(failed: seq<Failure>) {
    forall f :: f in failed ==> f.error != InvalidOutputPath
  }

  /** Outside the sentinel case every output path is usable: it ends in `.wav`. */
  lemma OutPathUsable(s: Settings, job: Job)
    requires !(s.useOverride && s.folder == [])
    ensures UsableOutPath(OutPath(s, job))
  {
    var out := OutPath(s, job);
    assert EndsWith(out, FinalName(job.path, s.suffixText, s.table));
    assert |OutputExtension| <= |out|;
  }

  /** While the folder is kept, every export path is usable. */
  lemma ExportPathsUsable(during: nat -> Settings, jobs: seq<Job>)
    requires FolderKept(during, |jobs|)
    ensures forall k :: 0 <= k < |jobs| ==> UsableOutPath(ExportPaths(during, jobs)[k])
  {
    forall k | 0 <= k < |jobs| ensures UsableOutPath(ExportPaths(during, jobs)[k]) {
      OutPathUsable(during(k), jobs[k]);
    }
  }

  /**
    The per-file check on the sentinel is not dead code: when the override
    folder is emptied after the batch started, a job that exists and can be
    measured fails at its export with "Invalid output path", and the batch
    goes on.
  */
  lemma FolderClearedMidBatch(env: Env, target: int, fs: set<string>, job: Job, during: nat -> Settings)
    requires job.path in fs && env.measurable(job.path)
    requires during(0).useOverride && during(0).folder == []
    ensures RunJobs(env, target, fs, [job], ExportPaths(during, [job]), 1)
            == Progress(fs, 0, [Failure(Basename(job.path), InvalidOutputPath)])
  {
    assert ExportPaths(during, [job])[0] == NoOverrideFolder;
  }

  /** How many entries a summary list shows before it says how many more there are. */
  const PreviewLimit: nat := 5

  /** The entries a summary list shows, and how many it leaves out. */
  datatype Preview<T> = Preview(shown: seq<T>, more: nat)

  /**
    The overwrite question and the failure report both show the first five
    entries and count the rest.
  */
  function PreviewOf<T>(items: seq<T>): (r: Preview<T>)
    ensures |r.shown| == if |items| <= PreviewLimit then |items| else PreviewLimit
    ensures r.shown == items[..|r.shown|]
    ensures |r.shown| + r.more == |items|
    ensures r.more > 0 <==> |items| > PreviewLimit
  {
    if |items| <= PreviewLimit then Preview(items, 0)
    else Preview(items[..PreviewLimit], |items| - PreviewLimit)
  }

  /** The lines of a summary list: the shown entries, then the count of the rest if any. */
  function PreviewLines(p: Preview<string>): (r: seq<string>)
    ensures |p.shown| <= |r| && r[..|p.shown|] == p.shown
    ensures p.more == 0 ==> r == p.shown
    ensures p.more > 0 ==> |r| == |p.shown| + 1 && r[|p.shown|] == MoreLine(p.more)
  {
    if p.more == 0 then p.shown else p.shown + [MoreLine(p.more)]
  }

  /** The closing line of a truncated summary list. */
  function MoreLine(n: nat): (r: string)
    ensures |r| >= 19 && r[..8] == "... and "
    ensures EndsWith(r, " more files")
  {
    "... and " + NatToString(n) + " more files"
  }

  /** The count in the closing line reads back as the number of hidden entries. */
  lemma MoreLineCount(n: nat)
    ensures var r := MoreLine(n);
            && 19 <= |r|
            && (forall i :: 8 <= i < |r| - 11 ==> IsDigit(r[i]))
            && ParseDigits(r[8..|r| - 11]) == n
  {
    var r := MoreLine(n);
    assert r[8..|r| - 11] == NatToString(n);
    ParseNatToString(n);
  }
}
