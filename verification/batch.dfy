/**
  `select_files`: validate the quality and width texts, then compress the
  selected paths one after another, each to its `getOutputPath` name, adding
  one `Compression failed for {path}` line to the log for every file that did
  not shrink. There is no exception handler around the loop, so an exception
  from `reduceImageSize` ends the whole batch.

  The loop is stated for any per-file operation `step`; `select_files` runs
  it with `Compress`, which calls `reduceImageSize` on a path and its output
  name. The properties of the batch are stated for any naming function
  `name`; those that depend on the name only need `GetOutputPath(p) != p`,
  which `OutputPathDiffers` proves.
 */
module Batch {
  import opened Wrappers
  import opened PosixPath
  import opened OutputPath
  import opened Params
  import opened Transcoder

  /** What the text widget receives for one processed file. */
  datatype LogEntry =
    | Reduced(path: Path, report: Report)   // the size report block written by `reduceImageSize`
    | CompressionFailed(path: Path)         // the line `Compression failed for {path}`

  /** The exception that ended the batch, and the path being processed when it was raised. */
  datatype Abort = Abort(path: Path, fault: Fault)

  /** The filesystem and log after a batch, and the exception that cut it short, if any. */
  datatype BatchRun = BatchRun(fs: FileSystem, log: seq<LogEntry>, abort: Option<Abort>)

  /** The outcome of `select_files`: the quality text was refused, or the batch ran. */
  datatype Session =
    | InvalidQuality
    | Ran(run: BatchRun)

  /** One iteration of the loop: compress a path of the given filesystem to its `name`. */
  function Compress(codec: Codec, name: Path -> Path, quality: nat, width: Option<nat>): (FileSystem, Path) -> Transcode {
    (fs: FileSystem, path: Path) => ReduceImageSize(fs, codec, path, name(path), quality, width)
  }

  /** The log entry of a step that returned. */
  function Entry(path: Path, t: Transcode): LogEntry
    requires t.Finished?
  {
    if t.kept then Reduced(path, t.report) else CompressionFailed(path)
  }

  /**
    The loop of `select_files` over `paths`, each path handed to `step`. The
    log holds one entry per processed path, and an exception stops the loop
    at the path that raised it; `LogFollowsPaths` shows the entries come in
    the order of `paths`.
   */
  function RunBatch(fs: FileSystem, step: (FileSystem, Path) -> Transcode, paths: seq<Path>): (r: BatchRun)
    ensures |r.log| <= |paths|
    ensures r.abort.None? <==> |r.log| == |paths|
    ensures r.abort.Some? ==> r.abort.value.path == paths[|r.log|]
    decreases |paths|
  {
    if |paths| == 0 then BatchRun(fs, [], None)
    else
      var t := step(fs, paths[0]);
      if t.Raised? then BatchRun(fs, [], Some(Abort(paths[0], t.fault)))
      else
        var rest := RunBatch(t.fs, step, paths[1..]);
        BatchRun(rest.fs, [Entry(paths[0], t)] + rest.log, rest.abort)
  }

  /** `run` with `log` written before its own entries. */
  function AfterLog(log: seq<LogEntry>, run: BatchRun): BatchRun {
    BatchRun(run.fs, log + run.log, run.abort)
  }

  /** One returned step moves its entry from the rest of the run to the log already written. */
  lemma StepReturned(log: seq<LogEntry>, fs: FileSystem, step: (FileSystem, Path) -> Transcode, paths: seq<Path>)
    requires |paths| > 0 && step(fs, paths[0]).Finished?
    ensures var t := step(fs, paths[0]);
      AfterLog(log, RunBatch(fs, step, paths)) == AfterLog(log + [Entry(paths[0], t)], RunBatch(t.fs, step, paths[1..]))
  {
    var t := step(fs, paths[0]);
    var rest := RunBatch(t.fs, step, paths[1..]);
    assert log + ([Entry(paths[0], t)] + rest.log) == (log + [Entry(paths[0], t)]) + rest.log;
  }

  /**
    The loop of `select_files`, as a loop: the same run as `RunBatch`,
    processing `paths` in order and stopping at the first exception.
   */
  method CompressAll(fs: FileSystem, step: (FileSystem, Path) -> Transcode, paths: seq<Path>) returns (run: BatchRun)
    ensures run == RunBatch(fs, step, paths)
  {
    var current, log, i := fs, [], 0;
    assert AfterLog([], RunBatch(fs, step, paths)) == RunBatch(fs, step, paths);
    while i < |paths|
      invariant 0 <= i <= |paths|
      invariant RunBatch(fs, step, paths) == AfterLog(log, RunBatch(current, step, paths[i..]))
    {
      assert paths[i..][0] == paths[i] && paths[i..][1..] == paths[i + 1..];
      var t := step(current, paths[i]);
      if t.Raised? {
        return BatchRun(current, log, Some(Abort(paths[i], t.fault)));
      }
      StepReturned(log, current, step, paths[i..]);
      log := log + [Entry(paths[i], t)];
      current := t.fs;
      i := i + 1;
    }
    assert paths[i..] == [];
    return BatchRun(current, log, None);
  }

  /**
    `select_files(quality_entry, width_entry, text_widget)` with the texts of
    the two entries and the paths the file dialog returned. A refused quality
    ends the call before any file is looked at.
   */
  method SelectFiles(fs: FileSystem, codec: Codec, qualityText: string, widthText: string, paths: seq<Path>)
    returns (s: Session)
    ensures s.InvalidQuality? <==> ParseQuality(qualityText).None?
    ensures s.Ran? ==> s.run == RunBatch(fs, Compress(codec, GetOutputPath, ParseQuality(qualityText).value, ParseWidth(widthText)), paths)
  {
    var quality := ParseQuality(qualityText);
    if quality.None? {
      return InvalidQuality;
    }
    var width := ParseWidth(widthText);
    var run := CompressAll(fs, Compress(codec, GetOutputPath, quality.value, width), paths);
    return Ran(run);
  }

  /** The log entries name the selected paths in the order they were given. */
  lemma {:induction false} LogFollowsPaths(fs: FileSystem, step: (FileSystem, Path) -> Transcode, paths: seq<Path>)
    ensures var r := RunBatch(fs, step, paths);
      forall i :: 0 <= i < |r.log| ==> r.log[i].path == paths[i]
    decreases |paths|
  {
    if |paths| > 0 {
      var t := step(fs, paths[0]);
      if t.Finished? {
        LogFollowsPaths(t.fs, step, paths[1..]);
      }
    }
  }

  /**
    The batch stops only at an exception: when it ends early, the calls on
    the paths before the one it stopped at all returned, whatever they
    returned, and the call on that path raised the reported exception in the
    filesystem they left, which is also the filesystem the batch leaves.
   */
  lemma {:induction false} AbortIsStep(fs: FileSystem, step: (FileSystem, Path) -> Transcode, paths: seq<Path>)
    ensures var r := RunBatch(fs, step, paths);
      r.abort.Some? ==>
        var before := RunBatch(fs, step, paths[..|r.log|]);
        && before.abort.None?
        && before.fs == r.fs
        && step(before.fs, paths[|r.log|]) == Raised(r.abort.value.fault)
    decreases |paths|
  {
    var r := RunBatch(fs, step, paths);
    if r.abort.Some? {
      var t := step(fs, paths[0]);
      if t.Raised? {
        assert paths[..|r.log|] == [];
      } else {
        var rest := RunBatch(t.fs, step, paths[1..]);
        AbortIsStep(t.fs, step, paths[1..]);
        var n := |rest.log|;
        assert paths[..n + 1][0] == paths[0];
        assert paths[..n + 1][1..] == paths[1..][..n];
        assert paths[n + 1] == paths[1..][n];
      }
    }
  }

  /** The output names of the given inputs. */
  function Outputs(name: Path -> Path, paths: seq<Path>): set<Path> {
    set i | 0 <= i < |paths| :: name(paths[i])
  }

  /** The outputs of a non-empty prefix are its first output plus those of the rest. */
  lemma OutputsCons(name: Path -> Path, paths: seq<Path>, n: nat)
    requires 0 < |paths| && n < |paths|
    ensures Outputs(name, paths[..n + 1]) == {name(paths[0])} + Outputs(name, paths[1..][..n])
  {
    var a, b := paths[..n + 1], paths[1..][..n];
    forall o | o in Outputs(name, a) ensures o in {name(paths[0])} + Outputs(name, b) {
      var i :| 0 <= i < |a| && o == name(a[i]);
      if i > 0 {
        assert a[i] == b[i - 1];
      }
    }
    forall o | o in Outputs(name, b) ensures o in Outputs(name, a) {
      var i :| 0 <= i < |b| && o == name(b[i]);
      assert b[i] == a[i + 1];
    }
    assert name(a[0]) in Outputs(name, a);
  }

  /** Two filesystems that agree outside `a` agree outside any superset of `a`. */
  lemma AgreeOutside(m: FileSystem, m': FileSystem, a: set<Path>, b: set<Path>)
    requires m - a == m' - a
    ensures m - (a + b) == m' - (a + b)
  {
    assert m - (a + b) == (m - a) - b;
    assert m' - (a + b) == (m' - a) - b;
  }

  /**
    A batch changes nothing but the output paths of the files it processed:
    every other path exists afterwards exactly when it existed before, with
    the same size.
   */
  lemma {:induction false} OnlyOutputsChange(fs: FileSystem, codec: Codec, name: Path -> Path, paths: seq<Path>, quality: nat, width: Option<nat>)
    ensures var r := RunBatch(fs, Compress(codec, name, quality, width), paths);
      r.fs - Outputs(name, paths[..|r.log|]) == fs - Outputs(name, paths[..|r.log|])
    decreases |paths|
  {
    var step := Compress(codec, name, quality, width);
    var r := RunBatch(fs, step, paths);
    if |paths| == 0 || step(fs, paths[0]).Raised? {
      assert paths[..|r.log|] == [];
    } else {
      var t := step(fs, paths[0]);
      var rest := RunBatch(t.fs, step, paths[1..]);
      var o, done := name(paths[0]), Outputs(name, paths[1..][..|rest.log|]);
      OnlyOutputsChange(t.fs, codec, name, paths[1..], quality, width);
      OutputsCons(name, paths, |rest.log|);
      AgreeOutside(rest.fs, t.fs, done, {o});
      AgreeOutside(t.fs, fs, {o}, done);
      assert done + {o} == {o} + done;
    }
  }

  /**
    The `i`-th log entry is the entry of compressing `paths[i]` in the
    filesystem the first `i` steps left behind, and that call returned.
   */
  lemma {:induction false} EntryIsStep(fs: FileSystem, step: (FileSystem, Path) -> Transcode, paths: seq<Path>, i: nat)
    requires i < |RunBatch(fs, step, paths).log|
    decreases i
    ensures var before := RunBatch(fs, step, paths[..i]);
      var t := step(before.fs, paths[i]);
      && before.abort.None?
      && t.Finished?
      && RunBatch(fs, step, paths).log[i] == Entry(paths[i], t)
  {
    var t := step(fs, paths[0]);
    assert t.Finished?;
    if i == 0 {
      assert paths[..0] == [];
    } else {
      EntryIsStep(t.fs, step, paths[1..], i - 1);
      assert paths[..i][0] == paths[0];
      assert paths[..i][1..] == paths[1..][..i - 1];
    }
  }

  /**
    What the `i`-th log entry says: `Compression failed for paths[i]` exactly
    when that call returned `False`, and its output is then gone; otherwise a
    report of a strictly smaller file.
   */
  lemma EntryIsStepOutcome(fs: FileSystem, codec: Codec, name: Path -> Path, paths: seq<Path>, quality: nat, width: Option<nat>, i: nat)
    requires i < |RunBatch(fs, Compress(codec, name, quality, width), paths).log|
    ensures var step := Compress(codec, name, quality, width);
      var t := step(RunBatch(fs, step, paths[..i]).fs, paths[i]);
      var entry := RunBatch(fs, step, paths).log[i];
      && t.Finished?
      && (entry.CompressionFailed? <==> !t.kept)
      && (entry.CompressionFailed? ==> name(paths[i]) !in t.fs)
      && (entry.Reduced? ==> entry.report.outputSize < entry.report.inputSize)
  {
    EntryIsStep(fs, Compress(codec, name, quality, width), paths, i);
  }

  /** `path` can be compressed in `fs`: it exists, decodes, and does not divide by a zero width. */
  predicate Loadable(fs: FileSystem, codec: Codec, path: Path, width: Option<nat>) {
    && path in fs
    && codec.open(path).Some?
    && (ResizeRequested(width) ==> codec.open(path).value.width > 0)
  }

  /**
    A `False` result does not stop the batch: when every selected file can be
    loaded and no selected file is the output name of any selected file,
    itself included, every file is processed, and every selected file is
    still there, unchanged, afterwards.
   */
  lemma {:induction false} BatchCompletes(fs: FileSystem, codec: Codec, name: Path -> Path, paths: seq<Path>, quality: nat, width: Option<nat>)
    requires forall i :: 0 <= i < |paths| ==> Loadable(fs, codec, paths[i], width)
    requires forall i, j :: 0 <= i < |paths| && 0 <= j < |paths| ==> name(paths[i]) != paths[j]
    ensures var r := RunBatch(fs, Compress(codec, name, quality, width), paths);
      && r.abort.None? && |r.log| == |paths|
      && forall i :: 0 <= i < |paths| ==> paths[i] in fs && paths[i] in r.fs && r.fs[paths[i]] == fs[paths[i]]
    decreases |paths|
  {
    var r := RunBatch(fs, Compress(codec, name, quality, width), paths);
    if |paths| > 0 {
      var t := Compress(codec, name, quality, width)(fs, paths[0]);
      var o := name(paths[0]);
      assert Loadable(fs, codec, paths[0], width);
      forall j | 0 <= j < |paths| ensures paths[j] in t.fs && t.fs[paths[j]] == fs[paths[j]] {
        assert paths[j] != o;
        assert paths[j] in fs - {o};
      }
      var rest := paths[1..];
      forall i | 0 <= i < |rest| ensures Loadable(t.fs, codec, rest[i], width) {
        assert rest[i] == paths[i + 1];
        assert Loadable(fs, codec, paths[i + 1], width);
      }
      forall i, j | 0 <= i < |rest| && 0 <= j < |rest| ensures name(rest[i]) != rest[j] {
        assert rest[i] == paths[i + 1] && rest[j] == paths[j + 1];
      }
      BatchCompletes(t.fs, codec, name, rest, quality, width);
    }
    OnlyOutputsChange(fs, codec, name, paths, quality, width);
    assert paths[..|r.log|] == paths;
    forall i | 0 <= i < |paths| ensures paths[i] in fs && paths[i] in r.fs && r.fs[paths[i]] == fs[paths[i]] {
      assert Loadable(fs, codec, paths[i], width);
      assert paths[i] !in Outputs(name, paths);
      assert paths[i] in fs - Outputs(name, paths);
    }
  }

  /**
    With the real output names: when every selected file can be loaded and
    none is the `-s` name of another selected file, `select_files` processes
    them all and leaves every one of them as it was.
   */
  lemma SelectedFilesSurvive(fs: FileSystem, codec: Codec, paths: seq<Path>, quality: nat, width: Option<nat>)
    requires forall i :: 0 <= i < |paths| ==> Loadable(fs, codec, paths[i], width)
    requires forall i, j :: 0 <= i < |paths| && 0 <= j < |paths| && i != j ==> GetOutputPath(paths[i]) != paths[j]
    ensures var r := RunBatch(fs, Compress(codec, GetOutputPath, quality, width), paths);
      && r.abort.None? && |r.log| == |paths|
      && forall i :: 0 <= i < |paths| ==> paths[i] in fs && paths[i] in r.fs && r.fs[paths[i]] == fs[paths[i]]
  {
    forall i, j | 0 <= i < |paths| && 0 <= j < |paths| ensures GetOutputPath(paths[i]) != paths[j] {
      if i == j {
        OutputPathDiffers(paths[i]);
      }
    }
    BatchCompletes(fs, codec, GetOutputPath, paths, quality, width);
  }

  /**
    The per-file guarantee does not extend to the batch: when a selected file
    is the `-s` name of an earlier selected file (say `a.jpg` and `a-s.jpg`)
    and the earlier file does not shrink, its step removes the later selected
    file, whose own step then raises and ends the batch.
   */
  lemma OverlappingSelectionLosesFile(fs: FileSystem, codec: Codec, a: Path, quality: nat, width: Option<nat>)
    requires Loadable(fs, codec, a, width) && GetOutputPath(a) in fs
    requires codec.save(a, Resize(codec.open(a).value, width).value, quality) >= fs[a]
    ensures var b := GetOutputPath(a);
      var r := RunBatch(fs, Compress(codec, GetOutputPath, quality, width), [a, b]);
      && r.log == [CompressionFailed(a)]
      && r.abort == Some(Abort(b, LoadFailed))
      && b !in r.fs
  {
    var b := GetOutputPath(a);
    OutputPathDiffers(a);
    var step := Compress(codec, GetOutputPath, quality, width);
    var t := step(fs, a);
    assert t == ReduceImageSize(fs, codec, a, b, quality, width);
    assert t.Finished? && !t.kept && b !in t.fs;
    assert [a, b][1..] == [b];
    assert step(t.fs, b) == ReduceImageSize(t.fs, codec, b, GetOutputPath(b), quality, width);
    assert step(t.fs, b) == Raised(LoadFailed);
  }
}
