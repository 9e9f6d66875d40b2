/** splitPDF itself: resolve the output directory, derive the base name,
    read the page count, then extract one output per window in order and
    stop at the first extraction that fails. The file system and the PDF
    library are collaborators whose answers are given as an environment. */
module Splitter {
  import opened Optional
  import opened Partition
  import opened Naming

  /** Where one output goes: the output directory and the file name joined
      under it (filepath.Join's cleaning is not modelled). */
  datatype OutputPath = OutputPath(dir: string, name: string)

  /** One call to the extraction collaborator: the window, the page
      selection it is given and the output path it writes. */
  datatype Target = Target(window: Window, selection: string, path: OutputPath)

  datatype Error =
    | WorkingDirError
    | CreateDirError(dir: string)
    | ReadError(input: string)
    | ExtractError(selection: string, path: OutputPath)

  datatype Outcome = Success | Failure(error: Error)

  /** What one invocation did: the extraction calls it made, in order, and
      what it returned. */
  datatype Run = Run(calls: seq<Target>, outcome: Outcome)

  /** The answers of the collaborators: os.Getwd, os.MkdirAll,
      the page count read by api.ReadContextFile, and whether
      api.ExtractPagesFile succeeds for a given call. */
  datatype Env = Env(
    workingDir: Option<string>,
    makeDir: string -> bool,
    pageCount: string -> Option<int>,
    extract: Target -> bool)

  /** The extraction call for window `w`. */
  function TargetFor(w: Window, base: string, dir: string): Target {
    Target(w, PageSelection(w.first, w.last), OutputPath(dir, PartFilename(base, w.part)))
  }

  /** The extraction calls for the windows `ws`, in order. */
  function Targets(ws: seq<Window>, base: string, dir: string): (ts: seq<Target>)
    ensures |ts| == |ws|
  {
    if ws == [] then [] else [TargetFor(ws[0], base, dir)] + Targets(ws[1..], base, dir)
  }

  /** Every extraction call splitPDF would make if none failed. */
  function Plan(input: string, dir: string, total: int, size: nat): seq<Target>
    requires size >= 1
  {
    Targets(Windows(total, size), OutputBase(input), dir)
  }

  /** Runs the extraction calls `ts` in order and stops at the first one
      that fails. */
  function Drive(ts: seq<Target>, extract: Target -> bool): Run {
    if ts == [] then Run([], Success)
    else if !extract(ts[0]) then Run([ts[0]], Failure(ExtractError(ts[0].selection, ts[0].path)))
    else
      var r := Drive(ts[1..], extract);
      Run([ts[0]] + r.calls, r.outcome)
  }

  /** What Drive does, call by call: the calls made are a prefix of `ts`;
      all but the last of them succeeded; the run fails iff the last call
      made failed, with that call's selection and path in the error; and it
      succeeds iff every call of `ts` was made and succeeded. */
  lemma {:induction false} DriveStopsAtFirstFailure(ts: seq<Target>, extract: Target -> bool)
    ensures var r := Drive(ts, extract);
      && r.calls <= ts
      && (forall i :: 0 <= i < |r.calls| - 1 ==> extract(r.calls[i]))
      && (r.outcome.Success? <==> r.calls == ts && forall i :: 0 <= i < |ts| ==> extract(ts[i]))
      && (r.outcome.Failure? ==>
            && r.calls != []
            && !extract(r.calls[|r.calls| - 1])
            && r.outcome.error == ExtractError(r.calls[|r.calls| - 1].selection, r.calls[|r.calls| - 1].path))
  {
    if ts != [] && extract(ts[0]) {
      DriveStopsAtFirstFailure(ts[1..], extract);
      assert ts == [ts[0]] + ts[1..];
    }
  }

  /** The directory the outputs go to: `outputDir`, or the working
      directory when `outputDir` is empty (None when that cannot be read). */
  function OutputDirectory(outputDir: string, workingDir: Option<string>): Option<string> {
    if outputDir != [] then Some(outputDir) else workingDir
  }

  /** splitPDF as a function of its arguments and its environment. */
  function Split(input: string, outputDir: string, pagesPerSplit: int, env: Env): Run
    requires pagesPerSplit >= 1
  {
    match OutputDirectory(outputDir, env.workingDir)
    case None => Run([], Failure(WorkingDirError))
    case Some(dir) =>
      if !env.makeDir(dir) then Run([], Failure(CreateDirError(dir)))
      else
        match env.pageCount(input)
        case None => Run([], Failure(ReadError(input)))
        case Some(total) => Drive(Plan(input, dir, total, pagesPerSplit), env.extract)
  }

  /** The run `r` with the calls `done` made before it. */
  function After(done: seq<Target>, r: Run): Run {
    Run(done + r.calls, r.outcome)
  }

  /** The calls for the windows from `start` on: the call for the window
      starting there, then the calls for the windows after it. */
  lemma {:induction false} TargetsFromStep(start: nat, part: nat, total: int, size: nat, base: string, dir: string)
    requires size >= 1 && start <= total
    ensures Targets(WindowsFrom(start, part, total, size), base, dir)
      == [TargetFor(Window(start, Min(start + size - 1, total), part), base, dir)]
         + Targets(WindowsFrom(start + size, part + 1, total, size), base, dir)
  {
  }

  /** Driving a non-empty list of calls: the first call, and if it succeeds
      the rest. */
  lemma {:induction false} DriveStep(t: Target, rest: seq<Target>, extract: Target -> bool)
    ensures Drive([t] + rest, extract)
      == if extract(t) then After([t], Drive(rest, extract)) else Run([t], Failure(ExtractError(t.selection, t.path)))
  {
    assert ([t] + rest)[1..] == rest;
  }

  /** The calls the window loop makes from the iteration with `startPage`
      and `partNumber` on. */
  function CallsFrom(startPage: nat, partNumber: nat, total: int, size: nat, base: string, dir: string): seq<Target>
    requires size >= 1
  {
    Targets(WindowsFrom(startPage, partNumber, total, size), base, dir)
  }

  /** One iteration of the window loop: the call for the current window,
      and then either a return with its error or the remaining iterations. */
  lemma {:induction false} LoopStep(calls: seq<Target>, startPage: nat, partNumber: nat, total: int, size: nat,
                                    base: string, dir: string, extract: Target -> bool, whole: Run, target: Target)
    requires size >= 1 && startPage <= total
    requires whole == After(calls, Drive(CallsFrom(startPage, partNumber, total, size, base, dir), extract))
    requires target == TargetFor(Window(startPage, Min(startPage + size - 1, total), partNumber), base, dir)
    ensures extract(target) ==>
      whole == After(calls + [target], Drive(CallsFrom(startPage + size, partNumber + 1, total, size, base, dir), extract))
    ensures !extract(target) ==> whole == Run(calls + [target], Failure(ExtractError(target.selection, target.path)))
  {
    var rest := CallsFrom(startPage + size, partNumber + 1, total, size, base, dir);
    TargetsFromStep(startPage, partNumber, total, size, base, dir);
    DriveStep(target, rest, extract);
    if extract(target) {
      AfterAfter(calls, [target], Drive(rest, extract));
    }
  }

  /** The window loop of splitPDF (main.go lines 46-72): one extraction
      call per window, in order, returning at the first failure. */
  method ExtractWindows(base: string, dir: string, total: int, pagesPerSplit: nat, extract: Target -> bool) returns (run: Run)
    requires pagesPerSplit >= 1
    ensures run == Drive(Targets(Windows(total, pagesPerSplit), base, dir), extract)
  {
    ghost var whole := Drive(Targets(Windows(total, pagesPerSplit), base, dir), extract);
    var calls: seq<Target> := [];
    var partNumber: nat := 1;
    var startPage: nat := 1;
    assert calls + whole.calls == whole.calls;
    assert whole == After(calls, Drive(CallsFrom(startPage, partNumber, total, pagesPerSplit, base, dir), extract));
    while startPage <= total
      invariant whole == After(calls, Drive(CallsFrom(startPage, partNumber, total, pagesPerSplit, base, dir), extract))
      decreases total - startPage
    {
      var endPage: nat := startPage + pagesPerSplit - 1;
      if endPage > total {
        endPage := total;
      }
      var selection := PageSelection(startPage, endPage);
      var path := OutputPath(dir, PartFilename(base, partNumber));
      var target := Target(Window(startPage, endPage, partNumber), selection, path);
      LoopStep(calls, startPage, partNumber, total, pagesPerSplit, base, dir, extract, whole, target);
      calls := calls + [target];
      if !extract(target) {
        return Run(calls, Failure(ExtractError(selection, path)));
      }
      partNumber := partNumber + 1;
      startPage := startPage + pagesPerSplit;
    }
    assert CallsFrom(startPage, partNumber, total, pagesPerSplit, base, dir) == [];
    assert calls + [] == calls;
    return Run(calls, Success);
  }

  lemma AfterAfter(a: seq<Target>, b: seq<Target>, r: Run)
    ensures After(a, After(b, r)) == After(a + b, r)
  {
    assert a + (b + r.calls) == (a + b) + r.calls;
  }

  /** splitPDF written as the Go code is: the same branches in the same
      order. It makes exactly the calls and returns exactly the outcome that
      Split describes. */
  method SplitPdf(input: string, outputDir: string, pagesPerSplit: int, env: Env) returns (run: Run)
    requires pagesPerSplit >= 1
    ensures run == Split(input, outputDir, pagesPerSplit, env)
  {
    var dir := outputDir;
    if dir == [] {
      if env.workingDir.None? {
        return Run([], Failure(WorkingDirError));
      }
      dir := env.workingDir.value;
    }
    assert OutputDirectory(outputDir, env.workingDir) == Some(dir);
    if !env.makeDir(dir) {
      return Run([], Failure(CreateDirError(dir)));
    }
    var base := Base(input);
    if |base| > 4 && Ext(base) == ".pdf" {
      base := base[..|base| - 4];
    }
    assert base == OutputBase(input);
    var count := env.pageCount(input);
    if count.None? {
      return Run([], Failure(ReadError(input)));
    }
    run := ExtractWindows(base, dir, count.value, pagesPerSplit, env.extract);
  }

  /** The extraction calls of a run that succeeded: every call made, except
      the last one when the run failed on it. */
  function Completed(r: Run): seq<Target> {
    if r.outcome.Failure? && r.calls != [] then r.calls[..|r.calls| - 1] else r.calls
  }

  /** A failure before the window loop (no working directory, no output
      directory, unreadable input) makes no extraction call and completes
      none; an extraction failure always follows at least one call. */
  lemma SplitSetupFailureMakesNoCalls(input: string, outputDir: string, pagesPerSplit: int, env: Env)
    requires pagesPerSplit >= 1
    ensures var r := Split(input, outputDir, pagesPerSplit, env);
      && (r.outcome.Failure? && !r.outcome.error.ExtractError? ==> r.calls == [] && Completed(r) == [])
      && (r.outcome.Failure? && r.outcome.error.ExtractError? ==> r.calls != [])
  {
    match OutputDirectory(outputDir, env.workingDir)
    case None =>
    case Some(dir) =>
      match env.pageCount(input)
      case None =>
      case Some(total) => DriveStopsAtFirstFailure(Plan(input, dir, total, pagesPerSplit), env.extract);
  }

  lemma {:induction false} TargetsIndex(ws: seq<Window>, base: string, dir: string)
    ensures forall i :: 0 <= i < |ws| ==> Targets(ws, base, dir)[i] == TargetFor(ws[i], base, dir)
  {
    if ws != [] {
      TargetsIndex(ws[1..], base, dir);
    }
  }

  /** Call i of the plan is for window i: pages ws[i].first to ws[i].last
      in its selection, part number i + 1 in its file name, under `dir`. */
  lemma {:induction false} PlanFollowsWindows(input: string, dir: string, total: int, size: nat)
    requires size >= 1
    ensures var plan := Plan(input, dir, total, size);
      var ws := Windows(total, size);
      && |plan| == |ws| == WindowCount(total, size)
      && forall i :: 0 <= i < |plan| ==>
           && plan[i].window == ws[i]
           && ParsePageSelection(plan[i].selection) == Some((ws[i].first, ws[i].last))
           && plan[i].path == OutputPath(dir, PartFilename(OutputBase(input), i + 1))
  {
    var plan := Plan(input, dir, total, size);
    var ws := Windows(total, size);
    TargetsIndex(ws, OutputBase(input), dir);
    WindowsCount(total, size);
    WindowsBounded(total, size);
    forall i | 0 <= i < |plan|
      ensures ParsePageSelection(plan[i].selection) == Some((ws[i].first, ws[i].last))
    {
      PageSelectionRoundTrip(ws[i].first, ws[i].last);
    }
  }

  /** No two calls of the plan write the same output path. */
  lemma {:induction false} PlanPathsDistinct(input: string, dir: string, total: int, size: nat)
    requires size >= 1
    ensures var plan := Plan(input, dir, total, size);
      forall i, j :: 0 <= i < |plan| && 0 <= j < |plan| && plan[i].path == plan[j].path ==> i == j
  {
    var plan := Plan(input, dir, total, size);
    PlanFollowsWindows(input, dir, total, size);
    forall i, j | 0 <= i < |plan| && 0 <= j < |plan| && plan[i].path == plan[j].path
      ensures i == j
    {
      PartFilenameInjective(OutputBase(input), i + 1, j + 1);
    }
  }

  /** When call k is the first to fail, exactly calls 0..k are made and the
      run fails with call k's selection and path. */
  lemma {:induction false} DriveFirstFailure(ts: seq<Target>, extract: Target -> bool, k: nat)
    requires k < |ts| && !extract(ts[k])
    requires forall i :: 0 <= i < k ==> extract(ts[i])
    ensures Drive(ts, extract) == Run(ts[..k + 1], Failure(ExtractError(ts[k].selection, ts[k].path)))
  {
    if k > 0 {
      DriveFirstFailure(ts[1..], extract, k - 1);
      assert [ts[0]] + ts[1..][..k] == ts[..k + 1];
    }
  }

  /** When every call succeeds, all of them are made and the run succeeds. */
  lemma {:induction false} DriveAllSucceed(ts: seq<Target>, extract: Target -> bool)
    requires forall i :: 0 <= i < |ts| ==> extract(ts[i])
    ensures Drive(ts, extract) == Run(ts, Success)
  {
    if ts != [] {
      DriveAllSucceed(ts[1..], extract);
      assert [ts[0]] + ts[1..] == ts;
    }
  }

  /** Once the directory is resolved and created and the page count is
      read, splitPDF drives the planned calls. */
  lemma SplitDrivesPlan(input: string, outputDir: string, pagesPerSplit: int, env: Env, dir: string, total: int)
    requires pagesPerSplit >= 1
    requires OutputDirectory(outputDir, env.workingDir) == Some(dir) && env.makeDir(dir)
    requires env.pageCount(input) == Some(total)
    ensures Split(input, outputDir, pagesPerSplit, env) == Drive(Plan(input, dir, total, pagesPerSplit), env.extract)
  {
  }

  /** Abort on the first failure: if the extraction of window k is the first
      to fail, windows 0..k are attempted in order, none after k is, the
      extractions of windows 0..k-1 completed, and the error names window
      k's selection and path. */
  lemma SplitAbortsOnFirstFailure(input: string, outputDir: string, pagesPerSplit: int, env: Env, dir: string, total: int, k: nat)
    requires pagesPerSplit >= 1
    requires OutputDirectory(outputDir, env.workingDir) == Some(dir) && env.makeDir(dir)
    requires env.pageCount(input) == Some(total)
    requires var plan := Plan(input, dir, total, pagesPerSplit);
      && k < |plan| && !env.extract(plan[k])
      && forall i :: 0 <= i < k ==> env.extract(plan[i])
    ensures var plan := Plan(input, dir, total, pagesPerSplit);
      var r := Split(input, outputDir, pagesPerSplit, env);
      && r == Run(plan[..k + 1], Failure(ExtractError(plan[k].selection, plan[k].path)))
      && Completed(r) == plan[..k]
  {
    var plan := Plan(input, dir, total, pagesPerSplit);
    SplitDrivesPlan(input, outputDir, pagesPerSplit, env, dir, total);
    DriveFirstFailure(plan, env.extract, k);
    CompletedAfterFailure(plan, k, ExtractError(plan[k].selection, plan[k].path));
  }

  lemma CompletedAfterFailure(ts: seq<Target>, k: nat, e: Error)
    requires k < |ts|
    ensures Completed(Run(ts[..k + 1], Failure(e))) == ts[..k]
  {
    assert ts[..k + 1][..k] == ts[..k];
  }

  /** When every extraction succeeds, every window is extracted, in order,
      and splitPDF returns nil; an empty document makes no call at all. */
  lemma SplitSucceeds(input: string, outputDir: string, pagesPerSplit: int, env: Env, dir: string, total: int)
    requires pagesPerSplit >= 1
    requires OutputDirectory(outputDir, env.workingDir) == Some(dir) && env.makeDir(dir)
    requires env.pageCount(input) == Some(total)
    requires var plan := Plan(input, dir, total, pagesPerSplit);
      forall i :: 0 <= i < |plan| ==> env.extract(plan[i])
    ensures var plan := Plan(input, dir, total, pagesPerSplit);
      var r := Split(input, outputDir, pagesPerSplit, env);
      && r == Run(plan, Success)
      && Completed(r) == plan
      && (total <= 0 ==> r == Run([], Success))
  {
    SplitDrivesPlan(input, outputDir, pagesPerSplit, env, dir, total);
    DriveAllSucceed(Plan(input, dir, total, pagesPerSplit), env.extract);
    WindowsCount(total, pagesPerSplit);
  }
}
