/** The worker loop (`Client.Run` in main.go): fetch the resolver list once,
    then repeat the cycle "download a work batch, run the resolver, parse its
    output, upload the result, remove the cycle's files". Network transfers
    and the resolver subprocess are not modelled; how each of them ends is an
    input, and the model records the actions taken and the scratch files
    that exist. */
module Worker {
  import Parser

  /** Back-off after a failed batch download, in seconds. */
  const DownloadRetrySleep: nat := 10
  /** Back-off after an upload that returned an error, in seconds. */
  const UploadRetrySleep: nat := 60

  /** The fixed scratch files: /tmp/resolvers.txt, /tmp/input.txt,
      /tmp/output.txt and /tmp/results.txt. */
  datatype Path = Resolvers | Input | Output | Results

  /** How one call of Download ends. */
  datatype DownloadOutcome =
    | CreateFailed   // the destination could not be created; nothing was requested
    | RequestFailed  // the destination was created (truncated), then the request,
                     // the transport, the status or the copy of the body failed
    | Downloaded

  /** How one call of Upload ends. */
  datatype UploadOutcome =
    | Accepted
    | Rejected  // an error is returned: the request could not be built, or the final
                // response had a status other than 200 that the retrying client gave back
    | Aborted   // log.Fatal: the file could not be opened, the form part not created, or
                // the retrying client returned an error (a transport failure, or a
                // retried status such as a 5xx other than 501 after its retries ran out)

  /** How the resolver subprocess ends: with the lines it wrote to
      /tmp/output.txt, or failing to start or exiting with an error (log.Fatal),
      in which case it may or may not have created /tmp/output.txt. */
  datatype ResolverOutcome = Finished(output: seq<string>) | Failed(createdOutput: bool)

  /** What the outside world does during one cycle. */
  datatype CycleOutcomes = CycleOutcomes(download: DownloadOutcome, resolver: ResolverOutcome, upload: UploadOutcome)

  /** The observable steps of the worker. */
  datatype Action =
    | Download(dest: Path)  // a GET of the fixed URL for dest into dest
    | Sleep(seconds: nat)
    | RunResolver
    | Parse
    | Upload(body: string)  // the upload of the result file, whose text is body; when it
                            // aborts before the request is built, nothing is sent
    | Remove(path: Path)
    | Exit  // the process ends (log.Fatal or panic)

  /** The files after a download to `dest` that ended with `outcome`: the
      destination is created before the request is made. */
  function AfterDownload(files: set<Path>, dest: Path, outcome: DownloadOutcome): (files': set<Path>)
    ensures dest in files' <==> dest in files || !outcome.CreateFailed?
    ensures files' - {dest} == files - {dest}
  {
    if outcome.CreateFailed? then files else files + {dest}
  }

  /** Every upload in `trace` comes right after the resolver and the parser ran. */
  ghost predicate UploadsFollowParse(trace: seq<Action>) {
    forall i :: 0 <= i < |trace| && trace[i].Upload? ==> 2 <= i && trace[i - 2] == RunResolver && trace[i - 1] == Parse
  }

  /** Every resolver run in `trace` comes right after a batch download. */
  ghost predicate ResolverFollowsDownload(trace: seq<Action>) {
    forall i :: 0 <= i < |trace| && trace[i] == RunResolver ==> 1 <= i && trace[i - 1] == Download(Input)
  }

  /** The process lives through a cycle unless the resolver fails or the upload aborts. */
  predicate Survives(o: CycleOutcomes) {
    !o.download.Downloaded? || (o.resolver.Finished? && !o.upload.Aborted?)
  }

  /** The steps of one iteration of the loop of Run. */
  function CycleTrace(o: CycleOutcomes): seq<Action> {
    if !o.download.Downloaded? then
      [Download(Input), Sleep(DownloadRetrySleep)]
    else match o.resolver
      case Failed(_) => [Download(Input), RunResolver, Exit]
      case Finished(output) =>
        [Download(Input), RunResolver, Parse, Upload(Parser.Render(Parser.Results(output)))]
        + AfterUpload(o.upload)
  }

  /** The steps that follow an upload that ended with `u`. */
  function AfterUpload(u: UploadOutcome): seq<Action> {
    match u
    case Aborted => [Exit]
    case Rejected => [Sleep(UploadRetrySleep), Remove(Input), Remove(Output), Remove(Results)]
    case Accepted => [Remove(Input), Remove(Output), Remove(Results)]
  }

  /** The scratch files after one iteration that started with `files`. */
  function CycleFiles(files: set<Path>, o: CycleOutcomes): set<Path> {
    var downloaded := AfterDownload(files, Input, o.download);
    if !o.download.Downloaded? then downloaded
    else if o.resolver.Failed? then downloaded + (if o.resolver.createdOutput then {Output} else {})
    else if o.upload.Aborted? then downloaded + {Output, Results}
    else downloaded - {Input, Output, Results}
  }

  /** A failed batch download only backs off: the resolver does not run,
      nothing is parsed, uploaded or removed, and the batch file stays
      (created empty) unless it could not be created. */
  lemma FailedDownloadSkipsCycle(files: set<Path>, o: CycleOutcomes)
    requires !o.download.Downloaded?
    ensures forall a :: a in CycleTrace(o) ==> a == Download(Input) || a == Sleep(DownloadRetrySleep)
    ensures CycleTrace(o)[|CycleTrace(o)| - 1] == Sleep(DownloadRetrySleep)
    ensures Survives(o)
    ensures Input in CycleFiles(files, o) <==> Input in files || o.download.RequestFailed?
    ensures CycleFiles(files, o) - {Input} == files - {Input}
  {
  }

  /** After a download the resolver runs, then the parser, then the upload of
      exactly the text ProcessOutput writes for the resolver's output. */
  lemma DownloadedCycleOrder(o: CycleOutcomes)
    requires o.download.Downloaded? && o.resolver.Finished?
    ensures |CycleTrace(o)| >= 5
    ensures CycleTrace(o)[..4]
      == [Download(Input), RunResolver, Parse, Upload(Parser.Render(Parser.Results(o.resolver.output)))]
  {
  }

  /** When the process lives through a cycle with a download, the cycle ends
      by removing the batch, the resolver output and the result file, whatever
      the upload returned; only a returned upload error adds the long back-off. */
  lemma CompletedCycleCleansUp(files: set<Path>, o: CycleOutcomes)
    requires o.download.Downloaded? && Survives(o)
    ensures var t := CycleTrace(o);
      && |t| >= 7
      && t[|t| - 3..] == [Remove(Input), Remove(Output), Remove(Results)]
      && (Sleep(UploadRetrySleep) in t <==> o.upload.Rejected?)
    ensures CycleFiles(files, o) == files - {Input, Output, Results}
  {
    var t := CycleTrace(o);
    if o.upload.Rejected? {
      assert t[4] == Sleep(UploadRetrySleep);
    } else {
      assert forall i :: 0 <= i < |t| ==> t[i] != Sleep(UploadRetrySleep);
    }
  }

  /** The process ends in a cycle exactly when the resolver fails or the
      upload aborts, and then as the cycle's last step. */
  lemma ExitOnlyWhenFatal(o: CycleOutcomes)
    ensures var t := CycleTrace(o);
      && |t| >= 2
      && (Exit in t <==> !Survives(o))
      && (!Survives(o) ==> t[|t| - 1] == Exit)
      && forall i :: 0 <= i < |t| - 1 ==> t[i] != Exit
  {
  }

  /** Within a cycle, every upload follows a parse that follows a resolver run
      that follows a batch download, and the resolver list is not fetched again. */
  lemma CycleOrdering(o: CycleOutcomes)
    ensures var t := CycleTrace(o);
      && t[0] == Download(Input)
      && UploadsFollowParse(t) && ResolverFollowsDownload(t)
      && Download(Resolvers) !in t
  {
    if o.download.Downloaded? && o.resolver.Finished? {
      UploadingCycleOrdering(Parser.Render(Parser.Results(o.resolver.output)), o.upload);
    }
  }

  /** CycleOrdering for a cycle that reaches the upload, whatever its body. */
  lemma UploadingCycleOrdering(body: string, u: UploadOutcome)
    ensures var t := [Download(Input), RunResolver, Parse, Upload(body)] + AfterUpload(u);
      && UploadsFollowParse(t) && ResolverFollowsDownload(t)
      && Download(Resolvers) !in t
  {
    var t := [Download(Input), RunResolver, Parse, Upload(body)] + AfterUpload(u);
    forall i | 0 <= i < |t|
      ensures (t[i].Upload? ==> i == 3) && (t[i] == RunResolver ==> i == 1) && t[i] != Download(Resolvers)
    {
      if i >= 4 {
        assert t[i] == AfterUpload(u)[i - 4];
      }
    }
  }

  /** One iteration of the endless loop of Run, starting with the scratch
      files `files`. `alive` is false when the process ended during it. */
  method RunCycle(files: set<Path>, o: CycleOutcomes) returns (files': set<Path>, trace: seq<Action>, alive: bool)
    ensures trace == CycleTrace(o)
    ensures files' == CycleFiles(files, o)
    ensures alive == Survives(o)
  {
    files' := AfterDownload(files, Input, o.download);
    if !o.download.Downloaded? {
      // log the error, back off, `continue`
      return files', [Download(Input), Sleep(DownloadRetrySleep)], true;
    }
    if o.resolver.Failed? {
      if o.resolver.createdOutput {
        files' := files' + {Output};
      }
      return files', [Download(Input), RunResolver, Exit], false;
    }
    files' := files' + {Output};
    var written := Parser.ProcessOutput(o.resolver.output);
    files' := files' + {Results};
    trace := [Download(Input), RunResolver, Parse, Upload(written)];
    if o.upload.Aborted? {
      return files', trace + [Exit], false;
    }
    if o.upload.Rejected? {
      // log the error, back off
      trace := trace + [Sleep(UploadRetrySleep)];
    }
    trace := trace + [Remove(Input), Remove(Output), Remove(Results)];
    files' := files' - {Input, Output, Results};
    alive := true;
  }

  /** The resolver list is fetched as the first step of `trace` and never again. */
  ghost predicate FetchesResolversOnce(trace: seq<Action>) {
    && trace != [] && trace[0] == Download(Resolvers)
    && forall i :: 0 < i < |trace| ==> trace[i] != Download(Resolvers)
  }

  /** No step of `trace` but the last ends the process. */
  ghost predicate ExitOnlyLast(trace: seq<Action>) {
    forall i :: 0 <= i < |trace| - 1 ==> trace[i] != Exit
  }

  /** The steps of Run up to the end of its first `n` cycles: the fetch of
      the resolver list, then the steps of each cycle, one after the other. */
  function RunTrace(cycles: seq<CycleOutcomes>, n: nat): seq<Action>
    requires n <= |cycles|
  {
    if n == 0 then [Download(Resolvers)] else RunTrace(cycles, n - 1) + CycleTrace(cycles[n - 1])
  }

  /** The scratch files after the first `n` cycles of `cycles`, starting with `files`. */
  function FilesAfter(files: set<Path>, cycles: seq<CycleOutcomes>, n: nat): set<Path>
    requires n <= |cycles|
  {
    if n == 0 then files else CycleFiles(FilesAfter(files, cycles, n - 1), cycles[n - 1])
  }

  /** Run over the outcomes of its first `|cycles|` iterations, starting with
      no scratch files. `done` counts the cycles that were started; `alive`
      is false when the process ended. */
  method Run(bootstrap: DownloadOutcome, cycles: seq<CycleOutcomes>)
    returns (files: set<Path>, trace: seq<Action>, done: nat, alive: bool)
    ensures done <= |cycles|
    // the resolver list is fetched first; without it the process ends
    ensures !bootstrap.Downloaded? ==>
      && trace == [Download(Resolvers), Exit] && files == AfterDownload({}, Resolvers, bootstrap)
      && !alive && done == 0
    // then the cycles run one after the other, each as CycleTrace and CycleFiles say
    ensures bootstrap.Downloaded? ==>
      && trace == RunTrace(cycles, done)
      && files == FilesAfter({Resolvers}, cycles, done)
    // the loop goes on until the first fatal outcome, and only then stops early
    ensures bootstrap.Downloaded? ==> forall i :: 0 <= i < done - 1 ==> Survives(cycles[i])
    ensures alive <==> bootstrap.Downloaded? && (done == 0 || Survives(cycles[done - 1]))
    ensures alive ==> done == |cycles|
    // what the trace and the files then satisfy
    ensures Guarantees(trace, files, !alive)
  {
    if !bootstrap.Downloaded? {
      // panic
      return AfterDownload({}, Resolvers, bootstrap), [Download(Resolvers), Exit], 0, false;
    }
    files, trace, done, alive := CycleLoop(cycles);
    if done > 0 {
      AllSurviveMeans(cycles, done - 1);
    }
    CyclesKeepGuarantees(cycles, done);
    assert !alive == (done > 0 && !Survives(cycles[done - 1]));
  }

  /** The endless loop of Run, once the resolver list is in place, over the
      outcomes of its first `|cycles|` iterations: the cycles run one after
      the other until the first fatal one. */
  method CycleLoop(cycles: seq<CycleOutcomes>)
    returns (files: set<Path>, trace: seq<Action>, done: nat, alive: bool)
    ensures done <= |cycles|
    ensures trace == RunTrace(cycles, done)
    ensures files == FilesAfter({Resolvers}, cycles, done)
    ensures alive ==> done == |cycles| && AllSurvive(cycles, done)
    ensures !alive ==> 0 < done && AllSurvive(cycles, done - 1) && !Survives(cycles[done - 1])
  {
    files, trace, done, alive := {Resolvers}, [Download(Resolvers)], 0, true;
    while done < |cycles|
      invariant done <= |cycles|
      invariant trace == RunTrace(cycles, done)
      invariant files == FilesAfter({Resolvers}, cycles, done)
      invariant AllSurvive(cycles, done)
    {
      var files', t, ok := RunCycle(files, cycles[done]);
      LoopStep(cycles, done, trace, files, t, files');
      if !ok {
        // log.Fatal or panic: the process ends
        return files', trace + t, done + 1, false;
      }
      files, trace, done := files', trace + t, done + 1;
    }
  }

  /** The loop of Run goes from `n` to `n + 1` cycles: the trace and the
      files so far grow by those of cycle `n`, which was started only because
      every cycle before it let the process live. */
  lemma LoopStep(cycles: seq<CycleOutcomes>, n: nat, trace: seq<Action>, files: set<Path>, t: seq<Action>, files': set<Path>)
    requires n < |cycles|
    requires trace == RunTrace(cycles, n) && t == CycleTrace(cycles[n])
    requires files == FilesAfter({Resolvers}, cycles, n) && files' == CycleFiles(files, cycles[n])
    requires AllSurvive(cycles, n)
    ensures trace + t == RunTrace(cycles, n + 1)
    ensures files' == FilesAfter({Resolvers}, cycles, n + 1)
    ensures Survives(cycles[n]) ==> AllSurvive(cycles, n + 1)
  {
  }

  /** The guarantees of Run on the trace so far and the scratch files: the
      resolver list is fetched first and only once, the process ends only as
      the last step, every upload follows a parse and a resolver run, and the
      trace ends with Exit when `fatal`; otherwise the process lives and no
      resolver output or result file is left. */
  ghost predicate Guarantees(trace: seq<Action>, files: set<Path>, fatal: bool) {
    && FetchesResolversOnce(trace) && ExitOnlyLast(trace)
    && UploadsFollowParse(trace) && ResolverFollowsDownload(trace)
    && (fatal ==> trace[|trace| - 1] == Exit)
    && (!fatal ==> Exit !in trace && Resolvers in files && Output !in files && Results !in files)
  }

  /** The first `n` cycles all let the process live. */
  predicate AllSurvive(cycles: seq<CycleOutcomes>, n: nat)
    requires n <= |cycles|
  {
    n == 0 || (AllSurvive(cycles, n - 1) && Survives(cycles[n - 1]))
  }

  lemma {:induction false} AllSurviveMeans(cycles: seq<CycleOutcomes>, n: nat)
    requires n <= |cycles|
    ensures AllSurvive(cycles, n) <==> forall i :: 0 <= i < n ==> Survives(cycles[i])
  {
    if n > 0 {
      AllSurviveMeans(cycles, n - 1);
    }
  }

  /** Cycles that all survive but perhaps the last keep the guarantees of Run,
      and the process has ended exactly when the last of them was fatal. */
  lemma {:induction false} CyclesKeepGuarantees(cycles: seq<CycleOutcomes>, n: nat)
    requires n <= |cycles|
    requires n > 0 ==> AllSurvive(cycles, n - 1)
    ensures Guarantees(RunTrace(cycles, n), FilesAfter({Resolvers}, cycles, n), n > 0 && !Survives(cycles[n - 1]))
  {
    if n > 0 {
      CyclesKeepGuarantees(cycles, n - 1);
      CycleStep(FilesAfter({Resolvers}, cycles, n - 1), RunTrace(cycles, n - 1), cycles[n - 1]);
    }
  }

  /** One more cycle keeps the loop's guarantees: on the trace so far, and on
      the scratch files between cycles. */
  lemma CycleStep(files: set<Path>, trace: seq<Action>, o: CycleOutcomes)
    requires Guarantees(trace, files, false)
    ensures Guarantees(trace + CycleTrace(o), CycleFiles(files, o), !Survives(o))
  {
    CycleOrdering(o);
    ExitOnlyWhenFatal(o);
    if Survives(o) && o.download.Downloaded? {
      CompletedCycleCleansUp(files, o);
    } else if Survives(o) {
      FailedDownloadSkipsCycle(files, o);
    }
    AppendCycle(trace, CycleTrace(o));
  }

  /** Appending a cycle's trace keeps the guarantees of the whole trace. */
  lemma AppendCycle(trace: seq<Action>, t: seq<Action>)
    requires FetchesResolversOnce(trace) && Exit !in trace
    requires UploadsFollowParse(trace) && ResolverFollowsDownload(trace)
    requires t != [] && UploadsFollowParse(t) && ResolverFollowsDownload(t) && ExitOnlyLast(t)
    requires Download(Resolvers) !in t
    ensures FetchesResolversOnce(trace + t) && ExitOnlyLast(trace + t)
    ensures UploadsFollowParse(trace + t) && ResolverFollowsDownload(trace + t)
    ensures (trace + t)[|trace + t| - 1] == t[|t| - 1]
    ensures Exit in trace + t <==> Exit in t
  {
    var all := trace + t;
    forall i | |trace| <= i < |all|
      ensures all[i] == t[i - |trace|]
    {
    }
  }
}
