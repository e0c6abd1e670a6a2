/** `vhdbuilder/release-notes/autonotes/main.go`: which artifacts are downloaded, and the
    protocol between the collector `run` and one `getReleaseNotes` worker per artifact. */
module ReleaseNotes {
  import opened Text

  // ---------------------------------------------------------------------------------------
  // Selection
  // ---------------------------------------------------------------------------------------

  function StripWhitespace(s: string): (r: string)
    ensures forall c :: c in r <==> c in s && !IsSpace(c)
    ensures |s| == 1 ==> r == if IsSpace(s[0]) then "" else s
    ensures (forall c | c in s :: !IsSpace(c)) ==> r == s
  {
    if s == "" then ""
    else
      var rest := StripWhitespace(s[1..]);
      if IsSpace(s[0]) then rest else [s[0]] + rest
  }

  /** Every part of a flag is stripped on its own, so that all other characters stay in order. */
  lemma {:induction false} StripConcat(a: string, b: string)
    ensures StripWhitespace(a + b) == StripWhitespace(a) + StripWhitespace(b)
  {
    if a == "" {
      assert a + b == b;
    } else {
      assert (a + b)[1..] == a[1..] + b;
      StripConcat(a[1..], b);
    }
  }

  /** The names a flag lists; a flag of nothing but white space counts as not given. */
  function Names(flag: string): set<string> {
    if StripWhitespace(flag) == "" then {}
    else set t | t in Split(StripWhitespace(flag), ',')
  }

  predicate Given(flag: string) {
    StripWhitespace(flag) != ""
  }

  /** What the flags promise: everything that is not ignored, restricted to the include list
      when there is one. */
  predicate Wanted(key: string, includeFlag: string, ignoreFlag: string) {
    key !in Names(ignoreFlag) && (Given(includeFlag) ==> key in Names(includeFlag))
  }

  method TokenMap(flag: string) returns (m: map<string, bool>)
    ensures m.Keys == Names(flag) && forall k | k in m :: m[k]
    ensures m == map[] <==> !Given(flag)
  {
    m := map[];
    var stripped := StripWhitespace(flag);
    if |stripped| > 0 {
      var tokens := Split(stripped, ',');
      for i := 0 to |tokens|
        invariant m.Keys == set t | t in tokens[..i]
        invariant forall k | k in m :: m[k]
      {
        m := m[tokens[i] := true];
        assert tokens[..i + 1] == tokens[..i] + [tokens[i]];
      }
      assert tokens[..|tokens|] == tokens;
      assert tokens[0] in m;
    }
  }

  /** The selection of `run`. */
  method SelectArtifacts(includeFlag: string, ignoreFlag: string, artifactToPath: map<string, string>)
    returns (artifactsToDownload: map<string, string>)
    ensures artifactsToDownload ==
            map k | k in artifactToPath && Wanted(k, includeFlag, ignoreFlag) :: artifactToPath[k]
  {
    var included := TokenMap(includeFlag);
    var ignored := TokenMap(ignoreFlag);
    var enforceInclude := |included| > 0;
    assert enforceInclude <==> Given(includeFlag) by {
      assert included == map[] <==> |included| == 0;
    }
    artifactsToDownload := SelectionLoop(artifactToPath, included, ignored, enforceInclude);
  }

  /** Its loop. The key `todo` hands out next is arbitrary, as in Go. */
  method SelectionLoop(artifactToPath: map<string, string>, included: map<string, bool>, ignored: map<string, bool>, enforceInclude: bool)
    returns (artifactsToDownload: map<string, string>)
    ensures artifactsToDownload ==
            map k | k in artifactToPath && k !in ignored && (enforceInclude ==> k in included) :: artifactToPath[k]
  {
    ghost var kept := map k | k in artifactToPath && k !in ignored && (enforceInclude ==> k in included) :: artifactToPath[k];
    artifactsToDownload := map[];
    var todo := artifactToPath.Keys;
    while todo != {}
      invariant todo <= artifactToPath.Keys
      invariant artifactsToDownload == map k | k in kept && k !in todo :: artifactToPath[k]
    {
      var key :| key in todo;
      todo := todo - {key};
      if key in ignored {
        continue;
      }
      if enforceInclude && key !in included {
        continue;
      }
      artifactsToDownload := artifactsToDownload[key := artifactToPath[key]];
    }
  }

  /** The two example invocations are complementary: ONLY these and everything EXCEPT these
      partition the artifact table, provided the flag names anything at all. */
  lemma IncludeAndIgnorePartition(flag: string, key: string)
    ensures Given(flag) ==> (Wanted(key, flag, "") <==> !Wanted(key, "", flag))
    ensures !Given(flag) ==> Wanted(key, flag, "") && Wanted(key, "", flag)
  {
    assert StripWhitespace("") == "";
  }

  /** An artifact that is ignored is not downloaded, whatever is included; one that is included
      and not ignored is. */
  lemma IgnoreWins(includeFlag: string, ignoreFlag: string, key: string)
    ensures key in Names(ignoreFlag) ==> !Wanted(key, includeFlag, ignoreFlag)
    ensures key in Names(includeFlag) ==> (Wanted(key, includeFlag, ignoreFlag) <==> key !in Names(ignoreFlag))
  {}

  /** A flag that lists names, with any white space around and inside it, names just these. */
  lemma NamesOfList(flag: string, names: seq<string>)
    requires names != [] && (forall n | n in names :: ',' !in n) && Join(names, ',') != ""
    requires StripWhitespace(flag) == Join(names, ',')
    ensures Given(flag) && forall n :: n in Names(flag) <==> n in names
  {
    SplitJoin(names, ',');
  }

  // ---------------------------------------------------------------------------------------
  // Protocol
  // ---------------------------------------------------------------------------------------

  /** The four places where a worker can fail. */
  datatype Stage = TempDir | MkdirAll | Download | Rename

  /** Where a worker is: about to do a stage's file or process operation, blocked sending the
      error of a stage, running its deferred clean-up, blocked sending `done`, or ended. */
  datatype Pc = Do(stage: Stage) | SendErr(stage: Stage) | CleanUp | SendDone | Ended

  /** A worker, with the stages whose error it has delivered, whether the note file reached its
      final name, and whether the working directory was removed: the worker ignores an error there. */
  datatype Worker = Worker(pc: Pc, reported: seq<Stage>, written: bool, cleaned: bool)

  /** One error as the collector sees it. */
  datatype Report = Report(sku: string, stage: Stage)

  datatype State = State(workers: map<string, Worker>, receives: nat, errs: seq<Report>)

  /** A worker's operation with its outcome (one step for the whole stage), or a rendezvous on
      one of the two unbuffered channels, in which the collector takes part. */
  datatype Step =
    | Local(sku: string, ok: bool)
    | ReceiveErr(sku: string)
    | ReceiveDone(sku: string)

  const FRESH := Worker(Do(TempDir), [], false, false)

  function Init(skus: set<string>): State {
    State(map s | s in skus :: FRESH, 0, [])
  }

  /** The collector stands in its loop: it has received fewer than `len(artifactsToDownload)` times. */
  predicate Collecting(st: State) {
    st.receives < |st.workers|
  }

  predicate Enabled(st: State, step: Step) {
    step.sku in st.workers &&
    var pc := st.workers[step.sku].pc;
    match step
    case Local(_, _) => pc.Do? || pc.CleanUp?
    case ReceiveErr(_) => Collecting(st) && pc.SendErr?
    case ReceiveDone(_) => Collecting(st) && pc.SendDone?
  }

  /** The operation of a stage. A failed TempDir is reported and the worker carries on; any
      other failure is reported and the worker returns. */
  function AfterLocal(w: Worker, ok: bool): Worker
    requires w.pc.Do? || w.pc.CleanUp?
  {
    match w.pc
    case Do(stage) =>
      if !ok then w.(pc := SendErr(stage))
      else if stage == Rename then w.(pc := CleanUp, written := true)
      else w.(pc := Do(NextStage(stage)))
    case CleanUp => w.(pc := SendDone, cleaned := ok)
  }

  function NextStage(stage: Stage): Stage
    requires stage != Rename
  {
    match stage
    case TempDir => MkdirAll
    case MkdirAll => Download
    case Download => Rename
  }

  function AfterErr(w: Worker): Worker
    requires w.pc.SendErr?
  {
    var sent := w.(reported := w.reported + [w.pc.stage]);
    if w.pc.stage == TempDir then sent.(pc := Do(MkdirAll)) else sent.(pc := CleanUp)
  }

  function Apply(st: State, step: Step): State
    requires Enabled(st, step)
  {
    var w := st.workers[step.sku];
    match step
    case Local(sku, ok) => st.(workers := st.workers[sku := AfterLocal(w, ok)])
    case ReceiveErr(sku) =>
      State(st.workers[sku := AfterErr(w)], st.receives + 1, st.errs + [Report(sku, w.pc.stage)])
    case ReceiveDone(sku) =>
      State(st.workers[sku := w.(pc := Ended)], st.receives + 1, st.errs)
  }

  /** `run` from its first spawned worker to the state `st`, by the given interleaving. */
  ghost predicate Reaches(skus: set<string>, steps: seq<Step>, st: State) {
    if steps == [] then st == Init(skus)
    else
      var last := |steps| - 1;
      exists before: State | Reaches(skus, steps[..last], before) ::
        Enabled(before, steps[last]) && st == Apply(before, steps[last])
  }

  // ---------------------------------------------------------------------------------------
  // What every step keeps
  // ---------------------------------------------------------------------------------------

  /** The workers whose `done` has not been received. */
  function Unfinished(st: State): set<string> {
    set s | s in st.workers && st.workers[s].pc != Ended
  }

  /** The errors received from one worker, in order. */
  function From(errs: seq<Report>, sku: string): seq<Stage> {
    if errs == [] then []
    else
      var rest := From(errs[..|errs| - 1], sku);
      var last := errs[|errs| - 1];
      if last.sku == sku then rest + [last.stage] else rest
  }

  /** Nothing but a TempDir failure was reported. */
  predicate ThroughSoFar(reported: seq<Stage>) {
    reported == [] || reported == [TempDir]
  }

  /** A worker sends at most the TempDir error and one other, and only a worker that got
      through without the other one has written its file. */
  predicate WorkerInv(w: Worker) {
    && (ThroughSoFar(w.reported) || ThroughSoFar(w.reported[..|w.reported| - 1]))
    && (w.pc == Do(TempDir) || w.pc == SendErr(TempDir) ==> w.reported == [])
    && (w.pc.Do? || w.pc.SendErr? ==> ThroughSoFar(w.reported) && !w.written)
    && (!w.pc.Do? && !w.pc.SendErr? ==> (w.written <==> ThroughSoFar(w.reported)))
    && (w.cleaned ==> w.pc == SendDone || w.pc == Ended)
  }

  /** Every received value is one worker's `done` or one recorded error, and no error is lost
      or attributed to another worker. */
  predicate Inv(skus: set<string>, st: State) {
    && st.workers.Keys == skus
    && st.receives <= |skus|
    && (forall s | s in st.workers :: WorkerInv(st.workers[s]))
    && (forall s | s in st.workers :: From(st.errs, s) == st.workers[s].reported)
    && (forall r | r in st.errs :: r.sku in st.workers)
    && st.receives + |Unfinished(st)| == |st.errs| + |skus|
  }

  lemma LastReporter(errs: seq<Report>)
    requires errs != []
    ensures errs[|errs| - 1] in errs && From(errs, errs[|errs| - 1].sku) != []
  {}

  lemma InitInv(skus: set<string>)
    ensures Inv(skus, Init(skus))
  {
    assert Unfinished(Init(skus)) == skus;
  }

  lemma FromSnoc(errs: seq<Report>, r: Report, sku: string)
    ensures From(errs + [r], sku) == From(errs, sku) + if r.sku == sku then [r.stage] else []
  {
    assert (errs + [r])[..|errs|] == errs;
  }

  lemma WorkerStepInv(w: Worker, ok: bool)
    requires WorkerInv(w)
    ensures w.pc.Do? || w.pc.CleanUp? ==> WorkerInv(AfterLocal(w, ok)) && AfterLocal(w, ok).reported == w.reported
    ensures w.pc.SendErr? ==> WorkerInv(AfterErr(w)) && AfterErr(w).reported == w.reported + [w.pc.stage]
    ensures w.pc.SendDone? ==> WorkerInv(w.(pc := Ended))
  {
    if w.pc.SendErr? {
      assert (w.reported + [w.pc.stage])[..|w.reported|] == w.reported;
    }
  }

  lemma UnfinishedStep(st: State, step: Step)
    requires Enabled(st, step)
    ensures Apply(st, step).workers.Keys == st.workers.Keys
    ensures Unfinished(Apply(st, step)) ==
            if step.ReceiveDone? then Unfinished(st) - {step.sku} else Unfinished(st)
    ensures step.sku in Unfinished(st)
  {}

  lemma StepWorkers(st: State, step: Step)
    requires Enabled(st, step) && forall s | s in st.workers :: WorkerInv(st.workers[s])
    ensures forall s | s in Apply(st, step).workers :: WorkerInv(Apply(st, step).workers[s])
  {
    WorkerStepInv(st.workers[step.sku], step.Local? && step.ok);
  }

  lemma StepReports(st: State, step: Step)
    requires Enabled(st, step) && WorkerInv(st.workers[step.sku])
    requires forall s | s in st.workers :: From(st.errs, s) == st.workers[s].reported
    ensures forall s | s in Apply(st, step).workers :: From(Apply(st, step).errs, s) == Apply(st, step).workers[s].reported
  {
    var next := Apply(st, step);
    var w := st.workers[step.sku];
    WorkerStepInv(w, step.Local? && step.ok);
    forall s | s in next.workers ensures From(next.errs, s) == next.workers[s].reported {
      if step.ReceiveErr? {
        FromSnoc(st.errs, Report(step.sku, w.pc.stage), s);
      }
    }
  }

  lemma StepCounts(st: State, step: Step)
    requires Enabled(st, step)
    ensures var next := Apply(st, step);
            next.receives + |Unfinished(next)| - |next.errs| == st.receives + |Unfinished(st)| - |st.errs|
  {
    UnfinishedStep(st, step);
  }

  lemma StepInv(skus: set<string>, st: State, step: Step)
    requires Inv(skus, st) && Enabled(st, step)
    ensures Inv(skus, Apply(st, step))
  {
    StepWorkers(st, step);
    StepReports(st, step);
    StepCounts(st, step);
    assert |st.workers| == |st.workers.Keys|;
    assert Apply(st, step).workers.Keys == skus;
  }

  lemma {:induction false} ReachableInv(skus: set<string>, steps: seq<Step>, st: State)
    requires Reaches(skus, steps, st)
    ensures Inv(skus, st)
  {
    if steps == [] {
      InitInv(skus);
    } else {
      var last := |steps| - 1;
      var before :| Reaches(skus, steps[..last], before)
                 && Enabled(before, steps[last]) && st == Apply(before, steps[last]);
      ReachableInv(skus, steps[..last], before);
      StepInv(skus, before, steps[last]);
    }
  }

  // ---------------------------------------------------------------------------------------
  // What the collector may conclude
  // ---------------------------------------------------------------------------------------

  /** In every interleaving: when `run` returns, exactly |errs| workers have not delivered
      `done`. */
  lemma UnfinishedAtReturn(skus: set<string>, steps: seq<Step>, st: State)
    requires Reaches(skus, steps, st) && !Collecting(st)
    ensures |Unfinished(st)| == |st.errs|
    ensures forall s | s in skus :: s in st.workers
  {
    ReachableInv(skus, steps, st);
  }

  /** A worker that has ended, failed nowhere and put its file in place. Whether its directory is
      gone is not known: the error of `os.RemoveAll` is dropped. */
  predicate Succeeded(w: Worker) {
    w.pc == Ended && w.reported == [] && w.written
  }

  /** The exit status is exact. `run` returns no error if and only if every worker has ended
      having reported nothing; then every selected note file is in place. */
  lemma SuccessMeansAllWritten(skus: set<string>, steps: seq<Step>, st: State)
    requires Reaches(skus, steps, st) && !Collecting(st)
    ensures st.errs == [] <==> forall s | s in st.workers :: Succeeded(st.workers[s])
  {
    ReachableInv(skus, steps, st);
    if st.errs == [] {
      assert Unfinished(st) == {};
      forall s | s in st.workers ensures Succeeded(st.workers[s]) {
        assert s !in Unfinished(st);
        assert From(st.errs, s) == [];
      }
    } else {
      LastReporter(st.errs);
    }
  }

  /** `run` waits for every worker exactly when there is nothing to report. */
  lemma AllEndedIffNoError(skus: set<string>, steps: seq<Step>, st: State)
    requires Reaches(skus, steps, st) && !Collecting(st)
    ensures Unfinished(st) == {} <==> st.errs == []
  {
    ReachableInv(skus, steps, st);
  }

  /** The worker failed in one of its stages in the course of this run. */
  ghost predicate Failed(skus: set<string>, steps: seq<Step>, sku: string) {
    steps != [] &&
    var last := |steps| - 1;
    Failed(skus, steps[..last], sku) ||
    (steps[last] == Local(sku, false) &&
     exists before: State | Reaches(skus, steps[..last], before) :: sku in before.workers && before.workers[sku].pc.Do?)
  }

  /** The state before the last step of a run. */
  lemma LastStep(skus: set<string>, steps: seq<Step>, st: State) returns (before: State)
    requires Reaches(skus, steps, st) && steps != []
    ensures Reaches(skus, steps[..|steps| - 1], before) && Enabled(before, steps[|steps| - 1])
    ensures st == Apply(before, steps[|steps| - 1])
  {
    var last := |steps| - 1;
    before :| Reaches(skus, steps[..last], before) && Enabled(before, steps[last]) && st == Apply(before, steps[last]);
  }

  lemma ReachableWorker(skus: set<string>, steps: seq<Step>, st: State, sku: string)
    requires Reaches(skus, steps, st) && sku in skus
    ensures sku in st.workers && WorkerInv(st.workers[sku])
  {
    ReachableInv(skus, steps, st);
  }

  lemma {:induction false} SameState(skus: set<string>, steps: seq<Step>, a: State, b: State)
    requires Reaches(skus, steps, a) && Reaches(skus, steps, b)
    ensures a == b
  {
    if steps != [] {
      var last := |steps| - 1;
      var a' :| Reaches(skus, steps[..last], a') && Enabled(a', steps[last]) && a == Apply(a', steps[last]);
      var b' :| Reaches(skus, steps[..last], b') && Enabled(b', steps[last]) && b == Apply(b', steps[last]);
      SameState(skus, steps[..last], a', b');
    }
  }

  predicate Reporting(w: Worker) {
    w.reported != [] || w.pc.SendErr?
  }

  lemma ReportingStep(st: State, step: Step, sku: string)
    requires Enabled(st, step) && sku in st.workers
    ensures sku in Apply(st, step).workers
    ensures Reporting(Apply(st, step).workers[sku]) <==>
            Reporting(st.workers[sku]) || (step == Local(sku, false) && st.workers[sku].pc.Do?)
  {}

  /** In every state of every run, the workers that have reported or are about to are those that
      failed. */
  lemma {:induction false} FailedIffReporting(skus: set<string>, steps: seq<Step>, st: State, sku: string)
    requires Reaches(skus, steps, st) && sku in skus
    ensures sku in st.workers && (Failed(skus, steps, sku) <==> Reporting(st.workers[sku]))
  {
    if steps != [] {
      var last := |steps| - 1;
      var before :| Reaches(skus, steps[..last], before)
                 && Enabled(before, steps[last]) && st == Apply(before, steps[last]);
      FailedIffReporting(skus, steps[..last], before, sku);
      ReportingStep(before, steps[last], sku);
      if b :| Reaches(skus, steps[..last], b) && sku in b.workers && b.workers[sku].pc.Do? {
        SameState(skus, steps[..last], b, before);
      }
    }
  }

  /** `run` reports nothing exactly when nothing failed: the error list is empty if and only if
      no stage of any worker failed in the course of the run. */
  lemma NoErrorIffNothingFailed(skus: set<string>, steps: seq<Step>, st: State)
    requires Reaches(skus, steps, st) && !Collecting(st)
    ensures st.errs == [] <==> forall s | s in skus :: !Failed(skus, steps, s)
  {
    ReachableInv(skus, steps, st);
    SuccessMeansAllWritten(skus, steps, st);
    forall s | s in skus ensures Failed(skus, steps, s) <==> Reporting(st.workers[s]) {
      FailedIffReporting(skus, steps, st, s);
    }
    if st.errs != [] {
      LastReporter(st.errs);
      var s := st.errs[|st.errs| - 1].sku;
      assert st.workers[s].reported != [];
    }
  }

  /** In this run the worker's operation at this stage is next. */
  ghost predicate StandsAt(skus: set<string>, steps: seq<Step>, sku: string, stage: Stage) {
    exists st: State | Reaches(skus, steps, st) :: sku in st.workers && st.workers[sku].pc == Do(stage)
  }

  /** The stages, in order, that a worker went through with the given outcome in this run. */
  ghost predicate WentThrough(skus: set<string>, steps: seq<Step>, sku: string, ok: bool, stages: seq<Stage>) {
    if steps == [] then stages == []
    else
      var last := |steps| - 1;
      if steps[last] == Local(sku, ok) && exists stage :: StandsAt(skus, steps[..last], sku, stage)
      then stages != [] && StandsAt(skus, steps[..last], sku, stages[|stages| - 1])
           && WentThrough(skus, steps[..last], sku, ok, stages[..|stages| - 1])
      else WentThrough(skus, steps[..last], sku, ok, stages)
  }

  /** The errors a worker has delivered, and the one it is about to deliver. */
  function Owed(w: Worker): seq<Stage> {
    if w.pc.SendErr? then w.reported + [w.pc.stage] else w.reported
  }

  /** The stages a worker has passed, from where it stands. A failed TempDir is not passed, but
      the worker goes on. */
  function PassedStages(w: Worker): seq<Stage> {
    var tempDir := if TempDir in Owed(w) then [] else [TempDir];
    match w.pc
    case Do(TempDir) => []
    case Do(MkdirAll) => tempDir
    case Do(Download) => tempDir + [MkdirAll]
    case Do(Rename) => tempDir + [MkdirAll, Download]
    case _ => tempDir + [MkdirAll, Download, Rename]
  }

  lemma WentOn(skus: set<string>, steps: seq<Step>, step: Step, before: State, sku: string, ok: bool, stages: seq<Stage>)
    requires Reaches(skus, steps, before) && sku in before.workers
    requires WentThrough(skus, steps, sku, ok, stages)
    ensures var pc := before.workers[sku].pc;
            WentThrough(skus, steps + [step], sku, ok,
                        if step == Local(sku, ok) && pc.Do? then stages + [pc.stage] else stages)
  {
    var longer := steps + [step];
    assert longer[..|longer| - 1] == steps;
    var pc := before.workers[sku].pc;
    if pc.Do? {
      assert StandsAt(skus, steps, sku, pc.stage);
      assert (stages + [pc.stage])[..|stages|] == stages;
    } else if stage :| StandsAt(skus, steps, sku, stage) {
      var st :| Reaches(skus, steps, st) && sku in st.workers && st.workers[sku].pc == Do(stage);
      SameState(skus, steps, st, before);
    }
  }

  lemma OwedStep(st: State, step: Step, sku: string)
    requires Enabled(st, step) && sku in st.workers
    ensures sku in Apply(st, step).workers
    ensures var w := st.workers[sku];
            Owed(Apply(st, step).workers[sku]) ==
            if step == Local(sku, false) && w.pc.Do? then Owed(w) + [w.pc.stage] else Owed(w)
  {}

  lemma OneMoreOwed(skus: set<string>, steps: seq<Step>, step: Step, before: State, sku: string)
    requires Reaches(skus, steps, before) && Enabled(before, step) && sku in before.workers
    requires WentThrough(skus, steps, sku, false, Owed(before.workers[sku]))
    ensures sku in Apply(before, step).workers
    ensures WentThrough(skus, steps + [step], sku, false, Owed(Apply(before, step).workers[sku]))
  {
    WentOn(skus, steps, step, before, sku, false, Owed(before.workers[sku]));
    OwedStep(before, step, sku);
  }

  /** In every state of every run, the errors a worker has delivered or is about to deliver are
      exactly the stages at which it failed, in order. */
  lemma {:induction false} ErrorsAreFailures(skus: set<string>, steps: seq<Step>, st: State, sku: string)
    requires Reaches(skus, steps, st) && sku in skus
    ensures sku in st.workers && WentThrough(skus, steps, sku, false, Owed(st.workers[sku]))
  {
    if steps != [] {
      var last := |steps| - 1;
      var before := LastStep(skus, steps, st);
      ErrorsAreFailures(skus, steps[..last], before, sku);
      OneMoreOwed(skus, steps[..last], steps[last], before, sku);
      assert steps == steps[..last] + [steps[last]];
    }
  }

  /** Whether a worker is on the way to its file, or has written it. */
  predicate Underway(w: Worker) {
    w.pc.Do? || w.pc == SendErr(TempDir) || w.written
  }

  lemma PassedStep(st: State, step: Step, sku: string)
    requires Enabled(st, step) && sku in st.workers && WorkerInv(st.workers[sku])
    requires Underway(Apply(st, step).workers[sku])
    ensures Underway(st.workers[sku])
    ensures var w, next := st.workers[sku], Apply(st, step).workers[sku];
            Expected(next) == if step == Local(sku, true) && w.pc.Do? then Expected(w) + [w.pc.stage] else Expected(w)
  {}

  function Expected(w: Worker): seq<Stage> {
    if w.pc == SendErr(TempDir) then [] else PassedStages(w)
  }

  ghost predicate InOrder(skus: set<string>, steps: seq<Step>, sku: string, w: Worker) {
    Underway(w) ==> WentThrough(skus, steps, sku, true, Expected(w))
  }

  lemma StartInOrder(skus: set<string>, sku: string)
    ensures InOrder(skus, [], sku, FRESH)
  {}

  lemma OneStepInOrder(skus: set<string>, steps: seq<Step>, step: Step, before: State, sku: string)
    requires Reaches(skus, steps, before) && Enabled(before, step)
    requires sku in before.workers && WorkerInv(before.workers[sku])
    requires InOrder(skus, steps, sku, before.workers[sku])
    ensures sku in Apply(before, step).workers
    ensures InOrder(skus, steps + [step], sku, Apply(before, step).workers[sku])
  {
    if Underway(Apply(before, step).workers[sku]) {
      PassedStep(before, step, sku);
      WentOn(skus, steps, step, before, sku, true, Expected(before.workers[sku]));
    }
  }

  /** A worker is where it has successfully gone through all stages before, in order, but for a
      failed TempDir. */
  lemma {:induction false} StagesInOrder(skus: set<string>, steps: seq<Step>, st: State, sku: string)
    requires Reaches(skus, steps, st) && sku in skus
    ensures sku in st.workers && InOrder(skus, steps, sku, st.workers[sku])
  {
    if steps == [] {
      StartInOrder(skus, sku);
    } else {
      var before := LastStep(skus, steps, st);
      var front, step := steps[..|steps| - 1], steps[|steps| - 1];
      ReachableWorker(skus, front, before, sku);
      StagesInOrder(skus, front, before, sku);
      OneStepInOrder(skus, front, step, before, sku);
      assert front + [step] == steps;
    }
  }

  /** A file in its final place has been made, downloaded and renamed in this run, in this order
      and once each; before that, TempDir succeeded or its error is among those delivered. */
  lemma WrittenWasDownloaded(skus: set<string>, steps: seq<Step>, st: State, sku: string)
    requires Reaches(skus, steps, st) && sku in skus
    ensures sku in st.workers
    ensures var w := st.workers[sku];
            w.written ==>
              WentThrough(skus, steps, sku, true,
                          (if w.reported == [] then [TempDir] else []) + [MkdirAll, Download, Rename])
  {
    ReachableInv(skus, steps, st);
    StagesInOrder(skus, steps, st, sku);
  }

  lemma StandsOnce(skus: set<string>, steps: seq<Step>, sku: string, a: Stage, b: Stage)
    requires StandsAt(skus, steps, sku, a) && StandsAt(skus, steps, sku, b)
    ensures a == b
  {
    var x :| Reaches(skus, steps, x) && sku in x.workers && x.workers[sku].pc == Do(a);
    var y :| Reaches(skus, steps, y) && sku in y.workers && y.workers[sku].pc == Do(b);
    SameState(skus, steps, x, y);
  }

  lemma AllWentThrough(skus: set<string>, steps: seq<Step>, st: State)
    requires Reaches(skus, steps, st)
    ensures forall s | s in skus && s in st.workers && Succeeded(st.workers[s]) ::
              WentThrough(skus, steps, s, true, [TempDir, MkdirAll, Download, Rename])
  {
    forall s | s in skus && s in st.workers && Succeeded(st.workers[s])
      ensures WentThrough(skus, steps, s, true, [TempDir, MkdirAll, Download, Rename])
    {
      WrittenWasDownloaded(skus, steps, st, s);
      assert [TempDir] + [MkdirAll, Download, Rename] == [TempDir, MkdirAll, Download, Rename];
    }
  }

  /** What a worker went through is determined by the run. */
  lemma {:induction false} WentThroughOnce(skus: set<string>, steps: seq<Step>, sku: string, ok: bool, a: seq<Stage>, b: seq<Stage>)
    requires WentThrough(skus, steps, sku, ok, a) && WentThrough(skus, steps, sku, ok, b)
    ensures a == b
  {
    if steps != [] {
      var front := steps[..|steps| - 1];
      if steps[|steps| - 1] == Local(sku, ok) && exists stage :: StandsAt(skus, front, sku, stage) {
        StandsOnce(skus, front, sku, a[|a| - 1], b[|b| - 1]);
        WentThroughOnce(skus, front, sku, ok, a[..|a| - 1], b[..|b| - 1]);
        assert a == a[..|a| - 1] + [a[|a| - 1]] && b == b[..|b| - 1] + [b[|b| - 1]];
      } else {
        WentThroughOnce(skus, front, sku, ok, a, b);
      }
    }
  }

  /** A lone worker, with nothing received from it. */
  function Alone(sku: string, w: Worker): State {
    State(map[sku := w], 0, [])
  }

  lemma MoveAlone(sku: string, steps: seq<Step>, w: Worker, ok: bool) returns (longer: seq<Step>)
    requires Reaches({sku}, steps, Alone(sku, w)) && (w.pc.Do? || w.pc.CleanUp?)
    ensures Reaches({sku}, longer, Alone(sku, AfterLocal(w, ok)))
  {
    RunGrows({sku}, steps, Alone(sku, w), Local(sku, ok));
    longer := steps + [Local(sku, ok)];
    assert map[sku := w][sku := AfterLocal(w, ok)] == map[sku := AfterLocal(w, ok)];
  }

  /** The run that comes to a stage without a failure. */
  lemma ComeTo(sku: string, stage: Stage) returns (steps: seq<Step>)
    ensures Reaches({sku}, steps, Alone(sku, FRESH.(pc := Do(stage))))
  {
    assert Init({sku}) == Alone(sku, FRESH);
    steps := [];
    if stage != TempDir {
      steps := MoveAlone(sku, steps, FRESH, true);
      if stage != MkdirAll {
        steps := MoveAlone(sku, steps, FRESH.(pc := Do(MkdirAll)), true);
        if stage != Download {
          steps := MoveAlone(sku, steps, FRESH.(pc := Do(Download)), true);
        }
      }
    }
  }

  /** A failure of any stage can be what `run` reports. */
  lemma EachFailureIsReported(sku: string, stage: Stage)
    ensures exists steps: seq<Step>, st: State ::
              Reaches({sku}, steps, st) && !Collecting(st) && st.errs == [Report(sku, stage)]
  {
    var steps := ComeTo(sku, stage);
    steps := MoveAlone(sku, steps, FRESH.(pc := Do(stage)), false);
    var st := Alone(sku, FRESH.(pc := SendErr(stage)));
    assert |st.workers| == 1;
    RunGrows({sku}, steps, st, ReceiveErr(sku));
    var end := Apply(st, ReceiveErr(sku));
    assert end.errs == [Report(sku, stage)] && |end.workers| == |end.workers.Keys| && end.workers.Keys == {sku};
  }

  /** `run` can return without an error and leave a working directory behind. */
  lemma DirectoryMayRemain(sku: string)
    ensures exists steps: seq<Step>, st: State ::
              Reaches({sku}, steps, st) && !Collecting(st) && st.errs == []
              && st.workers == map[sku := Worker(Ended, [], true, false)]
  {
    var steps := ComeTo(sku, Rename);
    steps := MoveAlone(sku, steps, FRESH.(pc := Do(Rename)), true);
    steps := MoveAlone(sku, steps, Worker(CleanUp, [], true, false), false);
    var st := Alone(sku, Worker(SendDone, [], true, false));
    assert |st.workers| == 1;
    RunGrows({sku}, steps, st, ReceiveDone(sku));
    var end := Apply(st, ReceiveDone(sku));
    assert end.workers == map[sku := Worker(Ended, [], true, false)];
  }

  /** With an error, `run` can return while another worker has not even begun: that worker's
      file is not written and its errors are never seen. */
  lemma ReturnsWithIdleWorker(a: string, b: string)
    requires a != b
    ensures exists steps: seq<Step>, st: State ::
              Reaches({a, b}, steps, st) && !Collecting(st) && b in st.workers && st.workers[b] == FRESH
              && st.errs == [Report(a, TempDir), Report(a, MkdirAll)]
  {
    var steps, st := TwoFailures(a, b);
    assert |st.workers| == |st.workers.Keys|;
  }

  lemma TwoFailures(a: string, b: string) returns (steps: seq<Step>, st: State)
    requires a != b
    ensures Reaches({a, b}, steps, st) && st.workers.Keys == {a, b} && st.receives == 2
    ensures st.workers[b] == FRESH && st.errs == [Report(a, TempDir), Report(a, MkdirAll)]
  {
    steps, st := [], Init({a, b});
    steps, st := Fail({a, b}, steps, st, a);
    steps, st := Fail({a, b}, steps, st, a);
  }

  /** A worker fails in its current stage and the collector takes its error. */
  lemma Fail(skus: set<string>, steps: seq<Step>, st: State, sku: string)
    returns (longer: seq<Step>, next: State)
    requires Reaches(skus, steps, st) && st.workers.Keys == skus && st.receives < |skus|
    requires sku in skus && st.workers[sku].pc.Do?
    ensures Reaches(skus, longer, next) && next.receives == st.receives + 1
    ensures next.workers == st.workers[sku := AfterErr(AfterLocal(st.workers[sku], false))]
    ensures next.errs == st.errs + [Report(sku, st.workers[sku].pc.stage)]
  {
    assert |st.workers| == |st.workers.Keys|;
    var w := st.workers[sku];
    var failed := st.(workers := st.workers[sku := AfterLocal(w, false)]);
    FailLocal(skus, steps, st, sku);
    assert failed.workers.Keys == skus && |failed.workers| == |failed.workers.Keys|;
    TakeErr(skus, steps + [Local(sku, false)], failed, sku);
    longer := steps + [Local(sku, false)] + [ReceiveErr(sku)];
    next := State(failed.workers[sku := AfterErr(AfterLocal(w, false))], st.receives + 1, st.errs + [Report(sku, w.pc.stage)]);
  }

  lemma FailLocal(skus: set<string>, steps: seq<Step>, st: State, sku: string)
    requires Reaches(skus, steps, st) && sku in st.workers && st.workers[sku].pc.Do?
    ensures Reaches(skus, steps + [Local(sku, false)],
                    st.(workers := st.workers[sku := AfterLocal(st.workers[sku], false)]))
  {
    RunGrows(skus, steps, st, Local(sku, false));
  }

  lemma TakeErr(skus: set<string>, steps: seq<Step>, st: State, sku: string)
    requires Reaches(skus, steps, st) && Collecting(st) && sku in st.workers && st.workers[sku].pc.SendErr?
    ensures var w := st.workers[sku];
            Reaches(skus, steps + [ReceiveErr(sku)],
                    State(st.workers[sku := AfterErr(w)], st.receives + 1, st.errs + [Report(sku, w.pc.stage)]))
  {
    RunGrows(skus, steps, st, ReceiveErr(sku));
  }

  // ---------------------------------------------------------------------------------------
  // Progress
  // ---------------------------------------------------------------------------------------

  /** How many steps a worker can still take. */
  function StepsLeft(pc: Pc): nat {
    match pc
    case Do(TempDir) => 10
    case SendErr(TempDir) => 9
    case Do(MkdirAll) => 8
    case Do(Download) => 6
    case Do(Rename) => 4
    case SendErr(_) => 3
    case CleanUp => 2
    case SendDone => 1
    case Ended => 0
  }

  ghost function TotalLeft(workers: map<string, Worker>): nat
    decreases |workers|
  {
    if workers == map[] then 0
    else
      assert workers.Keys != {};
      var s :| s in workers;
      StepsLeft(workers[s].pc) + TotalLeft(workers - {s})
  }

  lemma {:induction false} TotalLeftSplit(workers: map<string, Worker>, s: string)
    requires s in workers
    ensures TotalLeft(workers) == StepsLeft(workers[s].pc) + TotalLeft(workers - {s})
    decreases |workers|
  {
    var t :| t in workers && TotalLeft(workers) == StepsLeft(workers[t].pc) + TotalLeft(workers - {t});
    if t != s {
      TotalLeftSplit(workers - {t}, s);
      TotalLeftSplit(workers - {s}, t);
      assert workers - {t} - {s} == workers - {s} - {t};
    }
  }

  /** Every step uses up some of the bounded work. */
  lemma StepDecreases(st: State, step: Step)
    requires Enabled(st, step)
    ensures TotalLeft(Apply(st, step).workers) < TotalLeft(st.workers)
  {
    var next := Apply(st, step).workers;
    TotalLeftSplit(st.workers, step.sku);
    TotalLeftSplit(next, step.sku);
    assert next - {step.sku} == st.workers - {step.sku};
  }

  /** No deadlock: while receives are left, the `done`s still owed are at least as many as the
      receives left, there is a worker that still owes one, and every such worker can move. */
  lemma CollectorProgress(skus: set<string>, st: State)
    requires Inv(skus, st) && Collecting(st)
    ensures |skus| - st.receives <= |Unfinished(st)|
    ensures Unfinished(st) != {}
    ensures forall s | s in Unfinished(st) ::
              Enabled(st, Local(s, true)) || Enabled(st, ReceiveErr(s)) || Enabled(st, ReceiveDone(s))
  {
    assert |st.workers| == |st.workers.Keys|;
    assert |Unfinished(st)| > 0;
  }

  lemma {:induction false} InitLeft(skus: set<string>)
    ensures TotalLeft(Init(skus).workers) == 10 * |skus|
    decreases |skus|
  {
    if skus == {} {
      assert Init(skus).workers == map[];
    } else {
      var s :| s in skus;
      TotalLeftSplit(Init(skus).workers, s);
      assert Init(skus).workers - {s} == Init(skus - {s}).workers;
      InitLeft(skus - {s});
    }
  }

  /** No run is longer than ten steps per worker, so with `CollectorProgress` every run that is
      continued for as long as possible makes the collector return. */
  lemma {:induction false} RunsAreBounded(skus: set<string>, steps: seq<Step>, st: State)
    requires Reaches(skus, steps, st)
    ensures |steps| + TotalLeft(st.workers) <= 10 * |skus|
  {
    if steps == [] {
      InitLeft(skus);
    } else {
      var last := |steps| - 1;
      var before :| Reaches(skus, steps[..last], before)
                 && Enabled(before, steps[last]) && st == Apply(before, steps[last]);
      RunsAreBounded(skus, steps[..last], before);
      StepDecreases(before, steps[last]);
    }
  }

  lemma SomeStepEnabled(skus: set<string>, st: State)
    requires Inv(skus, st) && Collecting(st)
    ensures exists step :: Enabled(st, step)
  {
    CollectorProgress(skus, st);
    var s :| s in Unfinished(st);
    assert Enabled(st, Local(s, true)) || Enabled(st, ReceiveErr(s)) || Enabled(st, ReceiveDone(s));
  }

  lemma RunGrows(skus: set<string>, steps: seq<Step>, st: State, step: Step)
    requires Reaches(skus, steps, st) && Enabled(st, step)
    ensures Reaches(skus, steps + [step], Apply(st, step))
  {
    var longer := steps + [step];
    assert longer[..|longer| - 1] == steps;
  }

  /** The scheduler lets some step happen that can happen. */
  method Schedule(ghost skus: set<string>, ghost steps: seq<Step>, st: State) returns (step: Step, next: State)
    requires Reaches(skus, steps, st) && Collecting(st)
    ensures Reaches(skus, steps + [step], next) && |next.workers| == |skus|
    ensures step.ReceiveErr? ==> step.sku in st.workers && st.workers[step.sku].pc.SendErr?
    ensures next.receives == st.receives + if step.Local? then 0 else 1
    ensures next.errs == if step.ReceiveErr? then st.errs + [Report(step.sku, st.workers[step.sku].pc.stage)] else st.errs
    ensures TotalLeft(next.workers) < TotalLeft(st.workers)
  {
    ReachableInv(skus, steps, st);
    SomeStepEnabled(skus, st);
    step :| Enabled(st, step);
    assert Enabled(st, step);
    StepDecreases(st, step);
    RunGrows(skus, steps, st, step);
    next := Apply(st, step);
    assert |next.workers| == |next.workers.Keys|;
  }

  /** `run` after the selection: the collector's counted loop, with an arbitrary scheduler
      that moves workers between and at the receives. */
  method Collect(artifactsToDownload: map<string, string>)
    returns (errs: seq<Report>, final: State, ghost steps: seq<Step>)
    ensures Reaches(artifactsToDownload.Keys, steps, final) && !Collecting(final)
    ensures errs == final.errs
    ensures |Unfinished(final)| == |errs|
    ensures errs == [] <==>
            forall s | s in final.workers :: Succeeded(final.workers[s])
  {
    ghost var skus := artifactsToDownload.Keys;
    final := Init(artifactsToDownload.Keys);
    assert final.workers.Keys == skus && |final.workers| == |final.workers.Keys|;
    steps, errs := [], [];
    var i := 0;
    while i < |artifactsToDownload.Keys|
      invariant Reaches(skus, steps, final) && |final.workers| == |skus|
      invariant i == final.receives && errs == final.errs
      decreases TotalLeft(final.workers)
    {
      var step, next := Schedule(skus, steps, final);
      match step {
        case Local(_, _) =>
        case ReceiveErr(sku) =>
          errs := errs + [Report(sku, final.workers[sku].pc.stage)];
          i := i + 1;
        case ReceiveDone(_) =>
          i := i + 1;
      }
      final, steps := next, steps + [step];
    }
    UnfinishedAtReturn(skus, steps, final);
    SuccessMeansAllWritten(skus, steps, final);
  }

  /** The whole of `run`: the error list is empty exactly when the note of every wanted artifact
      was downloaded and put in place without any failure. */
  method Run(includeFlag: string, ignoreFlag: string, artifactToPath: map<string, string>)
    returns (errs: seq<Report>, final: State, ghost steps: seq<Step>)
    ensures Reaches(final.workers.Keys, steps, final) && !Collecting(final)
    ensures final.workers.Keys == set k | k in artifactToPath && Wanted(k, includeFlag, ignoreFlag)
    ensures |Unfinished(final)| == |errs|
    ensures errs == [] <==>
            forall k | k in artifactToPath && Wanted(k, includeFlag, ignoreFlag) ::
              Succeeded(final.workers[k])
    ensures errs == [] ==>
              forall k | k in artifactToPath && Wanted(k, includeFlag, ignoreFlag) ::
                WentThrough(final.workers.Keys, steps, k, true, [TempDir, MkdirAll, Download, Rename])
  {
    var artifactsToDownload := SelectArtifacts(includeFlag, ignoreFlag, artifactToPath);
    errs, final, steps := Collect(artifactsToDownload);
    ReachableInv(artifactsToDownload.Keys, steps, final);
    AllWentThrough(artifactsToDownload.Keys, steps, final);
  }
}
