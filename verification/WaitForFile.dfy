/** `wait_for_file` of the helper script embedded in `pkg/templates/templates_generated.go`:
    the hand-off of a file from cloud-init, which writes it, to the CSE script, which polls for
    the end marker, deletes it and logs the path. Lines are the unit of writing. */
module WaitForFile {
  import opened Basics
  import opened Text

  const MARKER := "#EOF"

  /** `grep -Fq sub file` succeeds. */
  predicate Grep(lines: seq<string>, sub: string) {
    exists l | l in lines :: Contains(l, sub)
  }

  /** `sed -i "/#EOF/d"` */
  function DropMarked(lines: seq<string>): seq<string> {
    if lines == [] then []
    else if Contains(lines[0], MARKER) then DropMarked(lines[1..])
    else [lines[0]] + DropMarked(lines[1..])
  }

  /** A document cloud-init has to write: the marker line comes last and nowhere else. */
  predicate MarkerLast(doc: seq<string>) {
    doc != [] && Contains(doc[|doc| - 1], MARKER) && !Grep(doc[..|doc| - 1], MARKER)
  }

  function Body(doc: seq<string>): seq<string> {
    if doc == [] then [] else doc[..|doc| - 1]
  }

  // ---------------------------------------------------------------------------------------
  // The waiter and the writer as a transition system
  // ---------------------------------------------------------------------------------------

  /** The command the waiter runs next; `i` counts the rounds of its loop from 1. */
  datatype Phase =
    | Ready
    | CheckLog(path: string, retries: nat)
    | Probe(path: string, retries: nat, i: nat)
    | Sleep(path: string, retries: nat, i: nat)
    | Sweep(path: string, retries: nat)
    | Record(path: string, retries: nat)
    | Returned(path: string, retries: nat, code: nat)

  /** `written` counts the lines of each document that have reached its file. */
  datatype Machine = Machine(
    docs: map<string, seq<string>>, written: map<string, nat>, files: map<string, seq<string>>,
    paved: seq<string>, phase: Phase, probes: nat, sleeps: nat)
  {
    function Lines(path: string): seq<string> {
      if path in files then files[path] else []
    }

    predicate Complete(path: string) {
      path in docs && path in written && written[path] == |docs[path]|
    }

    predicate Idle() {
      phase.Ready? || phase.Returned?
    }
  }

  /** One turn of a run: the writer appends the next line of a document, the script calls
      `wait_for_file`, or the waiter runs one command. A turn that cannot be taken does nothing. */
  datatype Turn = Writer(path: string) | Call(retries: nat, path: string) | Shell

  function WriteLine(m: Machine, path: string): Machine {
    if path in m.docs && path in m.written && m.written[path] < |m.docs[path]| then
      var k := m.written[path];
      m.(files := m.files[path := m.Lines(path) + [m.docs[path][k]]], written := m.written[path := k + 1])
    else m
  }

  /** The body of the shell function, command by command. `seq 1 0` is empty, so without
      retries the loop is skipped. `sed -i` changes nothing when the file is missing. */
  function RunCommand(m: Machine): Machine {
    match m.phase
    case CheckLog(path, retries) =>
      if Grep(m.paved, path) then m.(phase := Returned(path, retries, 0))
      else if retries == 0 then m.(phase := Sweep(path, retries))
      else m.(phase := Probe(path, retries, 1))
    case Probe(path, retries, i) =>
      var probed := m.(probes := m.probes + 1);
      if Grep(m.Lines(path), MARKER) then probed.(phase := Sweep(path, retries))
      else if i == retries then probed.(phase := Returned(path, retries, 1))
      else probed.(phase := Sleep(path, retries, i))
    case Sleep(path, retries, i) =>
      m.(sleeps := m.sleeps + 1, phase := Probe(path, retries, i + 1))
    case Sweep(path, retries) =>
      var files := if path in m.files then m.files[path := DropMarked(m.files[path])] else m.files;
      m.(files := files, phase := Record(path, retries))
    case Record(path, retries) =>
      m.(paved := m.paved + [path], phase := Returned(path, retries, 0))
    case Ready => m
    case Returned(_, _, _) => m
  }

  function Step(m: Machine, turn: Turn): Machine {
    match turn
    case Writer(path) => WriteLine(m, path)
    case Call(retries, path) =>
      if m.Idle() then m.(phase := CheckLog(path, retries), probes := 0, sleeps := 0) else m
    case Shell => RunCommand(m)
  }

  function Exec(m: Machine, turns: seq<Turn>): Machine {
    if turns == [] then m
    else Step(Exec(m, turns[..|turns| - 1]), turns[|turns| - 1])
  }

  // ---------------------------------------------------------------------------------------
  // What a run keeps
  // ---------------------------------------------------------------------------------------

  /** What a caller has to see to: at least one retry, and no other logged path that contains
      this one. */
  predicate SafeCall(m: Machine, retries: nat, path: string) {
    retries >= 1 && forall q | q in m.paved && Contains(q, path) :: q == path
  }

  /** All calls of the run are made safely. */
  predicate SafeRun(m: Machine, turns: seq<Turn>) {
    turns == [] ||
    (SafeRun(m, turns[..|turns| - 1]) &&
     var before := Exec(m, turns[..|turns| - 1]);
     var last := turns[|turns| - 1];
     last.Call? && before.Idle() ==> SafeCall(before, last.retries, last.path))
  }

  predicate Swept(m: Machine, path: string) {
    path in m.paved || (m.phase.Record? && m.phase.path == path)
  }

  predicate PhaseInv(m: Machine) {
    match m.phase
    case Ready => true
    case CheckLog(path, retries) => SafeCall(m, retries, path) && m.probes == 0 && m.sleeps == 0
    case Probe(path, retries, i) => 1 <= i <= retries && m.probes == m.sleeps == i - 1 && path !in m.paved
    case Sleep(path, retries, i) => 1 <= i < retries && m.probes == i && m.sleeps == i - 1 && path !in m.paved
    case Sweep(path, _) => m.Complete(path) && path !in m.paved
    case Record(path, _) => m.Complete(path) && path !in m.paved
    case Returned(path, retries, code) =>
      if code == 0 then path in m.paved
      else code == 1 && path !in m.paved && m.probes == retries && m.sleeps == retries - 1
  }

  /** Every document ends with its only marker, and at most all of it is written. */
  predicate DocsInv(m: Machine) {
    && m.written.Keys == m.docs.Keys
    && (forall p | p in m.docs :: MarkerLast(m.docs[p]) && m.written[p] <= |m.docs[p]|)
  }

  /** A file holds what the writer has written so far, until it is swept; a logged file was
      complete when it was swept and holds the document without its marker ever after. */
  predicate FileInv(m: Machine, path: string) {
    path in m.docs && path in m.written && m.written[path] <= |m.docs[path]| &&
    if Swept(m, path) then m.Complete(path) && m.Lines(path) == Body(m.docs[path])
    else m.Lines(path) == m.docs[path][..m.written[path]]
  }

  predicate LogInv(m: Machine) {
    && (forall p | p in m.files :: p in m.docs)
    && (forall p | p in m.paved :: p in m.docs)
    && NoDuplicates(m.paved)
  }

  predicate Inv(m: Machine) {
    && DocsInv(m)
    && (forall p | p in m.docs :: FileInv(m, p))
    && LogInv(m)
    && PhaseInv(m)
  }

  /** Only a file that has all its lines shows the marker. */
  lemma MarkerMeansComplete(doc: seq<string>, k: nat)
    requires MarkerLast(doc) && k <= |doc|
    ensures Grep(doc[..k], MARKER) <==> k == |doc|
  {
    if k < |doc| {
      forall l | l in doc[..k] ensures l in Body(doc) {}
    } else {
      assert doc[|doc| - 1] in doc[..k];
    }
  }

  lemma {:induction false} DropNone(lines: seq<string>)
    requires !Grep(lines, MARKER)
    ensures DropMarked(lines) == lines
  {
    if lines != [] {
      assert lines[0] in lines;
      forall l | l in lines[1..] ensures l in lines {}
      DropNone(lines[1..]);
    }
  }

  lemma {:induction false} DropConcat(a: seq<string>, b: seq<string>)
    ensures DropMarked(a + b) == DropMarked(a) + DropMarked(b)
  {
    if a == [] {
      assert a + b == b;
    } else {
      assert (a + b)[1..] == a[1..] + b;
      DropConcat(a[1..], b);
    }
  }

  /** Sweeping a complete document leaves its body. */
  lemma SweepLeavesBody(doc: seq<string>)
    requires MarkerLast(doc)
    ensures DropMarked(doc) == Body(doc)
  {
    var last := doc[|doc| - 1];
    assert doc == Body(doc) + [last];
    DropConcat(Body(doc), [last]);
    DropNone(Body(doc));
    assert DropMarked([last]) == [];
  }

  /** The invariant of a file depends on its lines and on whether it is swept. */
  lemma SameFile(m: Machine, next: Machine, p: string)
    requires FileInv(m, p) && next.docs == m.docs && p in next.written && next.written[p] == m.written[p]
    requires next.Lines(p) == m.Lines(p) && (Swept(next, p) <==> Swept(m, p))
    ensures FileInv(next, p)
  {}

  lemma WriterKeepsFile(m: Machine, path: string, p: string)
    requires FileInv(m, p)
    ensures FileInv(WriteLine(m, path), p)
  {
    var next := WriteLine(m, path);
    if p == path && next != m {
      var k := m.written[path];
      assert m.docs[path][..k] + [m.docs[path][k]] == m.docs[path][..k + 1];
    } else {
      SameFile(m, next, p);
    }
  }

  lemma WriterKeepsDocs(m: Machine, path: string)
    requires DocsInv(m)
    ensures DocsInv(WriteLine(m, path))
  {}

  lemma WriterKeepsInv(m: Machine, path: string)
    requires Inv(m)
    ensures Inv(WriteLine(m, path))
  {
    var next := WriteLine(m, path);
    WriterKeepsDocs(m, path);
    forall p | p in next.docs ensures FileInv(next, p) {
      WriterKeepsFile(m, path, p);
    }
    assert PhaseInv(next) by {
      assert next.phase == m.phase && next.paved == m.paved;
    }
  }

  lemma ContainsSelf(s: string)
    ensures Contains(s, s)
  {}

  /** Only the sweep touches files, and only it changes which files are swept. */
  lemma CommandFrame(m: Machine)
    ensures RunCommand(m).docs == m.docs && RunCommand(m).written == m.written
    ensures !m.phase.Sweep? ==> RunCommand(m).files == m.files
  {}

  lemma CommandSwept(m: Machine, p: string)
    requires !(m.phase.Sweep? && m.phase.path == p)
    ensures Swept(RunCommand(m), p) <==> Swept(m, p)
  {}

  lemma SweepKeepsFile(m: Machine)
    requires DocsInv(m) && m.phase.Sweep? && FileInv(m, m.phase.path)
    requires m.Complete(m.phase.path) && m.phase.path !in m.paved
    ensures FileInv(RunCommand(m), m.phase.path)
  {
    var path := m.phase.path;
    var doc := m.docs[path];
    assert doc[..m.written[path]] == doc;
    assert m.Lines(path) == doc && path in m.files;
    SweepLeavesBody(doc);
  }

  lemma CommandKeepsFile(m: Machine, p: string)
    requires DocsInv(m) && FileInv(m, p)
    requires m.phase.Sweep? ==> m.Complete(m.phase.path) && m.phase.path !in m.paved
    ensures FileInv(RunCommand(m), p)
  {
    if m.phase.Sweep? && m.phase.path == p {
      SweepKeepsFile(m);
    } else {
      CommandFrame(m);
      CommandSwept(m, p);
      SameFile(m, RunCommand(m), p);
    }
  }

  lemma CommandKeepsPhase(m: Machine)
    requires DocsInv(m) && PhaseInv(m) && LogInv(m)
    requires m.phase.Probe? && m.phase.path in m.docs ==> FileInv(m, m.phase.path)
    ensures PhaseInv(RunCommand(m))
  {
    match m.phase
    case CheckLog(path, _) =>
      ContainsSelf(path);
    case Probe(path, _, _) =>
      if path in m.docs {
        MarkerMeansComplete(m.docs[path], m.written[path]);
      }
    case _ =>
  }

  lemma CommandKeepsLog(m: Machine)
    requires PhaseInv(m) && LogInv(m)
    ensures LogInv(RunCommand(m))
    ensures RunCommand(m).docs == m.docs && RunCommand(m).written == m.written
  {}

  lemma ShellKeepsInv(m: Machine)
    requires Inv(m)
    ensures Inv(RunCommand(m))
  {
    var next := RunCommand(m);
    CommandKeepsLog(m);
    forall p | p in next.docs ensures FileInv(next, p) {
      CommandKeepsFile(m, p);
    }
    CommandKeepsPhase(m);
  }

  lemma CallKeepsInv(m: Machine, retries: nat, path: string)
    requires Inv(m) && (m.Idle() ==> SafeCall(m, retries, path))
    ensures Inv(Step(m, Call(retries, path)))
  {
    var next := Step(m, Call(retries, path));
    forall p | p in next.docs ensures FileInv(next, p) {
      SameFile(m, next, p);
    }
  }

  lemma {:induction false} SafeRunKeepsInv(m: Machine, turns: seq<Turn>)
    requires Inv(m) && SafeRun(m, turns)
    ensures Inv(Exec(m, turns))
  {
    if turns != [] {
      var before := Exec(m, turns[..|turns| - 1]);
      SafeRunKeepsInv(m, turns[..|turns| - 1]);
      match turns[|turns| - 1]
      case Writer(path) => WriterKeepsInv(before, path);
      case Call(retries, path) => CallKeepsInv(before, retries, path);
      case Shell => ShellKeepsInv(before);
    }
  }

  // ---------------------------------------------------------------------------------------
  // Theorems about whole runs
  // ---------------------------------------------------------------------------------------

  /** What the return codes mean. On 0 the file had been written to the end and now holds the
      document without the marker; on 1 it was probed `retries` times with a sleep between two
      probes only, and is not logged. */
  predicate Outcome(m: Machine) {
    m.phase.Returned? ==>
      var path := m.phase.path;
      if m.phase.code == 0
      then m.Complete(path) && m.Lines(path) == Body(m.docs[path]) && path in m.paved
      else m.phase.code == 1 && m.probes == m.phase.retries && m.sleeps == m.phase.retries - 1
           && path !in m.paved
  }

  /** The hand-off is safe: at every point of every safe run the codes mean what they should. */
  lemma HandOffIsSafe(m: Machine, turns: seq<Turn>)
    requires Inv(m) && SafeRun(m, turns)
    ensures Outcome(Exec(m, turns))
  {
    SafeRunKeepsInv(m, turns);
  }

  /** The log never names a path twice, and a logged file is final: its content is the whole
      document without the marker in every later state. */
  lemma LoggedOnceAndFinal(m: Machine, turns: seq<Turn>, path: string)
    requires Inv(m) && SafeRun(m, turns)
    ensures NoDuplicates(Exec(m, turns).paved)
    ensures path in m.paved ==>
              path in Exec(m, turns).paved && Exec(m, turns).Lines(path) == m.Lines(path) == Body(m.docs[path])
  {
    SafeRunKeepsInv(m, turns);
    LogGrows(m, turns, path);
  }

  lemma {:induction false} LogGrows(m: Machine, turns: seq<Turn>, path: string)
    ensures path in m.paved ==> path in Exec(m, turns).paved
    ensures Exec(m, turns).docs == m.docs
  {
    if turns != [] {
      LogGrows(m, turns[..|turns| - 1], path);
    }
  }

  /** A call on a path that is already logged returns 0 with its first command, though the
      marker is gone, and touches nothing. */
  lemma LoggedReturnsAtOnce(m: Machine, retries: nat, path: string)
    requires Inv(m) && m.Idle() && path in m.paved
    ensures Exec(m, [Call(retries, path), Shell])
            == m.(phase := Returned(path, retries, 0), probes := 0, sleeps := 0)
    ensures !Grep(m.Lines(path), MARKER)
  {
    ContainsSelf(path);
    assert Swept(m, path);
    var turns := [Call(retries, path), Shell];
    assert turns[..1] == [Call(retries, path)] && turns[..1][..0] == [];
    assert Exec(m, turns[..1]) == Step(m, Call(retries, path));
  }

  lemma {:induction false} ExecAppend(m: Machine, a: seq<Turn>, b: seq<Turn>)
    ensures Exec(m, a + b) == Exec(Exec(m, a), b)
  {
    if b == [] {
      assert a + b == a;
    } else {
      assert (a + b)[..|a + b| - 1] == a + b[..|b| - 1];
      ExecAppend(m, a, b[..|b| - 1]);
    }
  }

  /** A complete file stays complete. */
  lemma {:induction false} CompleteStays(m: Machine, turns: seq<Turn>, path: string)
    requires m.Complete(path)
    ensures Exec(m, turns).Complete(path)
  {
    if turns != [] {
      CompleteStays(m, turns[..|turns| - 1], path);
    }
  }

  /** A call made by `m`, followed by turns of the writer and the waiter only. */
  predicate NoCalls(turns: seq<Turn>) {
    forall t | t in turns :: !t.Call?
  }

  lemma {:induction false} CallIsSafeRun(m: Machine, retries: nat, path: string, turns: seq<Turn>)
    requires m.Idle() && SafeCall(m, retries, path) && NoCalls(turns)
    ensures SafeRun(m, [Call(retries, path)] + turns)
  {
    var run := [Call(retries, path)] + turns;
    if turns == [] {
      assert run[..0] == [];
      assert run == [Call(retries, path)];
    } else {
      var shorter := turns[..|turns| - 1];
      assert run[..|run| - 1] == [Call(retries, path)] + shorter;
      assert run[|run| - 1] == turns[|turns| - 1] && turns[|turns| - 1] in turns;
      CallIsSafeRun(m, retries, path, shorter);
    }
  }

  lemma ShellKeepsPath(m: Machine)
    requires !m.phase.Ready?
    ensures var phase := RunCommand(m).phase;
            !phase.Ready? && phase.path == m.phase.path && phase.retries == m.phase.retries
  {}

  lemma {:induction false} CallKeepsPath(m: Machine, retries: nat, path: string, turns: seq<Turn>)
    requires m.Idle() && NoCalls(turns)
    ensures var phase := Exec(m, [Call(retries, path)] + turns).phase;
            !phase.Ready? && phase.path == path && phase.retries == retries
  {
    var run := [Call(retries, path)] + turns;
    if turns == [] {
      assert run[..0] == [];
      assert run == [Call(retries, path)];
    } else {
      var shorter := turns[..|turns| - 1];
      assert run[..|run| - 1] == [Call(retries, path)] + shorter;
      assert run[|run| - 1] == turns[|turns| - 1] && turns[|turns| - 1] in turns;
      CallKeepsPath(m, retries, path, shorter);
      ShellKeepsPath(Exec(m, [Call(retries, path)] + shorter));
    }
  }

  lemma SafeCallHandsOff(m: Machine, retries: nat, path: string, turns: seq<Turn>)
    requires m.Idle() && NoCalls(turns)
    ensures var end := Exec(m, [Call(retries, path)] + turns);
            Inv(m) && SafeCall(m, retries, path) ==> Inv(end) && Outcome(end)
  {
    if Inv(m) && SafeCall(m, retries, path) {
      var run := [Call(retries, path)] + turns;
      CallIsSafeRun(m, retries, path, turns);
      SafeRunKeepsInv(m, run);
      HandOffIsSafe(m, run);
    }
  }

  /** Every way the call can go on, success implies that the file is complete. */
  ghost predicate SuccessImpliesComplete(m: Machine, retries: nat, path: string) {
    forall turns | NoCalls(turns) ::
      var end := Exec(m, [Call(retries, path)] + turns);
      end.phase == Returned(path, retries, 0) ==> end.Complete(path)
  }

  /** Exactly when success means what it should: the file is complete already, or there is at
      least one retry and no logged line contains the path. With `retries` = 0, or when the
      path is part of a longer logged path, the function reports success for an unfinished file. */
  lemma SuccessIsTrustworthyIff(m: Machine, retries: nat, path: string)
    requires Inv(m) && m.Idle()
    ensures SuccessImpliesComplete(m, retries, path) <==>
            m.Complete(path) || (retries >= 1 && !Grep(m.paved, path))
  {
    if m.Complete(path) {
      forall turns | NoCalls(turns) ensures Exec(m, [Call(retries, path)] + turns).Complete(path) {
        CompleteStays(m, [Call(retries, path)] + turns, path);
      }
    } else if retries >= 1 && !Grep(m.paved, path) {
      forall turns | NoCalls(turns)
        ensures var end := Exec(m, [Call(retries, path)] + turns);
                end.phase == Returned(path, retries, 0) ==> end.Complete(path)
      {
        CallIsSafeRun(m, retries, path, turns);
        HandOffIsSafe(m, [Call(retries, path)] + turns);
      }
    } else {
      HastySuccess(m, retries, path);
    }
  }

  /** The failing families: the call returns 0 before the writer has taken a turn. */
  lemma HastySuccess(m: Machine, retries: nat, path: string)
    requires m.Idle() && !m.Complete(path) && (retries == 0 || Grep(m.paved, path))
    ensures !SuccessImpliesComplete(m, retries, path)
  {
    var call := [Call(retries, path)];
    var m1 := Step(m, Call(retries, path));
    assert call[..0] == [] && Exec(m, call) == m1;
    var turns := if Grep(m.paved, path) then [Shell] else [Shell, Shell, Shell];
    ExecAppend(m, call, turns);
    if Grep(m.paved, path) {
      assert turns[..0] == [];
    } else {
      assert turns[..2][..1] == [Shell] && [Shell][..0] == [] && turns[..2] == [Shell, Shell];
      assert Exec(m1, [Shell]) == RunCommand(m1);
      assert Exec(m1, [Shell, Shell]) == RunCommand(RunCommand(m1));
      assert Exec(m1, turns) == RunCommand(RunCommand(RunCommand(m1)));
    }
    assert NoCalls(turns);
    var end := Exec(m, call + turns);
    assert end.phase == Returned(path, retries, 0) && !end.Complete(path);
  }

  /** How many commands the waiter still runs at most. */
  function CommandsLeft(phase: Phase): nat {
    match phase
    case CheckLog(_, retries) => if retries == 0 then 3 else 2 * retries + 2
    case Probe(_, retries, i) => if i < retries then 2 * (retries - i) + 3 else 3
    case Sleep(_, retries, i) => if i < retries then 2 * (retries - i) + 2 else 4
    case Sweep(_, _) => 2
    case Record(_, _) => 1
    case _ => 0
  }

  predicate RoundInv(phase: Phase) {
    (phase.Probe? ==> 1 <= phase.i <= phase.retries) && (phase.Sleep? ==> 1 <= phase.i < phase.retries)
  }

  function ShellTurns(turns: seq<Turn>): nat {
    if turns == [] then 0
    else ShellTurns(turns[..|turns| - 1]) + if turns[|turns| - 1].Shell? then 1 else 0
  }

  lemma {:induction false} ShellTurnsAreUsed(m: Machine, turns: seq<Turn>)
    requires RoundInv(m.phase) && NoCalls(turns)
    ensures RoundInv(Exec(m, turns).phase)
    ensures !Exec(m, turns).Idle() ==> CommandsLeft(Exec(m, turns).phase) + ShellTurns(turns) <= CommandsLeft(m.phase)
  {
    if turns != [] {
      assert turns[|turns| - 1] in turns;
      ShellTurnsAreUsed(m, turns[..|turns| - 1]);
    }
  }

  /** The function never hangs: whatever the writer does, 2 * retries + 2 commands suffice, or
      three without retries. */
  lemma AlwaysReturns(m: Machine, retries: nat, path: string, turns: seq<Turn>)
    requires m.Idle() && NoCalls(turns)
    requires ShellTurns(turns) >= if retries == 0 then 3 else 2 * retries + 2
    ensures Exec(m, [Call(retries, path)] + turns).phase.Returned?
  {
    var call := [Call(retries, path)];
    assert call[..0] == [] && Exec(m, call) == Step(m, Call(retries, path));
    ExecAppend(m, call, turns);
    ShellTurnsAreUsed(Exec(m, call), turns);
    CallKeepsPath(m, retries, path, turns);
  }

  // ---------------------------------------------------------------------------------------
  // When the function succeeds
  // ---------------------------------------------------------------------------------------

  /** How many lines cloud-init tries to append to a file. */
  function WriterCount(turns: seq<Turn>, path: string): nat {
    if turns == [] then 0
    else WriterCount(turns[..|turns| - 1], path) + if turns[|turns| - 1] == Writer(path) then 1 else 0
  }

  lemma StepWrites(m: Machine, turn: Turn, path: string)
    requires path in m.docs && path in m.written
    ensures Step(m, turn).docs == m.docs && path in Step(m, turn).written
    ensures Step(m, turn).written[path] ==
            m.written[path] + if turn == Writer(path) && m.written[path] < |m.docs[path]| then 1 else 0
  {}

  /** A file is complete once the writer has had enough turns on it, whatever else happens. */
  lemma {:induction false} CompleteByCount(m: Machine, turns: seq<Turn>, path: string)
    requires path in m.docs && path in m.written && m.written[path] <= |m.docs[path]|
    ensures var end := Exec(m, turns);
            && end.docs == m.docs && path in end.written
            && end.written[path] ==
               (if m.written[path] + WriterCount(turns, path) < |m.docs[path]|
                then m.written[path] + WriterCount(turns, path) else |m.docs[path]|)
    ensures Exec(m, turns).Complete(path) <==> m.written[path] + WriterCount(turns, path) >= |m.docs[path]|
  {
    if turns != [] {
      var front := turns[..|turns| - 1];
      CompleteByCount(m, front, path);
      StepWrites(Exec(m, front), turns[|turns| - 1], path);
    }
  }

  /** Where the waiter is after `n` commands. */
  predicate Position(phase: Phase, retries: nat, n: nat) {
    match phase
    case Ready => false
    case CheckLog(_, _) => n == 0
    case Probe(_, _, i) => n == 2 * i - 1 && i <= retries
    case Sleep(_, _, i) => n == 2 * i && i < retries
    case Returned(_, _, code) => code != 0 ==> code == 1 && n >= 2 * retries
    case _ => true
  }

  lemma PositionStep(m: Machine, retries: nat, n: nat)
    requires retries >= 1 && Position(m.phase, retries, n) && m.phase.retries == retries
    ensures Position(RunCommand(m).phase, retries, n + 1)
  {}

  lemma {:induction false} PositionAfter(m: Machine, retries: nat, path: string, turns: seq<Turn>)
    requires m.Idle() && retries >= 1 && NoCalls(turns)
    ensures Position(Exec(m, [Call(retries, path)] + turns).phase, retries, ShellTurns(turns))
  {
    var run := [Call(retries, path)] + turns;
    if turns == [] {
      assert run[..0] == [];
      assert run == [Call(retries, path)];
    } else {
      var shorter, last := turns[..|turns| - 1], turns[|turns| - 1];
      assert run[..|run| - 1] == [Call(retries, path)] + shorter;
      assert run[|run| - 1] == last && last in turns;
      PositionAfter(m, retries, path, shorter);
      if last.Shell? {
        var before := Exec(m, [Call(retries, path)] + shorter);
        CallKeepsPath(m, retries, path, shorter);
        PositionStep(before, retries, ShellTurns(shorter));
      }
    }
  }

  /** The marker has been seen, or the call has succeeded. */
  predicate Finishing(phase: Phase) {
    phase.Sweep? || phase.Record? || (phase.Returned? && phase.code == 0)
  }

  lemma {:induction false} FinishingStays(m: Machine, turns: seq<Turn>)
    requires Finishing(m.phase) && NoCalls(turns)
    ensures Finishing(Exec(m, turns).phase)
  {
    if turns != [] {
      assert turns[|turns| - 1] in turns;
      FinishingStays(m, turns[..|turns| - 1]);
    }
  }

  lemma {:induction false} ReturnedStays(m: Machine, turns: seq<Turn>)
    requires m.phase.Returned? && NoCalls(turns)
    ensures Exec(m, turns).phase == m.phase
  {
    if turns != [] {
      assert turns[|turns| - 1] in turns;
      ReturnedStays(m, turns[..|turns| - 1]);
    }
  }

  /** A probe sees the marker exactly in a complete file. */
  lemma ProbeSees(m: Machine, path: string)
    requires Inv(m) && !Swept(m, path)
    ensures Grep(m.Lines(path), MARKER) <==> m.Complete(path)
  {
    if path in m.docs {
      assert FileInv(m, path);
      MarkerMeansComplete(m.docs[path], m.written[path]);
    }
  }

  lemma AtLastProbe(m: Machine, retries: nat, path: string)
    requires Inv(m) && retries >= 1 && !m.phase.Ready? && m.phase.path == path && m.phase.retries == retries
    requires Position(m.phase, retries, 2 * retries - 1)
    ensures if m.Complete(path) then Finishing(RunCommand(m).phase) else RunCommand(m).phase == Returned(path, retries, 1)
  {
    if m.phase.Probe? {
      ProbeSees(m, path);
    } else if path in m.paved {
      assert FileInv(m, path) && Swept(m, path);
    }
  }

  lemma LastProbeDecides(m: Machine, retries: nat, path: string, before: seq<Turn>)
    requires Inv(m) && m.Idle() && SafeCall(m, retries, path) && NoCalls(before)
    requires ShellTurns(before) == 2 * retries - 1
    ensures var probed := Exec(m, [Call(retries, path)] + before);
            if probed.Complete(path) then Finishing(RunCommand(probed).phase)
            else RunCommand(probed).phase == Returned(path, retries, 1)
  {
    SafeCallHandsOff(m, retries, path, before);
    CallKeepsPath(m, retries, path, before);
    PositionAfter(m, retries, path, before);
    AtLastProbe(Exec(m, [Call(retries, path)] + before), retries, path);
  }

  lemma RunSplits(m: Machine, call: seq<Turn>, turns: seq<Turn>, j: nat)
    requires j < |turns| && turns[j].Shell?
    ensures Exec(m, call + turns) == Exec(RunCommand(Exec(m, call + turns[..j])), turns[j + 1..])
  {
    var probed := Exec(m, call + turns[..j]);
    assert call + turns == call + turns[..j] + ([Shell] + turns[j + 1..]);
    ExecAppend(m, call + turns[..j], [Shell] + turns[j + 1..]);
    ExecAppend(probed, [Shell], turns[j + 1..]);
    OneCommand(probed);
  }

  /** Time-out is exact: command 2 * retries of a safe call is its last probe. The call times
      out if the file is incomplete then, and succeeds, now or before, if it is complete. */
  lemma TimesOutIff(m: Machine, retries: nat, path: string, turns: seq<Turn>, j: nat)
    requires Inv(m) && m.Idle() && SafeCall(m, retries, path) && NoCalls(turns)
    requires j < |turns| && turns[j].Shell? && ShellTurns(turns[..j]) == 2 * retries - 1
    ensures var end := Exec(m, [Call(retries, path)] + turns);
            if Exec(m, [Call(retries, path)] + turns[..j]).Complete(path)
            then end.phase.Returned? ==> end.phase == Returned(path, retries, 0)
            else end.phase == Returned(path, retries, 1)
  {
    var before, after := turns[..j], turns[j + 1..];
    var probed := Exec(m, [Call(retries, path)] + before);
    LastProbeDecides(m, retries, path, before);
    RunSplits(m, [Call(retries, path)], turns, j);
    CallKeepsPath(m, retries, path, turns);
    if probed.Complete(path) {
      FinishingStays(RunCommand(probed), after);
    } else {
      ReturnedStays(RunCommand(probed), after);
    }
  }

  lemma OneCommand(m: Machine)
    ensures Exec(m, [Shell]) == RunCommand(m)
  {
    assert [Shell][..0] == [];
  }

  lemma {:induction false} FindCommand(turns: seq<Turn>, n: nat) returns (j: nat)
    requires n < ShellTurns(turns)
    ensures j < |turns| && turns[j].Shell? && ShellTurns(turns[..j]) == n
  {
    j := |turns| - 1;
    if !turns[j].Shell? || ShellTurns(turns[..j]) != n {
      var i := FindCommand(turns[..j], n);
      assert turns[..j][..i] == turns[..i];
      j := i;
    }
  }

  /** A safe call on a complete file never times out. */
  lemma CompleteMeansSuccess(m: Machine, retries: nat, path: string, turns: seq<Turn>)
    requires Inv(m) && m.Idle() && SafeCall(m, retries, path) && NoCalls(turns) && m.Complete(path)
    ensures var end := Exec(m, [Call(retries, path)] + turns);
            end.phase.Returned? ==> end.phase == Returned(path, retries, 0)
  {
    var end := Exec(m, [Call(retries, path)] + turns);
    CallKeepsPath(m, retries, path, turns);
    PositionAfter(m, retries, path, turns);
    if end.phase.Returned? && end.phase.code != 0 {
      var j := FindCommand(turns, 2 * retries - 1);
      TimesOutIff(m, retries, path, turns, j);
      CompleteStays(m, [Call(retries, path)] + turns[..j], path);
    }
  }

  /** Before cloud-init has written anything. */
  function Start(docs: map<string, seq<string>>): Machine {
    Machine(docs, map p | p in docs :: 0, map[], [], Ready, 0, 0)
  }

  lemma StartInv(docs: map<string, seq<string>>)
    requires forall p | p in docs :: MarkerLast(docs[p])
    ensures Inv(Start(docs))
  {}

  // ---------------------------------------------------------------------------------------
  // The shell function itself
  // ---------------------------------------------------------------------------------------

  function WriterTurns(paths: seq<string>): (turns: seq<Turn>)
    ensures NoCalls(turns) && forall t | t in turns :: t.Writer?
  {
    seq(|paths|, i requires 0 <= i < |paths| => Writer(paths[i]))
  }

  /** Files only grow, line by line of their documents; the log and the waiter are left alone. */
  ghost predicate OnlyAppends(before: Machine, after: Machine) {
    && after.docs == before.docs && after.paved == before.paved && after.phase == before.phase
    && after.probes == before.probes && after.sleeps == before.sleeps
    && forall p :: Grown(before, after, p)
  }

  /** The new lines of the file are the next lines of its document. */
  predicate Grown(before: Machine, after: Machine, p: string) {
    && (p in before.written <==> p in after.written)
    && if p in before.docs && p in before.written && before.written[p] <= |before.docs[p]|
       then
         && before.written[p] <= after.written[p] <= |before.docs[p]|
         && after.Lines(p) == before.Lines(p) + before.docs[p][before.written[p]..after.written[p]]
       else after.Lines(p) == before.Lines(p) && (p in before.written ==> after.written[p] == before.written[p])
  }

  lemma OneLineGrows(before: Machine, now: Machine, path: string, p: string)
    requires now.docs == before.docs && Grown(before, now, p)
    ensures Grown(before, WriteLine(now, path), p)
  {
    if p == path && p in now.docs && p in now.written && now.written[p] < |now.docs[p]| && before.written[p] <= |before.docs[p]| {
      var k, n := before.written[p], now.written[p];
      assert now.docs[p][k..n + 1] == now.docs[p][k..n] + [now.docs[p][n]];
    }
  }

  lemma {:induction false} WriterOnlyAppends(m: Machine, turns: seq<Turn>)
    requires forall t | t in turns :: t.Writer?
    ensures OnlyAppends(m, Exec(m, turns))
  {
    if turns == [] {
      forall p ensures Grown(m, m, p) {
        if p in m.docs && p in m.written && m.written[p] <= |m.docs[p]| {
          assert m.docs[p][m.written[p]..m.written[p]] == [];
        }
      }
    } else {
      var front, last := turns[..|turns| - 1], turns[|turns| - 1];
      assert last in turns;
      WriterOnlyAppends(m, front);
      forall p ensures Grown(m, Exec(m, turns), p) {
        OneLineGrows(m, Exec(m, front), last.path, p);
      }
    }
  }

  /** The node's disk as the script and cloud-init share it. Before the script's command number
      `t`, cloud-init appends one line to each file of `meanwhile[t]`. The ghost fields follow
      the run that this amounts to. */
  class Host {
    const docs: map<string, seq<string>>
    const meanwhile: seq<seq<string>>
    var clock: nat
    var written: map<string, nat>
    var files: map<string, seq<string>>
    var paved: seq<string>
    var probes: nat
    var sleeps: nat
    ghost var phase: Phase
    ghost var origin: Machine
    ghost var history: seq<Turn>

    ghost function View(): Machine
      reads this
    {
      Machine(docs, written, files, paved, phase, probes, sleeps)
    }

    ghost predicate Valid()
      reads this
    {
      View() == Exec(origin, history)
    }

    /** The run has gone on from `turns` by turns of cloud-init and commands only. */
    ghost predicate GoneOn(turns: seq<Turn>)
      reads this
    {
      turns <= history && NoCalls(history[|turns|..])
    }

    constructor (docs: map<string, seq<string>>, meanwhile: seq<seq<string>>)
      ensures Valid() && View() == Start(docs) && this.meanwhile == meanwhile
    {
      this.docs, this.meanwhile, clock := docs, meanwhile, 0;
      written, files, paved := map p | p in docs :: 0, map[], [];
      probes, sleeps, phase := 0, 0, Ready;
      origin, history := Start(docs), [];
    }

    method WriteOne(path: string)
      modifies this`written, this`files
      ensures View() == WriteLine(old(View()), path)
    {
      if path in docs && path in written && written[path] < |docs[path]| {
        var lines := if path in files then files[path] else [];
        files := files[path := lines + [docs[path][written[path]]]];
        written := written[path := written[path] + 1];
      }
    }

    /** The turns that cloud-init takes now: they only append lines of the documents. */
    method CloudInit()
      requires Valid()
      modifies this`written, this`files, this`history, this`clock
      ensures OnlyAppends(old(View()), View())
      ensures history == old(history) + WriterTurns(if old(clock) < |meanwhile| then meanwhile[old(clock)] else [])
      ensures Valid() && GoneOn(old(history))
    {
      var paths := if clock < |meanwhile| then meanwhile[clock] else [];
      ghost var turns := WriterTurns(paths);
      for k := 0 to |paths|
        invariant View() == Exec(old(View()), turns[..k]) && history == old(history)
      {
        WriteOne(paths[k]);
        assert turns[..k + 1][..k] == turns[..k];
      }
      assert turns[..|paths|] == turns;
      WriterOnlyAppends(old(View()), turns);
      ExecAppend(origin, history, turns);
      history := history + turns;
      clock := clock + 1;
    }

    /** All that the script may rely on between two of its commands. */
    method Meanwhile()
      requires Valid()
      modifies this`written, this`files, this`history, this`clock
      ensures Valid() && GoneOn(old(history))
    {
      CloudInit();
    }

    ghost method Tick(before: Machine)
      requires before == Exec(origin, history) && View() == RunCommand(before)
      modifies this`history
      ensures Valid() && history == old(history) + [Shell]
    {
      history := history + [Shell];
      assert history[..|history| - 1] == old(history);
    }

    /** `grep -Fq "${filepath}" $paved` */
    method GrepLog(path: string, retries: nat) returns (found: bool)
      requires Valid() && phase == CheckLog(path, retries)
      modifies this
      ensures Valid() && GoneOn(old(history)) && origin == old(origin)
      ensures phase == if found then Returned(path, retries, 0)
                       else if retries == 0 then Sweep(path, retries) else Probe(path, retries, 1)
    {
      Meanwhile();
      ghost var before := View();
      found := Grep(paved, path);
      phase := RunCommand(before).phase;
      Tick(before);
    }

    /** `grep -Fq '#EOF' $filepath`, in round `i` of the loop */
    method GrepMarker(path: string, retries: nat, i: nat) returns (found: bool)
      requires Valid() && phase == Probe(path, retries, i)
      modifies this
      ensures Valid() && GoneOn(old(history)) && origin == old(origin)
      ensures phase == if found then Sweep(path, retries)
                       else if i == retries then Returned(path, retries, 1) else Sleep(path, retries, i)
    {
      Meanwhile();
      ghost var before := View();
      probes := probes + 1;
      found := Grep(if path in files then files[path] else [], MARKER);
      phase := RunCommand(before).phase;
      Tick(before);
    }

    /** `sleep $wait_sleep` */
    method SleepOnce(path: string, retries: nat, i: nat)
      requires Valid() && phase == Sleep(path, retries, i)
      modifies this
      ensures Valid() && GoneOn(old(history)) && origin == old(origin)
      ensures phase == Probe(path, retries, i + 1)
    {
      Meanwhile();
      ghost var before := View();
      sleeps := sleeps + 1;
      phase := RunCommand(before).phase;
      Tick(before);
    }

    /** `sed -i "/#EOF/d" $filepath` */
    method SedMarker(path: string, retries: nat)
      requires Valid() && phase == Sweep(path, retries)
      modifies this
      ensures Valid() && GoneOn(old(history)) && origin == old(origin)
      ensures phase == Record(path, retries)
    {
      Meanwhile();
      ghost var before := View();
      if path in files {
        files := files[path := DropMarked(files[path])];
      }
      phase := RunCommand(before).phase;
      Tick(before);
    }

    /** `echo $filepath >> $paved` */
    method AppendLog(path: string, retries: nat)
      requires Valid() && phase == Record(path, retries)
      modifies this
      ensures Valid() && GoneOn(old(history)) && origin == old(origin)
      ensures phase == Returned(path, retries, 0)
    {
      Meanwhile();
      ghost var before := View();
      paved := paved + [path];
      phase := RunCommand(before).phase;
      Tick(before);
    }

    /** The loop: it ends with the marker seen, or after `retries` probes. */
    method AwaitMarker(filepath: string, retries: nat) returns (timedOut: bool)
      requires Valid()
      requires phase == if retries == 0 then Sweep(filepath, retries) else Probe(filepath, retries, 1)
      modifies this
      ensures Valid() && GoneOn(old(history)) && origin == old(origin)
      ensures phase == if timedOut then Returned(filepath, retries, 1) else Sweep(filepath, retries)
    {
      var i := 1;
      while i <= retries
        invariant 1 <= i <= retries + 1
        invariant Valid() && GoneOn(old(history)) && origin == old(origin)
        invariant phase == if i <= retries then Probe(filepath, retries, i) else Sweep(filepath, retries)
        invariant i == retries + 1 ==> retries == 0
      {
        var found := GrepMarker(filepath, retries, i);
        if found {
          return false;
        }
        if i == retries {
          return true;
        }
        SleepOnce(filepath, retries, i);
        i := i + 1;
      }
      return false;
    }

    /** The commands of the function, in order. */
    method RunCommands(retries: nat, filepath: string) returns (code: nat)
      requires Valid() && phase == CheckLog(filepath, retries)
      modifies this
      ensures Valid() && GoneOn(old(history)) && origin == old(origin)
      ensures phase == Returned(filepath, retries, code)
    {
      var found := GrepLog(filepath, retries);
      if found {
        return 0;
      }
      var timedOut := AwaitMarker(filepath, retries);
      if timedOut {
        return 1;
      }
      SedMarker(filepath, retries);
      AppendLog(filepath, retries);
      return 0;
    }

    /** A call of the function. Whatever cloud-init does meanwhile, a safe call that succeeds
        leaves the complete document, without the marker, on disk and in the log. */
    method WaitForFile(retries: nat, filepath: string) returns (code: nat)
      requires Valid() && View().Idle()
      modifies this
      ensures Valid() && origin == old(origin) && phase == Returned(filepath, retries, code)
      ensures old(Inv(View()) && SafeCall(View(), retries, filepath)) ==> Inv(View()) && Outcome(View())
      ensures old(Inv(View()) && SafeCall(View(), retries, filepath) && View().Complete(filepath)) ==> code == 0
    {
      ghost var start, prior := View(), history;
      phase, probes, sleeps := CheckLog(filepath, retries), 0, 0;
      history := history + [Call(retries, filepath)];
      assert history[..|history| - 1] == prior;
      code := RunCommands(retries, filepath);
      Conclude(start, prior, retries, filepath);
    }

    lemma Conclude(start: Machine, prior: seq<Turn>, retries: nat, path: string)
      requires Valid() && start == Exec(origin, prior) && start.Idle()
      requires GoneOn(prior + [Call(retries, path)])
      ensures Inv(start) && SafeCall(start, retries, path) ==> Inv(View()) && Outcome(View())
      ensures Inv(start) && SafeCall(start, retries, path) && start.Complete(path) && phase.Returned? ==>
                phase == Returned(path, retries, 0)
    {
      var turns := history[|prior| + 1..];
      var run := [Call(retries, path)] + turns;
      assert history == prior + run;
      ExecAppend(origin, prior, run);
      SafeCallHandsOff(start, retries, path, turns);
      if Inv(start) && SafeCall(start, retries, path) && start.Complete(path) {
        CompleteMeansSuccess(start, retries, path, turns);
      }
    }
  }
}
