/** The command executor: API threads that share the command lock, and one background thread
    for each asynchronous command.  Every access to a command's fields is a step of its own;
    a schedule interleaves the steps of all threads in any order. */
module Executor {
  import opened Wrappers

  type Thread = nat
  type Value = string

  datatype Status = Running | Succeeded | Failed | VersionMismatch

  /** How the body of an asynchronous command ends; what it returns may be nothing. */
  datatype Ending = Returns(result: Option<Value>) | Mismatches(error: Value) | Raises(error: Value)

  datatype Stage =
    | Body                              // the background thread runs the command
    | Finishing(ending: Ending)         // the body is over, nothing is written yet
    | Writing(ending: Ending, n: nat)   // n fields written, under the command's state lock
    | Ended

  datatype StateLock = Unlocked | ByBackground | ByReader

  datatype Command = Command(status: Status, result: Option<Value>, error: Option<Value>, stage: Stage, lock: StateLock)

  /** Where the holder of the command lock is in execute_command. */
  datatype Phase = Idle | Checking | Accepted | SyncBody | Recording

  /** The commands ever created, in order; the last one may not be recorded yet. */
  datatype State = State(holder: Option<Thread>, phase: Phase, commands: seq<Command>, recorded: nat)

  datatype Event =
    | Acquire(thread: Thread)            // takes the command lock
    | Reject                             // bad name, unknown extension, invalid content: nothing is recorded
    | Check                              // is the last command done?
    | StartSync
    | EndSync(outcome: Result<Option<Value>, Value>)
    | FailEarly(error: Value)            // an error before any body starts
    | StartAsync
    | Record                             // records the command and releases the lock
    | EndBody(index: nat, ending: Ending)
    | LockState(index: nat)              // the background thread takes the state lock
    | WriteField(index: nat)
    | UnlockState(index: nat)
    | BeginSnapshot(index: nat)          // an API thread takes the state lock to serialize
    | EndSnapshot(index: nat)

  const FRESH := Command(Running, None, None, Body, Unlocked)

  /** A command that is created with its outcome. */
  function Finished(outcome: Result<Option<Value>, Value>): Command {
    match outcome
    case Ok(result) => Command(Succeeded, result, None, Ended, Unlocked)
    case Err(error) => Command(Failed, None, Some(error), Ended, Unlocked)
  }

  predicate Done(c: Command) {
    c.status != Running
  }

  // ----- One command -----

  function Fields(ending: Ending): nat {
    if ending.Mismatches? then 3 else 2
  }

  /** The n-th assignment of the background thread. */
  function Write(c: Command, ending: Ending, n: nat): Command {
    match ending
    case Returns(r) => if n == 0 then c.(result := r) else c.(status := Succeeded)
    case Mismatches(e) =>
      if n == 0 then c.(error := Some(e)) else if n == 1 then c.(status := VersionMismatch) else c.(result := None)
    case Raises(e) => if n == 0 then c.(error := Some(e)) else c.(status := Failed)
  }

  predicate CommandEnabled(c: Command, e: Event) {
    match e
    case EndBody(_, _) => c.stage == Body
    case LockState(_) => c.stage.Finishing? && c.lock == Unlocked
    case WriteField(_) => c.stage.Writing? && c.stage.n < Fields(c.stage.ending)
    case UnlockState(_) => c.stage.Writing? && c.stage.n == Fields(c.stage.ending)
    case BeginSnapshot(_) => c.lock == Unlocked
    case EndSnapshot(_) => c.lock == ByReader
    case _ => false
  }

  function CommandNext(c: Command, e: Event): Command
    requires CommandEnabled(c, e)
  {
    match e
    case EndBody(_, ending) => c.(stage := Finishing(ending))
    case LockState(_) => c.(stage := Writing(c.stage.ending, 0), lock := ByBackground)
    case WriteField(_) => Write(c, c.stage.ending, c.stage.n).(stage := Writing(c.stage.ending, c.stage.n + 1))
    case UnlockState(_) => c.(stage := Ended, lock := Unlocked)
    case BeginSnapshot(_) => c.(lock := ByReader)
    case EndSnapshot(_) => c.(lock := Unlocked)
  }

  // ----- The whole executor -----

  predicate Enabled(s: State, e: Event) {
    match e
    case Acquire(_) => s.holder == None
    case Reject => s.phase in {Checking, Accepted, SyncBody}
    case Check => s.phase == Checking && (s.commands != [] ==> s.commands[|s.commands| - 1].lock != ByBackground)
    case StartSync => s.phase == Accepted
    case EndSync(_) => s.phase == SyncBody
    case FailEarly(_) => s.phase == Accepted
    case StartAsync => s.phase == Accepted
    case Record => s.phase == Recording
    case _ => e.index < |s.commands| && CommandEnabled(s.commands[e.index], e)
  }

  function Next(s: State, e: Event): State
    requires Enabled(s, e)
  {
    match e
    case Acquire(t) => s.(holder := Some(t), phase := Checking)
    case Reject => s.(holder := None, phase := Idle)
    case Check =>
      if s.commands != [] && !Done(s.commands[|s.commands| - 1])
      then s.(holder := None, phase := Idle)    // AgentIsBusy
      else s.(phase := Accepted)
    case StartSync => s.(phase := SyncBody)
    case EndSync(outcome) => s.(phase := Recording, commands := s.commands + [Finished(outcome)])
    case FailEarly(error) => s.(phase := Recording, commands := s.commands + [Finished(Err(error))])
    case StartAsync => s.(phase := Recording, commands := s.commands + [FRESH])
    case Record => s.(holder := None, phase := Idle, recorded := |s.commands|)
    case _ => s.(commands := s.commands[e.index := CommandNext(s.commands[e.index], e)])
  }

  const INIT := State(None, Idle, [], 0)

  /** The state after a schedule, or None when it asks for a step that cannot be taken. */
  function After(schedule: seq<Event>): Option<State> {
    if schedule == [] then Some(INIT) else
      match After(schedule[..|schedule| - 1])
      case None => None
      case Some(s) => if Enabled(s, schedule[|schedule| - 1]) then Some(Next(s, schedule[|schedule| - 1])) else None
  }

  // ----- The inductive invariant -----

  /** What a command's fields are, by the stage of its background thread. */
  predicate CommandOk(c: Command) {
    match c.stage
    case Body => c.status == Running && c.result == None && c.error == None && c.lock != ByBackground
    case Finishing(_) => c.status == Running && c.result == None && c.error == None && c.lock != ByBackground
    case Writing(ending, n) => c.lock == ByBackground && n <= Fields(ending) && Visible(c) == Partial(ending, n)
    case Ended => c.lock != ByBackground && Consistent(c)
  }

  /** What a command shows. */
  function Visible(c: Command): (Status, Option<Value>, Option<Value>) {
    (c.status, c.result, c.error)
  }

  function Partial(ending: Ending, n: nat): (Status, Option<Value>, Option<Value>) {
    match ending
    case Returns(r) => (if n >= 2 then Succeeded else Running, if n >= 1 then r else None, None)
    case Mismatches(e) => (if n >= 2 then VersionMismatch else Running, None, if n >= 1 then Some(e) else None)
    case Raises(e) => (if n >= 2 then Failed else Running, None, if n >= 1 then Some(e) else None)
  }

  /** A success has no error, though it may have no result either; a failure has an error and no result. */
  predicate Consistent(c: Command) {
    match c.status
    case Running => false
    case Succeeded => c.error == None
    case _ => c.result == None && c.error.Some?
  }

  ghost predicate AllDone(commands: seq<Command>) {
    forall i :: 0 <= i < |commands| ==> Done(commands[i])
  }

  function AllButLast(commands: seq<Command>): seq<Command> {
    if commands == [] then [] else commands[..|commands| - 1]
  }

  ghost predicate Inv(s: State) {
    && (forall i :: 0 <= i < |s.commands| ==> CommandOk(s.commands[i]))
    && (s.holder == None <==> s.phase == Idle)
    && (if s.phase == Recording then |s.commands| == s.recorded + 1 else |s.commands| == s.recorded)
    && AllDone(AllButLast(s.commands))
    && (s.phase in {Accepted, SyncBody} ==> AllDone(s.commands))
  }

  lemma {:induction false} CommandStep(c: Command, e: Event)
    requires CommandOk(c) && CommandEnabled(c, e)
    ensures CommandOk(CommandNext(c, e))
    ensures Done(c) ==> Visible(CommandNext(c, e)) == Visible(c)
    ensures CommandNext(c, e).stage == Body ==> c.stage == Body
  {
  }

  predicate OnCommand(e: Event) {
    e.EndBody? || e.LockState? || e.WriteField? || e.UnlockState? || e.BeginSnapshot? || e.EndSnapshot?
  }

  lemma {:induction false} NextInvOnCommand(s: State, e: Event)
    requires Inv(s) && Enabled(s, e) && OnCommand(e)
    ensures Inv(Next(s, e))
  {
    var i := e.index;
    CommandStep(s.commands[i], e);
    var t := Next(s, e);
    assert t == s.(commands := s.commands[i := CommandNext(s.commands[i], e)]);
    assert AllButLast(t.commands) ==
      if i < |s.commands| - 1 then AllButLast(s.commands)[i := t.commands[i]] else AllButLast(s.commands);
  }

  /** A command is created while the lock is held and all others are done. */
  lemma {:induction false} NextInvCreate(s: State, c: Command)
    requires Inv(s) && s.phase in {Accepted, SyncBody} && CommandOk(c)
    ensures Inv(s.(phase := Recording, commands := s.commands + [c]))
  {
    assert AllButLast(s.commands + [c]) == s.commands;
  }

  lemma {:induction false} NextInvCheck(s: State)
    requires Inv(s) && s.phase == Checking
    requires Enabled(s, Check)
    ensures Inv(Next(s, Check))
  {
    if s.commands != [] { assert s.commands == AllButLast(s.commands) + [s.commands[|s.commands| - 1]]; }
  }

  lemma {:induction false} NextInv(s: State, e: Event)
    requires Inv(s) && Enabled(s, e)
    ensures Inv(Next(s, e))
  {
    match e
    case Acquire(_) =>
    case Reject =>
    case Record =>
    case Check => NextInvCheck(s);
    case StartSync =>
    case EndSync(outcome) => NextInvCreate(s, Finished(outcome));
    case FailEarly(error) => NextInvCreate(s, Finished(Err(error)));
    case StartAsync => NextInvCreate(s, FRESH);
    case _ => NextInvOnCommand(s, e);
  }

  lemma {:induction false} InvAlways(schedule: seq<Event>)
    requires After(schedule).Some?
    ensures Inv(After(schedule).value)
  {
    if schedule != [] {
      InvAlways(schedule[..|schedule| - 1]);
      NextInv(After(schedule[..|schedule| - 1]).value, schedule[|schedule| - 1]);
    }
  }

  // ----- What every interleaving guarantees -----

  ghost predicate Executing(s: State, i: nat) {
    i < |s.commands| && s.commands[i].stage == Body
  }

  /** At most one command body runs: never two background ones, never one beside a body that
      runs inside execute_command; and a body is only started when none is running. */
  lemma {:induction false} OneBodyAtATime(schedule: seq<Event>)
    requires After(schedule).Some?
    ensures var s := After(schedule).value;
            && (forall i, j :: Executing(s, i) && Executing(s, j) ==> i == j)
            && (forall i :: Executing(s, i) ==> i == |s.commands| - 1 && s.phase !in {Accepted, SyncBody})
            && (forall e :: e in {StartSync, StartAsync} && Enabled(s, e) ==> forall i :: !Executing(s, i))
  {
    InvAlways(schedule);
    var s := After(schedule).value;
    assert forall i :: 0 <= i < |s.commands| - 1 ==> AllButLast(s.commands)[i] == s.commands[i];
    forall i: nat | Executing(s, i) ensures i == |s.commands| - 1 && s.phase !in {Accepted, SyncBody} {
      assert CommandOk(s.commands[i]);
    }
  }

  /** All recorded commands except possibly the last are done, at most one command is not
      recorded, and only while the command lock is held. */
  lemma {:induction false} RecordedAreDone(schedule: seq<Event>)
    requires After(schedule).Some?
    ensures var s := After(schedule).value;
            && s.recorded <= |s.commands| <= s.recorded + 1
            && (s.recorded < |s.commands| ==> s.holder.Some? && AllDone(s.commands[..s.recorded]))
            && (forall i :: 0 <= i < s.recorded - 1 ==> Done(s.commands[i]))
  {
    InvAlways(schedule);
    var s := After(schedule).value;
    assert forall i :: 0 <= i < |s.commands| - 1 ==> AllButLast(s.commands)[i] == s.commands[i];
  }

  /** A snapshot taken under the state lock shows a running command without result and error,
      a success without error, or a failure with an error and no result. */
  lemma {:induction false} SnapshotsAreConsistent(schedule: seq<Event>, i: nat)
    requires After(schedule).Some?
    requires var s := After(schedule).value; i < |s.commands| && s.commands[i].lock == ByReader
    ensures var c := After(schedule).value.commands[i]; Consistent(c) || Visible(c) == (Running, None, None)
  {
    InvAlways(schedule);
  }

  lemma {:induction false} StepKeepsDone(s: State, e: Event, i: nat)
    requires Inv(s) && Enabled(s, e) && i < |s.commands| && Done(s.commands[i])
    ensures i < |Next(s, e).commands| && Visible(Next(s, e).commands[i]) == Visible(s.commands[i])
  {
    if OnCommand(e) {
      CommandStep(s.commands[e.index], e);
    }
  }

  lemma {:induction false} Prefix(schedule: seq<Event>, e: Event)
    requires After(schedule + [e]).Some?
    ensures After(schedule).Some? && Enabled(After(schedule).value, e) &&
      After(schedule + [e]).value == Next(After(schedule).value, e)
  {
    assert (schedule + [e])[..|schedule|] == schedule;
  }

  /** A command that has left RUNNING never changes again, however the run goes on. */
  lemma {:induction false} DoneForGood(schedule: seq<Event>, more: seq<Event>, i: nat)
    requires After(schedule).Some? && After(schedule + more).Some?
    requires i < |After(schedule).value.commands| && Done(After(schedule).value.commands[i])
    ensures i < |After(schedule + more).value.commands|
    ensures Visible(After(schedule + more).value.commands[i]) == Visible(After(schedule).value.commands[i])
    decreases |more|
  {
    if more == [] {
      assert schedule + more == schedule;
    } else {
      var before, e := schedule + more[..|more| - 1], more[|more| - 1];
      assert schedule + more == before + [e];
      Prefix(before, e);
      DoneForGood(schedule, more[..|more| - 1], i);
      InvAlways(before);
      StepKeepsDone(After(before).value, e, i);
    }
  }

  // ----- What is recorded is what the body did -----

  /** How far a command is in recording a given ending. */
  predicate Recorded(c: Command, ending: Ending) {
    match c.stage
    case Body => false
    case Finishing(e) => e == ending
    case Writing(e, n) => e == ending
    case Ended => Visible(c) == Partial(ending, Fields(ending))
  }

  lemma {:induction false} RecordedStep(c: Command, e: Event, ending: Ending)
    requires CommandOk(c) && CommandEnabled(c, e)
    requires Recorded(c, ending) || (e.EndBody? && e.ending == ending)
    ensures Recorded(CommandNext(c, e), ending)
  {
  }

  lemma {:induction false} StaysRecorded(schedule: seq<Event>, i: nat, ending: Ending)
    requires After(schedule).Some? && EndBody(i, ending) in schedule
    ensures i < |After(schedule).value.commands| && Recorded(After(schedule).value.commands[i], ending)
  {
    var before, e := schedule[..|schedule| - 1], schedule[|schedule| - 1];
    assert schedule == before + [e];
    Prefix(before, e);
    InvAlways(before);
    var s := After(before).value;
    if EndBody(i, ending) in before { StaysRecorded(before, i, ending); }
    if OnCommand(e) && e.index == i { RecordedStep(s.commands[i], e, ending); }
  }

  /** A background command that has ended shows what its body did: the result it returned, or the error it
      raised; a mismatch of versions has a status of its own. */
  lemma {:induction false} ShowsItsEnding(schedule: seq<Event>, i: nat, ending: Ending)
    requires After(schedule).Some? && EndBody(i, ending) in schedule
    requires i < |After(schedule).value.commands| && After(schedule).value.commands[i].stage == Ended
    ensures var c := After(schedule).value.commands[i];
            && (ending.Returns? ==> c.status == Succeeded && c.result == ending.result && c.error == None)
            && (ending.Mismatches? ==> c.status == VersionMismatch && c.result == None && c.error == Some(ending.error))
            && (ending.Raises? ==> c.status == Failed && c.result == None && c.error == Some(ending.error))
  {
    StaysRecorded(schedule, i, ending);
  }

  /** A command that is created by step k, all at once, shows from then on what its body did inside
      execute_command, or the error before any body. */
  lemma {:induction false} ShowsItsOutcome(before: seq<Event>, e: Event, more: seq<Event>)
    requires After(before + [e]).Some? && After(before + [e] + more).Some? && (e.EndSync? || e.FailEarly?)
    ensures After(before).Some?
    ensures var i := |After(before).value.commands|;
            i < |After(before + [e] + more).value.commands| &&
            var c := After(before + [e] + more).value.commands[i];
            && (e.EndSync? && e.outcome.Ok? ==>
                  c.status == Succeeded && c.result == e.outcome.value && c.error == None)
            && (e.EndSync? && e.outcome.Err? ==>
                  c.status == Failed && c.result == None && c.error == Some(e.outcome.error))
            && (e.FailEarly? ==> c.status == Failed && c.result == None && c.error == Some(e.error))
  {
    Prefix(before, e);
    DoneForGood(before + [e], more, |After(before).value.commands|);
  }

  // ----- Nothing blocks the executor -----

  /** Checking the last command is enough: a new command is turned away exactly if some command is not done. */
  lemma {:induction false} BusyExactly(schedule: seq<Event>)
    requires After(schedule).Some? && Enabled(After(schedule).value, Check)
    ensures var s := After(schedule).value; Next(s, Check).phase == Accepted <==> AllDone(s.commands)
    ensures var s := After(schedule).value; Next(s, Check).phase == Idle <==> !AllDone(s.commands)
  {
    InvAlways(schedule);
    var s := After(schedule).value;
    if s.commands != [] {
      var last := |s.commands| - 1;
      assert s.commands == AllButLast(s.commands) + [s.commands[last]];
      assert AllDone(s.commands) ==> Done(s.commands[last]);
    }
  }

  /** No thread is in execute_command or serializes, and the background threads are over. */
  ghost predicate Quiet(s: State) {
    s.phase == Idle &&
      forall i :: 0 <= i < |s.commands| ==> s.commands[i].stage == Ended && s.commands[i].lock == Unlocked
  }

  function Distance(c: Command): nat {
    (if c.lock == ByReader then 1 else 0) +
    match c.stage
    case Body => 6
    case Finishing(_) => 5
    case Writing(ending, n) => if n <= Fields(ending) then 1 + Fields(ending) - n else 0
    case Ended => 0
  }

  function Distances(commands: seq<Command>): nat {
    if commands == [] then 0 else Distance(commands[0]) + Distances(commands[1..])
  }

  lemma {:induction false} DistancesUpdate(commands: seq<Command>, i: nat, c: Command)
    requires i < |commands| && Distance(c) < Distance(commands[i])
    ensures Distances(commands[i := c]) < Distances(commands)
  {
    if i == 0 {
      assert commands[i := c][1..] == commands[1..];
    } else {
      assert commands[i := c][1..] == commands[1..][i - 1 := c];
      DistancesUpdate(commands[1..], i - 1, c);
    }
  }

  /** The next step of whoever is busy with command i; a body that is still running ends as given. */
  function Forward(c: Command, i: nat, ending: Ending): Event {
    if c.lock == ByReader then EndSnapshot(i) else
      match c.stage
      case Body => EndBody(i, ending)
      case Finishing(_) => LockState(i)
      case Writing(e, n) => if n < Fields(e) then WriteField(i) else UnlockState(i)
      case Ended => BeginSnapshot(i)
  }

  lemma {:induction false} ForwardStep(c: Command, i: nat, ending: Ending)
    requires CommandOk(c) && (c.stage != Ended || c.lock != Unlocked)
    ensures CommandEnabled(c, Forward(c, i, ending))
    ensures Distance(CommandNext(c, Forward(c, i, ending))) < Distance(c)
  {
  }

  function Remaining(s: State): nat {
    Distances(s.commands) + if s.phase == Idle then 0 else 1
  }

  lemma {:induction false} Towards(s: State, ending: Ending) returns (e: Event)
    requires Inv(s) && !Quiet(s)
    ensures Enabled(s, e) && Remaining(Next(s, e)) < Remaining(s)
  {
    if s.phase == Recording {
      e := Record;
    } else if s.phase != Idle {
      e := Reject;
    } else {
      var i: nat :| i < |s.commands| && (s.commands[i].stage != Ended || s.commands[i].lock != Unlocked);
      e := Forward(s.commands[i], i, ending);
      assert CommandOk(s.commands[i]);
      ForwardStep(s.commands[i], i, ending);
      DistancesUpdate(s.commands, i, CommandNext(s.commands[i], e));
    }
  }

  ghost predicate Quietens(schedule: seq<Event>, rest: seq<Event>) {
    After(schedule + rest).Some? && Quiet(After(schedule + rest).value)
  }

  lemma {:induction false} OneMore(schedule: seq<Event>, e: Event)
    requires After(schedule).Some? && Enabled(After(schedule).value, e)
    ensures After(schedule + [e]) == Some(Next(After(schedule).value, e))
  {
    assert (schedule + [e])[..|schedule|] == schedule;
  }

  lemma {:induction false} QuietensMore(schedule: seq<Event>, e: Event, more: seq<Event>)
    requires Quietens(schedule + [e], more)
    ensures Quietens(schedule, [e] + more)
  {
    assert schedule + [e] + more == schedule + ([e] + more);
  }

  lemma {:induction false} Quietening(schedule: seq<Event>, d: nat, ending: Ending) returns (rest: seq<Event>)
    requires After(schedule).Some? && Remaining(After(schedule).value) <= d
    ensures Quietens(schedule, rest)
    decreases d
  {
    InvAlways(schedule);
    var s := After(schedule).value;
    if Quiet(s) {
      rest := [];
      assert schedule + rest == schedule;
    } else {
      var e := Towards(s, ending);
      OneMore(schedule, e);
      var more := Quietening(schedule + [e], d - 1, ending);
      rest := [e] + more;
      QuietensMore(schedule, e, more);
    }
  }

  /** A thread can take the command lock and is not turned away. */
  ghost predicate Accepts(schedule: seq<Event>, thread: Thread) {
    var all := schedule + [Acquire(thread)] + [Check];
    After(all).Some? && After(all).value.phase == Accepted
  }

  /** Every run can go on, however the body that is running ends, until nobody is busy; and then a new command
      is accepted. */
  lemma {:induction false} NeverStuck(schedule: seq<Event>, ending: Ending, thread: Thread)
    requires After(schedule).Some?
    ensures exists rest :: Quietens(schedule, rest) && Accepts(schedule + rest, thread)
  {
    var rest := Quietening(schedule, Remaining(After(schedule).value), ending);
    var quiet := schedule + rest;
    QuietAccepts(quiet, thread);
    assert Quietens(schedule, rest);
  }

  lemma {:induction false} QuietAccepts(quiet: seq<Event>, thread: Thread)
    requires After(quiet).Some? && Quiet(After(quiet).value)
    ensures Accepts(quiet, thread)
  {
    InvAlways(quiet);
    var s := After(quiet).value;
    OneMore(quiet, Acquire(thread));
    if s.commands != [] { assert CommandOk(s.commands[|s.commands| - 1]); }
    OneMore(quiet + [Acquire(thread)], Check);
  }
}
