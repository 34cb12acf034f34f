/**
 * The Windows service handler of the agent: `myservice.Execute`
 * (cmd/agent/main_windows.go), as a sequential state machine.
 *
 * The concurrency of the handler is replaced by inputs. `Collaborators` says
 * which of the registry import, the config upgrade and the agent start fail.
 * The event trace lists, in order, what the `select` loop receives from its two
 * channels: control requests from the service control manager and values on
 * the Stopper channel. Everything observable that Execute does — statuses sent
 * on `changes`, event-log records and calls into the agent — is one sequence
 * of `Action`s, so that its order can be stated.
 *
 * Schedule of the start goroutine: it calls StartAgent where it is launched,
 * before `Running` is reported; when StartAgent fails, its reaction (a logged
 * error, errno := 1, a `Stopped` status) comes after the handler's own start
 * record and before the loop. The Stopper value it then raises is the one the
 * loop receives at the first Stopper entry of the trace or, when the trace
 * ends without one, right after the trace.
 */
module Service {

  newtype uint32 = x: int | 0 <= x < 0x1_0000_0000

  // Control codes of svc.Cmd (the Windows SERVICE_CONTROL_* values) that Execute tests.
  const Stop: uint32 := 1
  const Interrogate: uint32 := 4
  const Shutdown: uint32 := 5

  // Bits of svc.Accepted.
  const AcceptStop: bv32 := 1
  const AcceptShutdown: bv32 := 4
  const CmdsAccepted: bv32 := AcceptStop | AcceptShutdown

  // Event-log identifiers written by Execute.
  const ImportConfigWarning: uint32 := 0x8000_0001
  const UpgradeConfigWarning: uint32 := 0x8000_0002
  const ServiceStartedInfo: uint32 := 0x4000_0003
  const StopperReceivedInfo: uint32 := 0x4000_000a
  const StartAgentFailedError: uint32 := 0xc000_000b
  const UnexpectedRequestWarning: uint32 := 0xc000_0009
  const StopReceivedInfo: uint32 := 0x4000_000c
  const ShutdownInfo: uint32 := 0x4000_000d

  /** svc.State: the states of a Windows service. */
  datatype State = Stopped | StartPending | StopPending | Running | ContinuePending | PausePending | Paused

  /** svc.Status. */
  datatype Status = Status(state: State, accepts: bv32, checkPoint: uint32, waitHint: uint32)

  /** A status that only names the state, as `svc.Status{State: s}` does. */
  function Report(s: State): Status {
    Status(s, 0, 0, 0)
  }

  const RunningStatus: Status := Status(Running, CmdsAccepted, 0, 0)

  /** svc.ChangeRequest: the command and the status the manager last saw. */
  datatype ChangeRequest = ChangeRequest(cmd: uint32, currentStatus: Status)

  /** What the select loop receives: a control request, or a value on the Stopper channel. */
  datatype Event = Request(request: ChangeRequest) | StopSignal

  /** Which of the external calls return an error. */
  datatype Collaborators = Collaborators(importFails: bool, upgradeFails: bool, startFails: bool)

  datatype Op = ImportRegistryConfig | CheckAndUpgradeConfig | StartAgent | StopAgent

  /** One observable step of Execute: a status sent on `changes`, an event-log record, or a call out. */
  datatype Action = Send(status: Status) | Log(id: uint32) | Call(op: Op)

  /** The outcome of a run: Execute's two results and everything it did, in order. */
  datatype Execution = Execution(ssec: bool, errno: uint32, actions: seq<Action>, consumed: nat, returned: bool)

  // ---------------------------------------------------------------------------
  // The specification of a run
  // ---------------------------------------------------------------------------

  /** The events that end the loop. */
  predicate Ends(e: Event) {
    e.StopSignal? || e.request.cmd == Stop || e.request.cmd == Shutdown
  }

  /** The index of the first event that ends the loop, or |trace| when there is none. */
  function FirstExit(trace: seq<Event>): (k: nat)
    ensures k <= |trace|
    ensures k < |trace| ==> Ends(trace[k])
    ensures forall i :: 0 <= i < k ==> !Ends(trace[i])
  {
    if trace == [] then 0
    else if Ends(trace[0]) then 0
    else 1 + FirstExit(trace[1..])
  }

  /** What the loop does for an event that does not end it. */
  function Reaction(e: Event): seq<Action> {
    if Ends(e) then []
    else if e.request.cmd == Interrogate then [Send(e.request.currentStatus)]
    else [Log(UnexpectedRequestWarning)]
  }

  function Reactions(events: seq<Event>): seq<Action> {
    if events == [] then [] else Reaction(events[0]) + Reactions(events[1..])
  }

  /** The event-log record of the branch that leaves the loop. */
  function ExitRecord(e: Event): uint32 {
    if e.StopSignal? then StopperReceivedInfo
    else if e.request.cmd == Stop then StopReceivedInfo
    else ShutdownInfo
  }

  /** Initialisation, the start of the goroutine, the Running report and the goroutine's failure reaction. */
  function Startup(env: Collaborators): seq<Action> {
    [Send(Report(StartPending)), Call(ImportRegistryConfig)]
    + (if env.importFails then [Log(ImportConfigWarning)] else [])
    + [Call(CheckAndUpgradeConfig)]
    + (if env.upgradeFails then [Log(UpgradeConfigWarning)] else [])
    + [Call(StartAgent), Send(RunningStatus), Log(ServiceStartedInfo)]
    + (if env.startFails then [Log(StartAgentFailedError), Send(Report(Stopped))] else [])
  }

  /** What follows the loop, whichever event ended it. */
  const ShutdownTail: seq<Action> := [Log(ShutdownInfo), Send(Report(StopPending)), Call(StopAgent), Send(Report(Stopped))]

  /** The record written when the loop is left: that of the ending event, or the Stopper record of a failed start. */
  function ExitRecordOf(trace: seq<Event>): uint32 {
    var k := FirstExit(trace);
    if k < |trace| then ExitRecord(trace[k]) else StopperReceivedInfo
  }

  /** Whether the loop is left: some event of the trace ends it, or the failed start's Stopper value does. */
  predicate LeavesLoop(startFails: bool, trace: seq<Event>) {
    FirstExit(trace) < |trace| || startFails
  }

  /** The number of times `x` occurs in `s`. */
  function Count(s: seq<Action>, x: Action): nat {
    if s == [] then 0 else (if s[0] == x then 1 else 0) + Count(s[1..], x)
  }

  /**
   * The loop and what follows it: the reactions to the events before the first
   * one that ends the loop, then that event's record and the shutdown tail.
   * When the handler is still waiting, only the reactions.
   */
  function LoopActions(startFails: bool, trace: seq<Event>): seq<Action> {
    var k := FirstExit(trace);
    Reactions(trace[..k])
    + (if LeavesLoop(startFails, trace) then [Log(ExitRecordOf(trace))] + ShutdownTail else [])
  }

  /** A run of Execute: its two results, what it did and how many trace events its loop consumed. */
  function Run(env: Collaborators, trace: seq<Event>): Execution {
    var k := FirstExit(trace);
    Execution(false, if env.startFails then 1 else 0,
              Startup(env) + LoopActions(env.startFails, trace),
              if k < |trace| then k + 1 else k,
              LeavesLoop(env.startFails, trace))
  }

  // ---------------------------------------------------------------------------
  // Execute
  // ---------------------------------------------------------------------------

  /** myservice.Execute over the trace of what its loop receives. */
  method Execute(env: Collaborators, trace: seq<Event>)
    returns (ssec: bool, errno: uint32, actions: seq<Action>, consumed: nat, returned: bool)
    ensures Execution(ssec, errno, actions, consumed, returned) == Run(env, trace)
  {
    ssec := false;
    var stopperRaised;
    errno, actions, stopperRaised := Initialise(env);
    ghost var startup := actions;

    actions, consumed, returned := EventLoop(trace, actions);
    if !returned && stopperRaised {
      // the failed start's Stopper value, received once the trace is exhausted
      actions := actions + [Log(StopperReceivedInfo)];
      returned := true;
    }
    ghost var reactions := Reactions(trace[..FirstExit(trace)]);
    ghost var loop := reactions + [Log(ExitRecordOf(trace))];
    assert returned == LeavesLoop(env.startFails, trace);
    assert !returned ==> actions == startup + reactions;
    assert returned ==> actions == startup + loop;

    if returned {
      ghost var left := actions;
      actions := actions + [Log(ShutdownInfo)];
      actions := actions + [Send(Report(StopPending))];
      actions := actions + [Call(StopAgent)];
      actions := actions + [Send(Report(Stopped))];
      assert actions == left + ShutdownTail;
      Associate(startup, loop, ShutdownTail);
    }
    assert actions == startup + LoopActions(env.startFails, trace);
  }

  /**
   * Everything before the loop: StartPending, the two best-effort config
   * steps and their warnings, the launch of the start goroutine, the Running
   * report with its start record, and the goroutine's reaction to a failed
   * start, which sets errno to 1 and raises Stopper.
   */
  method Initialise(env: Collaborators) returns (errno: uint32, actions: seq<Action>, stopperRaised: bool)
    ensures actions == Startup(env)
    ensures errno == (if env.startFails then 1 else 0) && stopperRaised == env.startFails
  {
    errno := 0;
    actions := [Send(Report(StartPending))];

    actions := actions + [Call(ImportRegistryConfig)];
    if env.importFails {
      actions := actions + [Log(ImportConfigWarning)];
    }
    actions := actions + [Call(CheckAndUpgradeConfig)];
    if env.upgradeFails {
      actions := actions + [Log(UpgradeConfigWarning)];
    }

    actions := actions + [Call(StartAgent)];
    actions := actions + [Send(RunningStatus)];
    actions := actions + [Log(ServiceStartedInfo)];
    stopperRaised := false;
    if env.startFails {
      actions := actions + [Log(StartAgentFailedError)];
      errno := 1;
      actions := actions + [Send(Report(Stopped))];
      stopperRaised := true;
    }
  }

  /**
   * The `for`/`select` loop: answers Interrogate, warns about unexpected
   * requests, and leaves on the first Stop, Shutdown or Stopper event, after
   * writing that event's record. `left` tells whether such an event came.
   */
  method EventLoop(trace: seq<Event>, before: seq<Action>) returns (actions: seq<Action>, consumed: nat, left: bool)
    ensures var k := FirstExit(trace);
      left == (k < |trace|) &&
      consumed == (if left then k + 1 else k) &&
      actions == before + Reactions(trace[..k]) + (if left then [Log(ExitRecord(trace[k]))] else [])
  {
    actions, consumed, left := before, 0, false;
    while consumed < |trace|
      invariant consumed <= FirstExit(trace)
      invariant actions == before + Reactions(trace[..consumed])
    {
      var e := trace[consumed];
      ReactionsSnoc(trace, consumed);
      consumed := consumed + 1;
      match e
      case StopSignal =>
        actions := actions + [Log(StopperReceivedInfo)];
        left := true;
        break;
      case Request(c) =>
        if c.cmd == Interrogate {
          actions := actions + [Send(c.currentStatus)];
        } else if c.cmd == Stop {
          actions := actions + [Log(StopReceivedInfo)];
          left := true;
          break;
        } else if c.cmd == Shutdown {
          actions := actions + [Log(ShutdownInfo)];
          left := true;
          break;
        } else {
          actions := actions + [Log(UnexpectedRequestWarning)];
        }
    }
  }

  // ---------------------------------------------------------------------------
  // Lemmas about the loop
  // ---------------------------------------------------------------------------

  lemma Associate<T>(a: seq<T>, b: seq<T>, c: seq<T>)
    ensures a + b + c == a + (b + c)
  {
  }

  lemma {:induction false} ReactionsAppend(a: seq<Event>, b: seq<Event>)
    ensures Reactions(a + b) == Reactions(a) + Reactions(b)
  {
    if a == [] {
      assert a + b == b;
    } else {
      assert (a + b)[1..] == a[1..] + b;
      ReactionsAppend(a[1..], b);
    }
  }

  lemma ReactionsSnoc(trace: seq<Event>, i: nat)
    requires i < |trace|
    ensures Reactions(trace[..i + 1]) == Reactions(trace[..i]) + Reaction(trace[i])
  {
    assert trace[..i + 1] == trace[..i] + [trace[i]];
    ReactionsAppend(trace[..i], [trace[i]]);
    assert Reactions([trace[i]]) == Reaction(trace[i]) + Reactions([]);
  }

  /** The loop's reactions only send statuses or write the unexpected-request warning. */
  lemma {:induction false} ReactionsOnlySendOrWarn(events: seq<Event>)
    ensures forall a :: a in Reactions(events) ==> a.Send? || a == Log(UnexpectedRequestWarning)
  {
    if events != [] {
      ReactionsOnlySendOrWarn(events[1..]);
    }
  }

  /** FirstExit is the only index with its two defining properties. */
  lemma FirstExitUnique(trace: seq<Event>, k: nat)
    requires k < |trace| && Ends(trace[k])
    requires forall i :: 0 <= i < k ==> !Ends(trace[i])
    ensures FirstExit(trace) == k
  {
  }

  lemma {:induction false} CountAppend(a: seq<Action>, b: seq<Action>, x: Action)
    ensures Count(a + b, x) == Count(a, x) + Count(b, x)
  {
    if a == [] {
      assert a + b == b;
    } else {
      assert (a + b)[1..] == a[1..] + b;
      CountAppend(a[1..], b, x);
    }
  }

  lemma {:induction false} CountAbsent(s: seq<Action>, x: Action)
    requires x !in s
    ensures Count(s, x) == 0
  {
    if s != [] {
      CountAbsent(s[1..], x);
    }
  }

  /** The shutdown record, the StopAgent call and Stopped each occur once in the shutdown tail. */
  lemma ShutdownTailCounts()
    ensures Count(ShutdownTail, Log(ShutdownInfo)) == 1
    ensures Count(ShutdownTail, Call(StopAgent)) == 1
    ensures Count(ShutdownTail, Send(Report(Stopped))) == 1
  {
    forall x | x in {Log(ShutdownInfo), Call(StopAgent), Send(Report(Stopped))}
      ensures Count(ShutdownTail, x) == 1
    {
      var t := ShutdownTail;
      assert Count(t[3..], x) == (if t[3] == x then 1 else 0) + Count(t[4..], x);
      assert Count(t[2..], x) == (if t[2] == x then 1 else 0) + Count(t[3..], x);
      assert Count(t[1..], x) == (if t[1] == x then 1 else 0) + Count(t[2..], x);
    }
  }

  /**
   * Once the loop is left, what follows is the shutdown record, StopPending,
   * the one StopAgent call and Stopped, in that order; a loop that is not left
   * never calls StopAgent. The shutdown record is written once more by a
   * Shutdown request, and by nothing else in the loop.
   */
  lemma LoopEndsWithShutdownTail(startFails: bool, trace: seq<Event>)
    ensures var a := LoopActions(startFails, trace);
      (LeavesLoop(startFails, trace) ==> |a| >= 4 && a[|a| - 4..] == ShutdownTail) &&
      Count(a, Call(StopAgent)) == (if LeavesLoop(startFails, trace) then 1 else 0) &&
      Count(a, Log(ShutdownInfo)) ==
        (if !LeavesLoop(startFails, trace) then 0
         else if ExitRecordOf(trace) == ShutdownInfo then 2 else 1)
  {
    var k := FirstExit(trace);
    var reactions := Reactions(trace[..k]);
    ReactionsOnlySendOrWarn(trace[..k]);
    CountAbsent(reactions, Call(StopAgent));
    CountAbsent(reactions, Log(ShutdownInfo));
    if LeavesLoop(startFails, trace) {
      var x := [Log(ExitRecordOf(trace))];
      assert LoopActions(startFails, trace) == reactions + (x + ShutdownTail);
      CountAppend(reactions, x + ShutdownTail, Call(StopAgent));
      CountAppend(reactions, x + ShutdownTail, Log(ShutdownInfo));
      CountAppend(x, ShutdownTail, Call(StopAgent));
      CountAppend(x, ShutdownTail, Log(ShutdownInfo));
      ShutdownTailCounts();
      assert x[1..] == [];
    } else {
      assert LoopActions(startFails, trace) == reactions;
    }
  }

  // ---------------------------------------------------------------------------
  // Lemmas about a run
  // ---------------------------------------------------------------------------

  /** An event that does not end the loop contributes its reaction, and the loop goes on with the rest of the trace. */
  lemma LoopStep(startFails: bool, e: Event, rest: seq<Event>)
    requires !Ends(e)
    ensures FirstExit([e] + rest) == FirstExit(rest) + 1
    ensures LoopActions(startFails, [e] + rest) == Reaction(e) + LoopActions(startFails, rest)
  {
    var t := [e] + rest;
    assert t[1..] == rest;
    var k := FirstExit(rest);
    assert t[..k + 1] == [e] + rest[..k];
    ReactionsAppend([e], rest[..k]);
    assert Reactions([e]) == Reaction(e) + Reactions([]);
    if k < |rest| {
      assert t[k + 1] == rest[k];
    }
    assert LeavesLoop(startFails, t) == LeavesLoop(startFails, rest);
    assert ExitRecordOf(t) == ExitRecordOf(rest);
  }

  /** The startup actions hold neither StopAgent nor the shutdown record, and they report Running. */
  lemma StartupContents(env: Collaborators)
    ensures Call(StopAgent) !in Startup(env) && Log(ShutdownInfo) !in Startup(env)
    ensures Send(RunningStatus) in Startup(env)
  {
  }

  /** A failed start makes the goroutine's Stopped the last startup action. */
  lemma StartupEndsStopped(env: Collaborators)
    requires env.startFails
    ensures Startup(env)[|Startup(env)| - 1] == Send(Report(Stopped))
  {
  }

  lemma SuffixOfConcat<T>(p: seq<T>, s: seq<T>, t: seq<T>)
    requires |t| <= |s| && s[|s| - |t|..] == t
    ensures |t| <= |p + s| && (p + s)[|p + s| - |t|..] == t
  {
    assert (p + s)[|p + s| - |t|..] == s[|s| - |t|..];
  }

  /** The first status sent is StartPending, before the registry import and the config upgrade are attempted. */
  lemma StartPendingFirst(env: Collaborators, trace: seq<Event>)
    ensures var r := Run(env, trace);
      r.actions[0] == Send(Report(StartPending)) &&
      r.actions[1] == Call(ImportRegistryConfig) &&
      Call(CheckAndUpgradeConfig) in r.actions[2..]
  {
    var r := Run(env, trace);
    var i := if env.importFails then 3 else 2;
    assert r.actions[i] == Call(CheckAndUpgradeConfig);
  }

  /**
   * A failing registry import or config upgrade only inserts its warning record
   * after the step that failed, and Running is still reported.
   */
  lemma StartupConfigWarnings(env: Collaborators)
    ensures var ok := Startup(env.(importFails := false, upgradeFails := false));
      ok[2] == Call(CheckAndUpgradeConfig) &&
      Startup(env) ==
        ok[..2]
        + (if env.importFails then [Log(ImportConfigWarning)] else [])
        + [ok[2]]
        + (if env.upgradeFails then [Log(UpgradeConfigWarning)] else [])
        + ok[3..]
  {
  }

  /** Config failures change nothing in a run but the startup warnings: the results and the actions after startup agree. */
  lemma ConfigFailuresOnlyWarn(env: Collaborators, trace: seq<Event>)
    ensures var envOk := env.(importFails := false, upgradeFails := false);
      var ok := Run(envOk, trace);
      var r := Run(env, trace);
      r == ok.(actions := Startup(env) + ok.actions[|Startup(envOk)|..]) &&
      Send(RunningStatus) in r.actions
  {
    var envOk := env.(importFails := false, upgradeFails := false);
    var ok := Run(envOk, trace);
    assert ok.actions[|Startup(envOk)|..] == LoopActions(env.startFails, trace);
    StartupContents(env);
  }

  /** Running is reported with exactly Stop and Shutdown accepted. */
  lemma RunningAcceptsStopAndShutdown(env: Collaborators, trace: seq<Event>)
    ensures Send(Status(Running, AcceptStop | AcceptShutdown, 0, 0)) in Run(env, trace).actions
    ensures CmdsAccepted == 5
  {
    StartupContents(env);
  }

  /** An Interrogate request echoes the manager's current status, and the loop goes on with the rest of the trace. */
  lemma InterrogateEchoes(env: Collaborators, current: Status, rest: seq<Event>)
    ensures var r := Run(env, [Request(ChangeRequest(Interrogate, current))] + rest);
      var later := Run(env, rest);
      r == later.(actions := Startup(env) + [Send(current)] + later.actions[|Startup(env)|..], consumed := later.consumed + 1)
  {
    var e := Request(ChangeRequest(Interrogate, current));
    LoopStep(env.startFails, e, rest);
    assert Run(env, rest).actions[|Startup(env)|..] == LoopActions(env.startFails, rest);
  }

  /**
   * A request with any other code that neither stops nor shuts down writes the
   * unexpected-request warning, sends no status, and the loop goes on.
   */
  lemma UnexpectedRequestWarns(env: Collaborators, c: ChangeRequest, rest: seq<Event>)
    requires c.cmd != Interrogate && c.cmd != Stop && c.cmd != Shutdown
    ensures var r := Run(env, [Request(c)] + rest);
      var later := Run(env, rest);
      r == later.(actions := Startup(env) + [Log(UnexpectedRequestWarning)] + later.actions[|Startup(env)|..], consumed := later.consumed + 1)
  {
    assert Reaction(Request(c)) == [Log(UnexpectedRequestWarning)];
    LoopStep(env.startFails, Request(c), rest);
    assert Run(env, rest).actions[|Startup(env)|..] == LoopActions(env.startFails, rest);
  }

  /**
   * The first Stop, Shutdown or Stopper event ends the loop: it is the last event
   * consumed, and whatever follows it in the trace changes nothing.
   */
  lemma FirstExitEndsLoop(env: Collaborators, trace: seq<Event>, later: seq<Event>)
    requires FirstExit(trace) < |trace|
    ensures var r := Run(env, trace);
      r.returned && r.consumed == FirstExit(trace) + 1 &&
      Run(env, trace[..r.consumed] + later) == r
  {
    var k := FirstExit(trace);
    var t := trace[..k + 1] + later;
    assert t[..k] == trace[..k];
    assert t[k] == trace[k];
    FirstExitUnique(t, k);
  }

  /**
   * A run that returns ends with the shutdown record, StopPending, the single
   * StopAgent call and Stopped, in that order; one that has not returned never
   * calls StopAgent.
   */
  lemma ShutdownTailAlways(env: Collaborators, trace: seq<Event>)
    ensures var r := Run(env, trace);
      (r.returned ==> |r.actions| >= 4 && r.actions[|r.actions| - 4..] == ShutdownTail) &&
      Count(r.actions, Call(StopAgent)) == (if r.returned then 1 else 0)
  {
    StartupContents(env);
    LoopEndsWithShutdownTail(env.startFails, trace);
    var loop := LoopActions(env.startFails, trace);
    CountAbsent(Startup(env), Call(StopAgent));
    CountAppend(Startup(env), loop, Call(StopAgent));
    if LeavesLoop(env.startFails, trace) {
      SuffixOfConcat(Startup(env), loop, ShutdownTail);
    }
  }

  /**
   * A failing StartAgent sets errno to 1, sends Stopped from the goroutine and
   * raises Stopper, which drives the same shutdown tail, so Stopped is sent
   * twice in that run. A successful start leaves errno 0; ssec is never set.
   */
  lemma StartFailureStopsService(env: Collaborators, trace: seq<Event>)
    ensures var r := Run(env, trace);
      !r.ssec && r.errno == (if env.startFails then 1 else 0) &&
      (env.startFails ==>
         r.returned &&
         exists i, j :: 0 <= i < j < |r.actions| && r.actions[i] == Send(Report(Stopped)) && r.actions[j] == Send(Report(Stopped)))
  {
    if env.startFails {
      StartupEndsStopped(env);
      LoopEndsWithShutdownTail(env.startFails, trace);
      var loop := LoopActions(env.startFails, trace);
      var all := Startup(env) + loop;
      var i, j := |Startup(env)| - 1, |all| - 1;
      assert all[i] == Send(Report(Stopped));
      assert all[j] == loop[|loop| - 1] == ShutdownTail[3];
    }
  }

  /** No Interrogate request among `events` carries a current status in the Stopped state. */
  predicate NoStoppedEcho(events: seq<Event>) {
    forall i :: 0 <= i < |events| && events[i].Request? && events[i].request.cmd == Interrogate ==>
      events[i].request.currentStatus.state != Stopped
  }

  /** The loop sends Stopped only by echoing an Interrogate request whose current status is Stopped. */
  lemma {:induction false} ReactionsSendNoStopped(events: seq<Event>)
    requires NoStoppedEcho(events)
    ensures Send(Report(Stopped)) !in Reactions(events)
  {
    if events != [] {
      assert forall i :: 0 <= i < |events| - 1 ==> events[1..][i] == events[i + 1];
      ReactionsSendNoStopped(events[1..]);
    }
  }

  /**
   * With a successful start, Stopped is reported once by a run that returns
   * and never by one still waiting, as long as no Interrogate answered before
   * the loop ends echoes a Stopped status back to the manager.
   */
  lemma StoppedOnceOnSuccessfulStart(env: Collaborators, trace: seq<Event>)
    requires !env.startFails
    requires NoStoppedEcho(trace[..FirstExit(trace)])
    ensures var r := Run(env, trace);
      Count(r.actions, Send(Report(Stopped))) == (if r.returned then 1 else 0)
  {
    var x := Send(Report(Stopped));
    var k := FirstExit(trace);
    var reactions := Reactions(trace[..k]);
    ReactionsSendNoStopped(trace[..k]);
    CountAbsent(reactions, x);
    CountAbsent(Startup(env), x);
    var loop := LoopActions(env.startFails, trace);
    CountAppend(Startup(env), loop, x);
    if LeavesLoop(env.startFails, trace) {
      var y := [Log(ExitRecordOf(trace))];
      assert loop == reactions + (y + ShutdownTail);
      CountAppend(reactions, y + ShutdownTail, x);
      CountAppend(y, ShutdownTail, x);
      ShutdownTailCounts();
      assert y[1..] == [];
    } else {
      assert loop == reactions;
    }
  }

  /** The handler returns exactly when the trace holds an event that ends the loop, or the start failed. */
  lemma ReturnsWhenStopped(env: Collaborators, trace: seq<Event>)
    ensures Run(env, trace).returned <==> (exists i :: 0 <= i < |trace| && Ends(trace[i])) || env.startFails
  {
    if exists i :: 0 <= i < |trace| && Ends(trace[i]) {
      var i :| 0 <= i < |trace| && Ends(trace[i]);
      assert FirstExit(trace) <= i;
    }
  }

  /** A Shutdown request writes the shutdown record twice: in its own branch and after the loop. */
  lemma ShutdownRecordedTwice(env: Collaborators, trace: seq<Event>)
    requires FirstExit(trace) < |trace| && trace[FirstExit(trace)].Request?
    requires trace[FirstExit(trace)].request.cmd == Shutdown
    ensures Count(Run(env, trace).actions, Log(ShutdownInfo)) == 2
  {
    StartupContents(env);
    LoopEndsWithShutdownTail(env.startFails, trace);
    CountAbsent(Startup(env), Log(ShutdownInfo));
    CountAppend(Startup(env), LoopActions(env.startFails, trace), Log(ShutdownInfo));
  }
}
