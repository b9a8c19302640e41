/**
 The TCP server, its connection tasks and its handle as one interleaved machine: a watch channel that
 carries the shutdown request, the accept loop, the join set, and the lifecycle hooks in call order.
 */
module Server {
  import opened Core

  // ----- The watch channel -----

  /** The channel's value and the number of times it was sent; a receiver remembers the number it has seen. */
  datatype Watch = Watch(value: bool, version: nat)

  /** Sending without any receiver left changes nothing. */
  function Send(w: Watch, receivers: bool): Watch {
    if receivers then Watch(true, w.version + 1) else w
  }

  /** `shutdown::requested` looks at the value and leaves the receiver's version alone. */
  predicate Requested(w: Watch) { w.value }

  /** `shutdown::wait` completes when there is a version the receiver has not seen. */
  predicate WaitCompletes(w: Watch, seen: nat) { seen != w.version }

  // ----- The machine -----

  /** Where a connection task is; `Joined` once the server has taken its result. */
  datatype Phase = Spawned | AtHead | AtSelect | Busy | Closing | Finished | Joined

  datatype Conn = Conn(phase: Phase, seen: nat)

  /** Where the server task is: in the accept loop, on its way out, or gone. */
  datatype ServerPhase = Head | Select | Leaving | Sending | Joining | Stopping | Gone

  datatype Hook = Opened(id: nat, ok: bool) | ClosedHook(id: nat) | ServerStopped

  /** `callers` are calls of the handle's `shutdown` between looking at the value and sending. */
  datatype State = State(
    watch: Watch, server: ServerPhase, seen: nat, conns: seq<Conn>, callers: nat, log: seq<Hook>)

  datatype Step =
    | HandleLooks | HandleSends
    | LoopHead | Accepts | AcceptFails | Changed | Joins(id: nat) | Leaves | ServerSends | AllJoined | Stops
    | Opens(id: nat, ok: bool) | ChecksFlag(id: nat) | SeesShutdown(id: nat) | TakesEvent(id: nat)
    | EventDone(id: nat, goesOn: bool) | Closes(id: nat)

  function Init(): State { State(Watch(false, 0), Head, 0, [], 0, []) }

  predicate Alive(c: Conn) { c.phase != Finished && c.phase != Joined }

  predicate Receivers(s: State) {
    s.server != Gone || exists i | 0 <= i < |s.conns| :: Alive(s.conns[i])
  }

  predicate At(s: State, id: nat, phase: Phase) { id < |s.conns| && s.conns[id].phase == phase }

  predicate InSet(c: Conn) { c.phase != Joined }

  predicate Enabled(s: State, step: Step) {
    match step
    case HandleLooks => true
    case HandleSends => s.callers > 0
    case LoopHead => s.server == Head
    case Accepts => s.server == Select
    case AcceptFails => s.server == Select
    case Changed => s.server == Select && WaitCompletes(s.watch, s.seen)
    case Joins(id) => (s.server == Select || s.server == Joining) && At(s, id, Finished)
    case Leaves => s.server == Leaving
    case ServerSends => s.server == Sending
    case AllJoined => s.server == Joining && forall i | 0 <= i < |s.conns| :: !InSet(s.conns[i])
    case Stops => s.server == Stopping
    case Opens(id, _) => At(s, id, Spawned)
    case ChecksFlag(id) => At(s, id, AtHead)
    case SeesShutdown(id) => At(s, id, AtSelect) && WaitCompletes(s.watch, s.conns[id].seen)
    case TakesEvent(id) => At(s, id, AtSelect)
    case EventDone(id, _) => At(s, id, Busy)
    case Closes(id) => At(s, id, Closing)
  }

  function Move(s: State, id: nat, phase: Phase): State
    requires id < |s.conns|
  {
    s.(conns := s.conns[id := s.conns[id].(phase := phase)])
  }

  function Log(s: State, h: Hook): State { s.(log := s.log + [h]) }

  function Apply(s: State, step: Step): State
    requires Enabled(s, step)
  {
    match step
    case HandleLooks => if s.watch.value then s else s.(callers := s.callers + 1)
    case HandleSends => s.(watch := Send(s.watch, Receivers(s)), callers := s.callers - 1)
    case LoopHead => s.(server := if s.watch.value then Leaving else Select)
    case Accepts => s.(server := Head, conns := s.conns + [Conn(Spawned, s.watch.version)])
    case AcceptFails => s.(server := Leaving)
    case Changed => s.(seen := s.watch.version, server := if s.watch.value then Leaving else Head)
    case Joins(id) => Move(s.(server := if s.server == Select then Head else Joining), id, Joined)
    case Leaves => s.(server := if s.watch.value then Joining else Sending)
    case ServerSends => s.(watch := Send(s.watch, Receivers(s)), server := Joining)
    case AllJoined => s.(server := Stopping)
    case Stops => Log(s.(server := Gone), ServerStopped)
    case Opens(id, ok) => Log(Move(s, id, if ok then AtHead else Finished), Opened(id, ok))
    case ChecksFlag(id) => Move(s, id, if Requested(s.watch) then Closing else AtSelect)
    case SeesShutdown(id) => Move(s, id, Closing)
    case TakesEvent(id) => Move(s, id, Busy)
    case EventDone(id, goesOn) => Move(s, id, if goesOn then AtHead else Closing)
    case Closes(id) => Log(Move(s, id, Finished), ClosedHook(id))
  }

  /** A run: every step was possible when it was taken. */
  predicate Possible(s: State, steps: seq<Step>)
    decreases |steps|
  {
    steps == [] || (Enabled(s, steps[0]) && Possible(Apply(s, steps[0]), steps[1..]))
  }

  function Execute(s: State, steps: seq<Step>): State
    requires Possible(s, steps)
    decreases |steps|
  {
    if steps == [] then s else Execute(Apply(s, steps[0]), steps[1..])
  }

  // ----- No shutdown is lost -----

  /** A receiver has not seen the future, and one that waits has not seen a pending request. */
  predicate Notified(w: Watch, seen: nat, waits: bool) {
    seen <= w.version && (waits && w.value ==> seen < w.version)
  }

  predicate NothingLost(s: State) {
    && Notified(s.watch, s.seen, s.server == Select)
    && (s.server == Joining || s.server == Stopping || s.server == Gone ==> s.watch.value)
    && forall i | 0 <= i < |s.conns| :: Notified(s.watch, s.conns[i].seen, s.conns[i].phase == AtSelect)
  }

  lemma StepLosesNothing(s: State, step: Step)
    requires NothingLost(s) && Enabled(s, step)
    ensures NothingLost(Apply(s, step))
  {
  }

  lemma {:induction false} RunLosesNothing(s: State, steps: seq<Step>)
    requires NothingLost(s) && Possible(s, steps)
    ensures NothingLost(Execute(s, steps))
    decreases |steps|
  {
    hide NothingLost, Enabled, Apply;
    if steps != [] {
      StepLosesNothing(s, steps[0]);
      RunLosesNothing(Apply(s, steps[0]), steps[1..]);
    }
  }

  /** Whichever of subscription, loop-head check, handle and server came first: once shutdown is requested, every
      connection that waits, and the accept loop if it waits, can see it; and it is always requested before
      connections are joined. */
  lemma NoLostShutdown(steps: seq<Step>, id: nat)
    requires Possible(Init(), steps)
    ensures var s := Execute(Init(), steps);
            && (s.watch.value && At(s, id, AtSelect) ==> Enabled(s, SeesShutdown(id)))
            && (s.watch.value && s.server == Select ==> Enabled(s, Changed))
            && (s.server == Joining ==> s.watch.value)
  {
    RunLosesNothing(Init(), steps);
  }

  // ----- Lifecycle order -----

  function Times(log: seq<Hook>, h: Hook): nat { multiset(log)[h] }

  lemma TimesSnoc(log: seq<Hook>, x: Hook, h: Hook)
    ensures Times(log + [x], h) == Times(log, h) + if x == h then 1 else 0
  {
  }

  /** The hooks of a connection that its phase accounts for. */
  predicate HooksOf(log: seq<Hook>, id: nat, phase: Phase) {
    var started, refused := Times(log, Opened(id, true)), Times(log, Opened(id, false));
    var closed := Times(log, ClosedHook(id));
    match phase
    case Spawned => started == 0 && refused == 0 && closed == 0
    case AtHead => started == 1 && refused == 0 && closed == 0
    case AtSelect => started == 1 && refused == 0 && closed == 0
    case Busy => started == 1 && refused == 0 && closed == 0
    case Closing => started == 1 && refused == 0 && closed == 0
    case Finished => started + refused == 1 && closed == started
    case Joined => started + refused == 1 && closed == started
  }

  /** The stopped hook is called when, and only when, the server task ends, and nothing is called after it. */
  predicate StoppedLast(s: State) {
    && Times(s.log, ServerStopped) == (if s.server == Gone then 1 else 0)
    && (s.server == Gone ==> s.log != [] && s.log[|s.log| - 1] == ServerStopped)
    && (s.server == Stopping || s.server == Gone ==> forall i | 0 <= i < |s.conns| :: s.conns[i].phase == Joined)
  }

  /** Closed hooks come behind the opened hook of the same connection. */
  predicate ClosedAfterOpened(log: seq<Hook>) {
    forall j | 0 <= j < |log| && log[j].ClosedHook? :: Opened(log[j].id, true) in log[..j]
  }

  predicate NoStrangers(s: State) {
    forall j | 0 <= j < |s.log| && !s.log[j].ServerStopped? :: s.log[j].id < |s.conns|
  }

  predicate Orderly(s: State) {
    && (forall i | 0 <= i < |s.conns| :: HooksOf(s.log, i, s.conns[i].phase))
    && StoppedLast(s) && ClosedAfterOpened(s.log) && NoStrangers(s)
  }

  lemma NoHookYet(s: State, h: Hook)
    requires NoStrangers(s) && !h.ServerStopped? && h.id >= |s.conns|
    ensures Times(s.log, h) == 0
  {
    assert h !in s.log;
  }

  lemma AcceptIsOrderly(s: State)
    requires Orderly(s) && Enabled(s, Accepts)
    ensures Orderly(Apply(s, Accepts))
  {
    var n := |s.conns|;
    NoHookYet(s, Opened(n, true));
    NoHookYet(s, Opened(n, false));
    NoHookYet(s, ClosedHook(n));
    hide Times;
    var t := Apply(s, Accepts);
    forall i | 0 <= i < |t.conns|
      ensures HooksOf(t.log, i, t.conns[i].phase)
    {
      if i < n {
        assert t.conns[i] == s.conns[i];
      }
    }
  }

  lemma OtherHooks(log: seq<Hook>, h: Hook, id: nat, phase: Phase)
    requires HooksOf(log, id, phase) && (h.ServerStopped? || h.id != id)
    ensures HooksOf(log + [h], id, phase)
  {
    hide Times;
    TimesSnoc(log, h, Opened(id, true));
    TimesSnoc(log, h, Opened(id, false));
    TimesSnoc(log, h, ClosedHook(id));
  }

  lemma LoggingKeepsOrder(log: seq<Hook>, h: Hook)
    requires ClosedAfterOpened(log) && (h.ClosedHook? ==> Opened(h.id, true) in log)
    ensures ClosedAfterOpened(log + [h])
  {
    forall j | 0 <= j < |log + [h]| && (log + [h])[j].ClosedHook?
      ensures Opened((log + [h])[j].id, true) in (log + [h])[..j]
    {
      assert (log + [h])[..j] == log[..j];
      assert log[..|log|] == log;
    }
  }

  /** A connection calls one of its own hooks and moves on. */
  lemma HookIsOrderly(s: State, id: nat, h: Hook, phase: Phase)
    requires Orderly(s) && id < |s.conns| && s.conns[id].phase != Joined
    requires !h.ServerStopped? && h.id == id && (h.ClosedHook? ==> Opened(id, true) in s.log)
    requires HooksOf(s.log + [h], id, phase)
    ensures Orderly(Log(Move(s, id, phase), h))
  {
    hide HooksOf, Times, ClosedAfterOpened;
    var t := Log(Move(s, id, phase), h);
    LoggingKeepsOrder(s.log, h);
    forall i | 0 <= i < |t.conns|
      ensures HooksOf(t.log, i, t.conns[i].phase)
    {
      if i != id {
        OtherHooks(s.log, h, i, s.conns[i].phase);
      }
    }
    TimesSnoc(s.log, h, ServerStopped);
  }

  /** A connection moves between phases with the same hooks behind it. */
  lemma MoveIsOrderly(s: State, id: nat, phase: Phase)
    requires Orderly(s) && id < |s.conns| && (s.conns[id].phase != Joined || phase == Joined)
    requires HooksOf(s.log, id, phase)
    ensures Orderly(Move(s, id, phase))
  {
    hide HooksOf, Times, ClosedAfterOpened;
  }

  lemma StopIsOrderly(s: State)
    requires Orderly(s) && Enabled(s, Stops)
    ensures Orderly(Apply(s, Stops))
  {
    hide HooksOf, Times, ClosedAfterOpened;
    LoggingKeepsOrder(s.log, ServerStopped);
    TimesSnoc(s.log, ServerStopped, ServerStopped);
    forall i | 0 <= i < |s.conns|
      ensures HooksOf(s.log + [ServerStopped], i, s.conns[i].phase)
    {
      OtherHooks(s.log, ServerStopped, i, s.conns[i].phase);
    }
  }

  lemma OpenIsOrderly(s: State, id: nat, ok: bool)
    requires Orderly(s) && Enabled(s, Opens(id, ok))
    ensures Orderly(Apply(s, Opens(id, ok)))
  {
    hide Orderly, Times;
    assert HooksOf(s.log, id, Spawned) by {
      PhaseHooks(s, id);
    }
    TimesSnoc(s.log, Opened(id, ok), Opened(id, true));
    TimesSnoc(s.log, Opened(id, ok), Opened(id, false));
    TimesSnoc(s.log, Opened(id, ok), ClosedHook(id));
    HookIsOrderly(s, id, Opened(id, ok), if ok then AtHead else Finished);
  }

  lemma PhaseHooks(s: State, id: nat)
    requires Orderly(s) && id < |s.conns|
    ensures HooksOf(s.log, id, s.conns[id].phase)
  {
  }

  lemma CloseIsOrderly(s: State, id: nat)
    requires Orderly(s) && Enabled(s, Closes(id))
    ensures Orderly(Apply(s, Closes(id)))
  {
    PhaseHooks(s, id);
    assert Opened(id, true) in s.log;
    hide Orderly, Times;
    TimesSnoc(s.log, ClosedHook(id), Opened(id, true));
    TimesSnoc(s.log, ClosedHook(id), Opened(id, false));
    TimesSnoc(s.log, ClosedHook(id), ClosedHook(id));
    HookIsOrderly(s, id, ClosedHook(id), Finished);
  }

  /** The phase a step moves a connection to when it calls no hook. */
  function QuietMove(s: State, step: Step): Option<(nat, Phase)> {
    match step
    case Joins(id) => Some((id, Joined))
    case ChecksFlag(id) => Some((id, if Requested(s.watch) then Closing else AtSelect))
    case SeesShutdown(id) => Some((id, Closing))
    case TakesEvent(id) => Some((id, Busy))
    case EventDone(id, goesOn) => Some((id, if goesOn then AtHead else Closing))
    case _ => None
  }

  lemma QuietMoveIsOrderly(s: State, step: Step, id: nat, phase: Phase)
    requires Orderly(s) && Enabled(s, step) && QuietMove(s, step) == Some((id, phase))
    ensures Orderly(Apply(s, step))
  {
    PhaseHooks(s, id);
    hide Times;
    MoveIsOrderly(if step.Joins? && s.server == Select then s.(server := Head) else s, id, phase);
  }

  lemma StepIsOrderly(s: State, step: Step)
    requires Orderly(s) && Enabled(s, step)
    ensures Orderly(Apply(s, step))
  {
    hide Times, HooksOf, ClosedAfterOpened;
    var move := QuietMove(s, step);
    if move.Some? {
      QuietMoveIsOrderly(s, step, move.value.0, move.value.1);
    } else {
      match step
      case Accepts => AcceptIsOrderly(s);
      case Stops => StopIsOrderly(s);
      case Opens(id, ok) => OpenIsOrderly(s, id, ok);
      case Closes(id) => CloseIsOrderly(s, id);
      case _ =>
    }
  }

  lemma {:induction false} RunIsOrderly(s: State, steps: seq<Step>)
    requires Orderly(s) && Possible(s, steps)
    ensures Orderly(Execute(s, steps))
    decreases |steps|
  {
    hide Orderly, Enabled, Apply;
    if steps != [] {
      StepIsOrderly(s, steps[0]);
      RunIsOrderly(Apply(s, steps[0]), steps[1..]);
    }
  }

  /** Over all interleavings: a connection whose opened hook failed gets no closed hook; one whose opened hook
      succeeded gets one, behind it, and never two; and when the stopped hook has run, it ran once, last, with every
      closed hook before it. */
  lemma LifecycleOrder(steps: seq<Step>, id: nat)
    requires Possible(Init(), steps)
    ensures var s := Execute(Init(), steps);
            && Times(s.log, ClosedHook(id)) <= Times(s.log, Opened(id, true)) <= 1
            && Times(s.log, Opened(id, true)) + Times(s.log, Opened(id, false)) <= 1
            && ClosedAfterOpened(s.log)
            && Times(s.log, ServerStopped) == (if s.server == Gone then 1 else 0)
            && (s.server == Gone ==>
                && s.log != [] && s.log[|s.log| - 1] == ServerStopped
                && Times(s.log, ClosedHook(id)) == Times(s.log, Opened(id, true))
                && (id < |s.conns| ==> Times(s.log, Opened(id, true)) + Times(s.log, Opened(id, false)) == 1))
  {
    RunIsOrderly(Init(), steps);
    var s := Execute(Init(), steps);
    if id < |s.conns| {
      PhaseHooks(s, id);
    } else {
      NoHookYet(s, Opened(id, true));
      NoHookYet(s, Opened(id, false));
      NoHookYet(s, ClosedHook(id));
    }
  }

  // ----- Shutdown completes -----

  /** How many more steps a connection can take once shutdown has been requested. */
  function Remaining(phase: Phase): nat {
    match phase
    case Spawned => 7
    case AtSelect => 6
    case Busy => 5
    case AtHead => 4
    case Closing => 3
    case Finished => 2
    case Joined => 0
  }

  function RemainingAll(conns: seq<Conn>): nat {
    if conns == [] then 0 else RemainingAll(conns[..|conns| - 1]) + Remaining(conns[|conns| - 1].phase)
  }

  /** Likewise for the server, which may accept one more connection before it looks at the flag. */
  function ServerRemaining(phase: ServerPhase): nat {
    match phase
    case Select => 20
    case Head => 10
    case Leaving => 8
    case Sending => 6
    case Joining => 4
    case Stopping => 2
    case Gone => 0
  }

  function Measure(s: State): nat { RemainingAll(s.conns) + ServerRemaining(s.server) }

  lemma {:induction false} MoveChanges(conns: seq<Conn>, id: nat, c: Conn)
    requires id < |conns|
    ensures RemainingAll(conns[id := c]) == RemainingAll(conns) - Remaining(conns[id].phase) + Remaining(c.phase)
    decreases |conns|
  {
    var n := |conns| - 1;
    if id == n {
      assert conns[id := c][..n] == conns[..n];
    } else {
      assert conns[id := c][..n] == conns[..n][id := c];
      MoveChanges(conns[..n], id, c);
    }
  }

  predicate OfHandle(step: Step) { step.HandleLooks? || step.HandleSends? }

  /** Once shutdown is requested, every step of the server or a connection brings the end nearer. */
  lemma StepsRunOut(s: State, step: Step)
    requires s.watch.value && Enabled(s, step) && !OfHandle(step)
    ensures Apply(s, step).watch.value && Measure(Apply(s, step)) < Measure(s)
  {
    hide RemainingAll;
    match step
    case Accepts =>
      AcceptAdds(s.conns, Conn(Spawned, s.watch.version));
    case Joins(id) => MoveChanges(s.conns, id, s.conns[id].(phase := Joined));
    case Opens(id, ok) => MoveChanges(s.conns, id, s.conns[id].(phase := if ok then AtHead else Finished));
    case ChecksFlag(id) => MoveChanges(s.conns, id, s.conns[id].(phase := Closing));
    case SeesShutdown(id) => MoveChanges(s.conns, id, s.conns[id].(phase := Closing));
    case TakesEvent(id) => MoveChanges(s.conns, id, s.conns[id].(phase := Busy));
    case EventDone(id, goesOn) => MoveChanges(s.conns, id, s.conns[id].(phase := if goesOn then AtHead else Closing));
    case Closes(id) => MoveChanges(s.conns, id, s.conns[id].(phase := Finished));
    case _ =>
  }

  lemma AcceptAdds(conns: seq<Conn>, c: Conn)
    ensures RemainingAll(conns + [c]) == RemainingAll(conns) + Remaining(c.phase)
  {
    assert (conns + [c])[..|conns|] == conns;
  }

  function OwnSteps(steps: seq<Step>): nat {
    if steps == [] then 0 else (if OfHandle(steps[0]) then 0 else 1) + OwnSteps(steps[1..])
  }

  /** So a shutdown cannot take longer than a fixed number of steps, whatever the handle's callers do meanwhile... */
  lemma {:induction false} ShutdownIsBounded(s: State, steps: seq<Step>)
    requires s.watch.value && Possible(s, steps)
    ensures OwnSteps(steps) <= Measure(s)
    decreases |steps|
  {
    hide Measure;
    if steps != [] {
      if OfHandle(steps[0]) {
        assert Measure(Apply(s, steps[0])) == Measure(s) by {
          HandleChangesNothing(s, steps[0]);
        }
        assert Apply(s, steps[0]).watch.value;
      } else {
        StepsRunOut(s, steps[0]);
      }
      ShutdownIsBounded(Apply(s, steps[0]), steps[1..]);
    }
  }

  lemma HandleChangesNothing(s: State, step: Step)
    requires OfHandle(step) && Enabled(s, step)
    ensures Measure(Apply(s, step)) == Measure(s)
  {
  }

  /** A connection that has not been joined can move, or be joined. */
  lemma ConnectionIsNotStuck(s: State, id: nat)
    requires NothingLost(s) && s.watch.value && s.server == Joining && id < |s.conns| && InSet(s.conns[id])
    ensures exists step :: Enabled(s, step) && !OfHandle(step)
  {
    match s.conns[id].phase
    case Spawned => assert Enabled(s, Opens(id, true));
    case AtHead => assert Enabled(s, ChecksFlag(id));
    case AtSelect => assert Enabled(s, SeesShutdown(id));
    case Busy => assert Enabled(s, EventDone(id, true));
    case Closing => assert Enabled(s, Closes(id));
    case Finished => assert Enabled(s, Joins(id));
  }

  /** ... and until the server is gone there is always a step to take: it cannot get stuck. */
  lemma ShutdownIsNeverStuck(steps: seq<Step>)
    requires Possible(Init(), steps)
    ensures var s := Execute(Init(), steps);
            s.server != Gone && s.watch.value ==> exists step :: Enabled(s, step) && !OfHandle(step)
  {
    RunLosesNothing(Init(), steps);
    var s := Execute(Init(), steps);
    hide Execute, Possible;
    if s.server == Joining && s.watch.value {
      if i :| 0 <= i < |s.conns| && InSet(s.conns[i]) {
        ConnectionIsNotStuck(s, i);
      } else {
        assert Enabled(s, AllJoined);
      }
    } else if s.server != Gone && s.watch.value {
      ServerIsNotStuck(s);
    }
  }

  lemma ServerIsNotStuck(s: State)
    requires NothingLost(s) && s.watch.value && s.server != Joining && s.server != Gone
    ensures exists step :: Enabled(s, step) && !OfHandle(step)
  {
    match s.server
    case Head => assert Enabled(s, LoopHead);
    case Select => assert Enabled(s, Changed);
    case Leaving => assert Enabled(s, Leaves);
    case Sending => assert Enabled(s, ServerSends);
    case Stopping => assert Enabled(s, Stops);
  }
}
