/** What ends a connection, and what a read, a message and a channel write do over whole runs: each told from the
    connection's state before the event, the codec's and stages' own answers, and literal outcomes. */
module StreamEndings {
  import opened Core
  import opened Framing
  import opened StreamSpec
  import opened StreamLaws

  /** The connection has served every event before this one and is still running. */
  predicate Reaches<S(!new), In(!new), W, O>(p: Pipeline<S, In, W, O>, h: Handler<In, W>, maxFrameSize: nat,
        c: Connection<S, In, W>, events: seq<Event<W>>, i: nat)
    requires Steady(p)
  {
    i < |events| && Run(p, h, maxFrameSize, c, events[..i]).end == Running
  }

  /** A run is the run up to an event, that event, and the run from there. */
  lemma {:induction false} RunSplits<S(!new), In(!new), W, O>(p: Pipeline<S, In, W, O>, h: Handler<In, W>,
        maxFrameSize: nat, c: Connection<S, In, W>, events: seq<Event<W>>, i: nat)
    requires Steady(p) && Reaches(p, h, maxFrameSize, c, events, i)
    ensures var next := OnEvent(p, h, maxFrameSize, Run(p, h, maxFrameSize, c, events[..i]), events[i]);
            Run(p, h, maxFrameSize, c, events) == Run(p, h, maxFrameSize, next, events[i + 1..])
    decreases |events|
  {
    hide OnEvent;
    if i > 0 {
      assert events[..i][1..] == events[1..][..i - 1];
      RunSplits(p, h, maxFrameSize, OnEvent(p, h, maxFrameSize, c, events[0]), events[1..], i - 1);
      assert events[1..][i..] == events[i + 1..];
    }
  }

  // ----- Endings -----

  /** Shutdown, the peer's end of stream, a failed read, a close command, the last sender's departure and the idle
      timeout each end the connection at once, with its own reason, and change nothing else. */
  lemma EventsThatEnd<S(!new), In(!new), W, O>(p: Pipeline<S, In, W, O>, h: Handler<In, W>, maxFrameSize: nat,
        c: Connection<S, In, W>, events: seq<Event<W>>, i: nat)
    requires Steady(p) && Reaches(p, h, maxFrameSize, c, events, i)
    ensures var r, before := Run(p, h, maxFrameSize, c, events), Run(p, h, maxFrameSize, c, events[..i]);
            match events[i]
            case ShutdownRequested => r == before.(end := Ended(ServerShutdown))
            case IdleExpired => r == before.(end := Ended(IdleTimeout))
            case ReadFailed => r == before.(end := Failed(IoError, Io))
            case Received(chunk) => chunk == [] ==> r == before.(end := Ended(PeerClosed))
            case Commanded(None) => r == before.(end := Ended(NoMoreCommands))
            case Commanded(Some(command)) => command.CloseCommand? ==> r == before.(end := Ended(LocalClosed))
  {
    hide Serve, OnWrite;
    RunSplits(p, h, maxFrameSize, c, events, i);
  }

  /** The events that end a connection for this reason. */
  predicate Causes<W>(e: Event<W>, reason: CloseReason) {
    match reason
    case PeerClosed => e == Received([])
    case LocalClosed => e == Commanded(Some(CloseCommand))
    case NoMoreCommands => e == Commanded(None)
    case ServerShutdown => e == ShutdownRequested
    case IdleTimeout => e == IdleExpired
    case _ => false
  }

  lemma {:induction false} ServingEnds<S(!new), In(!new), W, O>(p: Pipeline<S, In, W, O>, h: Handler<In, W>,
        c: Connection<S, In, W>)
    requires Steady(p) && c.end == Running
    ensures Serve(p, h, c).end.Ended? ==> Serve(p, h, c).end.reason == HandlerClosed
    decreases |c.buf|
  {
    hide Deliver, Closes;
    assert SteadyAt(p, c.out.state, c.buf);
    var (s, step) := p.decode(c.out.state, c.buf);
    if step.Item? {
      var (out, end) := Handle(p, c.out.(state := s), h(|c.inputs|, step.item));
      if end == Running {
        ServingEnds(p, h, c.(out := out, buf := c.buf[step.used..], inputs := c.inputs + [step.item], end := end));
      }
    }
  }

  lemma EventEnds<S(!new), In(!new), W, O>(p: Pipeline<S, In, W, O>, h: Handler<In, W>, maxFrameSize: nat,
        c: Connection<S, In, W>, e: Event<W>, reason: CloseReason)
    requires Steady(p) && c.end == Running && reason != HandlerClosed
    ensures OnEvent(p, h, maxFrameSize, c, e).end == Ended(reason) <==> Causes(e, reason)
  {
    hide Serve, Outbound;
    if e.Received? {
      ServingEnds(p, h, c.(buf := c.buf + e.chunk, received := c.received + |e.chunk|));
    }
  }

  /** A connection ends for one of these reasons exactly when it reaches an event that causes it. */
  lemma {:induction false} EndsIff<S(!new), In(!new), W, O>(p: Pipeline<S, In, W, O>, h: Handler<In, W>,
        maxFrameSize: nat, c: Connection<S, In, W>, events: seq<Event<W>>, reason: CloseReason)
    requires Steady(p) && c.end == Running && reason != HandlerClosed
    ensures Run(p, h, maxFrameSize, c, events).end == Ended(reason) <==>
            exists i: nat :: Reaches(p, h, maxFrameSize, c, events, i) && Causes(events[i], reason)
    decreases |events|
  {
    hide OnEvent, Causes;
    if events != [] {
      var next := OnEvent(p, h, maxFrameSize, c, events[0]);
      EventEnds(p, h, maxFrameSize, c, events[0], reason);
      if next.end == Running {
        EndsIff(p, h, maxFrameSize, next, events[1..], reason);
      }
      FirstReach(p, h, maxFrameSize, c, events);
      if next.end == Running && Run(p, h, maxFrameSize, c, events).end == Ended(reason) {
        var j: nat :| Reaches(p, h, maxFrameSize, next, events[1..], j) && Causes(events[1..][j], reason);
        assert Reaches(p, h, maxFrameSize, c, events, j + 1);
        assert events[j + 1] == events[1..][j];
      }
      if i: nat :| Reaches(p, h, maxFrameSize, c, events, i) && Causes(events[i], reason) {
        if i > 0 {
          assert Reaches(p, h, maxFrameSize, next, events[1..], i - 1);
          assert events[i] == events[1..][i - 1];
        }
      }
    }
  }

  /** Where a run that begins with an event gets to. */
  lemma FirstReach<S(!new), In(!new), W, O>(p: Pipeline<S, In, W, O>, h: Handler<In, W>, maxFrameSize: nat,
        c: Connection<S, In, W>, events: seq<Event<W>>)
    requires Steady(p) && c.end == Running && events != []
    ensures var next := OnEvent(p, h, maxFrameSize, c, events[0]);
            && Reaches(p, h, maxFrameSize, c, events, 0)
            && forall i: nat | i > 0 :: Reaches(p, h, maxFrameSize, c, events, i) <==>
                 next.end == Running && Reaches(p, h, maxFrameSize, next, events[1..], i - 1)
  {
    hide OnEvent;
    var next := OnEvent(p, h, maxFrameSize, c, events[0]);
    forall i: nat | i > 0
      ensures Reaches(p, h, maxFrameSize, c, events, i) <==>
              next.end == Running && Reaches(p, h, maxFrameSize, next, events[1..], i - 1)
    {
      if i < |events| {
        var rest := events[1..][..i - 1];
        assert events[..i][0] == events[0] && events[..i][1..] == rest;
        assert Run(p, h, maxFrameSize, c, events[..i]) == Run(p, h, maxFrameSize, next, rest);
        assert next.end != Running ==> Run(p, h, maxFrameSize, next, rest) == next;
      }
    }
  }

  // ----- Reads -----

  /** An error is reported under its own reason if the stage that met it knows it, else as the handler's. */
  predicate Reported(known: set<ErrorKind>, e: ErrorKind, reason: CloseReason) {
    if e !in known then reason == HandlerError
    else (e, reason) in {(Decode, DecodeError), (Encode, EncodeError), (Io, IoError), (FrameTooLarge, OversizeFrame)}
  }

  /** A read that leaves more than the limit in the buffer ends the connection undecoded; a decoder's error ends it
      with that error, what the decoder removed being gone. */
  lemma ReadsThatEnd<S(!new), In(!new), W, O>(p: Pipeline<S, In, W, O>, h: Handler<In, W>, maxFrameSize: nat,
        c: Connection<S, In, W>, events: seq<Event<W>>, i: nat, chunk: seq<byte>)
    requires Steady(p) && Reaches(p, h, maxFrameSize, c, events, i) && events[i] == Received(chunk) && chunk != []
    ensures var before := Run(p, h, maxFrameSize, c, events[..i]);
            var r, full := Run(p, h, maxFrameSize, c, events), before.buf + chunk;
            var (s, step) := p.decode(before.out.state, full);
            && (|full| > maxFrameSize ==>
                r == before.(buf := full, received := before.received + |chunk|,
                end := Failed(OversizeFrame, FrameTooLarge)))
            && (|full| <= maxFrameSize && step.Fail? ==>
                && step.used <= |full| && r.end.Failed? && r.end.error == step.error
                && Reported({Decode, FrameTooLarge, Io}, step.error, r.end.reason)
                && r == before.(out := before.out.(state := s), buf := full[step.used..],
                received := before.received + |chunk|, end := r.end))
  {
    RunSplits(p, h, maxFrameSize, c, events, i);
    var before := Run(p, h, maxFrameSize, c, events[..i]);
    hide Run, Handle;
    assert SteadyAt(p, before.out.state, before.buf + chunk);
  }

  /** The messages a handler writes are its write actions', in order. */
  lemma {:induction false} WritesAre<W>(a: seq<Action<W>>, b: seq<Action<W>>, m: W)
    ensures Writes(a + b) == Writes(a) + Writes(b)
    ensures Writes([Write(m)]) == [m] && Writes<W>([Flush]) == [] && Writes<W>([Close]) == []
    decreases |a|
  {
    if a == [] {
      assert a + b == b;
      assert Writes<W>([]) == [];
    } else {
      assert (a + b)[1..] == a[1..] + b;
      WritesAre(a[1..], b, m);
    }
  }

  /** How a handled message leaves the connection: the first failure to encode what the handler wrote ends it, or else
      the handler's own error does, or else its request to close. */
  ghost predicate HandlerEnds(failure: Option<ErrorKind>, closes: bool, result: Result<()>, end: End) {
    match failure
    case Some(e) => end.Failed? && end.error == e && Reported({Decode, Encode, Io, FrameTooLarge}, e, end.reason)
    case None =>
      match result
      case Err(e) => end.Failed? && end.error == e && Reported({Decode, Encode, Io, FrameTooLarge}, e, end.reason)
      case Ok(_) => end == if closes then Ended(HandlerClosed) else Running
  }

  // ----- Every decode call -----

  /** What a decode call, and the handling of what it yields, make of the connection. */
  ghost predicate CallEnds<S, In, W, O>(p: Pipeline<S, In, W, O>, h: Handler<In, W>, call: Call<S, In>, end: End) {
    match p.decode(call.state, call.buf)
    case (_, Need) => end == Running
    case (_, Fail(e, _)) => end.Failed? && end.error == e && Reported({Decode, FrameTooLarge, Io}, e, end.reason)
    case (s, Item(x, _)) =>
      match h(|call.inputs|, x)
      case Dismissed => end == Running
      case Rejected(e) => end.Failed? && end.error == e && Reported({Decode, Encode, Io, FrameTooLarge}, e, end.reason)
      case Handled(script) =>
        var actions := Concat(script.polls) + script.last;
        HandlerEnds(EncodeAll(p.stage, p.encode, s, Writes(actions)).error, Close in actions, script.result, end)
  }

  lemma FirstCallEnds<S(!new), In(!new), W, O>(p: Pipeline<S, In, W, O>, h: Handler<In, W>, c: Connection<S, In, W>)
    returns (end: End)
    requires Steady(p) && c.end == Running && c.out.error.None?
    ensures CallEnds(p, h, Call(c.out.state, c.buf, c.inputs), end)
    ensures end != Running ==> Serve(p, h, c).end == end && |ServeCalls(p, h, c)| == 1
    ensures var (s, step) := p.decode(c.out.state, c.buf);
            step.Item? ==> Handle(p, c.out.(state := s), h(|c.inputs|, step.item)).1 == end
  {
    hide EncodeAll, Writes, Deliver;
    assert SteadyAt(p, c.out.state, c.buf);
    var (s, step) := p.decode(c.out.state, c.buf);
    match step
    case Need => end := Running;
    case Fail(e, _) => end := Failed(DecodeReason(e), e);
    case Item(x, _) =>
      var handling := h(|c.inputs|, x);
      end := Handle(p, c.out.(state := s), handling).1;
      if handling.Handled? {
        var actions := Concat(handling.script.polls) + handling.script.last;
        DeliverEncodesWrites(p, c.out.(state := s), actions);
        assert Closes(actions) <==> Close in actions;
      }
  }

  lemma {:induction false} ServeCallDecides<S(!new), In(!new), W, O>(p: Pipeline<S, In, W, O>, h: Handler<In, W>,
        c: Connection<S, In, W>, k: nat)
    returns (end: End)
    requires Steady(p) && c.end == Running && c.out.error.None? && k < |ServeCalls(p, h, c)|
    ensures CallEnds(p, h, ServeCalls(p, h, c)[k], end)
    ensures end != Running ==> Serve(p, h, c).end == end
    decreases |c.buf|
  {
    hide CallEnds, Handle;
    end := FirstCallEnds(p, h, c);
    if k > 0 {
      assert SteadyAt(p, c.out.state, c.buf);
      var (s, step) := p.decode(c.out.state, c.buf);
      var handling := h(|c.inputs|, step.item);
      HandlingKeepsOrder(p, c.out.(state := s), handling);
      var out := Handle(p, c.out.(state := s), handling).0;
      end := ServeCallDecides(p, h,
          c.(out := out, buf := c.buf[step.used..], inputs := c.inputs + [step.item], end := Running), k - 1);
    }
  }

  /** Over runs, every decode call, the later ones of a read included: a decoder's error, a refusing stage, a failure
      to encode, a handler's error and its request to close each end the connection, in this order of precedence. */
  lemma {:induction false} CallDecides<S(!new), In(!new), W, O>(p: Pipeline<S, In, W, O>, h: Handler<In, W>,
        maxFrameSize: nat, c: Connection<S, In, W>, events: seq<Event<W>>, k: nat)
    returns (end: End)
    requires Steady(p) && (c.end == Running ==> c.out.error.None?)
    requires k < |RunCalls(p, h, maxFrameSize, c, events)|
    ensures CallEnds(p, h, RunCalls(p, h, maxFrameSize, c, events)[k], end)
    ensures end != Running ==> Run(p, h, maxFrameSize, c, events).end == end
    decreases |events|
  {
    hide CallEnds, Serve, ServeCalls;
    var e := events[0];
    var next := OnEvent(p, h, maxFrameSize, c, e);
    var calls := EventCalls(p, h, maxFrameSize, c, e);
    EventKeepsOrder(p, h, maxFrameSize, c, e);
    hide OnEvent;
    if k < |calls| {
      end := EventCallDecides(p, h, maxFrameSize, c, e, k);
    } else {
      end := CallDecides(p, h, maxFrameSize, next, events[1..], k - |calls|);
    }
  }

  lemma EventCallDecides<S(!new), In(!new), W, O>(p: Pipeline<S, In, W, O>, h: Handler<In, W>, maxFrameSize: nat,
        c: Connection<S, In, W>, e: Event<W>, k: nat)
    returns (end: End)
    requires Steady(p) && c.end == Running && c.out.error.None? && k < |EventCalls(p, h, maxFrameSize, c, e)|
    ensures CallEnds(p, h, EventCalls(p, h, maxFrameSize, c, e)[k], end)
    ensures end != Running ==> OnEvent(p, h, maxFrameSize, c, e).end == end
  {
    hide CallEnds, Serve, ServeCalls;
    end := ServeCallDecides(p, h, c.(buf := c.buf + e.chunk, received := c.received + |e.chunk|), k);
  }

  // ----- Channel writes -----

  /** The write failed with this error, nothing having been sent. */
  ghost predicate WriteFailed<S, In, W>(before: Connection<S, In, W>, next: Connection<S, In, W>, s: S, e: ErrorKind) {
    && next.end.Failed? && next.end.error == e && Reported({Encode, Io, FrameTooLarge}, e, next.end.reason)
    && next == before.(out := before.out.(state := s, error := Some(e)), end := next.end)
  }

  /** The write put these bytes on the stream. */
  ghost predicate Written<S, In, W>(before: Connection<S, In, W>, next: Connection<S, In, W>, s: S, m: W,
        bytes: seq<byte>)
  {
    && next.out.wire == before.out.wire + bytes && next.out.pending == []
    && next.out.written == before.out.written + [m] && next.out.sent == before.out.sent + [bytes]
    && next.out.frames == before.out.frames + 1 && next.out.state == s && next.out.error == before.out.error
    && next == before.(out := next.out)
  }

  /** What the stages and the encoder make of a write decides what becomes of it. */
  ghost predicate WrittenAs<S, In, W, O>(p: Pipeline<S, In, W, O>, before: Connection<S, In, W>,
        next: Connection<S, In, W>, m: W)
  {
    var (s, flow) := p.stage(before.out.state, m);
    match flow
    case Refuse(e) => WriteFailed(before, next, s, e)
    case Stop => Written(before, next, s, m, [])
    case Next(o) =>
      var (s2, encoding) := p.encode(s, o);
      if encoding.error.Some? then WriteFailed(before, next, s2, encoding.error.value)
      else Written(before, next, s2, m, encoding.bytes)
  }

  lemma WritingIs<S, In, W, O>(p: Pipeline<S, In, W, O>, c: Connection<S, In, W>, m: W)
    requires c.out.pending == [] && c.out.error.None? && c.end == Running
    ensures WrittenAs(p, c, OnWrite(p, c, m), m)
  {
    assert c.out.wire + [] == c.out.wire;
    assert c.out.sent + [[]] == c.out.sent + [[]];
  }

  lemma AcknowledgedIs<S, In, W, O>(p: Pipeline<S, In, W, O>, before: Connection<S, In, W>,
        next: Connection<S, In, W>, m: W)
    requires WrittenAs(p, before, next, m)
    ensures WrittenAs(p, before, next.(out := Acknowledged(next.out)), m)
  {
  }

  lemma WritingAcknowledges<S, In, W, O>(p: Pipeline<S, In, W, O>, c: Connection<S, In, W>, m: W)
    requires c.out.error.None? && c.end == Running
    ensures OnWrite(p, c, m).out.acks == c.out.acks
    ensures OnWrite(p, c, m).end == Running <==> OnWrite(p, c, m).out.error.None?
  {
    hide Outbound;
  }

  /** A write from the channel: on the stream when it is encoded, nothing when a stage stops it, counted as a frame
      either way; refused by a stage or by the encoder it ends the connection with that error and nothing sent.  A
      flushing one is acknowledged once it is on the stream. */
  lemma ChannelWrite<S(!new), In(!new), W, O>(p: Pipeline<S, In, W, O>, h: Handler<In, W>, maxFrameSize: nat,
        c: Connection<S, In, W>, events: seq<Event<W>>, i: nat, m: W)
    requires Steady(p) && Sound(p, c) && Reaches(p, h, maxFrameSize, c, events, i)
    requires events[i] in {Commanded(Some(WriteCommand(m))), Commanded(Some(WriteAndFlush(m)))}
    ensures var before, next := Run(p, h, maxFrameSize, c, events[..i]), Run(p, h, maxFrameSize, c, events[..i + 1]);
            && WrittenAs(p, before, next, m)
            && next.out.acks ==
               if events[i] == Commanded(Some(WriteAndFlush(m))) && next.end == Running
               then before.out.acks + [|next.out.wire|] else before.out.acks
  {
    assert events[..i + 1][..i] == events[..i] && events[..i + 1][i] == events[i];
    RunSplits(p, h, maxFrameSize, c, events[..i + 1], i);
    RunIsSound(p, h, maxFrameSize, c, events[..i]);
    var before := Run(p, h, maxFrameSize, c, events[..i]);
    WritingIs(p, before, m);
    AcknowledgedIs(p, before, OnWrite(p, before, m), m);
    WritingAcknowledges(p, before, m);
    hide WrittenAs, OnWrite;
  }

  // ----- Counters -----

  /** No stage ever stops a message. */
  ghost predicate NeverStops<S(!new), In, W(!new), O>(p: Pipeline<S, In, W, O>) {
    forall s: S, m: W :: !p.stage(s, m).1.Stop?
  }

  /** When no stage stops a message, exactly the processed messages are counted as frames written. */
  lemma {:induction false} FramesAreCounted<S(!new), In(!new), W(!new), O>(p: Pipeline<S, In, W, O>, h: Handler<In, W>,
        maxFrameSize: nat, c: Connection<S, In, W>, events: seq<Event<W>>)
    requires Steady(p) && NeverStops(p)
    requires c.out.frames == |c.out.written|
    ensures var r := Run(p, h, maxFrameSize, c, events); r.out.frames == |r.out.written|
    decreases |events|
  {
    hide OnEvent;
    if events != [] && c.end == Running {
      EventCounts(p, h, maxFrameSize, c, events[0]);
      FramesAreCounted(p, h, maxFrameSize, OnEvent(p, h, maxFrameSize, c, events[0]), events[1..]);
    }
  }

  lemma EventCounts<S(!new), In(!new), W(!new), O>(p: Pipeline<S, In, W, O>, h: Handler<In, W>, maxFrameSize: nat,
        c: Connection<S, In, W>, e: Event<W>)
    requires Steady(p) && NeverStops(p)
    requires c.out.frames == |c.out.written|
    ensures var r := OnEvent(p, h, maxFrameSize, c, e); r.out.frames == |r.out.written|
  {
    hide Serve;
    if e.Received? {
      ServingCounts(p, h, c.(buf := c.buf + e.chunk, received := c.received + |e.chunk|));
    }
  }

  lemma {:induction false} ServingCounts<S(!new), In(!new), W(!new), O>(p: Pipeline<S, In, W, O>, h: Handler<In, W>,
        c: Connection<S, In, W>)
    requires Steady(p) && NeverStops(p)
    requires c.out.frames == |c.out.written|
    ensures var r := Serve(p, h, c); r.out.frames == |r.out.written|
    decreases |c.buf|
  {
    hide Handle;
    assert SteadyAt(p, c.out.state, c.buf);
    var (s, step) := p.decode(c.out.state, c.buf);
    if step.Item? {
      var handling := h(|c.inputs|, step.item);
      var (out, end) := Handle(p, c.out.(state := s), handling);
      assert out.frames == |out.written| by {
        HandlingCounts(p, c.out.(state := s), handling);
      }
      if end == Running {
        ServingCounts(p, h, c.(out := out, buf := c.buf[step.used..], inputs := c.inputs + [step.item], end := end));
      }
    }
  }

  lemma HandlingCounts<S(!new), In, W(!new), O>(p: Pipeline<S, In, W, O>, d: Delivery<S, W>, h: Handling<W>)
    requires NeverStops(p)
    requires d.frames == |d.written|
    ensures Handle(p, d, h).0.frames == |Handle(p, d, h).0.written|
  {
    hide Deliver;
    if h.Handled? {
      DeliveryCounts(p, d, Actions(h.script));
    }
  }

  lemma {:induction false} DeliveryCounts<S(!new), In, W(!new), O>(p: Pipeline<S, In, W, O>, d: Delivery<S, W>,
        actions: seq<Action<W>>)
    requires NeverStops(p)
    requires d.frames == |d.written|
    ensures Deliver(p, d, actions).frames == |Deliver(p, d, actions).written|
    decreases |actions|
  {
    if actions != [] {
      DeliveryCounts(p, Perform(p, d, actions[0]), actions[1..]);
    }
  }

  /** The bytes that the reads among some events bring. */
  function Arriving<W>(events: seq<Event<W>>): seq<byte> {
    if events == [] then []
    else (if events[0].Received? then events[0].chunk else []) + Arriving(events[1..])
  }

  /** While the connection runs, every byte that arrived has been counted. */
  lemma {:induction false} BytesAreCounted<S(!new), In(!new), W, O>(p: Pipeline<S, In, W, O>, h: Handler<In, W>,
        maxFrameSize: nat, c: Connection<S, In, W>, events: seq<Event<W>>)
    requires Steady(p) && Run(p, h, maxFrameSize, c, events).end == Running
    ensures Run(p, h, maxFrameSize, c, events).received == c.received + |Arriving(events)|
    decreases |events|
  {
    hide Serve, Outbound;
    if events != [] {
      if events[0].Received? {
        var chunk := events[0].chunk;
        ServeKeepsCount(p, h, c.(buf := c.buf + chunk, received := c.received + |chunk|));
      }
      BytesAreCounted(p, h, maxFrameSize, OnEvent(p, h, maxFrameSize, c, events[0]), events[1..]);
    }
  }
}
