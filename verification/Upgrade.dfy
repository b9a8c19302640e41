/**
 The protocol upgrade over whole connections: the shared-port codec under the HTTP/WebSocket router,
 served by the connection task.  The codec changes state when it encodes the handshake response, so
 whether that happens before the next decode is a property of the loop, not of the codec.
 */
module Upgrade {
  import opened Core
  import opened Framing
  import Http
  import HttpCodec
  import HttpText
  import opened HttpWs
  import Search
  import opened StreamSpec
  import opened StreamLaws
  import WebSocketFrames

  type HttpWsPipeline = Pipeline<State, Inbound, HttpWs.Outbound, HttpWs.Outbound>

  /** The codec with no outbound stages. */
  function PipelineOf(o: Options): HttpWsPipeline {
    StreamSpec.Pipeline.Pipeline(
      (s: State, b: seq<byte>) => (s, DecodeAny(o, s, b)),
      (s: State, m: HttpWs.Outbound) => (s, Next(m)),
      (s: State, m: HttpWs.Outbound) =>
        var (s1, r) := EncodeAny(s, m);
        (s1, if r.Ok? then Encoding(r.value, None) else Encoding([], Some(r.error))))
  }

  /** The services behind the router, free to answer differently every time. */
  datatype Services = Services(
    call: (nat, Http.Request) -> Result<HttpCodec.Response>,
    open: (nat, Handshake) -> Result<HandshakeResponse>,
    message: (nat, WebSocketFrames.Message) -> Result<Option<WebSocketFrames.Message>>)

  function Reply(r: Result<Option<HttpWs.Outbound>>): Handling<HttpWs.Outbound> {
    match r
    case Err(e) => Handled(Script([], [], Err(e)))
    case Ok(None) => Handled(Script([], [], Ok(())))
    case Ok(Some(m)) => Handled(Script([], [Write(m)], Ok(())))
  }

  /** What the router answers to one inbound message. */
  function Answer(services: Services, n: nat, x: Inbound): Result<Option<HttpWs.Outbound>> {
    match x
    case HttpIn(request) =>
      var response :- services.call(n, request);
      Ok(Some(HttpOut(response)))
    case HandshakeIn(handshake) =>
      var response :- services.open(n, handshake);
      Ok(Some(HandshakeOut(response)))
    case MessageIn(message) =>
      var response :- services.message(n, message);
      Ok(if response.Some? then Some(MessageOut(response.value)) else None)
  }

  function Router(services: Services): Handler<Inbound, HttpWs.Outbound> {
    (n: nat, x: Inbound) => Reply(Answer(services, n, x))
  }

  // ----- The codec under the loop -----

  lemma DecodingIsSteady(o: Options)
    ensures Steady(PipelineOf(o))
  {
    hide Http.DecodeRequest, WebSocketFrames.DecodeFrame;
    var p := PipelineOf(o);
    Http.HttpProgress(o.http);
    WebSocketFrames.WsIsStable(o.maxFrameLen, o.requireMask);
    forall s: State, b: seq<byte>
      ensures SteadyAt(p, s, b)
    {
      assert ProgressAt(Http.HttpDecoder(o.http), b);
      assert ProgressAt(WebSocketFrames.WsDecoder(o.maxFrameLen, o.requireMask), b);
    }
  }

  /** Whatever the limits, no message and no error but "too large" depends on read boundaries. */
  lemma DecodingStands(o: Options)
    ensures VerdictsStand(PipelineOf(o))
  {
    hide Http.DecodeRequest, WebSocketFrames.DecodeFrame, IsUpgrade, HandshakeOf;
    var p := PipelineOf(o);
    WebSocketFrames.WsIsStable(o.maxFrameLen, o.requireMask);
    forall s: State, b: seq<byte>, t: seq<byte>
      ensures VerdictStandsAt(p, s, b, t)
    {
      if s == HttpState {
        HttpVerdictStands(o.http, b, t);
      } else {
        assert StableAt(WebSocketFrames.WsDecoder(o.maxFrameLen, o.requireMask), b, t);
      }
    }
  }

  lemma HttpVerdictStands(o: Http.Options, b: seq<byte>, t: seq<byte>)
    ensures var step := Http.DecodeRequest(o, b);
            step == Need || step == Fail(FrameTooLarge, 0) || Http.DecodeRequest(o, b + t) == step
  {
    hide Http.Preface, Http.ReadBody, Http.BuildRequest, Search.Find;
    if Search.Find(b, HttpText.BLANK, 0).Some? && Http.DecodeRequest(o, b) != Need {
      Http.VerdictStands(o, b, t);
    }
  }

  /** However the requests, the handshake and the frames behind it are cut into reads, the connection does the same,
      under every configuration and for streams of any length, unless it ends with "too large". */
  lemma UpgradeIgnoresReadBoundaries(o: Options, services: Services, maxFrameSize: nat, chunks: seq<seq<byte>>)
    requires forall i | 0 <= i < |chunks| :: chunks[i] != []
    requires Steady(PipelineOf(o))
    requires Run(PipelineOf(o), Router(services), maxFrameSize, Start(HttpState), Reads(chunks)).end != TOO_LARGE
    ensures var whole := Start(HttpState).(buf := Concat(chunks), received := |Concat(chunks)|);
            SameButUnread(Run(PipelineOf(o), Router(services), maxFrameSize, Start(HttpState), Reads(chunks)),
                          Serve(PipelineOf(o), Router(services), whole))
  {
    hide DecodeAny, Router;
    DecodingStands(o);
    var start := Start<State, Inbound, HttpWs.Outbound>(HttpState);
    EmptyBufferNeeds(o);
    SplitInvariance(PipelineOf(o), Router(services), maxFrameSize, start, chunks);
    assert [] + Concat(chunks) == Concat(chunks);
  }

  lemma EmptyBufferNeeds(o: Options)
    ensures DecodeAny(o, HttpState, []) == Need
  {
    assert Search.Find([], HttpText.BLANK, 0) == None;
  }

  // ----- Shapes -----

  /** HTTP first; then, if at all, one handshake; then frames only. */
  predicate Upgrades(kinds: seq<Kind>) {
    forall i, j | 0 <= i < j < |kinds| :: kinds[i] == OfHttp || kinds[j] == OfFrames
  }

  datatype Kind = OfHttp | OfHandshake | OfFrames

  function InKind(x: Inbound): Kind {
    match x
    case HttpIn(_) => OfHttp
    case HandshakeIn(_) => OfHandshake
    case MessageIn(_) => OfFrames
  }

  function OutKind(m: HttpWs.Outbound): Kind {
    match m
    case HttpOut(_) => OfHttp
    case HandshakeOut(_) => OfHandshake
    case MessageOut(_) => OfFrames
  }

  function InKinds(xs: seq<Inbound>): seq<Kind> { seq(|xs|, i requires 0 <= i < |xs| => InKind(xs[i])) }

  function OutKinds(ms: seq<HttpWs.Outbound>): seq<Kind> { seq(|ms|, i requires 0 <= i < |ms| => OutKind(ms[i])) }

  /** What a codec in this state has seen, or written, so far. */
  predicate Shape(kinds: seq<Kind>, state: State) {
    && Upgrades(kinds)
    && (state == HttpState ==> forall i | 0 <= i < |kinds| :: kinds[i] == OfHttp)
    && (state == FrameState ==> OfHandshake in kinds)
  }

  /** Each encoding is the encoding of its message. */
  ghost predicate Encodes(d: Delivery<State, HttpWs.Outbound>) {
    && |d.sent| == |d.written|
    && forall i | 0 <= i < |d.sent| :: Bytes(d.written[i]) == Ok(d.sent[i])
  }

  /** The invariant of the upgrade. */
  ghost predicate Safe(c: Connection<State, Inbound, HttpWs.Outbound>) {
    && Encodes(c.out)
    && Shape(OutKinds(c.out.written), c.out.state)
    && Upgrades(InKinds(c.inputs))
    && (c.end == Running ==> c.out.error.None? && Shape(InKinds(c.inputs), c.out.state))
  }

  lemma ShapeGrows(kinds: seq<Kind>, state: State, k: Kind, next: State)
    requires Shape(kinds, state)
    requires k == OfFrames <==> state == FrameState
    requires next == if k == OfHandshake then FrameState else state
    ensures Shape(kinds + [k], next)
  {
    var all := kinds + [k];
    if OfHandshake in kinds {
      var i :| 0 <= i < |kinds| && kinds[i] == OfHandshake;
      assert all[i] == OfHandshake;
      forall j | 0 <= j < |kinds|
        ensures kinds[j] == OfHttp || k == OfFrames
      {
      }
    }
    assert all[|kinds|] == k;
  }

  /** What the codec yields in a state, the router answers with a message that belongs in that state. */
  lemma AnswerBelongs(o: Options, s: State, b: seq<byte>, x: Inbound, n: nat, services: Services, i: nat)
    requires DecodeAny(o, s, b) == Item(x, n)
    ensures InKind(x) == OfFrames <==> s == FrameState
    ensures Answer(services, i, x).Ok? && Answer(services, i, x).value.Some? ==>
              OutKind(Answer(services, i, x).value.value) == InKind(x)
  {
    hide Http.DecodeRequest, WebSocketFrames.DecodeFrame, IsUpgrade, HandshakeOf;
  }

  /** So the only encode error a reply can meet is that of the frame itself, never that of the wrong state. */
  lemma NoWrongStateError(o: Options, s: State, b: seq<byte>, x: Inbound, n: nat, services: Services, i: nat,
        m: HttpWs.Outbound)
    requires DecodeAny(o, s, b) == Item(x, n) && Answer(services, i, x) == Ok(Some(m))
    ensures RightState(s, m)
    ensures EncodeAny(s, m).1.Err? ==> m.MessageOut? && WebSocketFrames.EncodeMessage(m.message).Err?
  {
    hide DecodeAny, WebSocketFrames.EncodeMessage;
    AnswerBelongs(o, s, b, x, n, services, i);
  }

  lemma ReplyDelivers(o: Options, d: Delivery<State, HttpWs.Outbound>, r: Result<Option<HttpWs.Outbound>>)
    requires d.error.None?
    ensures var (out, end) := Handle(PipelineOf(o), d, Reply(r));
            if r.Ok? && r.value.Some? then
              var staged := Staged(PipelineOf(o), d, r.value.value);
              out == Flushed(staged) && (end == Running ==> staged.error.None?)
            else out == Flushed(d) && (end == Running ==> r.Ok?)
  {
    hide StreamSpec.Outbound;
    if r.Ok? && r.value.Some? {
      var actions: seq<Action<HttpWs.Outbound>> := [Write(r.value.value)];
      assert Concat<Action<HttpWs.Outbound>>([]) + actions == actions;
      assert Deliver(PipelineOf(o), d, actions) == Staged(PipelineOf(o), d, r.value.value);
    } else {
      assert Concat<Action<HttpWs.Outbound>>([]) + [] == [];
    }
  }

  /** One message through decoder, router and encoder keeps the invariant. */
  lemma MessageIsSafe(o: Options, services: Services, c: Connection<State, Inbound, HttpWs.Outbound>, x: Inbound,
        n: nat)
    requires Safe(c) && c.end == Running && DecodeAny(o, c.out.state, c.buf) == Item(x, n) && n <= |c.buf|
    ensures var (out, end) := Handle(PipelineOf(o), c.out, Router(services)(|c.inputs|, x));
            Safe(c.(out := out, buf := c.buf[n..], inputs := c.inputs + [x], end := end))
  {
    hide DecodeAny, Answer, Shape, Handle, Bytes;
    var s := c.out.state;
    var answer := Answer(services, |c.inputs|, x);
    AnswerBelongs(o, s, c.buf, x, n, services, |c.inputs|);
    ReplyDelivers(o, c.out, answer);
    assert InKinds(c.inputs + [x]) == InKinds(c.inputs) + [InKind(x)];
    InputShape(InKinds(c.inputs), s, InKind(x));
    if answer.Ok? && answer.value.Some? {
      var m := answer.value.value;
      assert OutKinds(c.out.written + [m]) == OutKinds(c.out.written) + [OutKind(m)];
      var next := if OutKind(m) == OfHandshake then FrameState else s;
      ShapeGrows(OutKinds(c.out.written), s, OutKind(m), next);
      ShapeGrows(InKinds(c.inputs), s, InKind(x), next);
      StagedReply(o, c.out, m);
    } else if answer.Ok? {
      NoAnswerOnlyToFrames(services, |c.inputs|, x);
      ShapeGrows(InKinds(c.inputs), s, InKind(x), s);
    }
  }

  lemma InputShape(kinds: seq<Kind>, s: State, k: Kind)
    requires Shape(kinds, s) && (k == OfFrames <==> s == FrameState)
    ensures Upgrades(kinds + [k])
  {
    ShapeGrows(kinds, s, k, if k == OfHandshake then FrameState else s);
  }

  lemma NoAnswerOnlyToFrames(services: Services, n: nat, x: Inbound)
    requires Answer(services, n, x) == Ok(None)
    ensures InKind(x) == OfFrames
  {
  }

  lemma StagedReply(o: Options, d: Delivery<State, HttpWs.Outbound>, m: HttpWs.Outbound)
    requires d.error.None? && Encodes(d) && RightState(d.state, m)
    ensures var r := Staged(PipelineOf(o), d, m);
            && Encodes(r)
            && (r.error.None? ==>
                && r.written == d.written + [m]
                && r.state == if OutKind(m) == OfHandshake then FrameState else d.state)
            && (r.error.Some? ==> r.written == d.written && r.state == d.state)
  {
    hide HttpCodec.EncodeResponse, EncodeHandshakeResponse, WebSocketFrames.EncodeMessage;
  }

  lemma {:induction false} ServingIsSafe(o: Options, services: Services, c: Connection<State, Inbound, HttpWs.Outbound>)
    requires Steady(PipelineOf(o)) && Safe(c) && c.end == Running
    ensures Safe(Serve(PipelineOf(o), Router(services), c))
    decreases |c.buf|
  {
    hide DecodeAny, Handle, Safe, Router;
    var p := PipelineOf(o);
    assert SteadyAt(p, c.out.state, c.buf);
    var (s, step) := p.decode(c.out.state, c.buf);
    match step
    case Need =>
    case Fail(e, n) => EndIsSafe(c, c.buf[n..], DecodeReason(e), e);
    case Item(x, n) =>
      MessageIsSafe(o, services, c, x, n);
      var (out, end) := Handle(p, c.out, Router(services)(|c.inputs|, x));
      var next := c.(out := out, buf := c.buf[n..], inputs := c.inputs + [x], end := end);
      if end == Running {
        ServingIsSafe(o, services, next);
      }
  }

  lemma EndIsSafe(c: Connection<State, Inbound, HttpWs.Outbound>, rest: seq<byte>, reason: CloseReason, e: ErrorKind)
    requires Safe(c)
    ensures Safe(c.(buf := rest, end := Failed(reason, e)))
  {
  }

  /**
   Over every run without channel writes, even when frames stand in the buffer right behind the
   handshake: while the connection runs, the codec is in the frame state exactly when a handshake has
   been decoded; what goes out is HTTP responses, then at most one handshake response, then frames.
   */
  lemma {:induction false} UpgradeIsSafe(o: Options, services: Services, maxFrameSize: nat,
        c: Connection<State, Inbound, HttpWs.Outbound>, events: seq<Event<HttpWs.Outbound>>)
    requires Steady(PipelineOf(o)) && Safe(c)
    requires forall i | 0 <= i < |events| :: OnlyReplies(events[i])
    ensures Safe(Run(PipelineOf(o), Router(services), maxFrameSize, c, events))
    decreases |events|
  {
    hide Serve, Safe, Router;
    if events != [] && c.end == Running {
      assert OnlyReplies(events[0]);
      EventIsSafe(o, services, maxFrameSize, c, events[0]);
      var next := OnEvent(PipelineOf(o), Router(services), maxFrameSize, c, events[0]);
      UpgradeIsSafe(o, services, maxFrameSize, next, events[1..]);
    }
  }

  lemma EventIsSafe(o: Options, services: Services, maxFrameSize: nat,
        c: Connection<State, Inbound, HttpWs.Outbound>, e: Event<HttpWs.Outbound>)
    requires Steady(PipelineOf(o)) && Safe(c) && c.end == Running && OnlyReplies(e)
    ensures Safe(OnEvent(PipelineOf(o), Router(services), maxFrameSize, c, e))
  {
    hide Serve, Router, Encodes, Shape, Upgrades;
    if e.Received? && e.chunk != [] {
      var c1 := c.(buf := c.buf + e.chunk, received := c.received + |e.chunk|);
      assert Safe(c1);
      ServingIsSafe(o, services, c1);
    }
  }

  // ----- Every decode call -----

  /** The codec is in the frame state exactly when a handshake has been decoded before the call. */
  ghost predicate InStep(call: Call<State, Inbound>) {
    call.state == FrameState <==> exists i :: 0 <= i < |call.inputs| && call.inputs[i].HandshakeIn?
  }

  ghost predicate AllInStep(calls: seq<Call<State, Inbound>>) {
    forall k | 0 <= k < |calls| :: InStep(calls[k])
  }

  lemma RunningIsInStep(c: Connection<State, Inbound, HttpWs.Outbound>)
    requires Safe(c) && c.end == Running
    ensures InStep(Call(c.out.state, c.buf, c.inputs))
  {
    HandshakeSeen(c.inputs, c.out.state);
  }

  lemma {:induction false} ServeCallsInStep(o: Options, services: Services,
        c: Connection<State, Inbound, HttpWs.Outbound>)
    requires Steady(PipelineOf(o)) && Safe(c) && c.end == Running
    ensures AllInStep(ServeCalls(PipelineOf(o), Router(services), c))
    decreases |c.buf|
  {
    hide DecodeAny, Handle, Router, Safe, InStep;
    var p := PipelineOf(o);
    assert SteadyAt(p, c.out.state, c.buf);
    RunningIsInStep(c);
    var (s, step) := p.decode(c.out.state, c.buf);
    if step.Item? {
      MessageIsSafe(o, services, c, step.item, step.used);
      var (out, end) := Handle(p, c.out, Router(services)(|c.inputs|, step.item));
      if end == Running {
        ServeCallsInStep(o, services,
          c.(out := out, buf := c.buf[step.used..], inputs := c.inputs + [step.item], end := end));
      }
    }
  }

  /** At every decode call of every run without channel writes, those of a read that ends the connection included,
      the codec is in the frame state exactly when a handshake has already been decoded. */
  lemma {:induction false} CallsInStep(o: Options, services: Services, maxFrameSize: nat,
        c: Connection<State, Inbound, HttpWs.Outbound>, events: seq<Event<HttpWs.Outbound>>)
    requires Steady(PipelineOf(o)) && Safe(c)
    requires forall i | 0 <= i < |events| :: OnlyReplies(events[i])
    ensures AllInStep(RunCalls(PipelineOf(o), Router(services), maxFrameSize, c, events))
    decreases |events|
  {
    hide Serve, ServeCalls, Router, InStep, Safe;
    if events != [] && c.end == Running {
      var e := events[0];
      assert OnlyReplies(e);
      if e.Received? && e.chunk != [] {
        ArrivalIsSafe(c, e.chunk);
        ServeCallsInStep(o, services, c.(buf := c.buf + e.chunk, received := c.received + |e.chunk|));
      }
      EventIsSafe(o, services, maxFrameSize, c, e);
      CallsInStep(o, services, maxFrameSize, OnEvent(PipelineOf(o), Router(services), maxFrameSize, c, e), events[1..]);
    }
  }

  lemma ArrivalIsSafe(c: Connection<State, Inbound, HttpWs.Outbound>, chunk: seq<byte>)
    requires Safe(c)
    ensures Safe(c.(buf := c.buf + chunk, received := c.received + |chunk|))
  {
  }

  // ----- In terms of messages and bytes -----

  /** Encodings of messages of one kind, one after another. */
  ghost predicate BytesOf(wire: seq<seq<byte>>, kind: Kind) {
    forall i | 0 <= i < |wire| :: IsOf(wire[i], kind)
  }

  ghost predicate IsOf(part: seq<byte>, kind: Kind) {
    exists m :: OutKind(m) == kind && Bytes(m) == Ok(part)
  }

  /** A safe connection's encodings, cut where the HTTP part ends and behind the handshake response. */
  lemma EncodingsSplit(d: Delivery<State, HttpWs.Outbound>, at: nat)
    requires Encodes(d) && Shape(OutKinds(d.written), d.state) && at == FirstNonHttp(OutKinds(d.written))
    ensures at <= |d.sent| && BytesOf(d.sent[..at], OfHttp)
    ensures at < |d.sent| <==> d.state == FrameState
    ensures at < |d.sent| ==> BytesOf([d.sent[at]], OfHandshake) && BytesOf(d.sent[at + 1..], OfFrames)
  {
    hide BytesOf, Shape;
    ShapeSplits(OutKinds(d.written), d.state, at);
    PartIsOf(d, 0, at, OfHttp);
    assert d.sent[0..at] == d.sent[..at];
    if at < |d.sent| {
      PartIsOf(d, at, at + 1, OfHandshake);
      assert d.sent[at..at + 1] == [d.sent[at]];
      PartIsOf(d, at + 1, |d.sent|, OfFrames);
      assert d.sent[at + 1..|d.sent|] == d.sent[at + 1..];
    }
  }

  /** The stream carries a prefix of: HTTP responses, at most one handshake response, frames. */
  lemma WireIsUpgraded(o: Options, services: Services, maxFrameSize: nat, events: seq<Event<HttpWs.Outbound>>)
    returns (responses: seq<seq<byte>>, switch: seq<seq<byte>>, frames: seq<seq<byte>>)
    requires forall i | 0 <= i < |events| :: OnlyReplies(events[i])
    ensures Steady(PipelineOf(o))
    ensures BytesOf(responses, OfHttp) && BytesOf(switch, OfHandshake) && BytesOf(frames, OfFrames)
    ensures |switch| <= 1 && (switch == [] ==> frames == [])
    ensures AllInStep(RunCalls(PipelineOf(o), Router(services), maxFrameSize, Start(HttpState), events))
    ensures var c := Run(PipelineOf(o), Router(services), maxFrameSize, Start(HttpState), events);
            && c.out.sent == responses + (switch + frames)
            && c.out.wire <= Concat(responses + (switch + frames))
            && (c.out.state == FrameState <==> switch != [])
            && (c.end == Running ==>
                (c.out.state == FrameState <==> exists i :: 0 <= i < |c.inputs| && c.inputs[i].HandshakeIn?))
  {
    hide StreamSpec.Run, RunCalls, Router, Encodes, Shape, BytesOf, AllInStep, Conserved, Upgrades;
    DecodingIsSteady(o);
    var c := Run(PipelineOf(o), Router(services), maxFrameSize, Start(HttpState), events);
    RunFromStart(o, services, maxFrameSize, events);
    var d := c.out;
    var at := FirstNonHttp(OutKinds(d.written));
    EncodingsSplit(d, at);
    responses := d.sent[..at];
    if at < |d.sent| {
      switch, frames := [d.sent[at]], d.sent[at + 1..];
    } else {
      switch, frames := [], [];
      NothingIs(OfHandshake);
      NothingIs(OfFrames);
    }
    assert d.sent == responses + (switch + frames);
    if c.end == Running {
      HandshakeSeen(c.inputs, d.state);
    }
  }

  lemma NothingIs(kind: Kind)
    ensures BytesOf([], kind)
  {
  }

  lemma RunFromStart(o: Options, services: Services, maxFrameSize: nat, events: seq<Event<HttpWs.Outbound>>)
    requires forall i | 0 <= i < |events| :: OnlyReplies(events[i])
    requires Steady(PipelineOf(o))
    ensures var c := Run(PipelineOf(o), Router(services), maxFrameSize, Start(HttpState), events);
            Safe(c) && Sound(PipelineOf(o), c)
    ensures AllInStep(RunCalls(PipelineOf(o), Router(services), maxFrameSize, Start(HttpState), events))
  {
    hide StreamSpec.Run, Router;
    var start := Start<State, Inbound, HttpWs.Outbound>(HttpState);
    assert Safe(start);
    hide Safe, Sound, RunCalls, AllInStep;
    UpgradeIsSafe(o, services, maxFrameSize, start, events);
    CallsInStep(o, services, maxFrameSize, start, events);
    StartIsSound(PipelineOf(o), HttpState);
    RunIsSound(PipelineOf(o), Router(services), maxFrameSize, start, events);
  }

  lemma ShapeSplits(kinds: seq<Kind>, state: State, at: nat)
    requires Shape(kinds, state) && at == FirstNonHttp(kinds)
    ensures at < |kinds| <==> state == FrameState
    ensures at < |kinds| ==> kinds[at] == OfHandshake
    ensures forall i | at < i < |kinds| :: kinds[i] == OfFrames
  {
    hide FirstNonHttp;
    if state == FrameState {
      var i :| 0 <= i < |kinds| && kinds[i] == OfHandshake;
      assert at <= i;
    }
  }

  lemma PartIsOf(d: Delivery<State, HttpWs.Outbound>, from: nat, to: nat, kind: Kind)
    requires Encodes(d) && from <= to <= |d.sent|
    requires forall i | from <= i < to :: OutKinds(d.written)[i] == kind
    ensures BytesOf(d.sent[from..to], kind)
  {
    hide OutKind, Bytes;
    forall i | 0 <= i < to - from
      ensures IsOf(d.sent[from..to][i], kind)
    {
      var m := d.written[from + i];
      assert OutKind(m) == OutKinds(d.written)[from + i] && Bytes(m) == Ok(d.sent[from + i]);
    }
  }

  lemma HandshakeSeen(inputs: seq<Inbound>, state: State)
    requires Shape(InKinds(inputs), state)
    ensures state == FrameState <==> exists i :: 0 <= i < |inputs| && inputs[i].HandshakeIn?
  {
    var kinds := InKinds(inputs);
    if state == FrameState {
      var i :| 0 <= i < |kinds| && kinds[i] == OfHandshake;
      assert inputs[i].HandshakeIn?;
    }
    if i :| 0 <= i < |inputs| && inputs[i].HandshakeIn? {
      assert kinds[i] == OfHandshake;
    }
  }

  /** Where the HTTP part ends. */
  function FirstNonHttp(kinds: seq<Kind>): (n: nat)
    ensures n <= |kinds|
    ensures forall i | 0 <= i < n :: kinds[i] == OfHttp
    ensures n < |kinds| ==> kinds[n] != OfHttp
  {
    if kinds == [] || kinds[0] != OfHttp then 0 else 1 + FirstNonHttp(kinds[1..])
  }
}
