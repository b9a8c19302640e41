/**
 What a TCP connection does, told message by message: no outbox, no write buffer, no polling, and a
 stream that accepts everything.  `StreamRuntime` proves the connection task against it.
 */
module StreamSpec {
  import opened Core
  import opened Framing

  // ----- The pipeline -----

  /** What the outbound stages make of a message. */
  datatype Flow<+O> = Next(msg: O) | Stop | Refuse(error: ErrorKind)

  /** What an encoder appended, and the error if it gave up on the way. */
  datatype Encoding = Encoding(bytes: seq<byte>, error: Option<ErrorKind>)

  /** A codec and its outbound stages; `S` is the state they keep between calls. */
  datatype Pipeline<!S, !In, !W, !O> = Pipeline(
    decode: (S, seq<byte>) -> (S, Step<In>),
    stage: (S, W) -> (S, Flow<O>),
    encode: (S, O) -> (S, Encoding))

  /** One outbound message: encoded, stopped by a stage, or failed. */
  datatype Sending = Encoded(bytes: seq<byte>) | Dropped | Failing(partial: seq<byte>, error: ErrorKind)

  /** A message through the outbound stages and the encoder. */
  function Through<S, W, O>(stage: (S, W) -> (S, Flow<O>), encode: (S, O) -> (S, Encoding), s: S, m: W): (S, Sending) {
    var (s1, flow) := stage(s, m);
    match flow
    case Stop => (s1, Dropped)
    case Refuse(e) => (s1, Failing([], e))
    case Next(o) =>
      var (s2, e) := encode(s1, o);
      (s2, if e.error.Some? then Failing(e.bytes, e.error.value) else Encoded(e.bytes))
  }

  function Outbound<S, In, W, O>(p: Pipeline<S, In, W, O>, s: S, m: W): (S, Sending) {
    Through(p.stage, p.encode, s, m)
  }

  // ----- Handlers -----

  datatype Action<+W> = Write(msg: W) | Flush | Close

  /** A handler run: what it does between one suspension and the next, what it does last, and its result. */
  datatype Script<+W> = Script(polls: seq<seq<Action<W>>>, last: seq<Action<W>>, result: Result<()>)

  /** What becomes of a decoded message: dropped or refused by a stage, or handled. */
  datatype Handling<+W> = Dismissed | Rejected(error: ErrorKind) | Handled(script: Script<W>)

  /** Any handler at all: its behaviour may differ from message to message. */
  type Handler<!In, !W> = (nat, In) -> Handling<W>

  function Actions<W>(script: Script<W>): seq<Action<W>> { Concat(script.polls) + script.last }

  function Writes<W>(actions: seq<Action<W>>): seq<W> {
    if actions == [] then []
    else if actions[0].Write? then [actions[0].msg] + Writes(actions[1..])
    else Writes(actions[1..])
  }

  predicate Closes<W>(actions: seq<Action<W>>) { exists i | 0 <= i < |actions| :: actions[i].Close? }

  // ----- Delivery -----

  /**
   Progress of outbound traffic: `wire` is on the stream, `pending` is encoded but not flushed,
   `written` are the messages processed so far, `sent` their encodings, and `acks` the stream positions at which flushes
   were acknowledged.  An error ends it.
   */
  datatype Delivery<+S, +W> = Delivery(
    state: S, wire: seq<byte>, pending: seq<byte>, written: seq<W>, sent: seq<seq<byte>>, acks: seq<nat>, frames: nat,
    error: Option<ErrorKind>)

  function Flushed<S, W>(d: Delivery<S, W>): Delivery<S, W> {
    if d.error.Some? then d else d.(wire := d.wire + d.pending, pending := [])
  }

  function Acknowledged<S, W>(d: Delivery<S, W>): Delivery<S, W> {
    if d.error.Some? then d else d.(acks := d.acks + [|d.wire|])
  }

  function Staged<S, In, W, O>(p: Pipeline<S, In, W, O>, d: Delivery<S, W>, m: W): Delivery<S, W> {
    if d.error.Some? then d
    else
      var (s, sending) := Outbound(p, d.state, m);
      match sending
      case Encoded(b) => d.(state := s, pending := d.pending + b, written := d.written + [m], sent := d.sent + [b],
          frames := d.frames + 1)
      case Dropped => d.(state := s, written := d.written + [m], sent := d.sent + [[]])
      case Failing(_, e) => d.(state := s, error := Some(e))
  }

  function Perform<S, In, W, O>(p: Pipeline<S, In, W, O>, d: Delivery<S, W>, a: Action<W>): Delivery<S, W> {
    match a
    case Write(m) => Staged(p, d, m)
    case Flush => Acknowledged(Flushed(d))
    case Close => d
  }

  function Deliver<S, In, W, O>(p: Pipeline<S, In, W, O>, d: Delivery<S, W>, actions: seq<Action<W>>): Delivery<S, W>
    decreases |actions|
  {
    if actions == [] then d else Deliver(p, Perform(p, d, actions[0]), actions[1..])
  }

  // ----- The connection -----

  datatype CloseReason =
    | PeerClosed | LocalClosed | NoMoreCommands | HandlerClosed | ServerShutdown | IdleTimeout
    | IoError | DecodeError | EncodeError | OversizeFrame | HandlerError

  datatype End = Running | Ended(reason: CloseReason) | Failed(reason: CloseReason, error: ErrorKind)

  datatype Command<+W> = WriteCommand(msg: W) | WriteAndFlush(msg: W) | CloseCommand

  /** What the select wakes up for; an empty read is the peer's end of stream, and no command means no sender is
      left. */
  datatype Event<+W> = Received(chunk: seq<byte>) | ReadFailed | Commanded(command: Option<Command<W>>)
      | ShutdownRequested | IdleExpired

  /** A connection; `inputs` are the messages decoded so far and `received` counts the bytes. */
  datatype Connection<+S, +In, +W> = Connection(out: Delivery<S, W>, buf: seq<byte>, inputs: seq<In>,
      received: nat, end: End)

  function DecodeReason(e: ErrorKind): CloseReason {
    match e
    case Decode => DecodeError
    case FrameTooLarge => OversizeFrame
    case Io => IoError
    case _ => HandlerError
  }

  function OutboundReason(e: ErrorKind): CloseReason {
    match e
    case Encode => EncodeError
    case Io => IoError
    case FrameTooLarge => OversizeFrame
    case _ => HandlerError
  }

  function HandlerReason(e: ErrorKind): CloseReason {
    match e
    case Decode => DecodeError
    case Encode => EncodeError
    case Io => IoError
    case FrameTooLarge => OversizeFrame
    case _ => HandlerError
  }

  /** A message's handler has returned: everything it staged is delivered before its result counts. */
  function AfterHandler<S, In, W, O>(p: Pipeline<S, In, W, O>, d: Delivery<S, W>,
        script: Script<W>): (Delivery<S, W>, End) {
    var out := Flushed(Deliver(p, d, Actions(script)));
    var end :=
      if out.error.Some? then Failed(HandlerReason(out.error.value), out.error.value)
      else if script.result.Err? then Failed(HandlerReason(script.result.error), script.result.error)
      else if Closes(Actions(script)) then Ended(HandlerClosed)
      else Running;
    (out, end)
  }

  function Handle<S, In, W, O>(p: Pipeline<S, In, W, O>, d: Delivery<S, W>, h: Handling<W>): (Delivery<S, W>, End) {
    match h
    case Dismissed => (d, Running)
    case Rejected(e) => (d, Failed(HandlerReason(e), e))
    case Handled(script) => AfterHandler(p, d, script)
  }

  ghost predicate SteadyAt<S(!new), In(!new), W, O>(p: Pipeline<S, In, W, O>, s: S, b: seq<byte>) {
    var (s1, step) := p.decode(s, b);
    && (step.Item? ==> 0 < step.used <= |b|)
    && (step.Fail? ==> step.used <= |b|)
    && (step.Need? ==> s1 == s)
  }

  /** In every state the decoder makes progress, and asking for more changes nothing. */
  ghost predicate Steady<S(!new), In(!new), W, O>(p: Pipeline<S, In, W, O>) {
    forall s: S, b: seq<byte> :: SteadyAt(p, s, b)
  }

  /** Decodes and handles one message after another until the decoder asks for more or the connection ends. */
  function Serve<S(!new), In(!new), W, O>(p: Pipeline<S, In, W, O>, h: Handler<In, W>,
        c: Connection<S, In, W>): Connection<S, In, W>
    requires Steady(p)
    decreases |c.buf|
  {
    assert SteadyAt(p, c.out.state, c.buf);
    var (s, step) := p.decode(c.out.state, c.buf);
    match step
    case Need => c
    case Fail(e, n) => c.(out := c.out.(state := s), buf := c.buf[n..], end := Failed(DecodeReason(e), e))
    case Item(x, n) =>
      var (out, end) := Handle(p, c.out.(state := s), h(|c.inputs|, x));
      var next := c.(out := out, buf := c.buf[n..], inputs := c.inputs + [x], end := end);
      if end == Running then Serve(p, h, next) else next
  }

  function OnRead<S(!new), In(!new), W, O>(p: Pipeline<S, In, W, O>, h: Handler<In, W>, maxFrameSize: nat,
        c: Connection<S, In, W>, chunk: seq<byte>): Connection<S, In, W>
    requires Steady(p)
  {
    if chunk == [] then c.(end := Ended(PeerClosed))
    else
      var c1 := c.(buf := c.buf + chunk, received := c.received + |chunk|);
      if |c1.buf| > maxFrameSize then c1.(end := Failed(OversizeFrame, FrameTooLarge)) else Serve(p, h, c1)
  }

  /** A channel write; unlike a staged one it counts as a frame even when a stage drops it. */
  function OnWrite<S, In, W, O>(p: Pipeline<S, In, W, O>, c: Connection<S, In, W>, m: W): Connection<S, In, W> {
    var out := Staged(p, c.out, m);
    if out.error.Some? then c.(out := out, end := Failed(OutboundReason(out.error.value), out.error.value))
    else c.(out := Flushed(out.(frames := c.out.frames + 1)))
  }

  function OnCommand<S, In, W, O>(p: Pipeline<S, In, W, O>, c: Connection<S, In, W>,
        command: Option<Command<W>>): Connection<S, In, W> {
    match command
    case None => c.(end := Ended(NoMoreCommands))
    case Some(CloseCommand) => c.(end := Ended(LocalClosed))
    case Some(WriteCommand(m)) => OnWrite(p, c, m)
    case Some(WriteAndFlush(m)) =>
      var c1 := OnWrite(p, c, m);
      c1.(out := Acknowledged(c1.out))
  }

  function OnEvent<S(!new), In(!new), W, O>(p: Pipeline<S, In, W, O>, h: Handler<In, W>, maxFrameSize: nat,
        c: Connection<S, In, W>, e: Event<W>): Connection<S, In, W>
    requires Steady(p)
  {
    match e
    case Received(chunk) => OnRead(p, h, maxFrameSize, c, chunk)
    case ReadFailed => c.(end := Failed(IoError, Io))
    case Commanded(command) => OnCommand(p, c, command)
    case ShutdownRequested => c.(end := Ended(ServerShutdown))
    case IdleExpired => c.(end := Ended(IdleTimeout))
  }

  /** A whole connection, up to the event that ends it. */
  function Run<S(!new), In(!new), W, O>(p: Pipeline<S, In, W, O>, h: Handler<In, W>, maxFrameSize: nat,
        c: Connection<S, In, W>, events: seq<Event<W>>): Connection<S, In, W>
    requires Steady(p)
    decreases |events|
  {
    if events == [] || c.end != Running then c
    else Run(p, h, maxFrameSize, OnEvent(p, h, maxFrameSize, c, events[0]), events[1..])
  }

  function Start<S, In, W>(s: S): Connection<S, In, W> {
    Connection(Delivery(s, [], [], [], [], [], 0, None), [], [], 0, Running)
  }
}
