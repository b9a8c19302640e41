/** What a UDP socket task does, told message by message, and its laws: one datagram per message, in order. */
module DatagramSpec {
  import opened Core
  import opened StreamLaws
  import opened StreamSpec

  datatype Peer = Peer(address: seq<byte>, port: u16)

  datatype Datagram<+T> = Datagram(peer: Peer, body: T)

  /** Outbound stages see the peer of their context: the sender of the datagram being handled, or the target of a
      channel write. */
  datatype DatagramPipeline<!S, !In, !W, !O> = DatagramPipeline(
    decode: (S, seq<byte>) -> (S, Result<In>),
    stage: (S, Peer, W) -> (S, Flow<O>),
    encode: (S, O) -> (S, Encoding))

  /** The stages as they see one message in a context. */
  function StageFor<S, In, W, O>(p: DatagramPipeline<S, In, W, O>, context: Peer): (S, Datagram<W>) -> (S, Flow<O>) {
    (s: S, m: Datagram<W>) => p.stage(s, context, m.body)
  }

  type DatagramHandler<!In, !W> = (nat, Datagram<In>) -> Handling<Datagram<W>>

  // ----- Outbound traffic -----

  /** `sent` are the datagrams on the network, `written` the messages processed, `parts` their encodings, and `acks`
      how many datagrams had been sent when a flush was acknowledged. */
  datatype Account<+S, +W> = Account(
    state: S, sent: seq<Datagram<seq<byte>>>, written: seq<Datagram<W>>, parts: seq<seq<byte>>, acks: seq<nat>,
    error: Option<ErrorKind>)

  /** An empty encoding is no datagram. */
  function AsDatagram(peer: Peer, bytes: seq<byte>): seq<Datagram<seq<byte>>> {
    if bytes == [] then [] else [Datagram(peer, bytes)]
  }

  function Sent<S, In, W, O>(p: DatagramPipeline<S, In, W, O>, context: Peer, d: Account<S, W>,
        m: Datagram<W>): Account<S, W> {
    if d.error.Some? then d
    else
      var (s, sending) := Through(StageFor(p, context), p.encode, d.state, m);
      match sending
      case Encoded(b) => d.(state := s, sent := d.sent + AsDatagram(m.peer, b), written := d.written + [m],
          parts := d.parts + [b])
      case Dropped => d.(state := s, written := d.written + [m], parts := d.parts + [[]])
      case Failing(_, e) => d.(state := s, error := Some(e))
  }

  function Confirmed<S, W>(d: Account<S, W>): Account<S, W> {
    if d.error.Some? then d else d.(acks := d.acks + [|d.sent|])
  }

  function Perform<S, In, W, O>(p: DatagramPipeline<S, In, W, O>, context: Peer, d: Account<S, W>,
        a: Action<Datagram<W>>): Account<S, W> {
    match a
    case Write(m) => Sent(p, context, d, m)
    case Flush => Confirmed(d)
    case Close => d
  }

  function Deliver<S, In, W, O>(p: DatagramPipeline<S, In, W, O>, context: Peer, d: Account<S, W>,
        actions: seq<Action<Datagram<W>>>): Account<S, W>
    decreases |actions|
  {
    if actions == [] then d else Deliver(p, context, Perform(p, context, d, actions[0]), actions[1..])
  }

  // ----- The socket -----

  datatype SocketEnd = Open | Stopped | Broken(error: ErrorKind)

  datatype SocketCommand<+W> = WriteTo(message: Datagram<W>) | WriteToAndFlush(message: Datagram<W>) | CloseSocket

  datatype SocketEvent<+W> = Arrived(datagram: Datagram<seq<byte>>) | ReceiveFailed
      | Commanded(command: Option<SocketCommand<W>>) | ShutdownRequested

  datatype Socket<+S, +In, +W> = Socket(out: Account<S, W>, inputs: seq<Datagram<In>>, end: SocketEnd)

  datatype Limits = Limits(readBufferCapacity: nat, maxDatagramSize: nat)

  function Capacity(l: Limits): (n: nat)
    ensures n >= 1 && n >= l.maxDatagramSize
  {
    var m := if l.readBufferCapacity >= l.maxDatagramSize then l.readBufferCapacity else l.maxDatagramSize;
    if m >= 1 then m else 1
  }

  /** Receiving keeps what fits the read buffer. */
  function Truncated(l: Limits, body: seq<byte>): seq<byte> {
    if |body| <= Capacity(l) then body else body[..Capacity(l)]
  }

  function Handle<S, In, W, O>(p: DatagramPipeline<S, In, W, O>, context: Peer, d: Account<S, W>,
        h: Handling<Datagram<W>>): (Account<S, W>, SocketEnd) {
    match h
    case Dismissed => (d, Open)
    case Rejected(e) => (d, Broken(e))
    case Handled(script) =>
      var out := Deliver(p, context, d, Actions(script));
      (out,
       if out.error.Some? then Broken(out.error.value)
       else if script.result.Err? then Broken(script.result.error)
       else if Closes(Actions(script)) then Stopped
       else Open)
  }

  function OnDatagram<S, In, W, O>(p: DatagramPipeline<S, In, W, O>, h: DatagramHandler<In, W>, l: Limits,
        c: Socket<S, In, W>, g: Datagram<seq<byte>>): Socket<S, In, W> {
    var body := Truncated(l, g.body);
    if |body| > l.maxDatagramSize then c.(end := Broken(DatagramTooLarge))
    else
      var (s, decoded) := p.decode(c.out.state, body);
      var out := c.out.(state := s);
      match decoded
      case Err(e) => c.(out := out, end := Broken(e))
      case Ok(x) =>
        var input := Datagram(g.peer, x);
        var (out', end) := Handle(p, g.peer, out, h(|c.inputs|, input));
        Socket(out', c.inputs + [input], end)
  }

  function OnWrite<S, In, W, O>(p: DatagramPipeline<S, In, W, O>, c: Socket<S, In, W>,
        m: Datagram<W>): Socket<S, In, W> {
    var out := Sent(p, m.peer, c.out, m);
    c.(out := out, end := if out.error.Some? then Broken(out.error.value) else Open)
  }

  function OnSocketEvent<S, In, W, O>(p: DatagramPipeline<S, In, W, O>, h: DatagramHandler<In, W>, l: Limits,
        c: Socket<S, In, W>, e: SocketEvent<W>): Socket<S, In, W> {
    match e
    case Arrived(g) => OnDatagram(p, h, l, c, g)
    case ReceiveFailed => c.(end := Broken(Io))
    case Commanded(Some(WriteTo(m))) => OnWrite(p, c, m)
    case Commanded(Some(WriteToAndFlush(m))) => var c1 := OnWrite(p, c, m); c1.(out := Confirmed(c1.out))
    case Commanded(Some(CloseSocket)) => c.(end := Stopped)
    case Commanded(None) => c.(end := Stopped)
    case ShutdownRequested => c.(end := Stopped)
  }

  function RunSocket<S, In, W, O>(p: DatagramPipeline<S, In, W, O>, h: DatagramHandler<In, W>, l: Limits,
        c: Socket<S, In, W>, events: seq<SocketEvent<W>>): Socket<S, In, W>
    decreases |events|
  {
    if events == [] || c.end != Open then c
    else RunSocket(p, h, l, OnSocketEvent(p, h, l, c, events[0]), events[1..])
  }

  function StartSocket<S, In, W>(s: S): Socket<S, In, W> { Socket(Account(s, [], [], [], [], None), [], Open) }

  // ----- One datagram per message -----

  /** The datagrams that messages with these encodings make: one each, to its own peer, unless it is empty. */
  function Datagrams<W>(written: seq<Datagram<W>>, parts: seq<seq<byte>>): seq<Datagram<seq<byte>>>
    requires |written| == |parts|
  {
    if written == [] then []
    else
      var n := |written| - 1;
      Datagrams(written[..n], parts[..n]) + AsDatagram(written[n].peer, parts[n])
  }

  ghost predicate OneEach<S(!new), In, W, O>(p: DatagramPipeline<S, In, W, O>, d: Account<S, W>) {
    && |d.written| == |d.parts| && d.sent == Datagrams(d.written, d.parts)
    && forall i | 0 <= i < |d.parts| :: Yields(p, d.written[i], d.parts[i])
  }

  /** In some state and context these bytes are the encoding of the message, or a stage drops it and there are none. */
  ghost predicate Yields<S(!new), In, W, O>(p: DatagramPipeline<S, In, W, O>, m: Datagram<W>, bytes: seq<byte>) {
    exists context: Peer, s: S :: YieldsIn(p, context, s, m, bytes)
  }

  predicate YieldsIn<S, In, W, O>(p: DatagramPipeline<S, In, W, O>, context: Peer, s: S, m: Datagram<W>,
        bytes: seq<byte>) {
    match Through(StageFor(p, context), p.encode, s, m).1
    case Encoded(b) => bytes == b
    case Dropped => bytes == []
    case Failing(_, _) => false
  }

  lemma DatagramsSnoc<W>(written: seq<Datagram<W>>, parts: seq<seq<byte>>, m: Datagram<W>, b: seq<byte>)
    requires |written| == |parts|
    ensures Datagrams(written + [m], parts + [b]) == Datagrams(written, parts) + AsDatagram(m.peer, b)
  {
    assert (written + [m])[..|written|] == written && (parts + [b])[..|parts|] == parts;
  }

  lemma SendingIsOneEach<S(!new), In, W, O>(p: DatagramPipeline<S, In, W, O>, context: Peer, d: Account<S, W>,
        m: Datagram<W>)
    requires OneEach(p, d)
    ensures OneEach(p, Sent(p, context, d, m))
  {
    hide Through, StageFor;
    match Through(StageFor(p, context), p.encode, d.state, m).1
    case Encoded(b) =>
      assert YieldsIn(p, context, d.state, m, b);
      DatagramsSnoc(d.written, d.parts, m, b);
    case Dropped =>
      assert YieldsIn(p, context, d.state, m, []);
      DatagramsSnoc(d.written, d.parts, m, []);
    case Failing(_, _) =>
  }

  lemma SameDatagrams<S(!new), In, W, O>(p: DatagramPipeline<S, In, W, O>, d: Account<S, W>, e: Account<S, W>)
    requires e.written == d.written && e.parts == d.parts && e.sent == d.sent
    ensures OneEach(p, d) <==> OneEach(p, e)
  {
  }

  lemma {:induction false} DeliveryIsOneEach<S(!new), In, W, O>(p: DatagramPipeline<S, In, W, O>, context: Peer,
        d: Account<S, W>, actions: seq<Action<Datagram<W>>>)
    requires OneEach(p, d)
    ensures OneEach(p, Deliver(p, context, d, actions))
    decreases |actions|
  {
    hide Sent, OneEach;
    if actions != [] {
      if actions[0].Write? {
        SendingIsOneEach(p, context, d, actions[0].msg);
      }
      SameDatagrams(p, d, Confirmed(d));
      DeliveryIsOneEach(p, context, Perform(p, context, d, actions[0]), actions[1..]);
    }
  }

  /** In every run, the datagrams sent are those of the processed messages: in order, each to its peer, never merged
      or split. */
  lemma {:induction false} RunIsOneEach<S(!new), In, W, O>(p: DatagramPipeline<S, In, W, O>, h: DatagramHandler<In, W>,
        l: Limits, c: Socket<S, In, W>, events: seq<SocketEvent<W>>)
    requires OneEach(p, c.out)
    ensures OneEach(p, RunSocket(p, h, l, c, events).out)
    decreases |events|
  {
    hide OnSocketEvent, OneEach;
    if events != [] && c.end == Open {
      EventIsOneEach(p, h, l, c, events[0]);
      RunIsOneEach(p, h, l, OnSocketEvent(p, h, l, c, events[0]), events[1..]);
    }
  }

  lemma EventIsOneEach<S(!new), In, W, O>(p: DatagramPipeline<S, In, W, O>, h: DatagramHandler<In, W>, l: Limits,
        c: Socket<S, In, W>, e: SocketEvent<W>)
    requires OneEach(p, c.out)
    ensures OneEach(p, OnSocketEvent(p, h, l, c, e).out)
  {
    hide Deliver, Sent;
    match e
    case Arrived(g) =>
      var (s, decoded) := p.decode(c.out.state, Truncated(l, g.body));
      if decoded.Ok? {
        var handling := h(|c.inputs|, Datagram(g.peer, decoded.value));
        if handling.Handled? {
          DeliveryIsOneEach(p, g.peer, c.out.(state := s), Actions(handling.script));
        }
      }
    case Commanded(Some(WriteTo(m))) => SendingIsOneEach(p, m.peer, c.out, m);
    case Commanded(Some(WriteToAndFlush(m))) => SendingIsOneEach(p, m.peer, c.out, m);
    case _ =>
  }

  // ----- Order and acknowledgements -----

  lemma {:induction false} StickyFailure<S, In, W, O>(p: DatagramPipeline<S, In, W, O>, context: Peer,
        d: Account<S, W>, actions: seq<Action<Datagram<W>>>)
    requires d.error.Some?
    ensures Deliver(p, context, d, actions) == d
    decreases |actions|
  {
    if actions != [] {
      StickyFailure(p, context, d, actions[1..]);
    }
  }

  /** A handler's writes are processed as one list, whatever flushes and suspensions come between them. */
  lemma {:induction false} DatagramsEncodeWrites<S, In, W, O>(p: DatagramPipeline<S, In, W, O>, context: Peer,
        d: Account<S, W>, actions: seq<Action<Datagram<W>>>)
    requires d.error.None?
    ensures var r := Deliver(p, context, d, actions);
            var e := EncodeAll(StageFor(p, context), p.encode, d.state, Writes(actions));
            && r.state == e.state && r.error == e.error && r.parts == d.parts + e.parts
            && |e.parts| <= |Writes(actions)| && r.written == d.written + Writes(actions)[..|e.parts|]
    decreases |actions|
  {
    hide Through, StageFor;
    if actions != [] {
      var next := Perform(p, context, d, actions[0]);
      if actions[0].Write? {
        assert Writes(actions)[1..] == Writes(actions[1..]);
      }
      if next.error.Some? {
        StickyFailure(p, context, next, actions[1..]);
      } else {
        DatagramsEncodeWrites(p, context, next, actions[1..]);
        if actions[0].Write? {
          var m := actions[0].msg;
          var sending := Through(StageFor(p, context), p.encode, d.state, m).1;
          var part := if sending.Encoded? then sending.bytes else [];
          var rest := EncodeAll(StageFor(p, context), p.encode, next.state, Writes(actions[1..])).parts;
          Assoc(d.parts, [part], rest);
          assert Writes(actions)[..1 + |rest|] == [m] + Writes(actions[1..])[..|rest|];
          Assoc(d.written, [m], Writes(actions[1..])[..|rest|]);
        }
      }
    }
  }

  ghost predicate Extended<S, W>(d: Account<S, W>, e: Account<S, W>) {
    d.sent <= e.sent && d.acks <= e.acks && (d.error.Some? ==> e == d)
  }

  lemma {:induction false} DeliveryExtends<S, In, W, O>(p: DatagramPipeline<S, In, W, O>, context: Peer,
        d: Account<S, W>, actions: seq<Action<Datagram<W>>>)
    ensures Extended(d, Deliver(p, context, d, actions))
    decreases |actions|
  {
    hide Through;
    if actions != [] {
      DeliveryExtends(p, context, Perform(p, context, d, actions[0]), actions[1..]);
    }
  }

  lemma {:induction false} DeliverInTwo<S, In, W, O>(p: DatagramPipeline<S, In, W, O>, context: Peer,
        d: Account<S, W>, a: seq<Action<Datagram<W>>>, b: seq<Action<Datagram<W>>>)
    ensures Deliver(p, context, d, a + b) == Deliver(p, context, Deliver(p, context, d, a), b)
    decreases |a|
  {
    hide Perform;
    if a == [] {
      assert a + b == b;
    } else {
      assert (a + b)[1..] == a[1..] + b;
      DeliverInTwo(p, context, Perform(p, context, d, a[0]), a[1..], b);
    }
  }

  lemma {:induction false} RunOnlyGrows<S, In, W, O>(p: DatagramPipeline<S, In, W, O>, h: DatagramHandler<In, W>,
        l: Limits, c: Socket<S, In, W>, events: seq<SocketEvent<W>>)
    ensures c.out.sent <= RunSocket(p, h, l, c, events).out.sent && c.out.acks <= RunSocket(p, h, l, c, events).out.acks
    decreases |events|
  {
    hide OnSocketEvent;
    if events != [] && c.end == Open {
      EventOnlyGrows(p, h, l, c, events[0]);
      RunOnlyGrows(p, h, l, OnSocketEvent(p, h, l, c, events[0]), events[1..]);
    }
  }

  lemma EventOnlyGrows<S, In, W, O>(p: DatagramPipeline<S, In, W, O>, h: DatagramHandler<In, W>, l: Limits,
        c: Socket<S, In, W>, e: SocketEvent<W>)
    ensures c.out.sent <= OnSocketEvent(p, h, l, c, e).out.sent && c.out.acks <= OnSocketEvent(p, h, l, c, e).out.acks
  {
    hide Deliver, Through;
    if e.Arrived? {
      var (s, decoded) := p.decode(c.out.state, Truncated(l, e.datagram.body));
      if decoded.Ok? {
        var handling := h(|c.inputs|, Datagram(e.datagram.peer, decoded.value));
        if handling.Handled? {
          DeliveryExtends(p, e.datagram.peer, c.out.(state := s), Actions(handling.script));
        }
      }
    }
  }

  /** When a flush is acknowledged, the datagram of every message staged before it has been sent. */
  lemma DatagramFlushMeansSent<S(!new), In, W, O>(p: DatagramPipeline<S, In, W, O>, context: Peer, d: Account<S, W>,
        a: seq<Action<Datagram<W>>>, b: seq<Action<Datagram<W>>>)
    requires d.error.None? && OneEach(p, d)
    requires EncodeAll(StageFor(p, context), p.encode, d.state, Writes(a)).error.None?
    ensures var parts := EncodeAll(StageFor(p, context), p.encode, d.state, Writes(a)).parts;
            var k, r := |Deliver(p, context, d, a).acks|, Deliver(p, context, d, a + ([Flush] + b));
            && |parts| == |Writes(a)| && k < |r.acks| && r.acks[k] <= |r.sent|
            && r.sent[..r.acks[k]] == Datagrams(d.written + Writes(a), d.parts + parts)
  {
    hide Datagrams;
    var stage := StageFor(p, context);
    DatagramsEncodeWrites(p, context, d, a);
    EncodesAllOrFails(stage, p.encode, d.state, Writes(a));
    assert Writes(a)[..|Writes(a)|] == Writes(a);
    DeliveryIsOneEach(p, context, d, a);
    DeliverInTwo(p, context, d, a, [Flush] + b);
    var before := Deliver(p, context, d, a);
    assert ([Flush] + b)[1..] == b;
    DeliveryExtends(p, context, Confirmed(before), b);
    assert Confirmed(before).acks[|before.acks|] == |before.sent|;
  }

  // ----- Processing order -----

  /** The messages an event adds: a channel write its own, a datagram the replies to it if it was decoded. */
  function Produces<S, In, W>(h: DatagramHandler<In, W>, c: Socket<S, In, W>, e: SocketEvent<W>,
        next: Socket<S, In, W>): seq<Datagram<W>> {
    match e
    case Commanded(Some(WriteTo(m))) => [m]
    case Commanded(Some(WriteToAndFlush(m))) => [m]
    case _ => Replies(h, |c.inputs|, next.inputs)
  }

  function SocketProduces<S, In, W, O>(p: DatagramPipeline<S, In, W, O>, h: DatagramHandler<In, W>, l: Limits,
        c: Socket<S, In, W>, events: seq<SocketEvent<W>>): seq<Datagram<W>>
    decreases |events|
  {
    if events == [] || c.end != Open then []
    else
      var next := OnSocketEvent(p, h, l, c, events[0]);
      Produces(h, c, events[0], next) + SocketProduces(p, h, l, next, events[1..])
  }

  lemma HandlingKeepsOrder<S, In, W, O>(p: DatagramPipeline<S, In, W, O>, context: Peer, d: Account<S, W>,
        h: Handling<Datagram<W>>)
    requires d.error.None?
    ensures Processed(Handle(p, context, d, h).0.written, Handle(p, context, d, h).0.error, d.written, RepliesTo(h))
    ensures Handle(p, context, d, h).1 == Open ==> Handle(p, context, d, h).0.error.None?
  {
    hide Deliver, Writes, EncodeAll;
    if h.Handled? {
      DatagramsEncodeWrites(p, context, d, Actions(h.script));
      EncodesAllOrFails(StageFor(p, context), p.encode, d.state, Writes(Actions(h.script)));
    } else {
      assert d.written + [] == d.written;
    }
  }

  lemma EventKeepsOrder<S, In, W, O>(p: DatagramPipeline<S, In, W, O>, h: DatagramHandler<In, W>, l: Limits,
        c: Socket<S, In, W>, e: SocketEvent<W>)
    requires c.end == Open && c.out.error.None?
    ensures var next := OnSocketEvent(p, h, l, c, e);
            && Processed(next.out.written, next.out.error, c.out.written, Produces(h, c, e, next))
            && (next.end == Open ==> next.out.error.None?)
  {
    hide Handle, Through, RepliesTo;
    assert c.out.written + [] == c.out.written;
    if e.Arrived? {
      var g := e.datagram;
      var (s, decoded) := p.decode(c.out.state, Truncated(l, g.body));
      if decoded.Ok? {
        var input := Datagram(g.peer, decoded.value);
        var handling := h(|c.inputs|, input);
        HandlingKeepsOrder(p, g.peer, c.out.(state := s), handling);
        assert Replies(h, |c.inputs|, c.inputs + [input]) == RepliesTo(handling) by {
          assert RepliesTo(handling) + [] == RepliesTo(handling);
        }
      }
    }
  }

  /** In every run, channel writes and handlers interleaved in any way, the messages processed are those of the
      events in their order; all of them unless sending failed. */
  lemma {:induction false} SocketKeepsOrder<S, In, W, O>(p: DatagramPipeline<S, In, W, O>, h: DatagramHandler<In, W>,
        l: Limits, c: Socket<S, In, W>, events: seq<SocketEvent<W>>)
    requires c.end == Open ==> c.out.error.None?
    ensures var r := RunSocket(p, h, l, c, events);
            Processed(r.out.written, r.out.error, c.out.written, SocketProduces(p, h, l, c, events))
    decreases |events|
  {
    hide OnSocketEvent, Produces;
    if events == [] || c.end != Open {
      assert c.out.written + [] == c.out.written;
    } else {
      var next := OnSocketEvent(p, h, l, c, events[0]);
      EventKeepsOrder(p, h, l, c, events[0]);
      SocketKeepsOrder(p, h, l, next, events[1..]);
      var now, later := Produces(h, c, events[0], next), SocketProduces(p, h, l, next, events[1..]);
      Assoc(c.out.written, now, later);
      if next.end != Open {
        assert now + [] == now;
      }
    }
  }

  // ----- Oversize datagrams -----

  /** A datagram beyond the limit is refused unread exactly when the read buffer is larger than the limit; with a
      buffer of just the limit it is handled as if its first bytes had been all of it. */
  lemma OversizeIsNoticedIff<S, In, W, O>(p: DatagramPipeline<S, In, W, O>, h: DatagramHandler<In, W>, l: Limits,
        c: Socket<S, In, W>, g: Datagram<seq<byte>>)
    ensures |g.body| > l.maxDatagramSize ==>
              OnDatagram(p, h, l, c, g) ==
              if Capacity(l) > l.maxDatagramSize then c.(end := Broken(DatagramTooLarge))
              else OnDatagram(p, h, l, c, Datagram(g.peer, g.body[..l.maxDatagramSize]))
    ensures |g.body| <= l.maxDatagramSize ==> Truncated(l, g.body) == g.body
  {
  }

  /** For instance: with both sizes at one byte, a datagram of two bytes is not refused; its first byte is decoded. */
  lemma OversizeSlipsThrough<S, In, W, O>(p: DatagramPipeline<S, In, W, O>, h: DatagramHandler<In, W>,
        c: Socket<S, In, W>, peer: Peer)
    requires p.decode(c.out.state, [7]).1.Ok?
    ensures var r := OnDatagram(p, h, Limits(1, 1), c, Datagram(peer, [7, 8]));
            r.inputs == c.inputs + [Datagram(peer, p.decode(c.out.state, [7]).1.value)]
  {
    var body: seq<byte> := [7, 8];
    assert Truncated(Limits(1, 1), body) == [7];
  }
}
