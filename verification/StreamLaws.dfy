/** Laws of whole connections: conservation and order of bytes, flush acknowledgements, and independence of read
    boundaries. */
module StreamLaws {
  import opened Core
  import opened Framing
  import opened StreamSpec

  // ----- Delivery only ever extends -----

  ghost predicate Extends<S, W>(d: Delivery<S, W>, e: Delivery<S, W>) {
    d.wire <= e.wire && d.written <= e.written && d.sent <= e.sent && d.acks <= e.acks && (d.error.Some? ==> e == d)
  }

  lemma PerformExtends<S, In, W, O>(p: Pipeline<S, In, W, O>, d: Delivery<S, W>, a: Action<W>)
    ensures Extends(d, Perform(p, d, a))
  {
  }

  lemma {:induction false} DeliverExtends<S, In, W, O>(p: Pipeline<S, In, W, O>, d: Delivery<S, W>,
        actions: seq<Action<W>>)
    ensures Extends(d, Deliver(p, d, actions))
    decreases |actions|
  {
    hide Perform;
    if actions != [] {
      PerformExtends(p, d, actions[0]);
      DeliverExtends(p, Perform(p, d, actions[0]), actions[1..]);
    }
  }

  lemma {:induction false} DeliverAppend<S, In, W, O>(p: Pipeline<S, In, W, O>, d: Delivery<S, W>,
        a: seq<Action<W>>, b: seq<Action<W>>)
    ensures Deliver(p, d, a + b) == Deliver(p, Deliver(p, d, a), b)
    decreases |a|
  {
    hide Perform;
    if a == [] {
      assert a + b == b;
    } else {
      assert (a + b)[1..] == a[1..] + b;
      DeliverAppend(p, Perform(p, d, a[0]), a[1..], b);
    }
  }

  // ----- Conservation and order -----

  /** What is on the stream, followed by what waits to be flushed, is the encodings in the order of processing. */
  ghost predicate Conserved<S(!new), In, W, O>(p: Pipeline<S, In, W, O>, d: Delivery<S, W>) {
    && |d.written| == |d.sent| && Concat(d.sent) == d.wire + d.pending
    && forall i | 0 <= i < |d.sent| :: Yields(p, d.written[i], d.sent[i])
  }

  /** In some state these bytes are the encoding of the message, or a stage drops it and there are none. */
  ghost predicate Yields<S(!new), In, W, O>(p: Pipeline<S, In, W, O>, m: W, bytes: seq<byte>) {
    exists s: S :: YieldsIn(p, s, m, bytes)
  }

  predicate YieldsIn<S, In, W, O>(p: Pipeline<S, In, W, O>, s: S, m: W, bytes: seq<byte>) {
    match Outbound(p, s, m).1
    case Encoded(b) => bytes == b
    case Dropped => bytes == []
    case Failing(_, _) => false
  }

  lemma FlushConserves<S(!new), In, W, O>(p: Pipeline<S, In, W, O>, d: Delivery<S, W>)
    requires Conserved(p, d)
    ensures Conserved(p, Flushed(d))
  {
    assert (d.wire + d.pending) + [] == d.wire + d.pending;
  }

  lemma StagingConserves<S(!new), In, W, O>(p: Pipeline<S, In, W, O>, d: Delivery<S, W>, m: W)
    requires Conserved(p, d)
    ensures Conserved(p, Staged(p, d, m))
  {
    hide Outbound;
    match Outbound(p, d.state, m).1
    case Encoded(b) =>
      assert YieldsIn(p, d.state, m, b);
      ConcatSnoc(d.sent, b);
      Assoc(d.wire, d.pending, b);
    case Dropped =>
      assert YieldsIn(p, d.state, m, []);
      ConcatSnoc(d.sent, []);
      assert Concat(d.sent) + [] == Concat(d.sent);
    case Failing(_, _) =>
  }

  lemma {:induction false} DeliveryConserves<S(!new), In, W, O>(p: Pipeline<S, In, W, O>, d: Delivery<S, W>,
        actions: seq<Action<W>>)
    requires Conserved(p, d)
    ensures Conserved(p, Deliver(p, d, actions))
    decreases |actions|
  {
    hide Staged, Conserved;
    if actions != [] {
      match actions[0] {
        case Write(m) => StagingConserves(p, d, m);
        case Flush =>
          FlushConserves(p, d);
          SameConserved(p, Flushed(d), Acknowledged(Flushed(d)));
        case Close =>
      }
      DeliveryConserves(p, Perform(p, d, actions[0]), actions[1..]);
    }
  }

  lemma SameConserved<S(!new), In, W, O>(p: Pipeline<S, In, W, O>, d: Delivery<S, W>, e: Delivery<S, W>)
    requires Conserved(p, d) && e.written == d.written && e.sent == d.sent && e.wire == d.wire && e.pending == d.pending
    ensures Conserved(p, e)
  {
  }

  /** Encoding a list of messages one after the other, with nothing in between. */
  datatype Encodings<+S> = Encodings(state: S, parts: seq<seq<byte>>, error: Option<ErrorKind>)

  function EncodeAll<S, W, O>(stage: (S, W) -> (S, Flow<O>), encode: (S, O) -> (S, Encoding), s: S,
        ms: seq<W>): Encodings<S>
    decreases |ms|
  {
    if ms == [] then Encodings(s, [], None)
    else
      var (s1, sending) := Through(stage, encode, s, ms[0]);
      match sending
      case Failing(_, e) => Encodings(s1, [], Some(e))
      case Dropped => var rest := EncodeAll(stage, encode, s1, ms[1..]); rest.(parts := [[]] + rest.parts)
      case Encoded(b) => var rest := EncodeAll(stage, encode, s1, ms[1..]); rest.(parts := [b] + rest.parts)
  }

  lemma {:induction false} StickyError<S, In, W, O>(p: Pipeline<S, In, W, O>, d: Delivery<S, W>,
        actions: seq<Action<W>>)
    requires d.error.Some?
    ensures Deliver(p, d, actions) == d
    decreases |actions|
  {
    if actions != [] {
      StickyError(p, d, actions[1..]);
    }
  }

  /** Whatever flushes, closes and suspensions a handler puts between its writes, they are encoded as one list, up
      to the first failure. */
  lemma {:induction false} DeliverEncodesWrites<S, In, W, O>(p: Pipeline<S, In, W, O>, d: Delivery<S, W>,
        actions: seq<Action<W>>)
    requires d.error.None?
    ensures var r, e := Deliver(p, d, actions), EncodeAll(p.stage, p.encode, d.state, Writes(actions));
            r.state == e.state && r.error == e.error && r.sent == d.sent + e.parts
    ensures var r, e := Deliver(p, d, actions), EncodeAll(p.stage, p.encode, d.state, Writes(actions));
            |e.parts| <= |Writes(actions)| && r.written == d.written + Writes(actions)[..|e.parts|]
    decreases |actions|
  {
    hide Through;
    if actions != [] {
      var next := Perform(p, d, actions[0]);
      if actions[0].Write? {
        assert Writes(actions)[1..] == Writes(actions[1..]);
      }
      if next.error.Some? {
        StickyError(p, next, actions[1..]);
      } else {
        DeliverEncodesWrites(p, next, actions[1..]);
        if actions[0].Write? {
          var sending := Outbound(p, d.state, actions[0].msg).1;
          var part := if sending.Encoded? then sending.bytes else [];
          var rest := EncodeAll(p.stage, p.encode, next.state, Writes(actions[1..])).parts;
          Assoc(d.sent, [part], rest);
          var m := actions[0].msg;
          assert Writes(actions)[..1 + |rest|] == [m] + Writes(actions[1..])[..|rest|];
          Assoc(d.written, [m], Writes(actions[1..])[..|rest|]);
        }
      }
    }
  }

  /** When a flush is acknowledged, everything staged before it is on the stream. */
  lemma FlushIsAcknowledgedAfterDelivery<S(!new), In, W, O>(p: Pipeline<S, In, W, O>, d: Delivery<S, W>,
        a: seq<Action<W>>, b: seq<Action<W>>)
    requires d.error.None? && Conserved(p, d)
    requires var e := EncodeAll(p.stage, p.encode, d.state, Writes(a)); e.error.None?
    ensures var k, r := |Deliver(p, d, a).acks|, Deliver(p, d, a + ([Flush] + b));
            && k < |r.acks| && r.acks[k] <= |r.wire|
            && r.wire[..r.acks[k]] == Concat(d.sent + EncodeAll(p.stage, p.encode, d.state, Writes(a)).parts)
  {
    DeliverEncodesWrites(p, d, a);
    DeliveryConserves(p, d, a);
    DeliverAppend(p, d, a, [Flush] + b);
    var before := Deliver(p, d, a);
    assert ([Flush] + b)[1..] == b;
    var after := Acknowledged(Flushed(before));
    DeliverExtends(p, after, b);
    assert after.acks[|before.acks|] == |after.wire|;
  }

  // ----- Whole runs -----

  /** The stream carries whole encodings in order, and all of them unless sending failed, whatever else ended the
      connection; only a failed connection can have failed to send. */
  ghost predicate Sound<S(!new), In, W, O>(p: Pipeline<S, In, W, O>, c: Connection<S, In, W>) {
    && Conserved(p, c.out)
    && c.out.wire <= Concat(c.out.sent)
    && (c.out.error.None? ==> c.out.pending == []) && (!c.end.Failed? ==> c.out.error.None?)
  }

  lemma HandlingIsSound<S(!new), In, W, O>(p: Pipeline<S, In, W, O>, d: Delivery<S, W>, h: Handling<W>)
    requires Conserved(p, d) && d.pending == [] && d.error.None?
    ensures var (out, end) := Handle(p, d, h);
            Conserved(p, out) && (out.error.None? ==> out.pending == []) && (!end.Failed? ==> out.error.None?)
  {
    hide Conserved, Deliver;
    if h.Handled? {
      DeliveryConserves(p, d, Actions(h.script));
      FlushConserves(p, Deliver(p, d, Actions(h.script)));
    }
  }

  lemma {:induction false} ServingIsSound<S(!new), In(!new), W, O>(p: Pipeline<S, In, W, O>, h: Handler<In, W>,
        c: Connection<S, In, W>)
    requires Steady(p) && Sound(p, c) && c.end == Running
    ensures Sound(p, Serve(p, h, c))
    decreases |c.buf|
  {
    hide Handle;
    assert SteadyAt(p, c.out.state, c.buf);
    var (s, step) := p.decode(c.out.state, c.buf);
    if step.Item? {
      HandlingIsSound(p, c.out.(state := s), h(|c.inputs|, step.item));
      var (out, end) := Handle(p, c.out.(state := s), h(|c.inputs|, step.item));
      if end == Running {
        ServingIsSound(p, h, c.(out := out, buf := c.buf[step.used..], inputs := c.inputs + [step.item], end := end));
      }
    }
  }

  lemma WritingIsSound<S(!new), In, W, O>(p: Pipeline<S, In, W, O>, c: Connection<S, In, W>, m: W)
    requires Sound(p, c) && c.end == Running
    ensures Sound(p, OnWrite(p, c, m))
  {
    hide Outbound;
    StagingConserves(p, c.out, m);
    var out := Staged(p, c.out, m);
    if out.error.None? {
      SameConserved(p, out, out.(frames := c.out.frames + 1));
      FlushConserves(p, out.(frames := c.out.frames + 1));
    }
  }

  lemma EventIsSound<S(!new), In(!new), W, O>(p: Pipeline<S, In, W, O>, h: Handler<In, W>, maxFrameSize: nat,
        c: Connection<S, In, W>, e: Event<W>)
    requires Steady(p) && Sound(p, c) && c.end == Running
    ensures Sound(p, OnEvent(p, h, maxFrameSize, c, e))
  {
    hide Serve, OnWrite;
    match e
    case Received(chunk) =>
      var c1 := c.(buf := c.buf + chunk, received := c.received + |chunk|);
      assert Sound(p, c1);
      ServingIsSound(p, h, c1);
    case Commanded(Some(WriteCommand(m))) => WritingIsSound(p, c, m);
    case Commanded(Some(WriteAndFlush(m))) => WritingIsSound(p, c, m);
    case _ =>
  }

  /** In every run, the stream carries a prefix of the encodings in processing order, all of them at every select and
      at the end unless sending failed. */
  lemma {:induction false} RunIsSound<S(!new), In(!new), W, O>(p: Pipeline<S, In, W, O>, h: Handler<In, W>,
        maxFrameSize: nat, c: Connection<S, In, W>, events: seq<Event<W>>)
    requires Steady(p) && Sound(p, c)
    ensures Sound(p, Run(p, h, maxFrameSize, c, events))
    decreases |events|
  {
    hide OnEvent, Sound;
    if events != [] && c.end == Running {
      EventIsSound(p, h, maxFrameSize, c, events[0]);
      RunIsSound(p, h, maxFrameSize, OnEvent(p, h, maxFrameSize, c, events[0]), events[1..]);
    }
  }

  lemma StartIsSound<S(!new), In, W, O>(p: Pipeline<S, In, W, O>, s: S)
    ensures Sound(p, Start<S, In, W>(s))
  {
  }

  /** The caller of a flushing channel write gets its acknowledgement when its own message, and everything before
      it, is on the stream. */
  lemma ChannelFlushIsAcknowledgedAfterDelivery<S(!new), In, W, O>(p: Pipeline<S, In, W, O>,
        c: Connection<S, In, W>, m: W)
    requires Sound(p, c) && c.end == Running
    ensures var r := OnCommand(p, c, Some(WriteAndFlush(m)));
            if r.end == Running then
              r.out.written == c.out.written + [m] && r.out.acks == c.out.acks + [|r.out.wire|]
                  && r.out.wire == Concat(r.out.sent)
            else r.out.acks == c.out.acks && r.out.wire == c.out.wire
  {
    hide Outbound;
    WritingIsSound(p, c, m);
  }

  // ----- Processing order -----

  function RepliesTo<W>(h: Handling<W>): seq<W> { if h.Handled? then Writes(Actions(h.script)) else [] }

  /** Everything the handlers write for the messages from index `from` on, message after message. */
  function Replies<In, W>(h: Handler<In, W>, from: nat, inputs: seq<In>): seq<W>
    decreases |inputs| - from
  {
    if |inputs| <= from then [] else RepliesTo(h(from, inputs[from])) + Replies(h, from + 1, inputs)
  }

  /** Exactly these messages have been processed, or some first of them when sending failed. */
  ghost predicate Processed<W>(written: seq<W>, failure: Option<ErrorKind>, before: seq<W>, ms: seq<W>) {
    written <= before + ms && (failure.None? ==> written == before + ms)
  }

  lemma HandlingKeepsOrder<S, In, W, O>(p: Pipeline<S, In, W, O>, d: Delivery<S, W>, h: Handling<W>)
    requires d.error.None?
    ensures Processed(Handle(p, d, h).0.written, Handle(p, d, h).0.error, d.written, RepliesTo(h))
    ensures Handle(p, d, h).1 == Running ==> Handle(p, d, h).0.error.None?
  {
    hide Deliver, Writes, EncodeAll;
    if h.Handled? {
      DeliverEncodesWrites(p, d, Actions(h.script));
      EncodesAllOrFails(p.stage, p.encode, d.state, Writes(Actions(h.script)));
    } else {
      assert d.written + [] == d.written;
    }
  }

  lemma {:induction false} EncodesAllOrFails<S, W, O>(stage: (S, W) -> (S, Flow<O>),
        encode: (S, O) -> (S, Encoding), s: S, ms: seq<W>)
    ensures EncodeAll(stage, encode, s, ms).error.None? ==> |EncodeAll(stage, encode, s, ms).parts| == |ms|
    decreases |ms|
  {
    if ms != [] {
      EncodesAllOrFails(stage, encode, Through(stage, encode, s, ms[0]).0, ms[1..]);
    }
  }

  lemma {:induction false} ServingKeepsOrder<S(!new), In(!new), W, O>(p: Pipeline<S, In, W, O>, h: Handler<In, W>,
        c: Connection<S, In, W>)
    requires Steady(p) && c.end == Running && c.out.error.None?
    ensures var r := Serve(p, h, c);
            && c.inputs <= r.inputs
            && Processed(r.out.written, r.out.error, c.out.written, Replies(h, |c.inputs|, r.inputs))
            && (r.end == Running ==> r.out.error.None?)
    decreases |c.buf|
  {
    hide Handle, RepliesTo;
    var n := |c.inputs|;
    assert SteadyAt(p, c.out.state, c.buf);
    var (s, step) := p.decode(c.out.state, c.buf);
    if step.Item? {
      var replies := RepliesTo(h(n, step.item));
      HandlingKeepsOrder(p, c.out.(state := s), h(n, step.item));
      var (out, end) := Handle(p, c.out.(state := s), h(n, step.item));
      var next := c.(out := out, buf := c.buf[step.used..], inputs := c.inputs + [step.item], end := end);
      if end == Running {
        ServingKeepsOrder(p, h, next);
        Assoc(c.out.written, replies, Replies(h, n + 1, Serve(p, h, next).inputs));
      } else {
        assert replies + [] == replies;
      }
    } else {
      assert c.out.written + [] == c.out.written;
    }
  }

  /** The messages an event adds: a channel write its own, a read the replies to what it let the codec decode. */
  function Produces<S, In, W>(h: Handler<In, W>, c: Connection<S, In, W>, e: Event<W>,
        next: Connection<S, In, W>): seq<W> {
    match e
    case Commanded(Some(WriteCommand(m))) => [m]
    case Commanded(Some(WriteAndFlush(m))) => [m]
    case _ => Replies(h, |c.inputs|, next.inputs)
  }

  /** The messages of a run, in the order of its events. */
  function RunProduces<S(!new), In(!new), W, O>(p: Pipeline<S, In, W, O>, h: Handler<In, W>, maxFrameSize: nat,
        c: Connection<S, In, W>, events: seq<Event<W>>): seq<W>
    requires Steady(p)
    decreases |events|
  {
    if events == [] || c.end != Running then []
    else
      var next := OnEvent(p, h, maxFrameSize, c, events[0]);
      Produces(h, c, events[0], next) + RunProduces(p, h, maxFrameSize, next, events[1..])
  }

  lemma EventKeepsOrder<S(!new), In(!new), W, O>(p: Pipeline<S, In, W, O>, h: Handler<In, W>, maxFrameSize: nat,
        c: Connection<S, In, W>, e: Event<W>)
    requires Steady(p) && c.end == Running && c.out.error.None?
    ensures var next := OnEvent(p, h, maxFrameSize, c, e);
            && c.inputs <= next.inputs
            && Processed(next.out.written, next.out.error, c.out.written, Produces(h, c, e, next))
            && (next.end == Running ==> next.out.error.None?)
  {
    hide Serve, Outbound;
    if e.Received? {
      ServingKeepsOrder(p, h, c.(buf := c.buf + e.chunk, received := c.received + |e.chunk|));
    }
    assert c.out.written + [] == c.out.written;
  }

  /** In every run, channel writes and handlers interleaved in any way, the messages processed are those of the
      events in their order: for a channel write its message, for a read the replies to the messages it completed;
      all of them unless sending failed. */
  lemma {:induction false} RunKeepsOrder<S(!new), In(!new), W, O>(
      p: Pipeline<S, In, W, O>, h: Handler<In, W>, maxFrameSize: nat, c: Connection<S, In, W>, events: seq<Event<W>>)
    requires Steady(p) && (c.end == Running ==> c.out.error.None?)
    ensures var r := Run(p, h, maxFrameSize, c, events);
            Processed(r.out.written, r.out.error, c.out.written, RunProduces(p, h, maxFrameSize, c, events))
    decreases |events|
  {
    hide OnEvent, Produces;
    if events == [] || c.end != Running {
      assert c.out.written + [] == c.out.written;
    } else {
      var next := OnEvent(p, h, maxFrameSize, c, events[0]);
      EventKeepsOrder(p, h, maxFrameSize, c, events[0]);
      RunKeepsOrder(p, h, maxFrameSize, next, events[1..]);
      var now, later := Produces(h, c, events[0], next), RunProduces(p, h, maxFrameSize, next, events[1..]);
      Assoc(c.out.written, now, later);
      if next.end != Running {
        assert now + [] == now;
      }
    }
  }

  /** No message comes in over the channel. */
  predicate OnlyReplies<W>(e: Event<W>) {
    e.Commanded? && e.command.Some? ==> e.command.value.CloseCommand?
  }

  // ----- Decode calls -----

  /** What a decode call starts from: the codec's state, the buffer, and the messages decoded before it. */
  datatype Call<+S, +In> = Call(state: S, buf: seq<byte>, inputs: seq<In>)

  /** The decode calls made while serving the buffer, the last one included, however the connection ends. */
  function ServeCalls<S(!new), In(!new), W, O>(p: Pipeline<S, In, W, O>, h: Handler<In, W>,
        c: Connection<S, In, W>): seq<Call<S, In>>
    requires Steady(p)
    decreases |c.buf|
  {
    assert SteadyAt(p, c.out.state, c.buf);
    var (s, step) := p.decode(c.out.state, c.buf);
    [Call(c.out.state, c.buf, c.inputs)] +
    if !step.Item? then []
    else
      var (out, end) := Handle(p, c.out.(state := s), h(|c.inputs|, step.item));
      var next := c.(out := out, buf := c.buf[step.used..], inputs := c.inputs + [step.item], end := end);
      if end == Running then ServeCalls(p, h, next) else []
  }

  function EventCalls<S(!new), In(!new), W, O>(p: Pipeline<S, In, W, O>, h: Handler<In, W>, maxFrameSize: nat,
        c: Connection<S, In, W>, e: Event<W>): seq<Call<S, In>>
    requires Steady(p)
  {
    if !e.Received? || e.chunk == [] || |c.buf + e.chunk| > maxFrameSize then []
    else ServeCalls(p, h, c.(buf := c.buf + e.chunk, received := c.received + |e.chunk|))
  }

  /** Every decode call of a run. */
  function RunCalls<S(!new), In(!new), W, O>(p: Pipeline<S, In, W, O>, h: Handler<In, W>, maxFrameSize: nat,
        c: Connection<S, In, W>, events: seq<Event<W>>): seq<Call<S, In>>
    requires Steady(p)
    decreases |events|
  {
    if events == [] || c.end != Running then []
    else
      EventCalls(p, h, maxFrameSize, c, events[0]) +
      RunCalls(p, h, maxFrameSize, OnEvent(p, h, maxFrameSize, c, events[0]), events[1..])
  }

  /** The call that decoded the message at index `i` is among these. */
  ghost predicate HasCall<S(!new), In(!new), W, O>(p: Pipeline<S, In, W, O>, calls: seq<Call<S, In>>,
        inputs: seq<In>, i: nat)
    requires i < |inputs|
  {
    exists k :: 0 <= k < |calls| && Decoded(p, calls[k], inputs, i)
  }

  ghost predicate Decoded<S(!new), In(!new), W, O>(p: Pipeline<S, In, W, O>, call: Call<S, In>, inputs: seq<In>, i: nat)
    requires i < |inputs|
  {
    var step := p.decode(call.state, call.buf).1;
    call.inputs == inputs[..i] && step.Item? && step.item == inputs[i]
  }

  lemma MoreCalls<S(!new), In(!new), W, O>(p: Pipeline<S, In, W, O>, first: seq<Call<S, In>>, rest: seq<Call<S, In>>,
        inputs: seq<In>, i: nat)
    requires i < |inputs| && (HasCall(p, first, inputs, i) || HasCall(p, rest, inputs, i))
    ensures HasCall(p, first + rest, inputs, i)
  {
    hide Decoded;
    var all := first + rest;
    if HasCall(p, first, inputs, i) {
      var k :| 0 <= k < |first| && Decoded(p, first[k], inputs, i);
      assert all[k] == first[k];
    } else {
      var k :| 0 <= k < |rest| && Decoded(p, rest[k], inputs, i);
      assert all[|first| + k] == rest[k];
    }
  }

  /** No decode call is missed: every message decoded while serving has its call. */
  lemma {:induction false} ServeCallsAreComplete<S(!new), In(!new), W, O>(p: Pipeline<S, In, W, O>, h: Handler<In, W>,
        c: Connection<S, In, W>)
    requires Steady(p)
    ensures c.inputs <= Serve(p, h, c).inputs
    ensures forall i: nat | |c.inputs| <= i < |Serve(p, h, c).inputs| ::
              HasCall(p, ServeCalls(p, h, c), Serve(p, h, c).inputs, i)
    decreases |c.buf|
  {
    hide Handle, HasCall;
    assert SteadyAt(p, c.out.state, c.buf);
    var (s, step) := p.decode(c.out.state, c.buf);
    if step.Item? {
      var r := Serve(p, h, c);
      var first := [Call(c.out.state, c.buf, c.inputs)];
      var (out, end) := Handle(p, c.out.(state := s), h(|c.inputs|, step.item));
      var next := c.(out := out, buf := c.buf[step.used..], inputs := c.inputs + [step.item], end := end);
      var rest := if end == Running then ServeCalls(p, h, next) else [];
      if end == Running {
        ServeCallsAreComplete(p, h, next);
      }
      forall i: nat | |c.inputs| <= i < |r.inputs|
        ensures HasCall(p, first + rest, r.inputs, i)
      {
        if i == |c.inputs| {
          FirstCall(p, first[0], r.inputs, i);
        }
        MoreCalls(p, first, rest, r.inputs, i);
      }
    }
  }

  lemma FirstCall<S(!new), In(!new), W, O>(p: Pipeline<S, In, W, O>, call: Call<S, In>, inputs: seq<In>, i: nat)
    requires i < |inputs| && Decoded(p, call, inputs, i)
    ensures HasCall(p, [call], inputs, i)
  {
    assert [call][0] == call;
  }

  /** Nor is one missed over a run. */
  lemma {:induction false} RunCallsAreComplete<S(!new), In(!new), W, O>(p: Pipeline<S, In, W, O>, h: Handler<In, W>,
        maxFrameSize: nat, c: Connection<S, In, W>, events: seq<Event<W>>)
    requires Steady(p)
    ensures c.inputs <= Run(p, h, maxFrameSize, c, events).inputs
    ensures forall i: nat | |c.inputs| <= i < |Run(p, h, maxFrameSize, c, events).inputs| ::
              HasCall(p, RunCalls(p, h, maxFrameSize, c, events), Run(p, h, maxFrameSize, c, events).inputs, i)
    decreases |events|
  {
    hide OnEvent, EventCalls, HasCall;
    if events != [] && c.end == Running {
      var next := OnEvent(p, h, maxFrameSize, c, events[0]);
      var r := Run(p, h, maxFrameSize, c, events);
      var first := EventCalls(p, h, maxFrameSize, c, events[0]);
      var rest := RunCalls(p, h, maxFrameSize, next, events[1..]);
      EventCallsAreComplete(p, h, maxFrameSize, c, events[0]);
      RunCallsAreComplete(p, h, maxFrameSize, next, events[1..]);
      forall i: nat | |c.inputs| <= i < |r.inputs|
        ensures HasCall(p, first + rest, r.inputs, i)
      {
        if i < |next.inputs| {
          SameCall(p, first, next.inputs, r.inputs, i);
        }
        MoreCalls(p, first, rest, r.inputs, i);
      }
    }
  }

  lemma SameCall<S(!new), In(!new), W, O>(p: Pipeline<S, In, W, O>, calls: seq<Call<S, In>>, now: seq<In>,
        later: seq<In>, i: nat)
    requires i < |now| && now <= later && HasCall(p, calls, now, i)
    ensures HasCall(p, calls, later, i)
  {
    var k :| 0 <= k < |calls| && Decoded(p, calls[k], now, i);
    assert now[..i] == later[..i];
    assert Decoded(p, calls[k], later, i);
  }

  lemma EventCallsAreComplete<S(!new), In(!new), W, O>(p: Pipeline<S, In, W, O>, h: Handler<In, W>, maxFrameSize: nat,
        c: Connection<S, In, W>, e: Event<W>)
    requires Steady(p)
    ensures var r := OnEvent(p, h, maxFrameSize, c, e);
            && c.inputs <= r.inputs
            && forall i: nat | |c.inputs| <= i < |r.inputs| ::
                 HasCall(p, EventCalls(p, h, maxFrameSize, c, e), r.inputs, i)
  {
    hide Serve, ServeCalls, HasCall, Outbound;
    if e.Received? {
      ServeCallsAreComplete(p, h, c.(buf := c.buf + e.chunk, received := c.received + |e.chunk|));
    }
  }

  // ----- The stream only ever grows -----

  ghost predicate Grows<S, W>(d: Delivery<S, W>, e: Delivery<S, W>) { d.wire <= e.wire && d.acks <= e.acks }

  lemma HandlingGrows<S, In, W, O>(p: Pipeline<S, In, W, O>, d: Delivery<S, W>, h: Handling<W>)
    ensures Grows(d, Handle(p, d, h).0)
  {
    hide Deliver;
    if h.Handled? {
      DeliverExtends(p, d, Actions(h.script));
    }
  }

  lemma {:induction false} ServingGrows<S(!new), In(!new), W, O>(p: Pipeline<S, In, W, O>, h: Handler<In, W>,
        c: Connection<S, In, W>)
    requires Steady(p)
    ensures Grows(c.out, Serve(p, h, c).out)
    decreases |c.buf|
  {
    hide Handle;
    assert SteadyAt(p, c.out.state, c.buf);
    var (s, step) := p.decode(c.out.state, c.buf);
    if step.Item? {
      HandlingGrows(p, c.out.(state := s), h(|c.inputs|, step.item));
      var (out, end) := Handle(p, c.out.(state := s), h(|c.inputs|, step.item));
      if end == Running {
        ServingGrows(p, h, c.(out := out, buf := c.buf[step.used..], inputs := c.inputs + [step.item], end := end));
      }
    }
  }

  lemma EventGrows<S(!new), In(!new), W, O>(p: Pipeline<S, In, W, O>, h: Handler<In, W>, maxFrameSize: nat,
        c: Connection<S, In, W>, e: Event<W>)
    requires Steady(p)
    ensures Grows(c.out, OnEvent(p, h, maxFrameSize, c, e).out)
  {
    hide Serve, Outbound;
    if e.Received? {
      ServingGrows(p, h, c.(buf := c.buf + e.chunk, received := c.received + |e.chunk|));
    }
  }

  lemma {:induction false} RunGrows<S(!new), In(!new), W, O>(p: Pipeline<S, In, W, O>, h: Handler<In, W>,
        maxFrameSize: nat, c: Connection<S, In, W>, events: seq<Event<W>>)
    requires Steady(p)
    ensures Grows(c.out, Run(p, h, maxFrameSize, c, events).out)
    decreases |events|
  {
    hide OnEvent;
    if events != [] && c.end == Running {
      EventGrows(p, h, maxFrameSize, c, events[0]);
      RunGrows(p, h, maxFrameSize, OnEvent(p, h, maxFrameSize, c, events[0]), events[1..]);
    }
  }

  // ----- Read boundaries do not matter -----

  ghost predicate VerdictStandsAt<S(!new), In(!new), W, O>(p: Pipeline<S, In, W, O>, s: S, b: seq<byte>, t: seq<byte>) {
    var step := p.decode(s, b).1;
    step.Item? || (step.Fail? && step.error != FrameTooLarge) ==> p.decode(s, b + t) == p.decode(s, b)
  }

  /** In every state, later bytes leave alone a message and every error but "too large". */
  ghost predicate VerdictsStand<S(!new), In(!new), W, O>(p: Pipeline<S, In, W, O>) {
    forall s: S, b: seq<byte>, t: seq<byte> :: VerdictStandsAt(p, s, b, t)
  }

  const TOO_LARGE: End := Failed(OversizeFrame, FrameTooLarge)

  /** Bytes that arrive later are served as if they had been there from the start, unless the connection is over by
      then. */
  lemma {:induction false} ServeExtends<S(!new), In(!new), W, O>(p: Pipeline<S, In, W, O>, h: Handler<In, W>,
        c: Connection<S, In, W>, t: seq<byte>)
    requires Steady(p) && VerdictsStand(p) && c.end == Running && Serve(p, h, c).end != TOO_LARGE
    ensures var first := Serve(p, h, c);
            var more := first.(buf := first.buf + t);
            Serve(p, h, c.(buf := c.buf + t)) == if first.end == Running then Serve(p, h, more) else more
    decreases |c.buf|
  {
    hide Handle;
    assert SteadyAt(p, c.out.state, c.buf) && VerdictStandsAt(p, c.out.state, c.buf, t);
    var (s, step) := p.decode(c.out.state, c.buf);
    match step
    case Need =>
    case Fail(_, n) => assert (c.buf + t)[n..] == c.buf[n..] + t;
    case Item(x, n) =>
      assert (c.buf + t)[n..] == c.buf[n..] + t;
      var (out, end) := Handle(p, c.out.(state := s), h(|c.inputs|, x));
      if end == Running {
        ServeExtends(p, h, c.(out := out, buf := c.buf[n..], inputs := c.inputs + [x], end := end), t);
      }
  }

  lemma {:induction false} ServeIgnoresCount<S(!new), In(!new), W, O>(p: Pipeline<S, In, W, O>, h: Handler<In, W>,
        c: Connection<S, In, W>, received: nat)
    requires Steady(p)
    ensures Serve(p, h, c.(received := received)) == Serve(p, h, c).(received := received)
    decreases |c.buf|
  {
    hide Handle;
    assert SteadyAt(p, c.out.state, c.buf);
    var (s, step) := p.decode(c.out.state, c.buf);
    if step.Item? {
      var (out, end) := Handle(p, c.out.(state := s), h(|c.inputs|, step.item));
      if end == Running {
        var next := c.(out := out, buf := c.buf[step.used..], inputs := c.inputs + [step.item], end := end);
        ServeIgnoresCount(p, h, next, received);
      }
    }
  }

  lemma {:induction false} ServedIsDrained<S(!new), In(!new), W, O>(p: Pipeline<S, In, W, O>, h: Handler<In, W>,
        c: Connection<S, In, W>)
    requires Steady(p) && Serve(p, h, c).end == Running
    ensures var r := Serve(p, h, c); Serve(p, h, r) == r && |r.buf| <= |c.buf|
    decreases |c.buf|
  {
    hide Handle;
    assert SteadyAt(p, c.out.state, c.buf);
    var (s, step) := p.decode(c.out.state, c.buf);
    if step.Item? {
      var (out, end) := Handle(p, c.out.(state := s), h(|c.inputs|, step.item));
      ServedIsDrained(p, h, c.(out := out, buf := c.buf[step.used..], inputs := c.inputs + [step.item], end := end));
    }
  }

  function Reads<W>(chunks: seq<seq<byte>>): seq<Event<W>> {
    seq(|chunks|, i requires 0 <= i < |chunks| => Received(chunks[i]))
  }

  /** The same up to the bytes that were never read because the connection was over. */
  ghost predicate SameButUnread<S, In, W>(c: Connection<S, In, W>, whole: Connection<S, In, W>) {
    && c.out == whole.out && c.inputs == whole.inputs && c.end == whole.end
    && (c.end == Running ==> c == whole)
  }

  /**
   However the peer's bytes are cut into reads, and however many they are, the connection decodes the
   same messages, runs the same handlers, puts the same bytes on the stream and ends the same way,
   unless it ends with "too large".  The codec may change its state while encoding.
   */
  lemma {:induction false} SplitInvariance<S(!new), In(!new), W, O>(
      p: Pipeline<S, In, W, O>, h: Handler<In, W>, maxFrameSize: nat, c: Connection<S, In, W>, chunks: seq<seq<byte>>)
    requires Steady(p) && VerdictsStand(p) && c.end == Running && Serve(p, h, c) == c
    requires forall i | 0 <= i < |chunks| :: chunks[i] != []
    requires Run(p, h, maxFrameSize, c, Reads(chunks)).end != TOO_LARGE
    ensures var whole := c.(buf := c.buf + Concat(chunks), received := c.received + |Concat(chunks)|);
            SameButUnread(Run(p, h, maxFrameSize, c, Reads(chunks)), Serve(p, h, whole))
    decreases |chunks|
  {
    hide Serve;
    if chunks == [] {
      assert c.buf + [] == c.buf;
    } else {
      var x, t := chunks[0], Concat(chunks[1..]);
      assert Reads<W>(chunks)[1..] == Reads<W>(chunks[1..]);
      var c1 := c.(buf := c.buf + x, received := c.received + |x|);
      var first := Serve(p, h, c1);
      assert OnEvent(p, h, maxFrameSize, c, Received(x)) == first;
      ServeExtends(p, h, c1, t);
      Assoc(c.buf, x, t);
      var total := c.received + |x| + |t|;
      ServeIgnoresCount(p, h, c1.(buf := c1.buf + t), total);
      if first.end == Running {
        ServeIgnoresCount(p, h, first.(buf := first.buf + t), total);
        ServedIsDrained(p, h, c1);
        ServeKeepsCount(p, h, c1);
        SplitInvariance(p, h, maxFrameSize, first, chunks[1..]);
      }
    }
  }

  lemma {:induction false} ServeKeepsCount<S(!new), In(!new), W, O>(p: Pipeline<S, In, W, O>, h: Handler<In, W>,
        c: Connection<S, In, W>)
    requires Steady(p)
    ensures Serve(p, h, c).received == c.received
  {
    ServeIgnoresCount(p, h, c, c.received);
    assert c.(received := c.received) == c;
  }

  /** A decoder without state whose verdicts stand gives a pipeline whose verdicts stand. */
  lemma StatelessDecodersStand<S(!new), In(!new), W, O>(p: Pipeline<S, In, W, O>, d: Decoder<In>)
    requires forall s: S, b: seq<byte> :: p.decode(s, b) == (s, d(b))
    requires Progress(d) && Stable(d)
    ensures Steady(p) && VerdictsStand(p)
  {
    forall s: S, b: seq<byte>
      ensures SteadyAt(p, s, b)
    {
      assert ProgressAt(d, b);
    }
    forall s: S, b: seq<byte>, t: seq<byte>
      ensures VerdictStandsAt(p, s, b, t)
    {
      assert StableAt(d, b, t);
    }
  }
}
