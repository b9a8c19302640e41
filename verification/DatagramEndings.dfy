/** What closes a UDP socket, and what a datagram and a channel write do over whole runs. */
module DatagramEndings {
  import opened Core
  import opened DatagramSpec
  import opened StreamLaws
  import opened StreamSpec

  /** The socket has served every event before this one and is still open. */
  predicate Reaches<S, In, W, O>(p: DatagramPipeline<S, In, W, O>, h: DatagramHandler<In, W>, l: Limits,
        c: Socket<S, In, W>, events: seq<SocketEvent<W>>, i: nat) {
    i < |events| && RunSocket(p, h, l, c, events[..i]).end == Open
  }

  lemma {:induction false} SocketSplits<S, In, W, O>(p: DatagramPipeline<S, In, W, O>, h: DatagramHandler<In, W>,
        l: Limits, c: Socket<S, In, W>, events: seq<SocketEvent<W>>, i: nat)
    requires Reaches(p, h, l, c, events, i)
    ensures var next := OnSocketEvent(p, h, l, RunSocket(p, h, l, c, events[..i]), events[i]);
            && RunSocket(p, h, l, c, events) == RunSocket(p, h, l, next, events[i + 1..])
            && RunSocket(p, h, l, c, events[..i + 1]) == next
    decreases |events|
  {
    hide OnSocketEvent;
    if i > 0 {
      var next := OnSocketEvent(p, h, l, c, events[0]);
      assert events[..i][1..] == events[1..][..i - 1] && events[..i + 1][1..] == events[1..][..i];
      SocketSplits(p, h, l, next, events[1..], i - 1);
      assert events[1..][i..] == events[i + 1..];
    } else {
      assert events[..1] == [events[0]] && events[..1][1..] == [];
    }
  }

  /** Shutdown, a close command and the last sender's departure stop the socket, a failed receive breaks it, each at
      once and with nothing else changed. */
  lemma SocketEventsThatEnd<S, In, W, O>(p: DatagramPipeline<S, In, W, O>, h: DatagramHandler<In, W>, l: Limits,
        c: Socket<S, In, W>, events: seq<SocketEvent<W>>, i: nat)
    requires Reaches(p, h, l, c, events, i)
    ensures var r, before := RunSocket(p, h, l, c, events), RunSocket(p, h, l, c, events[..i]);
            match events[i]
            case ShutdownRequested => r == before.(end := Stopped)
            case Commanded(None) => r == before.(end := Stopped)
            case Commanded(Some(command)) => command.CloseSocket? ==> r == before.(end := Stopped)
            case ReceiveFailed => r == before.(end := Broken(Io))
            case Arrived(_) => true
  {
    hide OnDatagram, DatagramSpec.OnWrite;
    SocketSplits(p, h, l, c, events, i);
  }

  /** While the socket is open nothing has failed. */
  lemma {:induction false} OpenMeansNoFailure<S, In, W, O>(p: DatagramPipeline<S, In, W, O>,
        h: DatagramHandler<In, W>, l: Limits, c: Socket<S, In, W>, events: seq<SocketEvent<W>>)
    requires c.end == Open ==> c.out.error.None?
    ensures var r := RunSocket(p, h, l, c, events); r.end == Open ==> r.out.error.None?
    decreases |events|
  {
    hide OnSocketEvent, DatagramSpec.Produces;
    if events != [] && c.end == Open {
      DatagramSpec.EventKeepsOrder(p, h, l, c, events[0]);
      OpenMeansNoFailure(p, h, l, OnSocketEvent(p, h, l, c, events[0]), events[1..]);
    }
  }

  // ----- Writes -----

  /** The state after some messages, the datagrams they make, and the error that stopped them. */
  datatype Sends<+S> = Sends(state: S, datagrams: seq<Datagram<seq<byte>>>, error: Option<ErrorKind>)

  /** Messages through the stages, which see the peer of the context, and the encoder: one datagram to each message's
      own peer, unless a stage stops it or its encoding is empty, up to the first failure. */
  function SendEach<S, In, W, O>(p: DatagramPipeline<S, In, W, O>, context: Peer, s: S,
        ms: seq<Datagram<W>>): Sends<S>
    decreases |ms|
  {
    if ms == [] then Sends(s, [], None)
    else
      match p.stage(s, context, ms[0].body)
      case (s1, Refuse(e)) => Sends(s1, [], Some(e))
      case (s1, Stop) => SendEach(p, context, s1, ms[1..])
      case (s1, Next(o)) =>
        var (s2, encoding) := p.encode(s1, o);
        if encoding.error.Some? then Sends(s2, [], encoding.error)
        else
          var rest := SendEach(p, context, s2, ms[1..]);
          if encoding.bytes == [] then rest
          else rest.(datagrams := [Datagram(ms[0].peer, encoding.bytes)] + rest.datagrams)
  }

  /** Whatever flushes, closes and suspensions a handler puts between its writes. */
  lemma {:induction false} DeliverySends<S, In, W, O>(p: DatagramPipeline<S, In, W, O>, context: Peer,
        d: Account<S, W>, actions: seq<Action<Datagram<W>>>)
    requires d.error.None?
    ensures var r, e := DatagramSpec.Deliver(p, context, d, actions), SendEach(p, context, d.state, Writes(actions));
            r.state == e.state && r.error == e.error && r.sent == d.sent + e.datagrams
    decreases |actions|
  {
    if actions != [] {
      var next := DatagramSpec.Perform(p, context, d, actions[0]);
      if actions[0].Write? {
        assert Writes(actions)[1..] == Writes(actions[1..]);
      }
      if next.error.Some? {
        StickyFailure(p, context, next, actions[1..]);
      } else {
        DeliverySends(p, context, next, actions[1..]);
        Assoc(d.sent, if |next.sent| > |d.sent| then [next.sent[|d.sent|]] else [],
            SendEach(p, context, next.state, Writes(actions[1..])).datagrams);
      }
    }
  }

  /** What a channel write leaves: its datagram sent, or the socket broken by the failure. */
  ghost predicate WrittenAs<S, In, W, O>(p: DatagramPipeline<S, In, W, O>, before: Socket<S, In, W>,
        next: Socket<S, In, W>, m: Datagram<W>)
  {
    var all := SendEach(p, m.peer, before.out.state, [m]);
    && next.inputs == before.inputs
    && next.out.state == all.state && next.out.error == all.error
    && next.out.sent == before.out.sent + all.datagrams
    && next.end == if all.error.Some? then Broken(all.error.value) else Open
  }

  /** Over runs, every channel write; a flushing one is acknowledged once its datagram has been sent. */
  lemma SocketWrite<S, In, W, O>(p: DatagramPipeline<S, In, W, O>, h: DatagramHandler<In, W>, l: Limits,
        c: Socket<S, In, W>, events: seq<SocketEvent<W>>, i: nat, m: Datagram<W>)
    requires Reaches(p, h, l, c, events, i) && (c.end == Open ==> c.out.error.None?)
    requires events[i] in {SocketEvent.Commanded(Some(WriteTo(m))), SocketEvent.Commanded(Some(WriteToAndFlush(m)))}
    ensures var before, next := RunSocket(p, h, l, c, events[..i]), RunSocket(p, h, l, c, events[..i + 1]);
            && WrittenAs(p, before, next, m)
            && next.out.acks ==
               if events[i] == SocketEvent.Commanded(Some(WriteToAndFlush(m))) && next.end == Open
               then before.out.acks + [|next.out.sent|] else before.out.acks
  {
    SocketSplits(p, h, l, c, events, i);
    OpenMeansNoFailure(p, h, l, c, events[..i]);
    var before := RunSocket(p, h, l, c, events[..i]);
    hide RunSocket, SendEach;
    var actions: seq<Action<Datagram<W>>> := [Write(m)];
    DeliverySends(p, m.peer, before.out, actions);
    assert actions[1..] == [] && Writes(actions) == [m];
    assert DatagramSpec.Deliver(p, m.peer, before.out, actions) == Sent(p, m.peer, before.out, m);
  }

  // ----- Datagrams -----

  function Max(a: nat, b: nat): nat { if a >= b then a else b }

  /** Everything the handler staged has been sent, up to the first failure, which breaks the socket; otherwise the
      handler's own error does, or its request to close stops it. */
  ghost predicate HandledAs<S, In, W, O>(p: DatagramPipeline<S, In, W, O>, context: Peer, before: Account<S, W>,
        actions: seq<Action<Datagram<W>>>, result: Result<()>, next: Socket<S, In, W>)
  {
    var all := SendEach(p, context, before.state, Writes(actions));
    && next.out.state == all.state && next.out.error == all.error
    && next.out.sent == before.sent + all.datagrams
    && next.end ==
       if all.error.Some? then Broken(all.error.value)
       else if result.Err? then Broken(result.error)
       else if Close in actions then Stopped
       else Open
  }

  /** What becomes of a datagram: what exceeds the read buffer is lost; the rest is refused if it is too long, breaks
      the socket if it does not decode, and is handled otherwise. */
  ghost predicate ReceivedAs<S, In, W, O>(p: DatagramPipeline<S, In, W, O>, h: DatagramHandler<In, W>, l: Limits,
        before: Socket<S, In, W>, next: Socket<S, In, W>, g: Datagram<seq<byte>>)
  {
    var space := Max(1, Max(l.readBufferCapacity, l.maxDatagramSize));
    var body := if |g.body| <= space then g.body else g.body[..space];
    if |body| > l.maxDatagramSize then next == before.(end := Broken(DatagramTooLarge))
    else
      match p.decode(before.out.state, body)
      case (s, Err(e)) => next == before.(out := before.out.(state := s), end := Broken(e))
      case (s, Ok(x)) =>
        && next.inputs == before.inputs + [Datagram(g.peer, x)]
        && match h(|before.inputs|, Datagram(g.peer, x))
           case Dismissed => next.out == before.out.(state := s) && next.end == Open
           case Rejected(e) => next.out == before.out.(state := s) && next.end == Broken(e)
           case Handled(script) =>
             HandledAs(p, g.peer, before.out.(state := s), Concat(script.polls) + script.last, script.result, next)
  }

  /** Over runs, every datagram. */
  lemma DatagramArrives<S, In, W, O>(p: DatagramPipeline<S, In, W, O>, h: DatagramHandler<In, W>, l: Limits,
        c: Socket<S, In, W>, events: seq<SocketEvent<W>>, i: nat, g: Datagram<seq<byte>>)
    requires Reaches(p, h, l, c, events, i) && (c.end == Open ==> c.out.error.None?)
    requires events[i] == Arrived(g)
    ensures ReceivedAs(p, h, l, RunSocket(p, h, l, c, events[..i]), RunSocket(p, h, l, c, events[..i + 1]), g)
  {
    SocketSplits(p, h, l, c, events, i);
    OpenMeansNoFailure(p, h, l, c, events[..i]);
    var before := RunSocket(p, h, l, c, events[..i]);
    hide RunSocket, SendEach, Writes, DatagramSpec.Deliver;
    var (s, decoded) := p.decode(before.out.state, Truncated(l, g.body));
    if decoded.Ok? {
      var handling := h(|before.inputs|, Datagram(g.peer, decoded.value));
      if handling.Handled? {
        var actions := Concat(handling.script.polls) + handling.script.last;
        DeliverySends(p, g.peer, before.out.(state := s), actions);
        assert Closes(actions) <==> Close in actions;
      }
    }
  }
}
