/** The UDP socket task as it runs: one read buffer, one write buffer, an outbox for each handled datagram, and a
    socket that may fail. */
module DatagramRuntime {
  import opened Core
  import opened DatagramSpec
  import opened StreamSpec
  import opened StreamRuntime

  lemma {:induction false} CommandsAlike<S, In, W, O>(p: DatagramPipeline<S, In, W, O>, context: Peer,
        d: Account<S, W>, actions: seq<Action<Datagram<W>>>)
    ensures DatagramSpec.Deliver(p, context, d, Commands(actions)) == DatagramSpec.Deliver(p, context, d, actions)
    decreases |actions|
  {
    hide Sent, Confirmed;
    if actions != [] {
      if !actions[0].Close? {
        assert Commands(actions)[1..] == Commands(actions[1..]);
      }
      CommandsAlike(p, context, DatagramSpec.Perform(p, context, d, actions[0]), actions[1..]);
    }
  }

  class DatagramSocketRuntime<S, In, W, O> {
    const pipeline: DatagramPipeline<S, In, W, O>
    const handler: DatagramHandler<In, W>
    const limits: Limits
    /** How many datagrams the socket sends before a send fails; None when none fails. */
    const room: Option<nat>
    const readBuf: array<byte>

    var codec: S
    var network: seq<Datagram<seq<byte>>>
    var writeBuf: seq<byte>
    var handled: nat
    /** How many datagrams had been sent when an acknowledgement of success was given. */
    ghost var acks: seq<nat>

    constructor (pipeline: DatagramPipeline<S, In, W, O>, handler: DatagramHandler<In, W>, limits: Limits,
          room: Option<nat>, codec: S)
      ensures this.pipeline == pipeline && this.handler == handler && this.limits == limits && this.room == room
      ensures Models(StartSocket(codec)) && fresh(readBuf)
    {
      this.pipeline := pipeline;
      this.handler := handler;
      this.limits := limits;
      this.room := room;
      this.codec := codec;
      readBuf := new byte[Capacity(limits)](i => 0);
      network, writeBuf, acks := [], [], [];
      handled := 0;
    }

    predicate Fits(sent: seq<Datagram<seq<byte>>>) { room.Some? ==> |sent| <= room.value }

    function Cut(sent: seq<Datagram<seq<byte>>>): seq<Datagram<seq<byte>>> {
      if Fits(sent) then sent else sent[..room.value]
    }

    /** The socket task is where the account says; nothing waits in the write buffer. */
    ghost predicate Tracks(d: Account<S, W>)
      reads this
    {
      d.error.None? && Fits(d.sent) && codec == d.state && network == d.sent && writeBuf == [] && acks == d.acks
    }

    /** An operation has brought the socket task where the account says, or the socket has failed on the way. */
    ghost predicate Follows(d: Account<S, W>, r: Result<()>)
      reads this
    {
      if !Fits(d.sent) then r == Err(Io) && network == Cut(d.sent) && acks <= d.acks
      else if d.error.Some? then r == Err(d.error.value) && network == d.sent && acks == d.acks
      else r == Ok(()) && Tracks(d)
    }

    ghost predicate Models(c: Socket<S, In, W>)
      reads this
    {
      Tracks(c.out) && c.end == Open && handled == |c.inputs| && readBuf.Length == Capacity(limits)
    }

    ghost predicate Matches(c: Socket<S, In, W>, end: SocketEnd)
      reads this
    {
      if !Fits(c.out.sent) then end == Broken(Io) && network == Cut(c.out.sent) && acks <= c.out.acks
      else end == c.end && network == c.out.sent && acks == c.out.acks && (end == Open ==> Models(c))
    }

    lemma LateFollows(d: Account<S, W>, e: Account<S, W>, r: Result<()>)
      requires Extended(d, e) && Follows(d, r) && r.Err?
      ensures Follows(e, r)
    {
      if !Fits(d.sent) {
        assert e.sent[..|d.sent|] == d.sent;
        assert e.sent[..room.value] == d.sent[..room.value];
      }
    }

    // ----- Sending -----

    method SendTo(bytes: seq<byte>, peer: Peer) returns (ok: bool)
      requires Fits(network)
      modifies `network
      ensures ok <==> Fits(old(network) + [Datagram(peer, bytes)])
      ensures network == Cut(old(network) + [Datagram(peer, bytes)])
    {
      ok := Fits(network + [Datagram(peer, bytes)]);
      network := Cut(network + [Datagram(peer, bytes)]);
    }

    /** Stages and encoder; what they append stays in the write buffer. */
    method ProcessOutbound(context: Peer, m: Datagram<W>, ghost d: Account<S, W>) returns (r: Result<()>)
      requires Tracks(d)
      modifies `codec, `writeBuf
      ensures var (s, sending) := Through(StageFor(pipeline, context), pipeline.encode, d.state, m);
              match sending
              case Failing(_, e) => r == Err(e)
              case Dropped => r == Ok(()) && codec == s && writeBuf == []
              case Encoded(b) => r == Ok(()) && codec == s && writeBuf == b
    {
      var (s1, flow) := pipeline.stage(codec, context, m.body);
      codec := s1;
      match flow {
        case Stop => return Ok(());
        case Refuse(e) => return Err(e);
        case Next(o) =>
          var (s2, e) := pipeline.encode(codec, o);
          codec := s2;
          writeBuf := writeBuf + e.bytes;
          return if e.error.Some? then Err(e.error.value) else Ok(());
      }
    }

    method FlushDatagram(peer: Peer) returns (r: Result<()>)
      requires Fits(network)
      modifies `network, `writeBuf
      ensures var all := old(network) + AsDatagram(peer, old(writeBuf));
              network == Cut(all) && r == (if Fits(all) then Ok(()) else Err(Io)) && (r.Ok? ==> writeBuf == [])
    {
      if writeBuf != [] {
        var ok := SendTo(writeBuf, peer);
        if !ok {
          return Err(Io);
        }
        writeBuf := [];
      }
      return Ok(());
    }

    /** A message on its way out: stages, encoder and its own datagram. */
    method Transmit(context: Peer, m: Datagram<W>, ghost d: Account<S, W>) returns (r: Result<()>)
      requires Tracks(d)
      modifies `codec, `writeBuf, `network
      ensures Follows(Sent(pipeline, context, d, m), r)
    {
      hide Through;
      r := ProcessOutbound(context, m, d);
      if r.Ok? {
        r := FlushDatagram(m.peer);
      }
    }

    // ----- The outbox -----

    method DrainOutbox(ctx: Context<Datagram<W>>, context: Peer, ghost d: Account<S, W>) returns (r: Result<()>)
      requires Tracks(d)
      requires ctx.Staged()
      modifies `codec, `network, `writeBuf, `acks, ctx`outbox
      ensures ctx.outbox == [] && Follows(DatagramSpec.Deliver(pipeline, context, d, old(ctx.outbox)), r)
    {
      hide Sent;
      var commands := ctx.TakeCommands();
      ghost var cur := d;
      ghost var all := DatagramSpec.Deliver(pipeline, context, d, commands);
      for i := 0 to |commands|
        invariant Tracks(cur) && ctx.outbox == []
        invariant DatagramSpec.Deliver(pipeline, context, cur, commands[i..]) == all
      {
        assert commands[i..][1..] == commands[i + 1..];
        ghost var next := DatagramSpec.Perform(pipeline, context, cur, commands[i]);
        DeliveryExtends(pipeline, context, next, commands[i + 1..]);
        match commands[i] {
          case Write(m) =>
            r := Transmit(context, m, cur);
            if r.Err? {
              LateFollows(next, all, r);
              return;
            }
          case Flush =>
            acks := acks + [|network|];
        }
        cur := next;
      }
      r := Ok(());
    }

    // ----- Handlers -----

    ghost predicate Holds(ctx: Context<Datagram<W>>, context: Peer, d: Account<S, W>, cur: Account<S, W>,
          taken: seq<Action<Datagram<W>>>)
      reads this, ctx
    {
      && Tracks(cur)
      && DatagramSpec.Deliver(pipeline, context, d, taken) == DatagramSpec.Deliver(pipeline, context, cur, ctx.outbox)
      && ctx.Staged()
    }

    lemma TakenIsHeld(context: Peer, d: Account<S, W>, cur: Account<S, W>,
          taken: seq<Action<Datagram<W>>>, before: seq<Action<Datagram<W>>>, actions: seq<Action<Datagram<W>>>)
      requires DatagramSpec.Deliver(pipeline, context, d, taken) == DatagramSpec.Deliver(pipeline, context, cur, before)
      ensures DatagramSpec.Deliver(pipeline, context, d, taken + actions) ==
              DatagramSpec.Deliver(pipeline, context, cur, before + Commands(actions))
    {
      hide DatagramSpec.Deliver;
      DeliverInTwo(pipeline, context, d, taken, actions);
      DeliverInTwo(pipeline, context, cur, before, Commands(actions));
      CommandsAlike(pipeline, context, DatagramSpec.Deliver(pipeline, context, cur, before), actions);
    }

    lemma DeliverNothing(context: Peer, d: Account<S, W>)
      ensures DatagramSpec.Deliver(pipeline, context, d, []) == d
    {
    }

    lemma EarlyFailure(context: Peer, d: Account<S, W>, taken: seq<Action<Datagram<W>>>,
          rest: seq<Action<Datagram<W>>>, r: Result<()>)
      requires Follows(DatagramSpec.Deliver(pipeline, context, d, taken), r) && r.Err?
      ensures Follows(DatagramSpec.Deliver(pipeline, context, d, taken + rest), r)
    {
      hide DatagramSpec.Deliver;
      DeliverInTwo(pipeline, context, d, taken, rest);
      var now := DatagramSpec.Deliver(pipeline, context, d, taken);
      DeliveryExtends(pipeline, context, now, rest);
      LateFollows(now, DatagramSpec.Deliver(pipeline, context, now, rest), r);
    }

    /** Polls the handler to its end; whenever it suspends on a flush the outbox is drained first, and once more
        when it returns. */
    method RunHandler(ctx: Context<Datagram<W>>, context: Peer, script: Script<Datagram<W>>,
          ghost d: Account<S, W>) returns (r: Result<()>)
      requires Tracks(d) && ctx.outbox == []
      modifies `codec, `network, `writeBuf, `acks, ctx
      ensures var out := DatagramSpec.Deliver(pipeline, context, d, Actions(script));
              if Fits(out.sent) && out.error.None? then Tracks(out) && r == script.result else r.Err? && Follows(out, r)
      ensures r.Ok? ==> ctx.outbox == [] && (ctx.closeRequested <==> old(ctx.closeRequested) || Closes(Actions(script)))
    {
      hide DatagramSpec.Deliver;
      ghost var cur := d;
      ghost var taken: seq<Action<Datagram<W>>> := [];
      DeliverNothing(context, d);
      for i := 0 to |script.polls|
        invariant taken == Concat(script.polls[..i]) && Holds(ctx, context, d, cur, taken) && !HasFlush(ctx.outbox)
        invariant ctx.closeRequested <==> old(ctx.closeRequested) || Closes(taken)
      {
        ConcatCut(script.polls, i);
        ClosesSplit(taken, script.polls[i]);
        TakenIsHeld(context, d, cur, taken, ctx.outbox, script.polls[i]);
        taken := taken + script.polls[i];
        ctx.Poll(script.polls[i]);
        if HasFlush(ctx.outbox) {
          ghost var next := DatagramSpec.Deliver(pipeline, context, cur, ctx.outbox);
          r := DrainOutbox(ctx, context, cur);
          cur := next;
          if r.Err? {
            Assoc(taken, Concat(script.polls[i + 1..]), script.last);
            EarlyFailure(context, d, taken, Concat(script.polls[i + 1..]) + script.last, r);
            return;
          }
          DeliverNothing(context, cur);
        }
      }
      assert script.polls[..|script.polls|] == script.polls;
      TakenIsHeld(context, d, cur, taken, ctx.outbox, script.last);
      ClosesSplit(taken, script.last);
      ctx.Poll(script.last);
      r := DrainOutbox(ctx, context, cur);
      if r.Ok? {
        r := script.result;
      }
    }

    // ----- The socket loop -----

    /** Receives into the read buffer, as much as fits. */
    method ReceiveInto(body: seq<byte>) returns (len: nat)
      requires readBuf.Length == Capacity(limits)
      modifies readBuf
      ensures len <= readBuf.Length && readBuf[..len] == Truncated(limits, body)
    {
      len := if |body| <= readBuf.Length then |body| else readBuf.Length;
      for i := 0 to len
        invariant forall j | 0 <= j < i :: readBuf[j] == body[j]
      {
        readBuf[i] := body[i];
      }
      assert readBuf[..len] == body[..len];
      assert |body| <= readBuf.Length ==> body[..len] == body;
    }

    method HandleDatagram(g: Datagram<seq<byte>>, ghost c: Socket<S, In, W>) returns (end: SocketEnd)
      requires Models(c)
      modifies this, readBuf
      ensures Matches(OnDatagram(pipeline, handler, limits, c, g), end)
    {
      hide DatagramSpec.Deliver;
      var len := ReceiveInto(g.body);
      if len > limits.maxDatagramSize {
        return Broken(DatagramTooLarge);
      }
      var (s, decoded) := pipeline.decode(codec, readBuf[..len]);
      codec := s;
      if decoded.Err? {
        return Broken(decoded.error);
      }
      var ctx := new Context<Datagram<W>>();
      var handling := handler(handled, Datagram(g.peer, decoded.value));
      handled := handled + 1;
      match handling {
        case Dismissed => return Open;
        case Rejected(e) => return Broken(e);
        case Handled(script) =>
          var r := RunHandler(ctx, g.peer, script, c.out.(state := s));
          if r.Err? {
            return Broken(r.error);
          }
          return if ctx.closeRequested then Stopped else Open;
      }
    }

    method HandleWrite(m: Datagram<W>, ghost c: Socket<S, In, W>) returns (end: SocketEnd)
      requires Models(c)
      modifies this
      ensures Matches(DatagramSpec.OnWrite(pipeline, c, m), end)
    {
      hide Sent;
      var r := Transmit(m.peer, m, c.out);
      return if r.Err? then Broken(r.error) else Open;
    }

    method HandleEvent(event: SocketEvent<W>, ghost c: Socket<S, In, W>) returns (end: SocketEnd)
      requires Models(c)
      modifies this, readBuf
      ensures Matches(OnSocketEvent(pipeline, handler, limits, c, event), end)
    {
      hide OnDatagram, Sent;
      match event {
        case Arrived(g) => end := HandleDatagram(g, c);
        case ReceiveFailed => return Broken(Io);
        case Commanded(Some(WriteTo(m))) => end := HandleWrite(m, c);
        case Commanded(Some(WriteToAndFlush(m))) =>
          end := HandleWrite(m, c);
          if end == Open {
            acks := acks + [|network|];
          }
        case Commanded(_) => return Stopped;
        case ShutdownRequested => return Stopped;
      }
    }

    /** The event loop: what goes out is what the account says, cut where a send failed if one did. */
    method RunLoop(events: seq<SocketEvent<W>>, ghost c: Socket<S, In, W>) returns (end: SocketEnd)
      requires Models(c)
      modifies this, readBuf
      ensures Matches(RunSocket(pipeline, handler, limits, c, events), end)
    {
      hide OnSocketEvent;
      ghost var whole := RunSocket(pipeline, handler, limits, c, events);
      ghost var cur := c;
      for i := 0 to |events|
        invariant Models(cur) && RunSocket(pipeline, handler, limits, cur, events[i..]) == whole
      {
        assert events[i..][1..] == events[i + 1..];
        ghost var next := OnSocketEvent(pipeline, handler, limits, cur, events[i]);
        RunOnlyGrows(pipeline, handler, limits, next, events[i + 1..]);
        end := HandleEvent(events[i], cur);
        cur := next;
        if end != Open {
          if !Fits(cur.out.sent) {
            assert whole.out.sent[..|cur.out.sent|] == cur.out.sent;
            assert whole.out.sent[..room.value] == cur.out.sent[..room.value];
          }
          return;
        }
      }
      end := Open;
    }
  }
}
