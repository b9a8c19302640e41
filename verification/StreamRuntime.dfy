/** The connection task as it runs: read buffer, write buffer, outbox, polled handler, and a stream that may fail. */
module StreamRuntime {
  import opened Core
  import opened Framing
  import opened StreamSpec
  import opened StreamLaws

  const U64_END: nat := 0x1_0000_0000_0000_0000

  /** Per-connection counters, 64-bit and wrapping. */
  datatype Counters = Counters(bytesRead: nat, bytesWritten: nat, framesRead: nat, framesWritten: nat)

  function Count(counter: nat, amount: nat): nat { (counter + amount) % U64_END }

  lemma CountsAddUp(a: nat, b: nat)
    ensures Count(a % U64_END, b) == (a + b) % U64_END
  {
  }

  /** What a handler's actions leave in the outbox; closing is a flag of its own. */
  function Commands<W>(actions: seq<Action<W>>): seq<Action<W>> {
    if actions == [] then []
    else if actions[0].Close? then Commands(actions[1..])
    else [actions[0]] + Commands(actions[1..])
  }

  lemma {:induction false} CommandsSnoc<W>(actions: seq<Action<W>>, a: Action<W>)
    ensures Commands(actions + [a]) == Commands(actions) + if a.Close? then [] else [a]
  {
    if actions == [] {
      assert actions + [a] == [a];
    } else {
      assert (actions + [a])[1..] == actions[1..] + [a];
      CommandsSnoc(actions[1..], a);
    }
  }

  lemma {:induction false} CommandsDeliverAlike<S, In, W, O>(p: Pipeline<S, In, W, O>, d: Delivery<S, W>,
        actions: seq<Action<W>>)
    ensures Deliver(p, d, Commands(actions)) == Deliver(p, d, actions)
    decreases |actions|
  {
    hide Staged, Flushed, Acknowledged;
    if actions != [] {
      if !actions[0].Close? {
        assert Commands(actions)[1..] == Commands(actions[1..]);
      }
      CommandsDeliverAlike(p, Perform(p, d, actions[0]), actions[1..]);
    }
  }

  predicate HasFlush<W>(commands: seq<Action<W>>) { exists i | 0 <= i < |commands| :: commands[i].Flush? }

  lemma ClosesSplit<W>(a: seq<Action<W>>, b: seq<Action<W>>)
    ensures Closes(a + b) <==> Closes(a) || Closes(b)
  {
    if Closes(a) {
      var i :| 0 <= i < |a| && a[i].Close?;
      assert (a + b)[i].Close?;
    }
    if Closes(b) {
      var i :| 0 <= i < |b| && b[i].Close?;
      assert (a + b)[|a| + i].Close?;
    }
  }

  /** What a handler acts on: its outbox, written in place, and the request to close. */
  class Context<W> {
    var outbox: seq<Action<W>>
    var closeRequested: bool

    constructor ()
      ensures outbox == [] && !closeRequested
    {
      outbox, closeRequested := [], false;
    }

    /** Writes and flushes only; closing is a flag of its own. */
    predicate Staged()
      reads this
    {
      forall i | 0 <= i < |outbox| :: !outbox[i].Close?
    }

    /** Lets the handler run until it suspends or returns. */
    method Poll(actions: seq<Action<W>>)
      requires Staged()
      modifies this
      ensures Staged() && outbox == old(outbox) + Commands(actions)
      ensures closeRequested <==> old(closeRequested) || Closes(actions)
    {
      for i := 0 to |actions|
        invariant Staged() && outbox == old(outbox) + Commands(actions[..i])
        invariant closeRequested <==> old(closeRequested) || Closes(actions[..i])
      {
        assert actions[..i + 1] == actions[..i] + [actions[i]];
        CommandsSnoc(actions[..i], actions[i]);
        if actions[i].Close? {
          closeRequested := true;
          assert actions[..i + 1][i].Close?;
        } else {
          Assoc(old(outbox), Commands(actions[..i]), [actions[i]]);
          outbox := outbox + [actions[i]];
          assert Closes(actions[..i + 1]) <==> Closes(actions[..i]);
        }
      }
      assert actions[..|actions|] == actions;
    }

    method TakeCommands() returns (commands: seq<Action<W>>)
      modifies this`outbox
      ensures commands == old(outbox) && outbox == []
    {
      commands := outbox;
      outbox := [];
    }
  }

  class StreamConnectionRuntime<S(!new), In(!new), W, O> {
    const pipeline: Pipeline<S, In, W, O>
    const handler: Handler<In, W>
    const maxFrameSize: nat
    /** How many bytes the stream takes before a write fails part-way; None when no write fails. */
    const room: Option<nat>
    const ctx: Context<W>

    var codec: S
    var stream: seq<byte>
    var readBuf: seq<byte>
    var writeBuf: seq<byte>
    var decoded: nat
    var stats: Option<Counters>
    /** Stream positions at which acknowledgements of success were sent. */
    ghost var acks: seq<nat>

    constructor (pipeline: Pipeline<S, In, W, O>, handler: Handler<In, W>, maxFrameSize: nat, room: Option<nat>,
          codec: S, track: bool)
      requires Steady(pipeline)
      ensures this.pipeline == pipeline && this.handler == handler && this.maxFrameSize == maxFrameSize
          && this.room == room
      ensures Models(Start(codec)) && (stats.Some? <==> track) && fresh(ctx)
    {
      this.pipeline := pipeline;
      this.handler := handler;
      this.maxFrameSize := maxFrameSize;
      this.room := room;
      this.codec := codec;
      stream, readBuf, writeBuf := [], [], [];
      decoded := 0;
      ctx := new Context();
      stats := if track then Some(Counters(0, 0, 0, 0)) else None;
      acks := [];
    }

    predicate Fits(wire: seq<byte>) { room.Some? ==> |wire| <= room.value }

    function Cut(wire: seq<byte>): seq<byte> { if Fits(wire) then wire else wire[..room.value] }

    /** The connection task is where the message-level account says. */
    ghost predicate Tracks(d: Delivery<S, W>)
      reads this
    {
      && d.error.None? && Fits(d.wire)
      && codec == d.state && stream == d.wire && writeBuf == d.pending && acks == d.acks
      && (stats.Some? ==>
          stats.value.bytesWritten == |d.wire| % U64_END && stats.value.framesWritten == d.frames % U64_END)
    }

    /** An operation has brought the connection where the account says, or the stream has failed on the way. */
    ghost predicate Follows(d: Delivery<S, W>, r: Result<()>)
      reads this
    {
      if !Fits(d.wire) then r == Err(Io) && stream == Cut(d.wire) && acks <= d.acks
      else if d.error.Some? then r == Err(d.error.value) && stream == d.wire && acks == d.acks
      else r == Ok(()) && Tracks(d)
    }

    /** Running, idle, and in step with the account of the whole connection. */
    ghost predicate Models(c: Connection<S, In, W>)
      reads this, ctx
    {
      && Steady(pipeline)
      && Tracks(c.out) && c.end == Running
      && readBuf == c.buf && decoded == |c.inputs| && ctx.outbox == [] && !ctx.closeRequested
      && Counted(c)
    }

    ghost predicate Counted(c: Connection<S, In, W>)
      reads this
    {
      stats.Some? ==> stats.value.bytesRead == c.received % U64_END && stats.value.framesRead == |c.inputs| % U64_END
    }

    /** How the connection stands after an event, given the account of it; the counters are exact unless sending
        failed. */
    ghost predicate Matches(c: Connection<S, In, W>, end: End)
      reads this, ctx
    {
      if !Fits(c.out.wire) then end == Failed(IoError, Io) && stream == Cut(c.out.wire) && acks <= c.out.acks
      else
        && end == c.end && stream == c.out.wire && acks == c.out.acks && readBuf == c.buf
        && (c.out.error.None? ==> Tracks(c.out) && Counted(c))
        && (end == Running ==> Models(c))
    }

    lemma LateFollows(d: Delivery<S, W>, e: Delivery<S, W>, r: Result<()>)
      requires Extends(d, e) && Follows(d, r) && r.Err?
      ensures Follows(e, r)
    {
      if !Fits(d.wire) {
        assert e.wire[..|d.wire|] == d.wire;
        assert e.wire[..room.value] == d.wire[..room.value];
      }
    }

    // ----- Buffers -----

    /** The stream takes all bytes, or as many as it has room for and then fails. */
    method WriteAll(bytes: seq<byte>) returns (ok: bool)
      requires Fits(stream)
      modifies `stream
      ensures ok <==> Fits(old(stream) + bytes)
      ensures stream == Cut(old(stream) + bytes)
    {
      ok := Fits(stream + bytes);
      stream := Cut(stream + bytes);
    }

    method FlushWriteBuf(ghost d: Delivery<S, W>) returns (r: Result<()>)
      requires Tracks(d)
      modifies `stream, `writeBuf, `stats
      ensures Follows(Flushed(d), r)
      ensures KeepsReadCounts(old(stats), stats)
    {
      if writeBuf != [] {
        var len := |writeBuf|;
        var ok := WriteAll(writeBuf);
        if !ok {
          return Err(Io);
        }
        if stats.Some? {
          CountsAddUp(|d.wire|, len);
          stats := Some(stats.value.(bytesWritten := Count(stats.value.bytesWritten, len)));
        }
        writeBuf := [];
      } else {
        assert d.wire + [] == d.wire;
      }
      return Ok(());
    }

    /** Stages and codec for a channel write; the caller counts the frame. */
    method ProcessOutbound(m: W, ghost d: Delivery<S, W>) returns (r: Result<()>)
      requires Tracks(d)
      modifies `codec, `writeBuf
      ensures var next := Staged(pipeline, d, m);
              match r
              case Ok(_) => next.error.None? && codec == next.state && writeBuf == next.pending
              case Err(e) => next.error == Some(e)
    {
      var (s1, flow) := pipeline.stage(codec, m);
      codec := s1;
      match flow {
        case Stop => return Ok(());
        case Refuse(e) => return Err(e);
        case Next(o) =>
          var (s2, e) := pipeline.encode(codec, o);
          codec := s2;
          writeBuf := writeBuf + e.bytes;
          return if e.error.Some? then Err(e.error.value) else Ok(());
      }
    }

    /** Stages, codec and frame count for a staged message. */
    method EncodeOutbound(m: W, ghost d: Delivery<S, W>) returns (r: Result<()>)
      requires Tracks(d)
      modifies `codec, `writeBuf, `stats
      ensures Follows(Staged(pipeline, d, m), r)
      ensures KeepsReadCounts(old(stats), stats)
    {
      var (s1, flow) := pipeline.stage(codec, m);
      codec := s1;
      match flow {
        case Stop => return Ok(());
        case Refuse(e) => return Err(e);
        case Next(o) =>
          var (s2, e) := pipeline.encode(codec, o);
          codec := s2;
          writeBuf := writeBuf + e.bytes;
          if e.error.Some? {
            return Err(e.error.value);
          }
          if stats.Some? {
            CountsAddUp(d.frames, 1);
            stats := Some(stats.value.(framesWritten := Count(stats.value.framesWritten, 1)));
          }
          return Ok(());
      }
    }

    static predicate KeepsReadCounts(before: Option<Counters>, after: Option<Counters>) {
      match before
      case None => after == None
      case Some(c) => after.Some? && after.value.bytesRead == c.bytesRead && after.value.framesRead == c.framesRead
    }

    // ----- The outbox -----

    /** One command from the outbox. */
    method PerformCommand(command: Action<W>, ghost d: Delivery<S, W>) returns (r: Result<()>)
      requires Tracks(d) && !command.Close?
      modifies `codec, `stream, `writeBuf, `stats, `acks
      ensures Follows(Perform(pipeline, d, command), r)
      ensures KeepsReadCounts(old(stats), stats)
    {
      match command {
        case Write(m) =>
          r := EncodeOutbound(m, d);
        case Flush =>
          r := FlushWriteBuf(d);
          if r.Ok? {
            acks := acks + [|stream|];
          } else {
            LateFollows(Flushed(d), Acknowledged(Flushed(d)), r);
          }
      }
    }

    method DrainOutbox(flushAtEnd: bool, ghost d: Delivery<S, W>) returns (r: Result<()>)
      requires Tracks(d)
      requires ctx.Staged()
      modifies `codec, `stream, `writeBuf, `stats, `acks, ctx`outbox
      ensures ctx.outbox == []
      ensures var e := Deliver(pipeline, d, old(ctx.outbox)); Follows(if flushAtEnd then Flushed(e) else e, r)
      ensures KeepsReadCounts(old(stats), stats)
    {
      hide Perform;
      var commands := ctx.TakeCommands();
      ghost var cur := d;
      ghost var all := Deliver(pipeline, d, commands);
      ghost var target := if flushAtEnd then Flushed(all) else all;
      for i := 0 to |commands|
        invariant Tracks(cur) && ctx.outbox == []
        invariant Deliver(pipeline, cur, commands[i..]) == all
        invariant KeepsReadCounts(old(stats), stats)
      {
        assert commands[i..][1..] == commands[i + 1..];
        DeliverExtends(pipeline, Perform(pipeline, cur, commands[i]), commands[i + 1..]);
        r := PerformCommand(commands[i], cur);
        cur := Perform(pipeline, cur, commands[i]);
        if r.Err? {
          LateFollows(cur, target, r);
          return;
        }
      }
      if flushAtEnd {
        r := FlushWriteBuf(cur);
      } else {
        r := Ok(());
      }
    }

    // ----- Handlers -----

    /** What the connection task has taken from the handler so far, delivered or still in the outbox. */
    ghost predicate Holds(d: Delivery<S, W>, cur: Delivery<S, W>, taken: seq<Action<W>>)
      reads this, ctx
    {
      && Tracks(cur) && Deliver(pipeline, d, taken) == Deliver(pipeline, cur, ctx.outbox)
      && ctx.Staged()
    }

    lemma TakenIsHeld(d: Delivery<S, W>, cur: Delivery<S, W>, taken: seq<Action<W>>, before: seq<Action<W>>,
          actions: seq<Action<W>>)
      requires Deliver(pipeline, d, taken) == Deliver(pipeline, cur, before)
      ensures Deliver(pipeline, d, taken + actions) == Deliver(pipeline, cur, before + Commands(actions))
    {
      hide Deliver;
      DeliverAppend(pipeline, d, taken, actions);
      DeliverAppend(pipeline, cur, before, Commands(actions));
      CommandsDeliverAlike(pipeline, Deliver(pipeline, cur, before), actions);
    }

    /** One turn of the loop around a suspended handler.  The connection task never goes to sleep on a flush: when
        it suspends again, none is left in the outbox. */
    method Turn(actions: seq<Action<W>>, ghost d: Delivery<S, W>, ghost cur: Delivery<S, W>,
          ghost taken: seq<Action<W>>)
      returns (r: Result<()>, ghost next: Delivery<S, W>)
      requires Holds(d, cur, taken)
      modifies `codec, `stream, `writeBuf, `stats, `acks, ctx
      ensures r.Ok? ==> Holds(d, next, taken + actions) && Flush !in ctx.outbox
      ensures r.Err? ==> Follows(Deliver(pipeline, d, taken + actions), r)
      ensures ctx.closeRequested <==> old(ctx.closeRequested) || Closes(actions)
      ensures KeepsReadCounts(old(stats), stats)
    {
      hide Deliver;
      next := cur;
      TakenIsHeld(d, cur, taken, ctx.outbox, actions);
      ctx.Poll(actions);
      if HasFlush(ctx.outbox) {
        next := Deliver(pipeline, cur, ctx.outbox);
        r := DrainOutbox(false, cur);
        assert Deliver(pipeline, next, []) == next by {
          DeliverNothing(next);
        }
      } else {
        r := Ok(());
      }
    }

    lemma DeliverNothing(d: Delivery<S, W>)
      ensures Deliver(pipeline, d, []) == d
    {
    }

    /** A failure before the handler is done is the failure of the whole run. */
    lemma EarlyFailure(d: Delivery<S, W>, taken: seq<Action<W>>, rest: seq<Action<W>>, r: Result<()>)
      requires Follows(Deliver(pipeline, d, taken), r) && r.Err?
      ensures Follows(Flushed(Deliver(pipeline, d, taken + rest)), r)
    {
      hide Deliver;
      DeliverAppend(pipeline, d, taken, rest);
      var now := Deliver(pipeline, d, taken);
      DeliverExtends(pipeline, now, rest);
      LateFollows(now, Flushed(Deliver(pipeline, now, rest)), r);
    }

    /** Runs the handler to its end, draining the outbox whenever it waits for a flush, and then once more: what it
        staged is delivered even when it returns an error. */
    method RunHandler(script: Script<W>, ghost d: Delivery<S, W>) returns (r: Result<()>)
      requires Tracks(d) && ctx.outbox == []
      modifies `codec, `stream, `writeBuf, `stats, `acks, ctx
      ensures var out := Flushed(Deliver(pipeline, d, Actions(script)));
              if Fits(out.wire) && out.error.None? then Tracks(out) && r == script.result else r.Err? && Follows(out, r)
      ensures r.Ok? ==> ctx.outbox == [] && (ctx.closeRequested <==> old(ctx.closeRequested) || Closes(Actions(script)))
      ensures KeepsReadCounts(old(stats), stats)
    {
      hide Deliver;
      ghost var cur := d;
      ghost var taken: seq<Action<W>> := [];
      DeliverNothing(d);
      for i := 0 to |script.polls|
        invariant taken == Concat(script.polls[..i]) && Holds(d, cur, taken) && Flush !in ctx.outbox
        invariant ctx.closeRequested <==> old(ctx.closeRequested) || Closes(taken)
        invariant KeepsReadCounts(old(stats), stats)
      {
        ConcatCut(script.polls, i);
        ClosesSplit(taken, script.polls[i]);
        r, cur := Turn(script.polls[i], d, cur, taken);
        taken := taken + script.polls[i];
        if r.Err? {
          Assoc(taken, Concat(script.polls[i + 1..]), script.last);
          EarlyFailure(d, taken, Concat(script.polls[i + 1..]) + script.last, r);
          return;
        }
      }
      assert script.polls[..|script.polls|] == script.polls;
      TakenIsHeld(d, cur, taken, ctx.outbox, script.last);
      ClosesSplit(taken, script.last);
      ctx.Poll(script.last);
      r := DrainOutbox(true, cur);
      if r.Ok? {
        r := script.result;
      }
    }

    /** What the account says of a handled message, and the connection task's answer. */
    ghost predicate Answers(handled: (Delivery<S, W>, End), r: Result<()>)
      reads this, ctx
    {
      var (out, end) := handled;
      if !Fits(out.wire) then r == Err(Io) && stream == Cut(out.wire) && acks <= out.acks
      else
        && stream == out.wire && acks == out.acks && (out.error.None? ==> Tracks(out))
        && match end
           case Failed(reason, e) => r == Err(e) && reason == HandlerReason(e)
           case Ended(reason) => r.Ok? && reason == HandlerClosed && ctx.closeRequested
           case Running => r.Ok? && Tracks(out) && !ctx.closeRequested && ctx.outbox == []
    }

    method ProcessInbound(h: Handling<W>, ghost d: Delivery<S, W>) returns (r: Result<()>)
      requires Tracks(d) && ctx.outbox == [] && !ctx.closeRequested
      modifies `codec, `stream, `writeBuf, `stats, `acks, ctx
      ensures Answers(Handle(pipeline, d, h), r)
      ensures KeepsReadCounts(old(stats), stats)
    {
      hide Deliver;
      match h {
        case Dismissed => return Ok(());
        case Rejected(e) => return Err(e);
        case Handled(script) =>
          r := RunHandler(script, d);
      }
    }

    // ----- Events -----

    /** A stream that failed before the end of the account failed at the same byte of the whole. */
    lemma LateMatches(c: Connection<S, In, W>, whole: Connection<S, In, W>)
      requires !Fits(c.out.wire) && stream == Cut(c.out.wire) && acks <= c.out.acks && Grows(c.out, whole.out)
      ensures Matches(whole, Failed(IoError, Io))
    {
      assert whole.out.wire[..|c.out.wire|] == c.out.wire;
      assert whole.out.wire[..room.value] == c.out.wire[..room.value];
    }

    /** The account of one message, whose bytes are already off the buffer. */
    ghost function AfterMessage(c: Connection<S, In, W>, x: In): Connection<S, In, W> {
      var (out, end) := Handle(pipeline, c.out, handler(|c.inputs|, x));
      c.(out := out, inputs := c.inputs + [x], end := end)
    }

    method HandleMessage(x: In, ghost c: Connection<S, In, W>) returns (end: End)
      requires Models(c)
      modifies `codec, `stream, `writeBuf, `stats, `acks, ctx, `decoded
      ensures Matches(AfterMessage(c, x), end)
    {
      hide Handle;
      var index := decoded;
      decoded := decoded + 1;
      if stats.Some? {
        CountsAddUp(index, 1);
        stats := Some(stats.value.(framesRead := Count(stats.value.framesRead, 1)));
      }
      var r := ProcessInbound(handler(index, x), c.out);
      if r.Err? {
        return Failed(HandlerReason(r.error), r.error);
      }
      return if ctx.closeRequested then Ended(HandlerClosed) else Running;
    }

    /** Decodes until the codec asks for more; every message shortens the buffer, so the loop ends. */
    method DecodeLoop(ghost c: Connection<S, In, W>) returns (end: End)
      requires Models(c)
      modifies this, ctx
      ensures Matches(Serve(pipeline, handler, c), end)
    {
      hide Handle;
      ghost var cur := c;
      while true
        invariant Models(cur) && Serve(pipeline, handler, cur) == Serve(pipeline, handler, c)
        decreases |readBuf|
      {
        var (s, step) := pipeline.decode(codec, readBuf);
        assert SteadyAt(pipeline, codec, readBuf);
        codec := s;
        match step {
          case Need => return Running;
          case Fail(e, n) =>
            readBuf := readBuf[n..];
            return Failed(DecodeReason(e), e);
          case Item(x, n) =>
            readBuf := readBuf[n..];
            ghost var ready := cur.(out := cur.out.(state := s), buf := readBuf);
            end := HandleMessage(x, ready);
            cur := AfterMessage(ready, x);
            if end != Running {
              ServingGrows(pipeline, handler, cur);
              if !Fits(cur.out.wire) {
                LateMatches(cur, Serve(pipeline, handler, c));
              }
              return;
            }
        }
      }
    }

    method HandleRead(read: Option<seq<byte>>, ghost c: Connection<S, In, W>) returns (end: End)
      requires Models(c)
      modifies this, ctx
      ensures Matches(OnEvent(pipeline, handler, maxFrameSize, c,
          if read.None? then ReadFailed else Received(read.value)), end)
    {
      hide Serve;
      if read.None? {
        return Failed(IoError, Io);
      }
      if read.value == [] {
        return Ended(PeerClosed);
      }
      readBuf := readBuf + read.value;
      if stats.Some? {
        CountsAddUp(c.received, |read.value|);
        stats := Some(stats.value.(bytesRead := Count(stats.value.bytesRead, |read.value|)));
      }
      if |readBuf| > maxFrameSize {
        return Failed(OversizeFrame, FrameTooLarge);
      }
      end := DecodeLoop(c.(buf := readBuf, received := c.received + |read.value|));
    }

    method HandleCommand(command: Option<Command<W>>, ghost c: Connection<S, In, W>) returns (end: End)
      requires Models(c)
      modifies this, ctx
      ensures Matches(OnCommand(pipeline, c, command), end)
    {
      match command {
        case None => return Ended(NoMoreCommands);
        case Some(CloseCommand) => return Ended(LocalClosed);
        case Some(WriteCommand(m)) =>
          end := HandleWrite(m, c);
        case Some(WriteAndFlush(m)) =>
          end := HandleWrite(m, c);
          if end == Running {
            acks := acks + [|stream|];
          }
      }
    }

    method HandleWrite(m: W, ghost c: Connection<S, In, W>) returns (end: End)
      requires Models(c)
      modifies this, ctx
      ensures Matches(OnWrite(pipeline, c, m), end)
    {
      var r := ProcessOutbound(m, c.out);
      if r.Err? {
        return Failed(OutboundReason(r.error), r.error);
      }
      if stats.Some? {
        CountsAddUp(c.out.frames, 1);
        stats := Some(stats.value.(framesWritten := Count(stats.value.framesWritten, 1)));
      }
      r := FlushWriteBuf(Staged(pipeline, c.out, m).(frames := c.out.frames + 1));
      if r.Err? {
        return Failed(IoError, r.error);
      }
      return Running;
    }

    /**
     The select loop.  Whatever arrives and however the handler behaves, the stream carries exactly what the
     message-level account puts on it, cut at the byte where it failed if it did; and at every select the
     outbox and the write buffer are empty.
     */
    method RunConnection(events: seq<Event<W>>, ghost c: Connection<S, In, W>) returns (end: End)
      requires Models(c) && Sound(pipeline, c)
      modifies this, ctx
      ensures Matches(Run(pipeline, handler, maxFrameSize, c, events), end)
    {
      hide OnEvent, Sound;
      ghost var whole := Run(pipeline, handler, maxFrameSize, c, events);
      ghost var cur := c;
      SelectPoint(cur);
      for i := 0 to |events|
        invariant Models(cur) && Sound(pipeline, cur)
        invariant Run(pipeline, handler, maxFrameSize, cur, events[i..]) == whole
        invariant ctx.outbox == [] && writeBuf == []
      {
        assert events[i..][1..] == events[i + 1..];
        ghost var next := OnEvent(pipeline, handler, maxFrameSize, cur, events[i]);
        EventIsSound(pipeline, handler, maxFrameSize, cur, events[i]);
        RunGrows(pipeline, handler, maxFrameSize, next, events[i + 1..]);
        end := HandleEvent(events[i], cur);
        cur := next;
        if end != Running {
          if !Fits(cur.out.wire) {
            LateMatches(cur, whole);
          }
          return;
        }
        SelectPoint(cur);
      }
      end := Running;
    }

    lemma SelectPoint(c: Connection<S, In, W>)
      requires Models(c) && Sound(pipeline, c)
      ensures ctx.outbox == [] && writeBuf == []
    {
    }

    /** The branch of the select that became ready. */
    method HandleEvent(event: Event<W>, ghost c: Connection<S, In, W>) returns (end: End)
      requires Models(c)
      modifies this, ctx
      ensures Matches(OnEvent(pipeline, handler, maxFrameSize, c, event), end)
    {
      match event {
        case Received(chunk) => end := HandleRead(Some(chunk), c);
        case ReadFailed => end := HandleRead(None, c);
        case Commanded(command) => end := HandleCommand(command, c);
        case ShutdownRequested => return Ended(ServerShutdown);
        case IdleExpired => return Ended(IdleTimeout);
      }
    }
  }
}
