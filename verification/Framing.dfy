/**
 Incremental decoding of a byte stream.

 A stream decoder looks at the bytes buffered so far and either asks for more, takes an item off
 the front, or fails.  The read loop of a connection appends whatever the socket delivered and then
 decodes until the decoder asks for more.
 */
module Framing {
  import opened Core

  /** One call of a decoder; `used` is the number of bytes it removes from the front of the buffer. */
  datatype Step<+T> = Need | Item(item: T, used: nat) | Fail(error: ErrorKind, used: nat)

  /** A decoder method did what one step says: its result, and what it left in the buffer. */
  ghost predicate Performs<T>(step: Step<T>, before: seq<byte>, r: Result<Option<T>>, after: seq<byte>) {
    match step
    case Need => r == Ok(None) && after == before
    case Item(x, n) => r == Ok(Some(x)) && n <= |before| && after == before[n..]
    case Fail(e, n) => r == Err(e) && n <= |before| && after == before[n..]
  }

  /** An encoder method did what its specification says; a failed one leaves nothing but a partial tail. */
  ghost predicate Appends(spec: Result<seq<byte>>, before: seq<byte>, r: Result<()>, after: seq<byte>) {
    match spec
    case Ok(b) => r == Ok(()) && after == before + b
    case Err(e) => r == Err(e) && before <= after
  }

  type Decoder<!T> = seq<byte> -> Step<T>

  ghost predicate ProgressAt<T(!new)>(d: Decoder<T>, s: seq<byte>) {
    && (d(s).Item? ==> 0 < d(s).used <= |s|)
    && (d(s).Fail? ==> d(s).used <= |s|)
  }

  /** Every item shrinks the buffer, and no call removes more than the buffer holds. */
  ghost predicate Progress<T(!new)>(d: Decoder<T>) {
    forall s: seq<byte> :: ProgressAt(d, s)
  }

  ghost predicate StableAt<T(!new)>(d: Decoder<T>, s: seq<byte>, t: seq<byte>) {
    d(s) != Need ==> d(s + t) == d(s)
  }

  /** A verdict, once given, is not changed by bytes that arrive later. */
  ghost predicate Stable<T(!new)>(d: Decoder<T>) {
    forall s: seq<byte>, t: seq<byte> :: StableAt(d, s, t)
  }

  /** The result of decoding until the decoder asks for more or fails. */
  datatype Outcome<+T> = Outcome(items: seq<T>, left: seq<byte>, error: Option<ErrorKind>)

  function Before<T>(first: T, o: Outcome<T>): Outcome<T> {
    o.(items := [first] + o.items)
  }

  function DecodeAll<T(!new)>(d: Decoder<T>, s: seq<byte>): (o: Outcome<T>)
    requires Progress(d)
    ensures |o.left| <= |s|
    decreases |s|
  {
    assert ProgressAt(d, s);
    match d(s)
    case Need => Outcome([], s, None)
    case Item(x, n) => Before(x, DecodeAll(d, s[n..]))
    case Fail(e, n) => Outcome([], s[n..], Some(e))
  }

  /** What the read loop did with a list of socket reads; `unread` are the reads that never happened. */
  datatype Fed<+T> = Fed(items: seq<T>, left: seq<byte>, error: Option<ErrorKind>, oversize: bool,
      unread: seq<seq<byte>>)

  /** The append-then-decode loop, with the buffer-size check that precedes decoding. */
  function Feed<T(!new)>(d: Decoder<T>, maxFrameSize: nat, buf: seq<byte>, chunks: seq<seq<byte>>): (f: Fed<T>)
    requires Progress(d)
    decreases |chunks|
  {
    if chunks == [] then Fed([], buf, None, false, [])
    else
      var full := buf + chunks[0];
      if |full| > maxFrameSize then Fed([], full, Some(FrameTooLarge), true, chunks[1..])
      else
        var o := DecodeAll(d, full);
        if o.error.Some? then Fed(o.items, o.left, o.error, false, chunks[1..])
        else
          var f := Feed(d, maxFrameSize, o.left, chunks[1..]);
          f.(items := o.items + f.items)
  }

  /** Bytes that arrive later extend what was already decoded, and leave an error where it was. */
  lemma {:induction false} DecodeAllExtends<T(!new)>(d: Decoder<T>, s: seq<byte>, t: seq<byte>)
    requires Progress(d) && Stable(d)
    ensures var o := DecodeAll(d, s);
            DecodeAll(d, s + t) ==
            if o.error.Some? then o.(left := o.left + t)
            else var r := DecodeAll(d, o.left + t); r.(items := o.items + r.items)
    decreases |s|
  {
    assert ProgressAt(d, s) && StableAt(d, s, t);
    match d(s)
    case Need =>
    case Item(x, n) =>
      assert (s + t)[n..] == s[n..] + t;
      DecodeAllExtends(d, s[n..], t);
      var o := DecodeAll(d, s[n..]);
      if o.error.None? {
        var r := DecodeAll(d, o.left + t);
        assert [x] + (o.items + r.items) == ([x] + o.items) + r.items;
      }
    case Fail(e, n) =>
      assert (s + t)[n..] == s[n..] + t;
  }

  /** Decoding stops exactly where the decoder asks for more. */
  lemma {:induction false} DecodeAllDrained<T(!new)>(d: Decoder<T>, s: seq<byte>)
    requires Progress(d) && DecodeAll(d, s).error.None?
    ensures d(DecodeAll(d, s).left) == Need
    decreases |s|
  {
    assert ProgressAt(d, s);
    match d(s)
    case Need =>
    case Item(_, n) => DecodeAllDrained(d, s[n..]);
  }

  /**
   How TCP splits a stream into reads does not matter: unless the buffer-size check trips, the loop
   yields the items, the error and the leftover of decoding the whole stream at once.
   */
  lemma {:induction false} ChunkingInvariance<T(!new)>(d: Decoder<T>, maxFrameSize: nat, buf: seq<byte>,
        chunks: seq<seq<byte>>)
    requires Progress(d) && Stable(d)
    requires d(buf) == Need
    ensures var f := Feed(d, maxFrameSize, buf, chunks);
            !f.oversize ==>
              var whole := DecodeAll(d, buf + Concat(chunks));
              f.items == whole.items && f.error == whole.error && f.left + Concat(f.unread) == whole.left
    decreases |chunks|
  {
    if chunks == [] {
      assert buf + Concat(chunks) == buf;
    } else {
      var full := buf + chunks[0];
      var tail := Concat(chunks[1..]);
      assert buf + Concat(chunks) == full + tail;
      if |full| <= maxFrameSize {
        DecodeAllExtends(d, full, tail);
        var o := DecodeAll(d, full);
        if o.error.None? {
          DecodeAllDrained(d, full);
          ChunkingInvariance(d, maxFrameSize, o.left, chunks[1..]);
        }
      }
    }
  }

  /** Read `i`, together with the incomplete frame in front of it, exceeds the limit. */
  ghost predicate Exceeds<T(!new)>(d: Decoder<T>, max: nat, buf: seq<byte>, chunks: seq<seq<byte>>, i: nat)
    requires Progress(d) && i < |chunks|
  {
    var o := DecodeAll(d, buf + Concat(chunks[..i]));
    o.error.None? && |o.left| + |chunks[i]| > max
  }

  lemma ExceedsLater<T(!new)>(d: Decoder<T>, max: nat, buf: seq<byte>, chunks: seq<seq<byte>>, i: nat)
    requires Progress(d) && Stable(d) && 0 < i < |chunks|
    ensures var o := DecodeAll(d, buf + chunks[0]);
            Exceeds(d, max, buf, chunks, i) <==> o.error.None? && Exceeds(d, max, o.left, chunks[1..], i - 1)
  {
    var t := Concat(chunks[1..][..i - 1]);
    assert chunks[..i][1..] == chunks[1..][..i - 1];
    assert Concat(chunks[..i]) == chunks[0] + t;
    Assoc(buf, chunks[0], t);
    DecodeAllExtends(d, buf + chunks[0], t);
  }

  /** The buffer limit trips exactly when some read, together with the incomplete frame in front of it, exceeds it:
      complete frames count only until they are decoded. */
  lemma {:induction false} LimitTripsIff<T(!new)>(d: Decoder<T>, max: nat, buf: seq<byte>, chunks: seq<seq<byte>>)
    requires Progress(d) && Stable(d) && d(buf) == Need
    ensures Feed(d, max, buf, chunks).oversize <==> exists i: nat :: i < |chunks| && Exceeds(d, max, buf, chunks, i)
    decreases |chunks|
  {
    if chunks != [] {
      var o := DecodeAll(d, buf + chunks[0]);
      assert Concat(chunks[..0]) == [] && buf + [] == buf;
      assert Exceeds(d, max, buf, chunks, 0) <==> |buf + chunks[0]| > max;
      if o.error.None? {
        DecodeAllDrained(d, buf + chunks[0]);
        LimitTripsIff(d, max, o.left, chunks[1..]);
      }
      forall i: nat | 0 < i < |chunks|
        ensures Exceeds(d, max, buf, chunks, i) <==> o.error.None? && Exceeds(d, max, o.left, chunks[1..], i - 1)
      {
        ExceedsLater(d, max, buf, chunks, i);
      }
      if o.error.None? {
        if j: nat :| j < |chunks[1..]| && Exceeds(d, max, o.left, chunks[1..], j) {
          assert Exceeds(d, max, buf, chunks, j + 1);
        }
      }
    }
  }

  ghost predicate AgreeOn<T(!new)>(d: Decoder<T>, max1: nat, max2: nat, chunks1: seq<seq<byte>>,
        chunks2: seq<seq<byte>>)
    requires Progress(d)
  {
    var f1, f2 := Feed(d, max1, [], chunks1), Feed(d, max2, [], chunks2);
    !f1.oversize && !f2.oversize ==>
      f1.items == f2.items && f1.error == f2.error && f1.left + Concat(f1.unread) == f2.left + Concat(f2.unread)
  }

  /** Reads carry bytes; an empty one is the end of the stream. */
  predicate NonEmptyReads(chunks: seq<seq<byte>>) { forall i | 0 <= i < |chunks| :: chunks[i] != [] }

  /** Every way of cutting a stream into reads gives the same items, the same error if any, and the same leftover. */
  ghost predicate IgnoresReadBoundaries<T(!new)>(d: Decoder<T>) {
    && Progress(d)
    && forall max1: nat, max2: nat, chunks1: seq<seq<byte>>, chunks2: seq<seq<byte>>
         | NonEmptyReads(chunks1) && NonEmptyReads(chunks2) && Concat(chunks1) == Concat(chunks2) ::
         AgreeOn(d, max1, max2, chunks1, chunks2)
  }

  /** Two ways of splitting the same stream cannot be told apart. */
  lemma SplitsAgree<T(!new)>(d: Decoder<T>, max1: nat, max2: nat, chunks1: seq<seq<byte>>, chunks2: seq<seq<byte>>)
    requires Progress(d) && Stable(d) && d([]) == Need
    requires Concat(chunks1) == Concat(chunks2)
    ensures AgreeOn(d, max1, max2, chunks1, chunks2)
  {
    ChunkingInvariance(d, max1, [], chunks1);
    ChunkingInvariance(d, max2, [], chunks2);
    assert [] + Concat(chunks1) == [] + Concat(chunks2);
  }

  /** A decoder that fails on nothing at all fails on everything, at the first read. */
  lemma HopelessDecoder<T(!new)>(d: Decoder<T>, max: nat, chunks: seq<seq<byte>>)
    requires Progress(d) && Stable(d) && d([]).Fail? && chunks != []
    ensures var f := Feed(d, max, [], chunks);
            !f.oversize ==> f.items == [] && f.error == Some(d([]).error) && f.left + Concat(f.unread) == Concat(chunks)
  {
    var x := chunks[0];
    assert ProgressAt(d, []) && StableAt(d, [], x);
    assert [] + x == x && x[0..] == x;
  }

  /** Stable decoders ignore read boundaries. */
  lemma StableDecodersIgnoreReadBoundaries<T(!new)>(d: Decoder<T>)
    requires Progress(d) && Stable(d)
    ensures IgnoresReadBoundaries(d)
  {
    forall max1: nat, max2: nat, chunks1: seq<seq<byte>>, chunks2: seq<seq<byte>>
      | NonEmptyReads(chunks1) && NonEmptyReads(chunks2) && Concat(chunks1) == Concat(chunks2)
      ensures AgreeOn(d, max1, max2, chunks1, chunks2)
    {
      if d([]) == Need {
        SplitsAgree(d, max1, max2, chunks1, chunks2);
      } else if chunks1 == [] {
        assert chunks2 == [] || |Concat(chunks2)| > 0;
      } else {
        assert |Concat(chunks1)| > 0 && ProgressAt(d, []);
        HopelessDecoder(d, max1, chunks1);
        HopelessDecoder(d, max2, chunks2);
      }
    }
  }

  /** The frame decodes to the item and to nothing else, whatever bytes stand behind it. */
  ghost predicate Recovers<T(!new)>(d: Decoder<T>, frame: seq<byte>, item: T) {
    forall t: seq<byte> :: d(frame + t) == Item(item, |frame|)
  }

  /** Concatenated frames decode one by one when each frame decodes in front of anything. */
  lemma {:induction false} FramesDecodeInOrder<T(!new)>(d: Decoder<T>, frames: seq<seq<byte>>, items: seq<T>,
        t: seq<byte>)
    requires Progress(d) && |frames| == |items|
    requires forall i | 0 <= i < |items| :: Recovers(d, frames[i], items[i])
    ensures var r := DecodeAll(d, t);
            DecodeAll(d, Concat(frames) + t) == r.(items := items + r.items)
    decreases |frames|
  {
    if frames == [] {
      assert Concat(frames) + t == t;
    } else {
      var rest := Concat(frames[1..]) + t;
      Assoc(frames[0], Concat(frames[1..]), t);
      assert Recovers(d, frames[0], items[0]) && d(frames[0] + rest) == Item(items[0], |frames[0]|);
      CutJoined(frames[0], rest);
      FramesDecodeInOrder(d, frames[1..], items[1..], t);
      assert items == [items[0]] + items[1..];
      Assoc([items[0]], items[1..], DecodeAll(d, t).items);
    }
  }
}
