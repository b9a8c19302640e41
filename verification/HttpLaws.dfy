/** What a request must be to be accepted, what becomes of the others, and what a response reads back as. */
module HttpLaws {
  import opened Core
  import opened Framing
  import opened Http
  import opened HttpCodec
  import opened HttpPrinting
  import opened HttpText
  import opened HttpTextLaws
  import opened Search
  import opened Utf8

  // ----- Field names -----

  /** Looking a field up finds the first of that name. */
  lemma {:induction false} HeaderIsFirst(fields: seq<Field>, name: seq<byte>)
    ensures Header(fields, name) == if Values(fields, name) == [] then None else Some(Values(fields, name)[0])
  {
    hide SameIgnoringCase;
    if fields != [] {
      HeaderIsFirst(fields[1..], name);
    }
  }

  /** The same fields with the same values, their names in any case. */
  predicate Respelled(a: seq<Field>, b: seq<Field>) {
    |a| == |b| && forall i | 0 <= i < |a| :: SameIgnoringCase(a[i].0, b[i].0) && a[i].1 == b[i].1
  }

  lemma {:induction false} RespelledFields(a: seq<Field>, b: seq<Field>, name: seq<byte>)
    requires Respelled(a, b)
    ensures Values(a, name) == Values(b, name) && Header(a, name) == Header(b, name)
  {
    if a != [] {
      SameNames(a[0].0, b[0].0, name);
      hide SameIgnoringCase;
      assert forall i | 0 <= i < |a[1..]| :: a[1..][i] == a[i + 1] && b[1..][i] == b[i + 1];
      RespelledFields(a[1..], b[1..], name);
    }
  }

  /** No field name's case decides how a request is framed. */
  lemma FramingIgnoresCase(a: seq<Field>, b: seq<Field>, allowChunked: bool)
    requires Respelled(a, b)
    ensures RequestBodyKind(a, allowChunked) == RequestBodyKind(b, allowChunked)
  {
    hide Values, Header, Respelled, ParseUsize, Trim, Split, TokenIs, Ascii;
    RespelledFields(a, b, Ascii("Content-Length"));
    RespelledFields(a, b, Ascii("Transfer-Encoding"));
  }

  /** Nor does the case of a transfer coding. */
  lemma CodingIgnoresCase(a: seq<byte>, b: seq<byte>, name: string)
    requires SameIgnoringCase(Trim(a), Trim(b))
    ensures TokenIs(a, name) <==> TokenIs(b, name)
  {
    SameNames(Trim(a), Trim(b), Ascii(name));
  }

  // ----- The body limit -----

  lemma ChunkEndWithin(src: seq<byte>, pos: nat, size: nat, received: nat, max: usize)
    requires received <= max && received <= pos && ChunkEnd(src, pos, size, received, max).Ok?
    requires ChunkEnd(src, pos, size, received, max).value.Some?
    ensures received + size <= max && received + size <= pos + size + 2
  {
  }

  lemma {:induction false} ChunksWithin(src: seq<byte>, pos: nat, content: seq<byte>, max: usize, preserve: bool,
        b: Body)
    requires |content| <= max && |content| <= pos && Chunks(src, pos, content, max, preserve) == Ok(Some(b))
    ensures |b.content| <= max && (!preserve ==> b.trailers == [])
    decreases |src| - pos
  {
    hide SizeLine, ChunkEnd, Find, MatchAt, ParseFields, Valid, Lines;
    var (size, start) := SizeLine(src, pos).value.value;
    if size > 0 {
      ChunkEndWithin(src, start, size, |content|, max);
      ChunksWithin(src, start + size + 2, content + src[start..start + size], max, preserve, b);
    }
  }

  /** A method, a target, and "HTTP/1." */
  predicate HeadIs(h: Head) {
    h.httpMethod != [] && h.target != [] && [0x48, 0x54, 0x54, 0x50, 0x2f, 0x31, 0x2e] <= h.version
  }

  /** What a complete body of this kind is. */
  predicate BodyIs(o: Options, kind: BodyKind, s: seq<byte>, start: nat, body: Body) {
    && start <= body.end <= |s|
    && |body.content| <= o.maxBodyLen && (body.trailers != [] ==> o.preserveTrailers)
    && match kind
       case NoBody => body == Body(start, [], [])
       case Length(len) => body == Body(start + len, s[start..body.end], [])
       case Chunked => true
  }

  lemma CompleteBody(o: Options, kind: BodyKind, s: seq<byte>, start: nat, body: Body)
    requires start <= |s| && ReadBody(o, kind, s, start) == Ok(Some(body))
    ensures BodyIs(o, kind, s, start, body)
  {
    hide Chunks;
    if kind == Chunked {
      ChunksWithin(s, start, [], o.maxBodyLen, o.preserveTrailers, body);
    }
  }

  /** An accepted request keeps every limit and announcement: its head ends within the head limit and is a request line
      of HTTP/1 with a method and a target; its body is within the body limit and as long as announced; chunks are
      taken only where they are allowed, and trailers kept only where they are asked for. */
  lemma AcceptedRequest(o: Options, s: seq<byte>, r: Request, n: nat)
    requires DecodeRequest(o, s) == Item(r, n)
    ensures Find(s, BLANK, 0).Some?
    ensures var end := Find(s, BLANK, 0).value;
            && end + 4 <= n <= |s| && end <= o.maxHeaderLen
            && Valid(s[..end]) && ParseHead(s[..end]) == Ok(r.head)
            && HeadIs(r.head)
            && RequestBodyKind(r.head.headers, o.allowChunked).Ok?
            && var kind := RequestBodyKind(r.head.headers, o.allowChunked).value;
               (kind == Chunked ==> o.allowChunked) && BodyIs(o, kind, s, end + 4, Body(n, r.body, r.trailers))
  {
    hide Find, MatchAt, ParseHead, RequestBodyKind, Valid, ReadBody, BodyIs, Preface, BuildRequest, HeadIs;
    HeadParts(o, s);
    var end := Find(s, BLANK, 0).value;
    AcceptedHead(s[..end]);
    TextIsValid(o, s[..end]);
    var kind := Preface(o, s[..end + 4]).value;
    var body := ReadBody(o, kind, s, end + 4).value.value;
    RequestBuilds(o, s[..end], body);
    CompleteBody(o, kind, s, end + 4, body);
    ChunkedIsAllowed(ParseHead(s[..end]).value.headers, o.allowChunked);
    assert body == Body(n, r.body, r.trailers);
  }

  lemma TextIsValid(o: Options, text: seq<byte>)
    requires Preface(o, text + BLANK).Ok?
    ensures Valid(text)
  {
    BlankLineIsIgnored(text);
  }

  lemma ChunkedIsAllowed(headers: seq<Field>, allowChunked: bool)
    ensures RequestBodyKind(headers, allowChunked) == Ok(Chunked) ==> allowChunked
  {
    hide ContentLength, Header, Split, TokenIs, Ascii;
  }

  lemma HeadParts(o: Options, s: seq<byte>)
    requires Find(s, BLANK, 0).Some?
    ensures var end := Find(s, BLANK, 0).value; end + 4 <= |s| && s[..end + 4] == s[..end] + BLANK
  {
    BlankSlice(s, Find(s, BLANK, 0).value);
  }

  lemma AcceptedHead(text: seq<byte>)
    ensures ParseHead(text).Ok? ==> HeadIs(ParseHead(text).value)
  {
    hide Lines, NextWord, ParseFields;
    assert Ascii("HTTP/1.") == [0x48, 0x54, 0x54, 0x50, 0x2f, 0x31, 0x2e];
  }

  // ----- What an accepted chunked body is -----

  /** Chunks on the wire, without the last one. */
  function SentChunks(cs: seq<Chunk>): seq<byte> {
    if cs == [] then [] else cs[0].line + (CRLF + (cs[0].data + (CRLF + SentChunks(cs[1..]))))
  }

  /** What ends a chunked body: a blank line, or trailer lines and a blank line. */
  predicate Ending(tail: seq<byte>, preserve: bool, trailers: seq<Field>) {
    || (tail == CRLF && trailers == [])
    || (4 <= |tail| && tail[|tail| - 4..] == BLANK && Trailers(tail[..|tail| - 4], preserve) == Ok(trailers))
  }

  lemma LineBefore(src: seq<byte>, pos: nat)
    requires SizeLine(src, pos).Ok? && SizeLine(src, pos).value.Some?
    ensures var (size, start) := SizeLine(src, pos).value.value;
            && pos + 2 <= start <= |src| && Spells(src[pos..start - 2], size)
            && src[pos..start] == src[pos..start - 2] + CRLF
  {
    hide Valid, ChunkSize;
    var i := Find(src, CRLF, pos).value;
    var line := src[pos..i];
    assert src[i..i + 2] == CRLF;
    forall j: nat
      ensures !MatchAt(line, CRLF, j)
    {
      if j + 2 <= |line| {
        assert !MatchAt(src, CRLF, pos + j);
        assert line[j..j + 2] == src[pos + j..pos + j + 2];
      }
    }
  }

  lemma EndingIs(src: seq<byte>, pos: nat, content: seq<byte>, preserve: bool, b: Body)
    requires AfterLastChunk(src, pos, content, preserve) == Ok(Some(b))
    ensures b.content == content && pos < b.end <= |src| && Ending(src[pos..b.end], preserve, b.trailers)
  {
    hide Trailers;
    if !MatchAt(src, CRLF, pos) {
      var i := Find(src, BLANK, pos).value;
      var tail := src[pos..i + 4];
      assert tail[|tail| - 4..] == src[i..i + 4] && tail[..|tail| - 4] == src[pos..i];
    }
  }

  /** A size line of a chunk and the chunk's data, cut out of the buffer. */
  lemma ChunkStands(src: seq<byte>, pos: nat, start: nat, size: nat, received: nat, max: usize, n: nat)
    requires pos + 2 <= start && start <= |src| && src[pos..start] == src[pos..start - 2] + CRLF
    requires ChunkEnd(src, start, size, received, max) == Ok(Some(start + size + 2))
    requires start + size + 2 <= n <= |src|
    ensures src[pos..n] ==
            src[pos..start - 2] + (CRLF + (src[start..start + size] + (CRLF + src[start + size + 2..n])))
  {
    assert src[start - 2..start] == src[pos..start][start - 2 - pos..] == CRLF;
    var end := start + size;
    assert src[end..end + 2] == CRLF;
    FiveParts(src, pos, start - 2, start, end, end + 2, n);
  }

  lemma FiveParts(src: seq<byte>, a: nat, b: nat, c: nat, d: nat, e: nat, f: nat)
    requires a <= b <= c <= d <= e <= f <= |src|
    ensures src[a..f] == src[a..b] + (src[b..c] + (src[c..d] + (src[d..e] + src[e..f])))
  {
    TwoParts(src, a, b, f);
    TwoParts(src, b, c, f);
    TwoParts(src, c, d, f);
    TwoParts(src, d, e, f);
  }

  lemma TwoParts(src: seq<byte>, a: nat, b: nat, c: nat)
    requires a <= b <= c <= |src|
    ensures src[a..c] == src[a..b] + src[b..c]
  {
  }

  lemma LastLineStands(src: seq<byte>, pos: nat, start: nat, n: nat)
    requires pos + 2 <= start <= n <= |src| && src[pos..start] == src[pos..start - 2] + CRLF
    ensures src[pos..n] == src[pos..start - 2] + (CRLF + src[start..n])
  {
    Assoc(src[pos..start - 2], CRLF, src[start..n]);
    assert src[pos..n] == src[pos..start] + src[start..n];
  }

  lemma OneMore(c: Chunk, rest: seq<Chunk>)
    requires WellFormedChunks(rest) && c.data != [] && Spells(c.line, |c.data|)
    ensures WellFormedChunks([c] + rest)
  {
    hide Spells;
  }

  lemma SizeOfChunk(src: seq<byte>, pos: nat, size: nat, received: nat, max: usize)
    requires ChunkEnd(src, pos, size, received, max).Ok? && ChunkEnd(src, pos, size, received, max).value.Some?
    ensures ChunkEnd(src, pos, size, received, max) == Ok(Some(pos + size + 2)) && pos + size + 2 <= |src|
  {
  }

  /** Whatever is accepted as a chunked body is one: chunks with the sizes their lines spell, each ended by a CRLF, a
      last chunk of size zero, and an ending. */
  lemma {:induction false} AcceptedChunks(src: seq<byte>, pos: nat, content: seq<byte>, max: usize, preserve: bool,
        b: Body) returns (cs: seq<Chunk>, last: seq<byte>, tail: seq<byte>)
    requires Chunks(src, pos, content, max, preserve) == Ok(Some(b))
    ensures WellFormedChunks(cs) && Spells(last, 0) && Ending(tail, preserve, b.trailers)
    ensures pos <= b.end <= |src| && src[pos..b.end] == SentChunks(cs) + (last + (CRLF + tail))
    ensures b.content == content + Data(cs)
    decreases |src| - pos
  {
    hide SizeLine, AfterLastChunk, ChunkEnd, Spells, Ending, WellFormedChunks, SentChunks, Data;
    LineBefore(src, pos);
    var (size, start) := SizeLine(src, pos).value.value;
    if size == 0 {
      EndingIs(src, start, content, preserve, b);
      cs, last, tail := [], src[pos..start - 2], src[start..b.end];
      LastLineStands(src, pos, start, b.end);
      NoChunks(content, last + (CRLF + tail));
    } else {
      SizeOfChunk(src, start, size, |content|, max);
      var c := Chunk(src[pos..start - 2], src[start..start + size]);
      var rest: seq<Chunk>;
      rest, last, tail := AcceptedChunks(src, start + size + 2, content + c.data, max, preserve, b);
      cs := [c] + rest;
      OneMore(c, rest);
      ChunkStands(src, pos, start, size, |content|, max, b.end);
      WireOf(c, rest, last + (CRLF + tail));
      Assoc(content, c.data, Data(rest));
    }
  }

  lemma NoChunks(content: seq<byte>, t: seq<byte>)
    ensures WellFormedChunks([]) && SentChunks([]) + t == t && content + Data([]) == content
  {
  }

  lemma WireOf(c: Chunk, rest: seq<Chunk>, t: seq<byte>)
    ensures SentChunks([c] + rest) + t == c.line + (CRLF + (c.data + (CRLF + (SentChunks(rest) + t))))
    ensures Data([c] + rest) == c.data + Data(rest)
  {
    assert ([c] + rest)[1..] == rest;
    var r := SentChunks(rest);
    Assoc(c.line, CRLF + (c.data + (CRLF + r)), t);
    Assoc(CRLF, c.data + (CRLF + r), t);
    Assoc(c.data, CRLF + r, t);
    Assoc(CRLF, r, t);
  }

  // ----- Refusals -----

  /** What follows a well-formed head: it is refused for its own length or announcement, or its body decides. */
  lemma HeadDecides(o: Options, h: Head, u: seq<byte>)
    requires PrintableHead(h)
    ensures var text := PrintHead(h);
            var src := text + (BLANK + u);
            DecodeRequest(o, src) ==
            if |text| > o.maxHeaderLen then Fail(FrameTooLarge, 0)
            else
              match RequestBodyKind(h.headers, o.allowChunked)
              case Err(_) => Fail(Decode, 0)
              case Ok(kind) =>
                match ReadBody(o, kind, src, |text| + 4)
                case Err(e) => Fail(e, 0)
                case Ok(None) => Need
                case Ok(Some(body)) => Item(Request(h, body.content, body.trailers), body.end)
  {
    hide PrintableHead, ReadBody, RequestBodyKind, ParseHead, Valid, Find;
    var text := PrintHead(h);
    HeadReads(h);
    BlankLineIsIgnored(text);
    BlankAfterHead(h, u);
    PrefaceErrors(o, text + BLANK);
    assert (text + (BLANK + u))[..|text| + 4] == text + BLANK && (text + (BLANK + u))[..|text|] == text;
  }

  /** A Content-Length beyond the limit is refused before any of the body has arrived. */
  lemma LongBodyIsRefused(o: Options, h: Head, u: seq<byte>, len: nat)
    requires PrintableHead(h) && |PrintHead(h)| <= o.maxHeaderLen
    requires RequestBodyKind(h.headers, o.allowChunked) == Ok(Length(len)) && len > o.maxBodyLen
    ensures DecodeRequest(o, PrintHead(h) + (BLANK + u)) == Fail(FrameTooLarge, 0)
  {
    hide PrintableHead, RequestBodyKind, DecodeRequest;
    HeadDecides(o, h, u);
  }

  /** The size line that takes a chunked body beyond the limit is refused, whatever stands behind it; only the largest
      limit of all is never reached. */
  lemma {:induction false} LongChunksAreRefused(src: seq<byte>, pos: nat, cs: seq<Chunk>, line: seq<byte>, size: nat,
        u: seq<byte>, content: seq<byte>, max: usize, preserve: bool)
    requires pos <= |src| < USIZE_END && src[pos..] == SentChunks(cs) + (line + (CRLF + u))
    requires WellFormedChunks(cs) && Spells(line, size) && max < USIZE_END - 1
    requires |content| + |Data(cs)| <= max < |content| + |Data(cs)| + size
    ensures Chunks(src, pos, content, max, preserve) == Err(FrameTooLarge)
    decreases |cs|
  {
    hide Spells, SizeLine, AfterLastChunk, ChunkEnd;
    if cs == [] {
      assert [] + (line + (CRLF + u)) == line + (CRLF + u);
      SizeLineReads(src, pos, line, size, u);
      BeyondLimit(src, pos + |line| + 2, size, |content|, max);
    } else {
      var c := cs[0];
      var rest := SentChunks(cs[1..]);
      var t := line + (CRLF + u);
      assert [c] + cs[1..] == cs;
      WireOf(c, cs[1..], t);
      SizeLineReads(src, pos, c.line, |c.data|, c.data + (CRLF + (rest + t)));
      var start := pos + |c.line| + 2;
      ChunkDataReads(src, start, c.data, rest + t, |content|, max);
      LongChunksAreRefused(src, start + |c.data| + 2, cs[1..], line, size, u, content + c.data, max, preserve);
    }
  }

  lemma BeyondLimit(src: seq<byte>, pos: nat, size: nat, received: nat, max: usize)
    requires received + size > max && max < USIZE_END - 1
    ensures ChunkEnd(src, pos, size, received, max) == Err(FrameTooLarge)
  {
  }

  lemma SizeLineErrors(src: seq<byte>, pos: nat)
    ensures SizeLine(src, pos).Err? ==> SizeLine(src, pos).error == Decode
  {
    hide Valid, Find, Split, Trim, ParseUsize;
  }

  lemma EndingErrors(src: seq<byte>, pos: nat, content: seq<byte>, preserve: bool)
    ensures var r := AfterLastChunk(src, pos, content, preserve); r.Err? ==> r.error == Decode
  {
    hide Valid, Find, Lines, ParseFields;
    var i := Find(src, BLANK, pos);
    if i.Some? {
      FieldErrors(Lines(src[pos..i.value]));
    }
  }

  /** And nothing else is too large: such a refusal shows chunks within the limit and a size line that exceeds it. */
  lemma {:induction false} RefusedChunks(src: seq<byte>, pos: nat, content: seq<byte>, max: usize, preserve: bool)
    returns (cs: seq<Chunk>, line: seq<byte>, size: nat, u: seq<byte>)
    requires pos <= |src| && |content| <= max && |content| <= pos
    requires Chunks(src, pos, content, max, preserve) == Err(FrameTooLarge)
    ensures WellFormedChunks(cs) && Spells(line, size) && src[pos..] == SentChunks(cs) + (line + (CRLF + u))
    ensures |content| + |Data(cs)| <= max < |content| + |Data(cs)| + size && max < USIZE_END - 1
    decreases |src| - pos
  {
    hide SizeLine, AfterLastChunk, ChunkEnd, Spells, WellFormedChunks, SentChunks, Data;
    SizeLineErrors(src, pos);
    LineBefore(src, pos);
    var (first, start) := SizeLine(src, pos).value.value;
    EndingErrors(src, start, content, preserve);
    if ChunkEnd(src, start, first, |content|, max).Ok? {
      SizeOfChunk(src, start, first, |content|, max);
      ChunkEndWithin(src, start, first, |content|, max);
      var c := Chunk(src[pos..start - 2], src[start..start + first]);
      var rest: seq<Chunk>;
      rest, line, size, u := RefusedChunks(src, start + first + 2, content + c.data, max, preserve);
      cs := [c] + rest;
      AnotherChunk(src, pos, start, c, rest, line + (CRLF + u), |content|, max);
    } else {
      cs, line, size, u := [], src[pos..start - 2], first, src[start..];
      LastLineStands(src, pos, start, |src|);
      NoChunks(content, line + (CRLF + u));
      LimitIs(src, start, size, |content|, max);
    }
  }

  /** A chunk in front of others. */
  lemma AnotherChunk(src: seq<byte>, pos: nat, start: nat, c: Chunk, rest: seq<Chunk>, t: seq<byte>, received: nat,
        max: usize)
    requires pos + 2 <= start <= start + |c.data| + 2 <= |src| && src[pos..start] == src[pos..start - 2] + CRLF
    requires c == Chunk(src[pos..start - 2], src[start..start + |c.data|])
    requires ChunkEnd(src, start, |c.data|, received, max) == Ok(Some(start + |c.data| + 2))
    requires src[start + |c.data| + 2..] == SentChunks(rest) + t
    requires WellFormedChunks(rest) && c.data != [] && Spells(c.line, |c.data|)
    ensures WellFormedChunks([c] + rest) && src[pos..] == SentChunks([c] + rest) + t
    ensures |Data([c] + rest)| == |c.data| + |Data(rest)|
  {
    hide ChunkEnd, Spells, WellFormedChunks, SentChunks, Data;
    OneMore(c, rest);
    ChunkStands(src, pos, start, |c.data|, received, max, |src|);
    WireOf(c, rest, t);
  }

  lemma LimitIs(src: seq<byte>, pos: nat, size: nat, received: nat, max: usize)
    requires ChunkEnd(src, pos, size, received, max) == Err(FrameTooLarge)
    ensures received + size > max && max < USIZE_END - 1
  {
  }

  /** So a request whose chunks exceed the body limit is refused, however much of it has arrived behind that line. */
  lemma LongChunkedRequestIsRefused(o: Options, h: Head, cs: seq<Chunk>, line: seq<byte>, size: nat, u: seq<byte>)
    requires PrintableHead(h) && |PrintHead(h)| <= o.maxHeaderLen
    requires RequestBodyKind(h.headers, o.allowChunked) == Ok(Chunked)
    requires WellFormedChunks(cs) && Spells(line, size)
    requires |Data(cs)| <= o.maxBodyLen < |Data(cs)| + size && o.maxBodyLen < USIZE_END - 1
    requires |PrintHead(h) + (BLANK + (SentChunks(cs) + (line + (CRLF + u))))| < USIZE_END
    ensures DecodeRequest(o, PrintHead(h) + (BLANK + (SentChunks(cs) + (line + (CRLF + u))))) == Fail(FrameTooLarge, 0)
  {
    hide PrintableHead, RequestBodyKind, DecodeRequest, WellFormedChunks, Spells, Chunks, PrintHead, SentChunks;
    var wire := SentChunks(cs) + (line + (CRLF + u));
    HeadDecides(o, h, wire);
    var src := PrintHead(h) + (BLANK + wire);
    Assoc(PrintHead(h), BLANK, wire);
    CutJoined(PrintHead(h) + BLANK, wire);
    LongChunksAreRefused(src, |PrintHead(h)| + 4, cs, line, size, u, [], o.maxBodyLen, o.preserveTrailers);
  }

  // ----- Responses -----

  /** Nothing in front of a space is white space itself. */
  lemma PlainWordReads(w: seq<byte>, t: seq<byte>)
    requires w != [] && (forall i | 0 <= i < |w| :: 0x21 <= w[i] < 0x80) && (t == [] || t[0] == 0x20)
    ensures NextWord(w + t) == (w, t) && NextWord([0x20] + (w + t)) == (w, t)
  {
    hide NextWord;
    PlainWord(w);
    WordReads(w, t);
  }

  /** A status line is "HTTP/1.1", the status in decimal, and the reason, each behind one space. */
  lemma StatusLineReads(r: Response)
    ensures var (version, rest) := NextWord(StatusLine(r));
            var (status, reason) := NextWord(rest);
            && version == [0x48, 0x54, 0x54, 0x50, 0x2f, 0x31, 0x2e, 0x31]
            && ParseUsize(status, 10) == Some(r.status) && reason == [0x20] + r.reason
  {
    hide NextWord, Decimal, Trim, ParseUsize;
    DecimalIsPlain(r.status);
    var version := [0x48, 0x54, 0x54, 0x50, 0x2f, 0x31, 0x2e, 0x31];
    var rest := [0x20] + (Decimal(r.status) + ([0x20] + r.reason));
    assert Ascii("HTTP/1.1 ") == version + [0x20];
    Assoc(version, [0x20], Decimal(r.status) + ([0x20] + r.reason));
    PlainWordReads(version, rest);
    PlainWordReads(Decimal(r.status), [0x20] + r.reason);
  }

  /** A response whose handler set a Content-Length goes out with exactly the handler's fields. */
  lemma ResponseKeepsItsFields(r: Response, t: seq<byte>, head: seq<byte>)
    requires Valid(r.reason) && NoCrlf(r.reason) && PrintableFields(r.headers)
    requires Values(r.headers, Ascii("Content-Length")) != []
    requires head == Join([StatusLine(r)] + FieldLines(r.headers))
    ensures Find(EncodeResponse(r) + t, BLANK, 0) == Some(|head|)
    ensures Lines(head)[0] == StatusLine(r) && ParseFields(Lines(head)[1..]) == Ok(r.headers)
    ensures (EncodeResponse(r) + t)[|head| + 4..] == r.body + t
  {
    var lines := [StatusLine(r)] + FieldLines(r.headers);
    hide PrintableField, Printable, Lines, Find, Decimal, StatusLine, ParseFields, Join;
    hide Values, Ascii, FieldLine, Valid, NoCrlf, FieldLines, PrintableLines;
    SentLinesArePrintable(r, r.headers);
    LinesOfJoin(lines);
    BlankAfterJoin(lines, r.body + t);
    FieldsRead(r.headers);
    assert lines[1..] == FieldLines(r.headers);
    Assoc(head, BLANK + r.body, t);
    Assoc(BLANK, r.body, t);
    RequestParts(head, r.body, t);
  }
}
