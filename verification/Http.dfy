/** HTTP/1.1 request framing, section 6 of RFC 9112, as functions on the bytes received so far. */
module Http {
  import opened Core
  import opened Framing
  import opened HttpText
  import opened Search
  import opened Utf8

  datatype Options = Options(maxHeaderLen: usize, maxBodyLen: usize, allowChunked: bool, preserveTrailers: bool)

  datatype Head = Head(httpMethod: seq<byte>, target: seq<byte>, version: seq<byte>, headers: seq<Field>)

  datatype Request = Request(head: Head, body: seq<byte>, trailers: seq<Field>)

  datatype BodyKind = NoBody | Length(len: nat) | Chunked

  /** A message body and where in the buffer it ends. */
  datatype Body = Body(end: nat, content: seq<byte>, trailers: seq<Field>)

  const USIZE_END: nat := 0x1_0000_0000_0000_0000

  // ----- The head -----

  function ParseHead(text: seq<byte>): Result<Head> {
    var lines := Lines(text);
    var (httpMethod, r1) := NextWord(lines[0]);
    var (target, r2) := NextWord(r1);
    var (version, _) := NextWord(r2);
    if httpMethod == [] || target == [] || !(Ascii("HTTP/1.") <= version) then Err(Decode)
    else
      var headers :- ParseFields(lines[1..]);
      Ok(Head(httpMethod, target, version, headers))
  }

  /** The values of all header fields with a name. */
  function Values(headers: seq<Field>, name: seq<byte>): seq<seq<byte>> {
    if headers == [] then []
    else if SameIgnoringCase(headers[0].0, name) then [headers[0].1] + Values(headers[1..], name)
    else Values(headers[1..], name)
  }

  /** At most one Content-Length field, holding a number. */
  function ContentLength(headers: seq<Field>): Result<Option<nat>> {
    var values := Values(headers, Ascii("Content-Length"));
    if values == [] then Ok(None)
    else if |values| == 1 && ParseUsize(Trim(values[0]), 10).Some? then Ok(ParseUsize(Trim(values[0]), 10))
    else Err(Decode)
  }

  predicate TokenIs(token: seq<byte>, name: string) {
    SameIgnoringCase(Trim(token), Ascii(name))
  }

  function RequestBodyKind(headers: seq<Field>, allowChunked: bool): Result<BodyKind> {
    var length :- ContentLength(headers);
    var encoding := Header(headers, Ascii("Transfer-Encoding"));
    if encoding.None? then Ok(LengthKind(length))
    else
      var tokens := Split(encoding.value, 0x2c);
      if exists i | 0 <= i < |tokens| :: TokenIs(tokens[i], "chunked") then
        if length.Some? || !allowChunked || !TokenIs(tokens[|tokens| - 1], "chunked") then Err(Decode)
        else Ok(Chunked)
      else if exists i | 0 <= i < |tokens| :: Trim(tokens[i]) != [] && !TokenIs(tokens[i], "identity") then Err(Decode)
      else Ok(LengthKind(length))
  }

  function LengthKind(length: Option<nat>): BodyKind {
    if length.Some? then Length(length.value) else NoBody
  }

  // ----- Chunked bodies -----

  function ChunkSize(line: seq<byte>): Result<nat> {
    match ParseUsize(Trim(Split(line, 0x3b)[0]), 16)
    case None => Err(Decode)
    case Some(n) => Ok(n)
  }

  /** A chunk's size line: the size, and where the line ends. */
  function SizeLine(src: seq<byte>, pos: nat): (r: Result<Option<(nat, nat)>>)
    ensures r.Ok? && r.value.Some? ==> pos < r.value.value.1 <= |src|
  {
    match Find(src, CRLF, pos)
    case None => Ok(None)
    case Some(i) =>
      if !Valid(src[pos..i]) then Err(Decode)
      else
        var size :- ChunkSize(src[pos..i]);
        Ok(Some((size, i + 2)))
  }

  function Trailers(text: seq<byte>, preserve: bool): Result<seq<Field>> {
    if text == [] then Ok([])
    else if !Valid(text) then Err(Decode)
    else
      var fields :- ParseFields(Lines(text));
      Ok(if preserve then fields else [])
  }

  /** What follows the size line of the last chunk. */
  function AfterLastChunk(src: seq<byte>, pos: nat, content: seq<byte>, preserve: bool): (r: Result<Option<Body>>)
    ensures r.Ok? && r.value.Some? ==> pos < r.value.value.end <= |src|
  {
    if MatchAt(src, CRLF, pos) then Ok(Some(Body(pos + 2, content, [])))
    else
      match Find(src, BLANK, pos)
      case None => Ok(None)
      case Some(i) =>
        var trailers :- Trailers(src[pos..i], preserve);
        Ok(Some(Body(i + 4, content, trailers)))
  }

  /** Where the data of a chunk of `size` bytes at `pos` ends, its CRLF included. */
  function ChunkEnd(src: seq<byte>, pos: nat, size: nat, received: nat, max: usize): (r: Result<Option<nat>>)
    ensures r.Ok? && r.value.Some? ==> r.value.value == pos + size + 2 <= |src|
  {
    if received + size > max && max < USIZE_END - 1 then Err(FrameTooLarge)
    else if pos + size + 2 >= USIZE_END then Err(Decode)
    else if |src| < pos + size + 2 then Ok(None)
    else if src[pos + size..pos + size + 2] != CRLF then Err(Decode)
    else Ok(Some(pos + size + 2))
  }

  function Chunks(src: seq<byte>, pos: nat, content: seq<byte>, max: usize, preserve: bool): (r: Result<Option<Body>>)
    ensures r.Ok? && r.value.Some? ==> pos < r.value.value.end <= |src|
    decreases |src| - pos
  {
    match SizeLine(src, pos)
    case Err(e) => Err(e)
    case Ok(None) => Ok(None)
    case Ok(Some((size, start))) =>
      if size == 0 then AfterLastChunk(src, start, content, preserve)
      else
        match ChunkEnd(src, start, size, |content|, max)
        case Err(e) => Err(e)
        case Ok(None) => Ok(None)
        case Ok(Some(next)) => Chunks(src, next, content + src[start..start + size], max, preserve)
  }

  // ----- Requests -----

  function HeadEnd(o: Options, src: seq<byte>): (r: Result<Option<nat>>)
    ensures r.Ok? && r.value.Some? ==> MatchAt(src, BLANK, r.value.value)
  {
    match Find(src, BLANK, 0)
    case None => if |src| > o.maxHeaderLen then Err(FrameTooLarge) else Ok(None)
    case Some(i) => if i > o.maxHeaderLen then Err(FrameTooLarge) else Ok(Some(i))
  }

  /** The first pass over the head, its blank line included, which settles how the body is framed. */
  function Preface(o: Options, text: seq<byte>): Result<BodyKind> {
    if !Valid(text) then Err(Decode)
    else
      var head :- ParseHead(text);
      RequestBodyKind(head.headers, o.allowChunked)
  }

  function ReadBody(o: Options, kind: BodyKind, src: seq<byte>, start: nat): (r: Result<Option<Body>>)
    requires start <= |src|
    ensures r.Ok? && r.value.Some? ==> start <= r.value.value.end <= |src|
  {
    match kind
    case NoBody => Ok(Some(Body(start, [], [])))
    case Length(n) =>
      if n > o.maxBodyLen then Err(FrameTooLarge)
      else if start + n >= USIZE_END then Err(Decode)
      else if |src| < start + n then Ok(None)
      else Ok(Some(Body(start + n, src[start..start + n], [])))
    case Chunked => Chunks(src, start, [], o.maxBodyLen, o.preserveTrailers)
  }

  /** The second pass over the head, without its blank line, which builds the request. */
  function BuildRequest(text: seq<byte>, body: Body): Result<Request> {
    if !Valid(text) then Err(Decode)
    else
      var head :- ParseHead(text);
      Ok(Request(head, body.content, body.trailers))
  }

  function DecodeRequest(o: Options, src: seq<byte>): Step<Request> {
    match HeadEnd(o, src)
    case Err(e) => Fail(e, 0)
    case Ok(None) => Need
    case Ok(Some(end)) =>
      match Preface(o, src[..end + 4])
      case Err(e) => Fail(e, 0)
      case Ok(kind) =>
        match ReadBody(o, kind, src, end + 4)
        case Err(e) => Fail(e, 0)
        case Ok(None) => Need
        case Ok(Some(body)) =>
          match BuildRequest(src[..end], body)
          case Err(e) => Fail(e, body.end)
          case Ok(request) => Item(request, body.end)
  }

  function HttpDecoder(o: Options): Decoder<Request> {
    s => DecodeRequest(o, s)
  }

  // ----- The two passes agree -----

  lemma BlankLineIsText(text: seq<byte>)
    ensures Valid(text + BLANK) <==> Valid(text)
  {
    AsciiIsValid(BLANK);
    if Valid(text) {
      ValidAppend(text, BLANK);
    }
    if Valid(text + BLANK) {
      ValidBeforeAscii(text, BLANK);
    }
  }

  lemma BlankLineSplits(text: seq<byte>)
    ensures Lines(text + BLANK) == Lines(text) + [[], []]
  {
    LinesAppend(text, CRLF);
    LinesOfJoined([], []);
    assert CRLF + CRLF == BLANK && [] + (CRLF + []) == CRLF;
  }

  /** The blank line behind a head changes neither its text check nor its fields. */
  lemma BlankLineIsIgnored(text: seq<byte>)
    ensures Valid(text + BLANK) <==> Valid(text)
    ensures ParseHead(text + BLANK) == ParseHead(text)
  {
    hide Valid, NextWord, ParseFields, Lines;
    BlankLineIsText(text);
    BlankLineSplits(text);
    var lines := Lines(text);
    ParseFieldsIgnoresBlanks(lines[1..]);
    assert (lines + [[], []])[1..] == lines[1..] + [[], []];
  }

  /** So building the request cannot fail once the body is complete. */
  lemma RequestBuilds(o: Options, text: seq<byte>, body: Body)
    requires Preface(o, text + BLANK).Ok?
    ensures ParseHead(text).Ok?
        && RequestBodyKind(ParseHead(text).value.headers, o.allowChunked) == Preface(o, text + BLANK)
    ensures BuildRequest(text, body) == Ok(Request(ParseHead(text).value, body.content, body.trailers))
  {
    BlankLineIsIgnored(text);
  }

  // ----- A body ends where it says, whatever follows -----

  lemma SizeLineStands(src: seq<byte>, t: seq<byte>, pos: nat)
    requires SizeLine(src, pos) != Ok(None)
    ensures SizeLine(src + t, pos) == SizeLine(src, pos)
  {
    hide Valid, ChunkSize;
    FindExtends(src, t, CRLF, pos);
    var i := Find(src, CRLF, pos).value;
    assert (src + t)[pos..i] == src[pos..i];
  }

  lemma AfterLastChunkStands(src: seq<byte>, t: seq<byte>, pos: nat, content: seq<byte>, preserve: bool)
    requires AfterLastChunk(src, pos, content, preserve) != Ok(None)
    ensures AfterLastChunk(src + t, pos, content, preserve) == AfterLastChunk(src, pos, content, preserve)
  {
    hide Trailers;
    if pos + 2 <= |src| {
      MatchExtends(src, t, CRLF, pos);
    }
    FindExtends(src, t, BLANK, pos);
    if Find(src, BLANK, pos).Some? {
      var i := Find(src, BLANK, pos).value;
      assert (src + t)[pos..i] == src[pos..i];
    }
  }

  lemma ChunkEndStands(src: seq<byte>, t: seq<byte>, pos: nat, size: nat, received: nat, max: usize)
    requires ChunkEnd(src, pos, size, received, max) != Ok(None)
    ensures ChunkEnd(src + t, pos, size, received, max) == ChunkEnd(src, pos, size, received, max)
  {
    if |src| >= pos + size + 2 {
      assert (src + t)[pos + size..pos + size + 2] == src[pos + size..pos + size + 2];
    }
  }

  lemma {:induction false} ChunksStand(src: seq<byte>, t: seq<byte>, pos: nat, content: seq<byte>, max: usize,
        preserve: bool)
    requires Chunks(src, pos, content, max, preserve) != Ok(None)
    ensures Chunks(src + t, pos, content, max, preserve) == Chunks(src, pos, content, max, preserve)
    decreases |src| - pos
  {
    hide SizeLine, AfterLastChunk, ChunkEnd;
    SizeLineStands(src, t, pos);
    if SizeLine(src, pos).Ok? {
      var (size, start) := SizeLine(src, pos).value.value;
      if size == 0 {
        AfterLastChunkStands(src, t, start, content, preserve);
      } else {
        ChunkEndStands(src, t, start, size, |content|, max);
        if ChunkEnd(src, start, size, |content|, max).Ok? {
          assert (src + t)[start..start + size] == src[start..start + size];
          ChunksStand(src, t, start + size + 2, content + src[start..start + size], max, preserve);
        }
      }
    }
  }

  lemma SizeLineFront(src: seq<byte>, n: nat, pos: nat)
    requires SizeLine(src, pos).Ok? && SizeLine(src, pos).value.Some?
    requires SizeLine(src, pos).value.value.1 <= n <= |src|
    ensures SizeLine(src[..n], pos) == SizeLine(src, pos)
  {
    hide Valid, ChunkSize;
    var i := Find(src, CRLF, pos).value;
    assert src[..n][..i + 2] == src[..i + 2];
    FindLocal(src, src[..n], CRLF, pos);
    assert src[..n][pos..i] == src[pos..i];
  }

  lemma AfterLastChunkFront(src: seq<byte>, n: nat, pos: nat, content: seq<byte>, preserve: bool, b: Body)
    requires AfterLastChunk(src, pos, content, preserve) == Ok(Some(b)) && b.end <= n <= |src|
    ensures AfterLastChunk(src[..n], pos, content, preserve) == Ok(Some(b))
  {
    hide Trailers;
    JoinCut(src, n);
    MatchExtends(src[..n], src[n..], CRLF, pos);
    if !MatchAt(src, CRLF, pos) {
      var i := Find(src, BLANK, pos).value;
      assert src[..n][..i + 4] == src[..i + 4];
      FindLocal(src, src[..n], BLANK, pos);
      assert src[..n][pos..i] == src[pos..i];
    }
  }

  lemma ChunkEndFront(src: seq<byte>, n: nat, pos: nat, size: nat, received: nat, max: usize)
    requires ChunkEnd(src, pos, size, received, max) == Ok(Some(pos + size + 2)) && pos + size + 2 <= n <= |src|
    ensures ChunkEnd(src[..n], pos, size, received, max) == Ok(Some(pos + size + 2))
  {
    assert src[..n][pos + size..pos + size + 2] == src[pos + size..pos + size + 2];
  }

  /** A complete body is already decoded from the bytes up to its end. */
  lemma {:induction false} ChunksFront(src: seq<byte>, n: nat, pos: nat, content: seq<byte>, max: usize,
        preserve: bool, b: Body)
    requires Chunks(src, pos, content, max, preserve) == Ok(Some(b)) && b.end <= n <= |src|
    ensures Chunks(src[..n], pos, content, max, preserve) == Ok(Some(b))
    decreases |src| - pos
  {
    hide SizeLine, AfterLastChunk, ChunkEnd;
    var (size, start) := SizeLine(src, pos).value.value;
    SizeLineFront(src, n, pos);
    if size == 0 {
      AfterLastChunkFront(src, n, start, content, preserve, b);
    } else {
      ChunkEndFront(src, n, start, size, |content|, max);
      assert src[..n][start..start + size] == src[start..start + size];
      ChunksFront(src, n, start + size + 2, content + src[start..start + size], max, preserve, b);
    }
  }

  lemma ReadBodyFront(o: Options, kind: BodyKind, src: seq<byte>, start: nat, b: Body)
    requires start <= |src| && ReadBody(o, kind, src, start) == Ok(Some(b))
    ensures ReadBody(o, kind, src[..b.end], start) == Ok(Some(b))
  {
    hide Chunks;
    match kind
    case NoBody =>
    case Length(n) => assert src[..b.end][start..start + n] == src[start..start + n];
    case Chunked => ChunksFront(src, b.end, start, [], o.maxBodyLen, o.preserveTrailers, b);
  }

  lemma ReadBodyStands(o: Options, kind: BodyKind, src: seq<byte>, t: seq<byte>, start: nat)
    requires start <= |src| && ReadBody(o, kind, src, start) != Ok(None)
    ensures ReadBody(o, kind, src + t, start) == ReadBody(o, kind, src, start)
  {
    hide Chunks;
    match kind
    case NoBody =>
    case Length(n) =>
      if start + n <= |src| {
        assert (src + t)[start..start + n] == src[start..start + n];
      }
    case Chunked => ChunksStand(src, t, start, [], o.maxBodyLen, o.preserveTrailers);
  }

  // ----- Requests are self-delimiting -----

  /** Once the blank line is there, later bytes change neither the request, nor its end, nor the error. */
  lemma VerdictStands(o: Options, src: seq<byte>, t: seq<byte>)
    requires Find(src, BLANK, 0).Some? && DecodeRequest(o, src) != Need
    ensures DecodeRequest(o, src + t) == DecodeRequest(o, src)
  {
    hide Preface, ReadBody, BuildRequest;
    FindExtends(src, t, BLANK, 0);
    var end := Find(src, BLANK, 0).value;
    assert (src + t)[..end + 4] == src[..end + 4] && (src + t)[..end] == src[..end];
    var kind := Preface(o, src[..end + 4]);
    if end <= o.maxHeaderLen && kind.Ok? {
      ReadBodyStands(o, kind.value, src, t, end + 4);
    }
  }

  lemma HttpProgress(o: Options)
    ensures Progress(HttpDecoder(o))
  {
    hide Preface, ReadBody, BuildRequest;
    forall s: seq<byte>
      ensures ProgressAt(HttpDecoder(o), s)
    {
    }
  }

  /** An accepted request is decoded from its own bytes alone, and from its own bytes in front of any others. */
  lemma AcceptedRequestIsSelfDelimiting(o: Options, src: seq<byte>, x: Request, n: nat)
    requires DecodeRequest(o, src) == Item(x, n)
    ensures n <= |src| && DecodeRequest(o, src[..n]) == Item(x, n)
    ensures Recovers(HttpDecoder(o), src[..n], x)
  {
    hide Preface, ReadBody, BuildRequest;
    var end := Find(src, BLANK, 0).value;
    var kind := Preface(o, src[..end + 4]).value;
    ReadBodyFront(o, kind, src, end + 4, ReadBody(o, kind, src, end + 4).value.value);
    assert src[..n][..end + 4] == src[..end + 4] && src[..n][..end] == src[..end];
    FindLocal(src, src[..n], BLANK, 0);
    forall t: seq<byte>
      ensures HttpDecoder(o)(src[..n] + t) == Item(x, |src[..n]|)
    {
      hide DecodeRequest;
      VerdictStands(o, src[..n], t);
    }
  }

  /** Pipelined requests split at their boundaries. */
  lemma PipelinedRequestsSplit(o: Options, frames: seq<seq<byte>>, requests: seq<Request>, t: seq<byte>)
    requires |frames| == |requests|
    requires forall i | 0 <= i < |frames| :: DecodeRequest(o, frames[i]) == Item(requests[i], |frames[i]|)
    ensures Progress(HttpDecoder(o))
    ensures var r := DecodeAll(HttpDecoder(o), t);
            DecodeAll(HttpDecoder(o), Concat(frames) + t) == r.(items := requests + r.items)
  {
    hide DecodeRequest;
    HttpProgress(o);
    forall i | 0 <= i < |requests|
      ensures Recovers(HttpDecoder(o), frames[i], requests[i])
    {
      AcceptedRequestIsSelfDelimiting(o, frames[i], requests[i], |frames[i]|);
      assert frames[i][..|frames[i]|] == frames[i];
    }
    FramesDecodeInOrder(HttpDecoder(o), frames, requests, t);
  }

  // ----- The one verdict that is not final -----

  /** How much of a blank line the buffer ends in. */
  function BlankTail(s: seq<byte>): (k: nat)
    ensures k <= |s| && k < 4
  {
    var n := |s|;
    if n >= 3 && s[n - 3] == 0x0d && s[n - 2] == 0x0a && s[n - 1] == 0x0d then 3
    else if n >= 2 && s[n - 2] == 0x0d && s[n - 1] == 0x0a then 2
    else if n >= 1 && s[n - 1] == 0x0d then 1
    else 0
  }

  /** The buffer ends in a blank line half read that would still end the head in time. */
  predicate BlankHalfRead(o: Options, s: seq<byte>) {
    BlankTail(s) > 0 && |s| - BlankTail(s) <= o.maxHeaderLen
  }

  /** The head, once complete, announces a body that is refused for its length. */
  predicate BodyRefused(o: Options, text: seq<byte>) {
    match Preface(o, text)
    case Ok(Length(n)) => n > o.maxBodyLen
    case _ => false
  }

  lemma BlankBytes(s: seq<byte>, i: nat)
    requires i + 4 <= |s|
    ensures MatchAt(s, BLANK, i) <==> s[i] == 0x0d && s[i + 1] == 0x0a && s[i + 2] == 0x0d && s[i + 3] == 0x0a
  {
    var four := s[i..i + 4];
    assert four[0] == s[i] && four[1] == s[i + 1] && four[2] == s[i + 2] && four[3] == s[i + 3];
    assert four == [s[i], s[i + 1], s[i + 2], s[i + 3]];
  }

  lemma BlankSlice(s: seq<byte>, i: nat)
    requires MatchAt(s, BLANK, i)
    ensures i + 4 <= |s| && s[..i + 4] == s[..i] + BLANK
  {
    assert s[..i + 4] == s[..i] + s[i..i + 4];
  }

  /** A head that ends inside the buffer ends where the half-read blank line begins. */
  lemma HeadEndsAtTail(s: seq<byte>, t: seq<byte>)
    requires Find(s, BLANK, 0).None? && Find(s + t, BLANK, 0).Some? && Find(s + t, BLANK, 0).value < |s|
    ensures BlankTail(s) > 0 && Find(s + t, BLANK, 0).value == |s| - BlankTail(s)
    ensures (s + t)[..|s| - BlankTail(s) + 4] == s[..|s| - BlankTail(s)] + BLANK
  {
    hide Find, MatchAt;
    var u, n, i := s + t, |s|, Find(s + t, BLANK, 0).value;
    BlankSlice(u, i);
    BlankBytes(u, i);
    if i + 4 <= n {
      MatchExtends(s, t, BLANK, i);
    }
    if BlankTail(s) == 3 {
      BlankBytes(u, n - 3);
    }
    assert u[..i] == s[..i];
  }

  lemma TailBytes(s: seq<byte>, k: nat)
    requires k == BlankTail(s) > 0
    ensures s + BLANK[k..] == s[..|s| - k] + BLANK
  {
    var n := |s|;
    JoinCut(s, n - k);
    var tail := s[n - k..];
    if k == 3 {
      assert tail == [s[n - 3], s[n - 2], s[n - 1]];
    } else if k == 2 {
      assert tail == [s[n - 2], s[n - 1]];
    } else {
      assert tail == [s[n - 1]];
    }
    assert tail + BLANK[k..] == BLANK;
    Assoc(s[..n - k], tail, BLANK[k..]);
  }

  lemma CompletedHead(s: seq<byte>, t: seq<byte>, text: seq<byte>)
    requires Find(s, BLANK, 0).None? && s + t == text + BLANK && |text| < |s|
    ensures Find(s + t, BLANK, 0) == Some(|s| - BlankTail(s))
  {
    hide Find, MatchAt, BlankTail;
    MatchLast(text, BLANK);
    FindReaches(s + t, BLANK, 0, |text|);
    HeadEndsAtTail(s, t);
  }

  lemma TailCompletes(s: seq<byte>)
    requires Find(s, BLANK, 0).None? && BlankTail(s) > 0
    ensures s + BLANK[BlankTail(s)..] == s[..|s| - BlankTail(s)] + BLANK
    ensures Find(s + BLANK[BlankTail(s)..], BLANK, 0) == Some(|s| - BlankTail(s))
  {
    hide Find, BlankTail;
    TailBytes(s, BlankTail(s));
    CompletedHead(s, BLANK[BlankTail(s)..], s[..|s| - BlankTail(s)]);
  }

  lemma PrefaceErrors(o: Options, text: seq<byte>)
    ensures Preface(o, text).Err? ==> Preface(o, text).error == Decode
  {
    hide Lines, NextWord, Valid, Values, Header, Split, TokenIs, Trim, ParseUsize, Ascii;
    FieldErrors(Lines(text)[1..]);
  }

  lemma {:induction false} FieldErrors(lines: seq<seq<byte>>)
    ensures ParseFields(lines).Err? ==> ParseFields(lines).error == Decode
  {
    hide Find, Trim;
    if lines != [] {
      FieldErrors(lines[1..]);
    }
  }

  /** "Head too large", reported before the blank line is complete, falls when the blank line completes in time and
      the body it announces is not refused as too large in turn. */
  lemma HeadLimitFalls(o: Options, s: seq<byte>)
    requires Find(s, BLANK, 0).None? && BlankHalfRead(o, s)
    requires !BodyRefused(o, s[..|s| - BlankTail(s)] + BLANK)
    ensures DecodeRequest(o, s + BLANK[BlankTail(s)..]) != Fail(FrameTooLarge, 0)
  {
    hide Find, MatchAt, Preface, BuildRequest, ReadBody, BlankTail;
    var src := s + BLANK[BlankTail(s)..];
    TailCompletes(s);
    assert src[..|src|] == src;
    PrefaceErrors(o, src);
    if Preface(o, src).Ok? {
      NoBodyYet(o, Preface(o, src).value, src);
    }
  }

  lemma NoBodyYet(o: Options, kind: BodyKind, src: seq<byte>)
    requires !(kind.Length? && kind.len > o.maxBodyLen)
    ensures ReadBody(o, kind, src, |src|) != Err(FrameTooLarge)
  {
    assert Find(src, CRLF, |src|) == None;
  }

  lemma HeadLimitStands(o: Options, s: seq<byte>, t: seq<byte>)
    requires Find(s, BLANK, 0).None? && |s| > o.maxHeaderLen
    requires !BlankHalfRead(o, s) || BodyRefused(o, s[..|s| - BlankTail(s)] + BLANK)
    ensures DecodeRequest(o, s + t) == Fail(FrameTooLarge, 0)
  {
    hide Find, MatchAt, Preface, ReadBody, BuildRequest, BlankTail;
    var r := Find(s + t, BLANK, 0);
    if r.Some? && r.value <= o.maxHeaderLen {
      HeadEndsAtTail(s, t);
      BlankSlice(s + t, r.value);
      assert Preface(o, (s + t)[..r.value + 4]).Ok?;
      RefusedAtOnce(o, Preface(o, (s + t)[..r.value + 4]).value, s + t, r.value + 4);
    }
  }

  lemma RefusedAtOnce(o: Options, kind: BodyKind, src: seq<byte>, start: nat)
    requires start <= |src| && kind.Length? && kind.len > o.maxBodyLen
    ensures ReadBody(o, kind, src, start) == Err(FrameTooLarge)
  {
  }

  /** "Head too large" was reported although the head can still end in time with an acceptable announcement. */
  predicate Premature(o: Options, s: seq<byte>) {
    && Find(s, BLANK, 0).None? && |s| > o.maxHeaderLen && BlankHalfRead(o, s)
    && !BodyRefused(o, s[..|s| - BlankTail(s)] + BLANK)
  }

  /** Exactly when a verdict cannot depend on how the bytes were split into reads. */
  lemma HttpVerdictIsFinalIff(o: Options, s: seq<byte>)
    ensures (forall t: seq<byte> :: StableAt(HttpDecoder(o), s, t)) <==> !Premature(o, s)
  {
    hide Find, Preface, ReadBody, BuildRequest, BlankHalfRead, BodyRefused, BlankTail;
    var d := HttpDecoder(o);
    if Premature(o, s) {
      HeadLimitFalls(o, s);
      assert !StableAt(d, s, BLANK[BlankTail(s)..]);
    } else {
      forall t: seq<byte>
        ensures StableAt(d, s, t)
      {
        if DecodeRequest(o, s) != Need {
          if Find(s, BLANK, 0).Some? {
            VerdictStands(o, s, t);
          } else {
            HeadLimitStands(o, s, t);
          }
        }
      }
    }
  }
}
