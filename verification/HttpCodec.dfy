/** The HTTP codec's operations, step by step as the program performs them, and its response encoder. */
module HttpCodec {
  import opened Core
  import opened Framing
  import opened Http
  import opened HttpPrinting
  import opened HttpText
  import opened Search
  import opened Utf8

  // ----- What frames a request -----

  function Tokens(headers: seq<Field>): (tokens: seq<seq<byte>>) {
    match Header(headers, Ascii("Transfer-Encoding"))
    case None => []
    case Some(value) => Split(value, 0x2c)
  }

  predicate OnlyIdentity(tokens: seq<seq<byte>>) {
    forall i | 0 <= i < |tokens| ::
      !TokenIs(tokens[i], "chunked") && (Trim(tokens[i]) == [] || TokenIs(tokens[i], "identity"))
  }

  predicate ChunkedLast(tokens: seq<seq<byte>>) {
    tokens != [] && TokenIs(tokens[|tokens| - 1], "chunked")
  }

  /** The framing rules: chunked only when allowed, last, and without a Content-Length; otherwise nothing but
      identity codings, and then a single numeric Content-Length or none. */
  lemma FramingIff(headers: seq<Field>, allowChunked: bool)
    ensures var kind, lengths := RequestBodyKind(headers, allowChunked), Values(headers, Ascii("Content-Length"));
            && (kind == Ok(Chunked) <==> allowChunked && lengths == [] && ChunkedLast(Tokens(headers)))
            && (kind == Ok(NoBody) <==> lengths == [] && OnlyIdentity(Tokens(headers)))
    ensures forall n: nat :: RequestBodyKind(headers, allowChunked) == Ok(Length(n)) <==>
              && OnlyIdentity(Tokens(headers))
              && |Values(headers, Ascii("Content-Length"))| == 1
              && ParseUsize(Trim(Values(headers, Ascii("Content-Length"))[0]), 10) == Some(n)
  {
    hide TokenIs, Values, Trim, ParseUsize, Split, Header;
    var kind, tokens := RequestBodyKind(headers, allowChunked), Tokens(headers);
    if ChunkedLast(tokens) {
      assert TokenIs(tokens[|tokens| - 1], "chunked");
    } else if kind.Ok? {
      assert OnlyIdentity(tokens);
    }
  }

  /** The loop over the header fields, which stops at a second Content-Length. */
  method ContentLengthOf(headers: seq<Field>) returns (r: Result<Option<nat>>)
    ensures r == ContentLength(headers)
  {
    hide SameIgnoringCase, ParseUsize, Trim;
    var name := Ascii("Content-Length");
    var found: Option<nat> := None;
    for i := 0 to |headers|
      invariant found.None? ==> Values(headers, name) == Values(headers[i..], name)
      invariant found.Some? ==>
        exists v :: Values(headers, name) == [v] + Values(headers[i..], name) && ParseUsize(Trim(v), 10) == found
    {
      assert headers[i..][1..] == headers[i + 1..];
      if SameIgnoringCase(headers[i].0, name) {
        var parsed := ParseUsize(Trim(headers[i].1), 10);
        assert Values(headers[i..], name) == [headers[i].1] + Values(headers[i + 1..], name);
        if parsed.None? {
          return Err(Decode);
        }
        if found.Some? {
          return Err(Decode);
        }
        found := parsed;
      }
    }
    assert Values(headers[|headers|..], name) == [];
    return Ok(found);
  }

  function Onto(headers: seq<Field>, rest: Result<seq<Field>>): Result<seq<Field>> {
    match rest
    case Ok(fields) => Ok(headers + fields)
    case Err(e) => Err(e)
  }

  lemma OntoNothing(rest: Result<seq<Field>>)
    ensures Onto([], rest) == rest
  {
    if rest.Ok? {
      assert [] + rest.value == rest.value;
    }
  }

  method ParseHeaderFields(lines: seq<seq<byte>>) returns (r: Result<seq<Field>>)
    ensures r == ParseFields(lines)
  {
    hide ParseField;
    var headers: seq<Field> := [];
    assert lines[0..] == lines;
    OntoNothing(ParseFields(lines));
    for i := 0 to |lines|
      invariant ParseFields(lines) == Onto(headers, ParseFields(lines[i..]))
    {
      assert lines[i..][1..] == lines[i + 1..];
      if lines[i] != [] {
        var f :- ParseField(lines[i]);
        var rest := ParseFields(lines[i + 1..]);
        if rest.Ok? {
          Assoc(headers, [f], rest.value);
        }
        headers := headers + [f];
      }
    }
    assert ParseFields(lines[|lines|..]) == Ok([]) && headers + [] == headers;
    return Ok(headers);
  }

  // ----- Chunked bodies -----

  method ReadSizeLine(src: seq<byte>, pos: nat) returns (r: Result<Option<(nat, nat)>>)
    ensures r == SizeLine(src, pos)
  {
    hide ChunkSize, Valid;
    var lineEnd := Find(src, CRLF, pos);
    if lineEnd.None? {
      return Ok(None);
    }
    if !Valid(src[pos..lineEnd.value]) {
      return Err(Decode);
    }
    var size :- ChunkSize(src[pos..lineEnd.value]);
    return Ok(Some((size, lineEnd.value + 2)));
  }

  method FinishChunkedBody(src: seq<byte>, pos: nat, body: seq<byte>,
        preserveTrailers: bool) returns (r: Result<Option<Body>>)
    ensures r == AfterLastChunk(src, pos, body, preserveTrailers)
  {
    hide Trailers;
    if |src| >= pos + 2 && src[pos..pos + 2] == CRLF {
      return Ok(Some(Body(pos + 2, body, [])));
    }
    var trailerEnd := Find(src, BLANK, pos);
    if trailerEnd.None? {
      return Ok(None);
    }
    var trailers :- Trailers(src[pos..trailerEnd.value], preserveTrailers);
    return Ok(Some(Body(trailerEnd.value + 4, body, trailers)));
  }

  method DecodeChunkedBody(src: seq<byte>, bodyStart: nat, maxBodyLen: usize, preserveTrailers: bool)
    returns (r: Result<Option<Body>>)
    requires bodyStart <= |src|
    ensures r == Chunks(src, bodyStart, [], maxBodyLen, preserveTrailers)
  {
    hide SizeLine, AfterLastChunk;
    var pos := bodyStart;
    var body: seq<byte> := [];
    while true
      invariant pos <= |src|
      invariant Chunks(src, bodyStart, [], maxBodyLen, preserveTrailers) ==
        Chunks(src, pos, body, maxBodyLen, preserveTrailers)
      decreases |src| - pos
    {
      var line :- ReadSizeLine(src, pos);
      if line.None? {
        return Ok(None);
      }
      var (size, start) := line.value;
      if size == 0 {
        r := FinishChunkedBody(src, start, body, preserveTrailers);
        return;
      }
      var grown := if |body| + size < USIZE_END then |body| + size else USIZE_END - 1;
      if grown > maxBodyLen {
        return Err(FrameTooLarge);
      }
      var chunkEnd := start + size;
      if chunkEnd >= USIZE_END || chunkEnd + 2 >= USIZE_END {
        return Err(Decode);
      }
      if |src| < chunkEnd + 2 {
        return Ok(None);
      }
      if src[chunkEnd..chunkEnd + 2] != CRLF {
        return Err(Decode);
      }
      body := body + src[start..chunkEnd];
      pos := chunkEnd + 2;
    }
  }

  /** Takes a complete message off the buffer; `front` is all of its bytes. */
  method SplitRequest(src: BytesMut, o: Options, kind: BodyKind, end: nat) returns (r: Result<Option<Body>>,
        front: seq<byte>)
    requires end + 4 <= |src.data|
    modifies src
    ensures r == ReadBody(o, kind, old(src.data), end + 4)
    ensures if r.Ok? && r.value.Some?
            then front == old(src.data)[..r.value.value.end] && src.data == old(src.data)[r.value.value.end..]
            else src.data == old(src.data)
  {
    hide Chunks;
    front := [];
    match kind {
      case NoBody =>
        front := src.SplitTo(end + 4);
        assert front[end + 4..] == [];
        r := Ok(Some(Body(end + 4, front[end + 4..], [])));
      case Length(n) =>
        if n > o.maxBodyLen {
          return Err(FrameTooLarge), [];
        }
        if end + 4 + n >= USIZE_END {
          return Err(Decode), [];
        }
        if |src.data| < end + 4 + n {
          return Ok(None), [];
        }
        front := src.SplitTo(end + 4 + n);
        assert front[end + 4..] == old(src.data)[end + 4..end + 4 + n];
        r := Ok(Some(Body(end + 4 + n, front[end + 4..], [])));
      case Chunked =>
        r := DecodeChunkedBody(src.data, end + 4, o.maxBodyLen, o.preserveTrailers);
        if r.Ok? && r.value.Some? {
          front := src.SplitTo(r.value.value.end);
        }
    }
  }

  method DecodeHttpRequest(src: BytesMut, o: Options) returns (r: Result<Option<Request>>)
    modifies src
    ensures Performs(DecodeRequest(o, old(src.data)), old(src.data), r, src.data)
  {
    hide ParseHead, RequestBodyKind, ReadBody, BuildRequest, Valid;
    var headerEnd := Find(src.data, BLANK, 0);
    if headerEnd.None? {
      return if |src.data| > o.maxHeaderLen then Err(FrameTooLarge) else Ok(None);
    }
    var end := headerEnd.value;
    if end > o.maxHeaderLen {
      return Err(FrameTooLarge);
    }
    if !Valid(src.data[..end + 4]) {
      return Err(Decode);
    }
    var head :- ParseHead(src.data[..end + 4]);
    var kind :- RequestBodyKind(head.headers, o.allowChunked);
    var split, front := SplitRequest(src, o, kind, end);
    var body :- split;
    if body.None? {
      return Ok(None);
    }
    assert front[..end] == old(src.data)[..end];
    var request :- BuildRequest(front[..end], body.value);
    return Ok(Some(request));
  }

  // ----- Responses -----

  datatype Response = Response(status: u16, reason: seq<byte>, headers: seq<Field>, body: seq<byte>)

  function Decimal(n: nat): (s: seq<byte>)
    ensures s != []
  {
    if n < 10 then [0x30 + n] else Decimal(n / 10) + [0x30 + n % 10]
  }

  function StatusLine(r: Response): seq<byte> {
    Ascii("HTTP/1.1 ") + (Decimal(r.status) + ([0x20] + r.reason))
  }

  /** The fields as sent: a Content-Length is added unless there is one already. */
  function SentFields(r: Response): seq<Field> {
    if Values(r.headers, Ascii("Content-Length")) != [] then r.headers
    else r.headers + [(Ascii("Content-Length"), Decimal(|r.body|))]
  }

  function EncodeResponse(r: Response): seq<byte> {
    Join([StatusLine(r)] + FieldLines(SentFields(r))) + (BLANK + r.body)
  }

  method ExtendField(dst: BytesMut, f: Field)
    modifies dst
    ensures dst.data == old(dst.data) + (FieldLine(f) + CRLF)
  {
    dst.Extend(f.0);
    dst.Extend([0x3a, 0x20]);
    dst.Extend(f.1);
    dst.Extend(CRLF);
  }

  function Terminated(lines: seq<seq<byte>>): seq<byte> {
    if lines == [] then [] else lines[0] + (CRLF + Terminated(lines[1..]))
  }

  lemma {:induction false} TerminatedSnoc(lines: seq<seq<byte>>, line: seq<byte>)
    ensures Terminated(lines + [line]) == Terminated(lines) + (line + CRLF)
  {
    if lines == [] {
      assert lines + [line] == [line] && [line][1..] == [];
      assert line + (CRLF + []) == line + CRLF;
    } else {
      assert (lines + [line])[1..] == lines[1..] + [line];
      TerminatedSnoc(lines[1..], line);
      Assoc(CRLF, Terminated(lines[1..]), line + CRLF);
      Assoc(lines[0], CRLF + Terminated(lines[1..]), line + CRLF);
    }
  }

  lemma {:induction false} TerminatedIsJoined(lines: seq<seq<byte>>)
    requires lines != []
    ensures Terminated(lines) == Join(lines) + CRLF
  {
    if |lines| == 1 {
      assert lines[0] + (CRLF + []) == lines[0] + CRLF;
    } else {
      TerminatedIsJoined(lines[1..]);
      Assoc(CRLF, Join(lines[1..]), CRLF);
      Assoc(lines[0], CRLF + Join(lines[1..]), CRLF);
    }
  }

  method EncodeHttpResponse(r: Response, dst: BytesMut)
    modifies dst
    ensures dst.data == old(dst.data) + EncodeResponse(r)
  {
    hide SameIgnoringCase, Decimal, Ascii, Join;
    ghost var before := dst.data;
    var name := Ascii("Content-Length");
    dst.Extend(Ascii("HTTP/1.1 "));
    dst.Extend(Decimal(r.status));
    dst.Extend([0x20]);
    dst.Extend(r.reason);
    dst.Extend(CRLF);
    ghost var sent := [StatusLine(r)];
    StatusLineBytes(before, r);
    var hasContentLen := false;
    for i := 0 to |r.headers|
      invariant sent == [StatusLine(r)] + FieldLines(r.headers[..i])
      invariant dst.data == before + Terminated(sent)
      invariant hasContentLen <==> Values(r.headers[..i], name) != []
    {
      ValuesSnoc(r.headers[..i], r.headers[i], name);
      assert r.headers[..i + 1] == r.headers[..i] + [r.headers[i]];
      if SameIgnoringCase(r.headers[i].0, name) {
        hasContentLen := true;
      }
      ExtendField(dst, r.headers[i]);
      TerminatedSnoc(sent, FieldLine(r.headers[i]));
      Assoc(before, Terminated(sent), FieldLine(r.headers[i]) + CRLF);
      sent := sent + [FieldLine(r.headers[i])];
      assert FieldLines(r.headers[..i + 1]) == FieldLines(r.headers[..i]) + [FieldLine(r.headers[i])];
    }
    assert r.headers[..|r.headers|] == r.headers;
    if !hasContentLen {
      var f := (name, Decimal(|r.body|));
      ExtendField(dst, f);
      TerminatedSnoc(sent, FieldLine(f));
      Assoc(before, Terminated(sent), FieldLine(f) + CRLF);
      sent := sent + [FieldLine(f)];
      assert FieldLines(r.headers + [f]) == FieldLines(r.headers) + [FieldLine(f)];
    }
    assert sent == [StatusLine(r)] + FieldLines(SentFields(r));
    dst.Extend(CRLF);
    dst.Extend(r.body);
    TerminatedIsJoined(sent);
    FinishedBytes(before, Join(sent), r.body);
  }

  lemma StatusLineBytes(before: seq<byte>, r: Response)
    ensures before + Ascii("HTTP/1.1 ") + Decimal(r.status) + [0x20] + r.reason + CRLF ==
        before + Terminated([StatusLine(r)])
  {
    hide Ascii, Decimal;
    assert [StatusLine(r)][1..] == [];
    assert StatusLine(r) + (CRLF + []) == StatusLine(r) + CRLF;
  }

  lemma FinishedBytes(before: seq<byte>, head: seq<byte>, body: seq<byte>)
    ensures before + (head + CRLF) + CRLF + body == before + (head + (BLANK + body))
  {
    assert CRLF + CRLF == BLANK;
  }

  lemma {:induction false} ValuesSnoc(fs: seq<Field>, f: Field, name: seq<byte>)
    ensures Values(fs + [f], name) == Values(fs, name) + if SameIgnoringCase(f.0, name) then [f.1] else []
  {
    hide SameIgnoringCase;
    if fs == [] {
      assert fs + [f] == [f] && [f][1..] == [];
    } else {
      assert (fs + [f])[1..] == fs[1..] + [f];
      ValuesSnoc(fs[1..], f, name);
    }
  }

  // ----- Responses delimit themselves -----

  lemma {:induction false} DecimalSpells(n: nat)
    ensures Digits(Decimal(n), 10) && DigitsValue(Decimal(n), 10) == n
  {
    if n < 10 {
      assert [0x30 + n][..0] == [];
    } else {
      DecimalSpells(n / 10);
      var s := Decimal(n / 10);
      assert (s + [0x30 + n % 10])[..|s|] == s;
    }
  }

  lemma DecimalIsPlain(n: nat)
    ensures n < USIZE_END ==> ParseUsize(Decimal(n), 10) == Some(n)
    ensures Trim(Decimal(n)) == Decimal(n)
    ensures forall i | 0 <= i < |Decimal(n)| :: 0x30 <= Decimal(n)[i] <= 0x39
  {
    DecimalSpells(n);
    PlainDigits(Decimal(n));
  }

  lemma PlainDigits(s: seq<byte>)
    requires Digits(s, 10)
    ensures DigitsValue(s, 10) < USIZE_END ==> ParseUsize(s, 10) == Some(DigitsValue(s, 10))
    ensures Trim(s) == s
    ensures forall i | 0 <= i < |s| :: 0x30 <= s[i] <= 0x39
  {
    hide DigitsValue, Digit, Trim;
    DigitsAreAscii(s);
    assert [] + (s + []) == s;
    SizeTrims([], s, []);
  }

  lemma DigitsAreAscii(s: seq<byte>)
    requires Digits(s, 10)
    ensures Digits(s, 16)
    ensures forall i | 0 <= i < |s| :: 0x30 <= s[i] <= 0x39
  {
    assert forall i | 0 <= i < |s| :: Digit(s[i]) < 10;
  }

  lemma LengthNameIsPlain()
    ensures var name := Ascii("Content-Length");
            && (forall i | 0 <= i < |name| :: 0x21 <= name[i] < 0x80 && name[i] != 0x3a)
            && Trim(name) == name
  {
    var name := Ascii("Content-Length");
    assert SpaceAt(name) == 0;
    AsciiEndIsNoSpace(name);
  }

  lemma LengthFieldIsPrintable(n: nat)
    ensures PrintableField((Ascii("Content-Length"), Decimal(n)))
  {
    LengthNameIsPlain();
    DecimalIsPlain(n);
    hide Decimal, Trim, Ascii;
    AsciiIsValid(Ascii("Content-Length"));
    AsciiIsValid(Decimal(n));
    NoCrNoCrlf(FieldLine((Ascii("Content-Length"), Decimal(n))));
  }

  lemma VersionIsPlain()
    ensures forall i | 0 <= i < |Ascii("HTTP/1.1 ")| :: SizeByte(Ascii("HTTP/1.1 ")[i])
  {
  }

  lemma StatusLineIsPrintable(r: Response)
    requires Valid(r.reason) && NoCrlf(r.reason)
    ensures Printable(StatusLine(r))
  {
    hide Decimal, Ascii, Trim, ParseUsize, Valid, NoCrlf;
    DecimalIsPlain(r.status);
    VersionIsPlain();
    var digits := Decimal(r.status) + [0x20];
    var front := Ascii("HTTP/1.1 ") + digits;
    assert forall i | 0 <= i < |digits| :: SizeByte(digits[i]);
    assert forall i | 0 <= i < |front| :: SizeByte(front[i]);
    SizeLineIsText(front, r.reason);
    Assoc(Decimal(r.status), [0x20], r.reason);
    Assoc(Ascii("HTTP/1.1 "), digits, r.reason);
  }

  /** A client finds the end of the head, reads back the fields, and finds the body's length among them: a response
      whose handler set no Content-Length of its own is self-delimiting. */
  lemma ResponseIsSelfDelimiting(r: Response, t: seq<byte>, head: seq<byte>)
    requires Valid(r.reason) && NoCrlf(r.reason) && PrintableFields(r.headers)
    requires Values(r.headers, Ascii("Content-Length")) == [] && |r.body| < USIZE_END
    requires head == Join([StatusLine(r)] + FieldLines(r.headers + [(Ascii("Content-Length"), Decimal(|r.body|))]))
    ensures Find(EncodeResponse(r) + t, BLANK, 0) == Some(|head|)
    ensures var fields := r.headers + [(Ascii("Content-Length"), Decimal(|r.body|))];
            && Lines(head)[0] == StatusLine(r) && ParseFields(Lines(head)[1..]) == Ok(fields)
            && ContentLength(fields) == Ok(Some(|r.body|))
    ensures (EncodeResponse(r) + t)[|head| + 4..] == r.body + t
  {
    var fields := r.headers + [(Ascii("Content-Length"), Decimal(|r.body|))];
    var lines := [StatusLine(r)] + FieldLines(fields);
    SentFieldsArePrintable(r);
    assert fields == SentFields(r);
    hide PrintableField, Printable, Lines, Find, Decimal, StatusLine, ParseFields, Join, SentFields;
    hide Values, Ascii, ContentLength, FieldLine, Valid, NoCrlf;
    hide FieldLines, PrintableLines;
    SentLinesArePrintable(r, fields);
    LinesOfJoin(lines);
    BlankAfterJoin(lines, r.body + t);
    FieldsRead(fields);
    assert lines[1..] == FieldLines(fields);
    Assoc(head, BLANK + r.body, t);
    Assoc(BLANK, r.body, t);
    RequestParts(head, r.body, t);
  }

  lemma SentLinesArePrintable(r: Response, fields: seq<Field>)
    requires Valid(r.reason) && NoCrlf(r.reason) && PrintableFields(fields)
    ensures PrintableLines([StatusLine(r)] + FieldLines(fields))
  {
    hide PrintableField, Printable, StatusLine;
    StatusLineIsPrintable(r);
    forall i | 0 <= i < |fields|
      ensures Printable(FieldLines(fields)[i])
    {
      FieldLineIsPrintable(fields[i]);
    }
  }

  lemma SentFieldsArePrintable(r: Response)
    requires PrintableFields(r.headers)
    requires Values(r.headers, Ascii("Content-Length")) == [] && |r.body| < USIZE_END
    ensures PrintableFields(SentFields(r)) && ContentLength(SentFields(r)) == Ok(Some(|r.body|))
  {
    hide PrintableField, Decimal, Trim, ParseUsize;
    LengthFieldIsPrintable(|r.body|);
    DecimalIsPlain(|r.body|);
    ValuesSnoc(r.headers, (Ascii("Content-Length"), Decimal(|r.body|)), Ascii("Content-Length"));
  }
}
