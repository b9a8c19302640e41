/** What a client puts on the wire, and that decoding recovers it: requests without a body, with a Content-Length,
    and in chunks (sections 3, 6.3 and 7.1 of RFC 9112). */
module HttpPrinting {
  import opened Core
  import opened Framing
  import opened Http
  import opened HttpText
  import opened Search
  import opened Utf8

  // ----- Lines -----

  function Join(lines: seq<seq<byte>>): seq<byte>
    requires lines != []
  {
    if |lines| == 1 then lines[0] else lines[0] + (CRLF + Join(lines[1..]))
  }

  predicate Printable(line: seq<byte>) { line != [] && NoCrlf(line) && Valid(line) }

  predicate PrintableLines(lines: seq<seq<byte>>) {
    lines != [] && forall i | 0 <= i < |lines| :: Printable(lines[i])
  }

  lemma {:induction false} LinesOfJoin(lines: seq<seq<byte>>)
    requires PrintableLines(lines)
    ensures Lines(Join(lines)) == lines
  {
    hide Valid, Find, MatchAt;
    assert Printable(lines[0]);
    if |lines| > 1 {
      hide Lines;
      assert forall i | 0 <= i < |lines[1..]| :: lines[1..][i] == lines[i + 1];
      LinesOfJoined(lines[0], Join(lines[1..]));
      LinesOfJoin(lines[1..]);
    }
  }

  lemma {:induction false} JoinIsText(lines: seq<seq<byte>>)
    requires PrintableLines(lines)
    ensures Valid(Join(lines))
  {
    hide NoCrlf, Valid;
    assert Printable(lines[0]);
    if |lines| > 1 {
      assert forall i | 0 <= i < |lines[1..]| :: lines[1..][i] == lines[i + 1];
      JoinIsText(lines[1..]);
      AsciiIsValid(CRLF);
      ValidAppend(CRLF, Join(lines[1..]));
      ValidAppend(lines[0], CRLF + Join(lines[1..]));
    }
  }

  lemma BlankBeginsWithCrlf(s: seq<byte>, j: nat)
    requires MatchAt(s, BLANK, j)
    ensures MatchAt(s, CRLF, j) && MatchAt(s, CRLF, j + 2) && s[j] == 0x0d
  {
    assert s[j..j + 2] == s[j..j + 4][..2] && s[j + 2..j + 4] == s[j..j + 4][2..];
  }

  /** No blank line starts inside a line. */
  lemma NoBlankInLine(line: seq<byte>, t: seq<byte>, j: nat)
    requires NoCrlf(line) && j < |line|
    ensures !MatchAt(line + (CRLF + t), BLANK, j)
  {
    var s := line + (CRLF + t);
    NotYetCrlf(line, t, j);
    if MatchAt(s, BLANK, j) {
      BlankBeginsWithCrlf(s, j);
    }
  }

  /** The blank line behind non-empty lines is the first one. */
  lemma {:induction false} BlankAfterJoin(lines: seq<seq<byte>>, t: seq<byte>)
    requires PrintableLines(lines)
    ensures Find(Join(lines) + (BLANK + t), BLANK, 0) == Some(|Join(lines)|)
  {
    hide Valid, Find, MatchAt;
    var line := lines[0];
    assert Printable(line);
    if |lines| == 1 {
      assert BLANK + t == CRLF + (CRLF + t);
      BlankBehind(line, t);
    } else {
      assert forall i | 0 <= i < |lines[1..]| :: lines[1..][i] == lines[i + 1];
      var rest := Join(lines[1..]);
      BlankAfterJoin(lines[1..], t);
      assert Printable(lines[1]);
      NoBlankNorCrlf(lines[1..], t);
      BlankFurther(line, rest + (BLANK + t), |rest|);
      Assoc(line, CRLF + rest, BLANK + t);
      Assoc(CRLF, rest, BLANK + t);
    }
  }

  lemma BlankBehind(line: seq<byte>, t: seq<byte>)
    requires NoCrlf(line)
    ensures Find(line + (BLANK + t), BLANK, 0) == Some(|line|)
  {
    hide MatchAt, NoCrlf, Find;
    MatchPlaced(line, BLANK, t);
    assert BLANK + t == CRLF + (CRLF + t);
    forall j | 0 <= j < |line|
      ensures !MatchAt(line + (BLANK + t), BLANK, j)
    {
      NoBlankInLine(line, CRLF + t, j);
    }
    FindIs(line + (BLANK + t), BLANK, 0, |line|);
  }

  /** Joined lines do not begin with a line end. */
  lemma NoBlankNorCrlf(lines: seq<seq<byte>>, t: seq<byte>)
    requires PrintableLines(lines)
    ensures !MatchAt(Join(lines) + (BLANK + t), CRLF, 0)
  {
    hide Valid;
    var line := lines[0];
    assert Printable(line);
    if |lines| == 1 {
      assert BLANK + t == CRLF + (CRLF + t);
      NotYetCrlf(line, CRLF + t, 0);
    } else {
      Assoc(line, CRLF + Join(lines[1..]), BLANK + t);
      Assoc(CRLF, Join(lines[1..]), BLANK + t);
      NotYetCrlf(line, Join(lines[1..]) + (BLANK + t), 0);
    }
  }

  lemma NoBlankYet(line: seq<byte>, tail: seq<byte>, j: nat)
    requires NoCrlf(line) && j < |line| + 2 && !MatchAt(tail, CRLF, 0)
    ensures !MatchAt(line + (CRLF + tail), BLANK, j)
  {
    hide NoCrlf;
    var s := line + (CRLF + tail);
    if j < |line| {
      NoBlankInLine(line, tail, j);
    } else if MatchAt(s, BLANK, j) {
      BlankBeginsWithCrlf(s, j);
    }
  }

  lemma BlankFurther(line: seq<byte>, tail: seq<byte>, at: nat)
    requires NoCrlf(line) && Find(tail, BLANK, 0) == Some(at) && !MatchAt(tail, CRLF, 0)
    ensures Find(line + (CRLF + tail), BLANK, 0) == Some(|line| + 2 + at)
  {
    hide NoCrlf, MatchAt;
    var s := line + (CRLF + tail);
    Assoc(line, CRLF, tail);
    FindShifts(line + CRLF, tail, BLANK, 0);
    forall j | 0 <= j < |line| + 2
      ensures !MatchAt(s, BLANK, j)
    {
      NoBlankYet(line, tail, j);
    }
    FindIs(s, BLANK, 0, |line| + 2 + at);
  }

  // ----- Words and fields -----

  predicate Word(w: seq<byte>) {
    w != [] && Valid(w) && forall i | 0 <= i < |w| :: SpaceAt(w[i..]) == 0
  }

  lemma NoSpaceStands(s: seq<byte>, t: seq<byte>)
    requires s != [] && SpaceAt(s) == 0 && (t == [] || t[0] == 0x20)
    ensures SpaceAt(s + t) == 0
  {
    var u := s + t;
    assert u[0] == s[0];
    if |s| == 1 && t != [] {
      assert u[1] == 0x20;
    } else if |s| == 2 && t != [] {
      assert u[1] == s[1] && u[2] == 0x20;
    } else if |s| >= 2 {
      assert u[1] == s[1];
      if |s| >= 3 {
        assert u[2] == s[2];
      }
    } else {
      assert u == s;
    }
  }

  lemma {:induction false} WordEnds(w: seq<byte>, t: seq<byte>)
    requires forall i | 0 <= i < |w| :: SpaceAt(w[i..]) == 0
    requires t == [] || t[0] == 0x20
    ensures WordLen(w + t) == |w|
  {
    if w == [] {
      assert w + t == t;
    } else {
      assert w[0..] == w;
      NoSpaceStands(w, t);
      assert (w + t)[1..] == w[1..] + t;
      forall i | 0 <= i < |w[1..]|
        ensures SpaceAt(w[1..][i..]) == 0
      {
        assert w[1..][i..] == w[i + 1..];
      }
      WordEnds(w[1..], t);
    }
  }

  /** A word in front of a space, or at the end, reads back. */
  lemma WordReads(w: seq<byte>, t: seq<byte>)
    requires Word(w) && (t == [] || t[0] == 0x20)
    ensures NextWord(w + t) == (w, t) && NextWord([0x20] + (w + t)) == (w, t)
  {
    assert w[0..] == w;
    NoSpaceStands(w, t);
    WordEnds(w, t);
    CutJoined(w, t);
    assert ([0x20] + (w + t))[1..] == w + t;
  }

  function FieldLine(f: Field): seq<byte> { f.0 + ([0x3a, 0x20] + f.1) }

  predicate PrintableField(f: Field) {
    && Valid(f.0) && Valid(f.1) && NoCrlf(FieldLine(f))
    && 0x3a !in f.0 && Trim(f.0) == f.0 && Trim(f.1) == f.1
  }

  predicate PrintableFields(fs: seq<Field>) { forall i | 0 <= i < |fs| :: PrintableField(fs[i]) }

  function FieldLines(fs: seq<Field>): (lines: seq<seq<byte>>)
    ensures |lines| == |fs|
  {
    seq(|fs|, i requires 0 <= i < |fs| => FieldLine(fs[i]))
  }

  lemma ColonEnds(name: seq<byte>, t: seq<byte>)
    requires 0x3a !in name
    ensures Find(name + ([0x3a] + t), [0x3a], 0) == Some(|name|)
  {
    var s := name + ([0x3a] + t);
    MatchPlaced(name, [0x3a], t);
    forall j | 0 <= j < |name|
      ensures !MatchAt(s, [0x3a], j)
    {
      assert s[j..j + 1][0] == s[j] == name[j];
    }
    hide MatchAt, Find;
    FindIs(s, [0x3a], 0, |name|);
  }

  lemma SpaceTrims(v: seq<byte>)
    ensures Trim([0x20] + v) == Trim(v)
  {
    assert ([0x20] + v)[1..] == v;
  }

  lemma FieldReads(f: Field)
    requires PrintableField(f)
    ensures ParseField(FieldLine(f)) == Ok(f)
  {
    hide Valid, NoCrlf, Trim, Find;
    var line := FieldLine(f);
    assert [0x3a, 0x20] + f.1 == [0x3a] + ([0x20] + f.1);
    ColonEnds(f.0, [0x20] + f.1);
    SpaceTrims(f.1);
    assert line[..|f.0|] == f.0 && line[|f.0| + 1..] == [0x20] + f.1;
  }

  lemma FieldLineIsPrintable(f: Field)
    requires PrintableField(f)
    ensures Printable(FieldLine(f))
  {
    hide NoCrlf, Trim;
    AsciiIsValid([0x3a, 0x20]);
    ValidAppend([0x3a, 0x20], f.1);
    ValidAppend(f.0, [0x3a, 0x20] + f.1);
  }

  lemma {:induction false} FieldsRead(fs: seq<Field>)
    requires PrintableFields(fs)
    ensures ParseFields(FieldLines(fs)) == Ok(fs)
  {
    hide ParseField, PrintableField;
    if fs != [] {
      FieldReads(fs[0]);
      FieldLineIsPrintable(fs[0]);
      assert FieldLines(fs)[1..] == FieldLines(fs[1..]);
      FieldsRead(fs[1..]);
      assert fs == [fs[0]] + fs[1..];
    }
  }

  // ----- Heads -----

  function RequestLine(h: Head): seq<byte> {
    h.httpMethod + ([0x20] + (h.target + ([0x20] + h.version)))
  }

  predicate PrintableHead(h: Head) {
    && Word(h.httpMethod) && Word(h.target) && Word(h.version)
    && Ascii("HTTP/1.") <= h.version
    && PrintableFields(h.headers)
  }

  function HeadLines(h: Head): (lines: seq<seq<byte>>)
    ensures lines != []
  {
    [RequestLine(h)] + FieldLines(h.headers)
  }

  function PrintHead(h: Head): seq<byte> { Join(HeadLines(h)) }

  lemma NoCrNoCrlf(s: seq<byte>)
    requires 0x0d !in s
    ensures NoCrlf(s)
  {
    forall j | 0 <= j
      ensures !MatchAt(s, CRLF, j)
    {
      if j + 2 <= |s| {
        assert s[j..j + 2][0] == s[j];
      }
    }
  }

  lemma NoCrInWord(w: seq<byte>)
    requires Word(w)
    ensures 0x0d !in w
  {
    forall i | 0 <= i < |w|
      ensures w[i] != 0x0d
    {
      assert SpaceAt(w[i..]) == 0;
    }
  }

  lemma RequestLineIsPrintable(h: Head)
    requires PrintableHead(h)
    ensures Printable(RequestLine(h))
  {
    NoCrInWord(h.httpMethod);
    NoCrInWord(h.target);
    NoCrInWord(h.version);
    NoCrNoCrlf(RequestLine(h));
    RequestLineIsText(h.httpMethod, h.target, h.version);
  }

  lemma RequestLineIsText(m: seq<byte>, t: seq<byte>, v: seq<byte>)
    requires Valid(m) && Valid(t) && Valid(v)
    ensures Valid(m + ([0x20] + (t + ([0x20] + v))))
  {
    hide Valid;
    AsciiIsValid([0x20]);
    ValidAppend([0x20], v);
    ValidAppend(t, [0x20] + v);
    ValidAppend([0x20], t + ([0x20] + v));
    ValidAppend(m, [0x20] + (t + ([0x20] + v)));
  }

  /** Parsing a request line undoes printing it. */
  lemma RequestLineReads(m: seq<byte>, t: seq<byte>, v: seq<byte>)
    requires Word(m) && Word(t) && Word(v)
    ensures var (m', r1) := NextWord(m + ([0x20] + (t + ([0x20] + v))));
            var (t', r2) := NextWord(r1);
            m' == m && t' == t && NextWord(r2).0 == v
    ensures m != [] && t != []
  {
    hide NextWord, SpaceAt;
    WordReads(m, [0x20] + (t + ([0x20] + v)));
    WordReads(t, [0x20] + v);
    assert v + [] == v;
    WordReads(v, []);
  }

  lemma HeadLinesArePrintable(h: Head)
    requires PrintableHead(h)
    ensures PrintableLines(HeadLines(h))
  {
    hide Printable, PrintableField, Word;
    RequestLineIsPrintable(h);
    forall i | 0 <= i < |h.headers|
      ensures Printable(FieldLines(h.headers)[i])
    {
      FieldLineIsPrintable(h.headers[i]);
    }
  }

  /** Parsing a head undoes printing it. */
  lemma HeadReads(h: Head)
    requires PrintableHead(h)
    ensures Valid(PrintHead(h)) && ParseHead(PrintHead(h)) == Ok(h)
  {
    hide PrintableLines, NextWord, Word, FieldLines, ParseFields, PrintableFields, Join, Valid, Lines;
    HeadLinesArePrintable(h);
    JoinIsText(HeadLines(h));
    LinesOfJoin(HeadLines(h));
    RequestLineReads(h.httpMethod, h.target, h.version);
    HeadFieldsRead(h);
    assert HeadLines(h)[1..] == FieldLines(h.headers);
  }

  lemma HeadFieldsRead(h: Head)
    requires PrintableHead(h)
    ensures ParseFields(FieldLines(h.headers)) == Ok(h.headers)
  {
    hide PrintableFields;
    FieldsRead(h.headers);
  }

  // ----- Chunks -----

  /** A chunk with its size line as the client spelled it. */
  datatype Chunk = Chunk(line: seq<byte>, data: seq<byte>)

  predicate Spells(line: seq<byte>, size: nat) {
    NoCrlf(line) && Valid(line) && ChunkSize(line) == Ok(size)
  }

  predicate WellFormedChunks(cs: seq<Chunk>) {
    forall i | 0 <= i < |cs| :: cs[i].data != [] && Spells(cs[i].line, |cs[i].data|)
  }

  function Data(cs: seq<Chunk>): seq<byte> {
    if cs == [] then [] else cs[0].data + Data(cs[1..])
  }

  function TrailerPart(trailers: seq<Field>): seq<byte> {
    if trailers == [] then CRLF else Join(FieldLines(trailers)) + BLANK
  }

  function EncodeChunks(cs: seq<Chunk>, last: seq<byte>, trailers: seq<Field>): seq<byte> {
    if cs == [] then last + (CRLF + TrailerPart(trailers))
    else cs[0].line + (CRLF + (cs[0].data + (CRLF + EncodeChunks(cs[1..], last, trailers))))
  }

  /** A size line, standing anywhere in the buffer, reads as the size it spells. */
  lemma SizeLineReads(src: seq<byte>, pos: nat, line: seq<byte>, size: nat, u: seq<byte>)
    requires pos <= |src| && src[pos..] == line + (CRLF + u) && Spells(line, size)
    ensures SizeLine(src, pos) == Ok(Some((size, pos + |line| + 2)))
    ensures src[pos + |line| + 2..] == u
  {
    hide ChunkSize, Valid, Find;
    LineEnd(line, u);
    JoinCut(src, pos);
    FindShifts(src[..pos], src[pos..], CRLF, 0);
    assert src[pos..pos + |line|] == src[pos..][..|line|] == line;
    assert src[pos + |line| + 2..] == src[pos..][|line| + 2..] == u;
  }

  lemma ChunkDataReads(src: seq<byte>, pos: nat, data: seq<byte>, u: seq<byte>, received: nat, max: usize)
    requires pos <= |src| < USIZE_END && src[pos..] == data + (CRLF + u) && received + |data| <= max
    ensures ChunkEnd(src, pos, |data|, received, max) == Ok(Some(pos + |data| + 2))
    ensures src[pos..pos + |data|] == data && src[pos + |data| + 2..] == u
  {
    var n := |data|;
    assert src[pos..pos + n] == src[pos..][..n];
    assert src[pos + n..pos + n + 2] == src[pos..][n..n + 2] == CRLF;
    assert src[pos + n + 2..] == src[pos..][n + 2..];
  }

  lemma FieldLinesArePrintable(fs: seq<Field>)
    requires PrintableFields(fs) && fs != []
    ensures PrintableLines(FieldLines(fs))
  {
    hide Printable, PrintableField;
    forall i | 0 <= i < |fs|
      ensures Printable(FieldLines(fs)[i])
    {
      FieldLineIsPrintable(fs[i]);
    }
  }

  lemma TrailersRead(fs: seq<Field>, preserve: bool)
    requires PrintableFields(fs) && fs != []
    ensures Trailers(Join(FieldLines(fs)), preserve) == Ok(if preserve then fs else [])
  {
    hide PrintableFields, PrintableLines, ParseFields, Lines, Valid;
    FieldLinesArePrintable(fs);
    JoinIsText(FieldLines(fs));
    LinesOfJoin(FieldLines(fs));
    FieldsRead(fs);
    assert Lines([]) == [[]] by {
      LinesOfNothing();
    }
    assert FieldLines(fs)[0] != [];
  }

  lemma LinesOfNothing()
    ensures Lines([]) == [[]]
  {
  }

  lemma TrailerPartReads(src: seq<byte>, pos: nat, fs: seq<Field>, t: seq<byte>, content: seq<byte>, preserve: bool)
    requires pos <= |src| && src[pos..] == TrailerPart(fs) + t && PrintableFields(fs)
    ensures AfterLastChunk(src, pos, content, preserve) ==
            Ok(Some(Body(pos + |TrailerPart(fs)|, content, if preserve then fs else [])))
  {
    hide Trailers, Find, MatchAt, PrintableFields, PrintableLines;
    JoinCut(src, pos);
    MatchShifts(src[..pos], src[pos..], CRLF, 0);
    if fs == [] {
      MatchPlaced([], CRLF, t);
      assert [] + (CRLF + t) == CRLF + t;
    } else {
      var text := Join(FieldLines(fs));
      FieldLinesArePrintable(fs);
      TrailersRead(fs, preserve);
      Assoc(text, BLANK, t);
      BlankAfterJoin(FieldLines(fs), t);
      NoBlankNorCrlf(FieldLines(fs), t);
      FindShifts(src[..pos], src[pos..], BLANK, 0);
      assert src[pos..pos + |text|] == src[pos..][..|text|] == text;
    }
  }

  /** Decoding a chunked body inverts encoding it, for any chunks, any spelling of their sizes and any trailers,
      wherever it stands and whatever follows. */
  lemma {:induction false} ChunkedRoundTrip(src: seq<byte>, pos: nat, cs: seq<Chunk>, last: seq<byte>,
        fs: seq<Field>, t: seq<byte>,
                                            content: seq<byte>, max: usize, preserve: bool)
    requires pos <= |src| < USIZE_END && src[pos..] == EncodeChunks(cs, last, fs) + t
    requires WellFormedChunks(cs) && Spells(last, 0) && PrintableFields(fs)
    requires |content| + |Data(cs)| <= max
    ensures Chunks(src, pos, content, max, preserve) ==
            Ok(Some(Body(pos + |EncodeChunks(cs, last, fs)|, content + Data(cs), if preserve then fs else [])))
    decreases |cs|
  {
    hide Spells, SizeLine, ChunkEnd, AfterLastChunk, PrintableFields, TrailerPart;
    if cs == [] {
      Assoc(last, CRLF + TrailerPart(fs), t);
      Assoc(CRLF, TrailerPart(fs), t);
      SizeLineReads(src, pos, last, 0, TrailerPart(fs) + t);
      TrailerPartReads(src, pos + |last| + 2, fs, t, content, preserve);
      assert content + [] == content;
    } else {
      var c := cs[0];
      var u := EncodeChunks(cs[1..], last, fs);
      Assoc(c.line, CRLF + (c.data + (CRLF + u)), t);
      Assoc(CRLF, c.data + (CRLF + u), t);
      Assoc(c.data, CRLF + u, t);
      Assoc(CRLF, u, t);
      SizeLineReads(src, pos, c.line, |c.data|, c.data + (CRLF + (u + t)));
      var start := pos + |c.line| + 2;
      ChunkDataReads(src, start, c.data, u + t, |content|, max);
      ChunkedRoundTrip(src, start + |c.data| + 2, cs[1..], last, fs, t, content + c.data, max, preserve);
      Assoc(content, c.data, Data(cs[1..]));
    }
  }

  // ----- Spelling chunk sizes -----

  /** Any hexadecimal spelling, letter case and leading zeros included, may be padded and followed by an extension. */
  lemma SpelledSizeReads(before: seq<byte>, digits: seq<byte>, after: seq<byte>, extension: seq<byte>)
    requires Padding(before) && Padding(after) && Digits(digits, 16) && DigitsValue(digits, 16) < USIZE_END
    requires NoCrlf(extension) && Valid(extension) && (extension == [] || extension[0] == 0x3b)
    ensures Spells(before + (digits + (after + extension)), DigitsValue(digits, 16))
  {
    var size := before + (digits + after);
    var line := before + (digits + (after + extension));
    Assoc(digits, after, extension);
    Assoc(before, digits + after, extension);
    assert line == size + extension;
    forall i | 0 <= i < |size|
      ensures SizeByte(size[i])
    {
      if |before| <= i < |before| + |digits| {
        assert size[i] == digits[i - |before|];
      }
    }
    SizeLineIsText(size, extension);
    FirstPartIsSize(size, extension);
    SizeTrims(before, digits, after);
    SizeDigits(digits);
  }

  predicate SizeByte(b: byte) { b != 0x0d && b != 0x3b && b < 0x80 }

  lemma SizeLineIsText(size: seq<byte>, extension: seq<byte>)
    requires forall i | 0 <= i < |size| :: SizeByte(size[i])
    requires NoCrlf(extension) && Valid(extension)
    ensures NoCrlf(size + extension) && Valid(size + extension)
  {
    AsciiIsValid(size);
    ValidAppend(size, extension);
    hide Valid;
    forall j: nat
      ensures !MatchAt(size + extension, CRLF, j)
    {
      if j < |size| {
        if j + 2 <= |size + extension| {
          assert (size + extension)[j..j + 2][0] == size[j];
        }
      } else {
        MatchShifts(size, extension, CRLF, j - |size|);
      }
    }
  }

  lemma FirstPartIsSize(size: seq<byte>, extension: seq<byte>)
    requires forall i | 0 <= i < |size| :: SizeByte(size[i])
    requires extension == [] || extension[0] == 0x3b
    ensures Split(size + extension, 0x3b)[0] == size
  {
    var line := size + extension;
    forall j: nat | j < |size|
      ensures !MatchAt(line, [0x3b], j)
    {
      assert line[j..j + 1][0] == size[j];
    }
    if extension == [] {
      assert line == size;
    } else {
      assert line[|size|..|size| + 1] == [0x3b];
      FindIs(line, [0x3b], 0, |size|);
      assert line[..|size|] == size;
    }
  }

  lemma SizeTrims(before: seq<byte>, digits: seq<byte>, after: seq<byte>)
    requires Padding(before) && Padding(after) && Digits(digits, 16)
    ensures Trim(before + (digits + after)) == digits
  {
    assert Digit(digits[0]) < 16 && (digits + after)[0] == digits[0];
    assert SpaceAt(digits + after) == 0;
    TrimPaddedStart(before, digits + after);
    var n := |digits|;
    assert Digit(digits[n - 1]) < 16;
    assert digits[n - 1..] == [digits[n - 1]];
    AsciiEndIsNoSpace(digits);
    TrimPaddedEnd(digits, after);
  }

  lemma SpaceBytes(x: seq<byte>)
    ensures SpaceAt(x) == 1 ==> x[0] <= 0x20
    ensures SpaceAt(x) == 2 ==> x[1] >= 0x80
    ensures SpaceAt(x) == 3 ==> x[2] >= 0x80
  {
  }

  lemma AsciiEndIsNoSpace(s: seq<byte>)
    requires s != [] && 0x21 <= s[|s| - 1] < 0x80
    ensures SpaceBefore(s) == 0
  {
    hide SpaceAt;
    var n := |s|;
    assert s[n - 1..][0] == s[n - 1];
    SpaceBytes(s[n - 1..]);
    if n >= 2 {
      assert s[n - 2..][1] == s[n - 1];
      SpaceBytes(s[n - 2..]);
    }
    if n >= 3 {
      assert s[n - 3..][2] == s[n - 1];
      SpaceBytes(s[n - 3..]);
    }
  }

  lemma SizeDigits(digits: seq<byte>)
    requires Digits(digits, 16) && DigitsValue(digits, 16) < USIZE_END
    ensures ParseUsize(digits, 16) == Some(DigitsValue(digits, 16))
  {
    assert Digit(digits[0]) < 16;
  }

  function HexDigit(d: nat): byte
    requires d < 16
  {
    if d < 10 then 0x30 + d else 0x61 + d - 10
  }

  function Hex(n: nat): (s: seq<byte>) {
    if n < 16 then [HexDigit(n)] else Hex(n / 16) + [HexDigit(n % 16)]
  }

  /** Every size has a spelling. */
  lemma {:induction false} HexSpells(n: nat)
    ensures Digits(Hex(n), 16) && DigitsValue(Hex(n), 16) == n
  {
    if n < 16 {
      assert [HexDigit(n)][..0] == [];
    } else {
      HexSpells(n / 16);
      var s := Hex(n / 16);
      assert (s + [HexDigit(n % 16)])[..|s|] == s;
    }
  }

  // ----- Requests -----

  /** The forms in which a request can carry its body. */
  datatype Form = WithoutBody | WithLength(content: seq<byte>)
      | InChunks(chunks: seq<Chunk>, last: seq<byte>, trailers: seq<Field>)

  function Wire(form: Form): seq<byte> {
    match form
    case WithoutBody => []
    case WithLength(content) => content
    case InChunks(chunks, last, trailers) => EncodeChunks(chunks, last, trailers)
  }

  function Content(form: Form): seq<byte> {
    match form
    case WithoutBody => []
    case WithLength(content) => content
    case InChunks(chunks, _, _) => Data(chunks)
  }

  function Kept(o: Options, form: Form): seq<Field> {
    if form.InChunks? && o.preserveTrailers then form.trailers else []
  }

  /** The header fields announce this form. */
  predicate Announces(o: Options, headers: seq<Field>, form: Form) {
    match form
    case WithoutBody => RequestBodyKind(headers, o.allowChunked) == Ok(NoBody)
    case WithLength(content) => RequestBodyKind(headers, o.allowChunked) == Ok(Length(|content|))
    case InChunks(chunks, last, trailers) =>
      && RequestBodyKind(headers, o.allowChunked) == Ok(Chunked)
      && WellFormedChunks(chunks) && Spells(last, 0) && PrintableFields(trailers)
  }

  function PrintRequest(h: Head, form: Form): seq<byte> { PrintHead(h) + (BLANK + Wire(form)) }

  lemma RequestParts(text: seq<byte>, wire: seq<byte>, t: seq<byte>)
    ensures (text + (BLANK + wire) + t)[|text| + 4..] == wire + t
  {
  }

  lemma BodyReads(o: Options, h: Head, form: Form, t: seq<byte>)
    requires Announces(o, h.headers, form) && |Content(form)| <= o.maxBodyLen
    requires |PrintRequest(h, form) + t| < USIZE_END
    ensures var start := |PrintHead(h)| + 4;
            ReadBody(o, RequestBodyKind(h.headers, o.allowChunked).value, PrintRequest(h, form) + t, start) ==
            Ok(Some(Body(start + |Wire(form)|, Content(form), Kept(o, form))))
  {
    hide RequestBodyKind, Chunks, Spells, WellFormedChunks, PrintableFields, PrintHead, EncodeChunks;
    var text := PrintHead(h);
    var src := PrintRequest(h, form) + t;
    var start := |text| + 4;
    RequestParts(text, Wire(form), t);
    match form
    case WithoutBody =>
    case WithLength(content) =>
      CutJoined(content, t);
      SliceOfRest(src, start, |content|);
    case InChunks(chunks, last, trailers) =>
      ChunkedRoundTrip(src, start, chunks, last, trailers, t, [], o.maxBodyLen, o.preserveTrailers);
      CutJoined([], Data(chunks));
  }

  /** A printed request decodes to itself, in all three forms and in front of any other bytes. */
  lemma RequestRoundTrip(o: Options, h: Head, form: Form, t: seq<byte>)
    requires PrintableHead(h) && |PrintHead(h)| <= o.maxHeaderLen
    requires Announces(o, h.headers, form) && |Content(form)| <= o.maxBodyLen
    requires |PrintRequest(h, form) + t| < USIZE_END
    ensures DecodeRequest(o, PrintRequest(h, form) + t) ==
            Item(Request(h, Content(form), Kept(o, form)), |PrintRequest(h, form)|)
  {
    hide PrintableHead, Announces, ReadBody, RequestBodyKind, ParseHead, Valid, Find;
    var text := PrintHead(h);
    var src := PrintRequest(h, form) + t;
    HeadReads(h);
    BlankLineIsIgnored(text);
    Assoc(text, BLANK + Wire(form), t);
    Assoc(BLANK, Wire(form), t);
    BlankAfterHead(h, Wire(form) + t);
    assert src[..|text| + 4] == text + BLANK && src[..|text|] == text;
    assert RequestBodyKind(h.headers, o.allowChunked).Ok? by {
      KindIsKnown(o, h.headers, form);
    }
    BodyReads(o, h, form, t);
  }

  lemma KindIsKnown(o: Options, headers: seq<Field>, form: Form)
    requires Announces(o, headers, form)
    ensures RequestBodyKind(headers, o.allowChunked).Ok?
  {
  }

  lemma BlankAfterHead(h: Head, t: seq<byte>)
    requires PrintableHead(h)
    ensures Find(PrintHead(h) + (BLANK + t), BLANK, 0) == Some(|PrintHead(h)|)
  {
    hide PrintableHead;
    HeadLinesArePrintable(h);
    BlankAfterJoin(HeadLines(h), t);
  }

  // ----- The head limit depends on the split -----

  lemma NoBlankUntilComplete(head: seq<byte>)
    requires Find(head + (BLANK + []), BLANK, 0) == Some(|head|)
    ensures Find(head + BLANK[..3], BLANK, 0) == None
  {
    hide Find, MatchAt;
    var cut := head + BLANK[..3];
    LastByteOfBlank(head);
    FindExtends(cut, [0x0a], BLANK, 0);
    TooShort(cut, |head|);
  }

  lemma LastByteOfBlank(head: seq<byte>)
    ensures head + (BLANK + []) == (head + BLANK[..3]) + [0x0a]
  {
  }

  lemma TooShort(s: seq<byte>, i: nat)
    requires i + 4 > |s|
    ensures !MatchAt(s, BLANK, i)
  {
  }

  /** A request whose head just fits is refused when its last byte arrives in a separate read, and accepted
      otherwise. */
  lemma HeadLimitDependsOnSplit(o: Options, h: Head)
    requires PrintableHead(h) && Announces(o, h.headers, WithoutBody)
    requires |PrintHead(h)| <= o.maxHeaderLen < |PrintHead(h)| + 3 < USIZE_END - 1
    ensures DecodeRequest(o, PrintHead(h) + BLANK[..3]) == Fail(FrameTooLarge, 0)
    ensures DecodeRequest(o, (PrintHead(h) + BLANK[..3]) + BLANK[3..]) == Item(Request(h, [], []), |PrintHead(h)| + 4)
  {
    hide PrintableHead, Find, PrintHead, RequestBodyKind, MatchAt, Preface, ReadBody, BuildRequest;
    BlankAfterHead(h, []);
    NoBlankUntilComplete(PrintHead(h));
    RequestRoundTrip(o, h, WithoutBody, []);
    assert PrintRequest(h, WithoutBody) + [] == (PrintHead(h) + BLANK[..3]) + BLANK[3..];
  }

  /** There is such a request: "G / HTTP/1.1" under a limit of 12 bytes. */
  lemma HeadLimitExample()
    ensures var o, h := Options(12, 0, false, false), Head([0x47], [0x2f], Ascii("HTTP/1.1"), []);
            && DecodeRequest(o, PrintHead(h) + BLANK[..3]) == Fail(FrameTooLarge, 0)
            && DecodeRequest(o, (PrintHead(h) + BLANK[..3]) + BLANK[3..]) == Item(Request(h, [], []), 16)
  {
    var o, h := Options(12, 0, false, false), Head([0x47], [0x2f], Ascii("HTTP/1.1"), []);
    hide PrintableHead, PrintHead, DecodeRequest;
    ExampleIsPrintable(h);
    HeadLimitDependsOnSplit(o, h);
  }

  lemma ExampleIsPrintable(h: Head)
    requires h == Head([0x47], [0x2f], Ascii("HTTP/1.1"), [])
    ensures PrintableHead(h) && |PrintHead(h)| == 12
  {
    hide Word;
    PlainWord(h.httpMethod);
    PlainWord(h.target);
    PlainWord(h.version);
    assert Ascii("HTTP/1.") <= h.version;
  }

  lemma PlainWord(w: seq<byte>)
    requires w != [] && forall i | 0 <= i < |w| :: 0x21 <= w[i] < 0x80
    ensures Word(w)
  {
    AsciiIsValid(w);
    forall i | 0 <= i < |w|
      ensures SpaceAt(w[i..]) == 0
    {
      assert w[i..][0] == w[i];
    }
  }
}
