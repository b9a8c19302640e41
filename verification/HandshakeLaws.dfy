/** Exactly which requests open a WebSocket (section 4.2 of RFC 6455), what the answer reads back as, and that the
    shared-port encoder lets nothing through out of order. */
module HandshakeLaws {
  import opened Core
  import opened Framing
  import Http
  import HttpCodec
  import HttpLaws
  import opened HttpPrinting
  import opened HttpText
  import HttpTextLaws
  import opened HttpWs
  import opened Search
  import Upgrade
  import Utf8
  import WebSocketFrames

  // ----- What opens a WebSocket -----

  /** The first field of this name holds this word, in any case. */
  predicate Says(headers: seq<Field>, name: seq<byte>, word: seq<byte>) {
    var values := Http.Values(headers, name);
    values != [] && SameIgnoringCase(values[0], word)
  }

  /** A GET whose Upgrade field is "websocket" and whose first Connection field lists "upgrade". */
  predicate Asks(r: Http.Request) {
    var connections := Http.Values(r.head.headers, Ascii("Connection"));
    && SameIgnoringCase(r.head.httpMethod, [0x47, 0x45, 0x54])
    && Says(r.head.headers, Ascii("Upgrade"), Ascii("websocket"))
    && connections != []
    && exists token :: token in Split(connections[0], 0x2c) && SameIgnoringCase(Trim(token), Ascii("upgrade"))
  }

  /** HTTP/1.1, WebSocket version 13, and a key that is valid. */
  predicate IsComplete(valid: KeyCheck, r: Http.Request) {
    var versions := Http.Values(r.head.headers, Ascii("Sec-WebSocket-Version"));
    var keys := Http.Values(r.head.headers, Ascii("Sec-WebSocket-Key"));
    && r.head.target != [] && [0x48, 0x54, 0x54, 0x50, 0x2f, 0x31, 0x2e, 0x31] <= r.head.version
    && versions != [] && versions[0] == [0x31, 0x33]
    && keys != [] && valid(keys[0])
  }

  lemma NamesAre()
    ensures Ascii("GET") == [0x47, 0x45, 0x54] && Ascii("13") == [0x31, 0x33]
    ensures Ascii("HTTP/1.1") == [0x48, 0x54, 0x54, 0x50, 0x2f, 0x31, 0x2e, 0x31]
  {
  }

  lemma DigitsHaveNoCase(a: seq<byte>)
    ensures SameIgnoringCase(a, [0x31, 0x33]) <==> a == [0x31, 0x33]
  {
    HttpTextLaws.SameIgnoringCaseIff(a, [0x31, 0x33]);
  }

  lemma AsksIff(r: Http.Request)
    ensures IsUpgrade(r) <==> Asks(r)
  {
    hide SameIgnoringCase, Ascii, Split, Trim, Http.Values, Header;
    NamesAre();
    HttpLaws.HeaderIsFirst(r.head.headers, Ascii("Upgrade"));
    HttpLaws.HeaderIsFirst(r.head.headers, Ascii("Connection"));
    var connections := Http.Values(r.head.headers, Ascii("Connection"));
    if connections != [] {
      var tokens := Split(connections[0], 0x2c);
      assert forall i | 0 <= i < |tokens| ::
          Http.TokenIs(tokens[i], "upgrade") <==> SameIgnoringCase(Trim(tokens[i]), Ascii("upgrade"));
    }
  }

  /** A request that asks for an upgrade opens a WebSocket exactly when it is complete, with its target, its first key
      and all of its fields; otherwise it is refused. */
  lemma HandshakeIff(valid: KeyCheck, r: Http.Request)
    requires Asks(r)
    ensures HandshakeOf(valid, r) ==
            if IsComplete(valid, r) then
              var key := Http.Values(r.head.headers, Ascii("Sec-WebSocket-Key"))[0];
              Ok(Handshake(r.head.target, key, r.head.headers))
            else Err(Decode)
  {
    hide SameIgnoringCase, Ascii, Http.Values, Header, Asks, ConnectionUpgrades;
    NamesAre();
    AsksIff(r);
    HttpLaws.HeaderIsFirst(r.head.headers, Ascii("Sec-WebSocket-Version"));
    HttpLaws.HeaderIsFirst(r.head.headers, Ascii("Sec-WebSocket-Key"));
    var versions := Http.Values(r.head.headers, Ascii("Sec-WebSocket-Version"));
    if versions != [] {
      DigitsHaveNoCase(versions[0]);
    }
  }

  /** What the shared-port codec makes of a complete request: HTTP unless it asks for an upgrade, and then a handshake
      or a refusal, with the request off the buffer in each case. */
  lemma RequestBecomes(o: Options, s: seq<byte>, r: Http.Request, n: nat)
    requires Http.DecodeRequest(o.http, s) == Item(r, n)
    ensures DecodeAny(o, HttpState, s) ==
            if !Asks(r) then Item(HttpIn(r), n)
            else if IsComplete(o.validKey, r) then
              var key := Http.Values(r.head.headers, Ascii("Sec-WebSocket-Key"))[0];
              Item(HandshakeIn(Handshake(r.head.target, key, r.head.headers)), n)
            else Fail(Decode, n)
  {
    hide IsUpgrade, HandshakeOf, Asks, IsComplete, Http.DecodeRequest;
    AsksIff(r);
    if Asks(r) {
      HandshakeIff(o.validKey, r);
    }
  }

  /** Nothing about a handshake depends on the case of field names. */
  lemma UpgradeIgnoresCase(valid: KeyCheck, r: Http.Request, headers: seq<Field>)
    requires HttpLaws.Respelled(r.head.headers, headers)
    ensures var q := r.(head := r.head.(headers := headers));
            && (IsUpgrade(q) <==> IsUpgrade(r))
            && (HandshakeOf(valid, q).Ok? <==> HandshakeOf(valid, r).Ok?)
  {
    hide SameIgnoringCase, Ascii, Split, Http.Values, Header, HttpLaws.Respelled, Http.TokenIs;
    HttpLaws.RespelledFields(r.head.headers, headers, Ascii("Upgrade"));
    HttpLaws.RespelledFields(r.head.headers, headers, Ascii("Connection"));
    HttpLaws.RespelledFields(r.head.headers, headers, Ascii("Sec-WebSocket-Version"));
    HttpLaws.RespelledFields(r.head.headers, headers, Ascii("Sec-WebSocket-Key"));
  }

  // ----- The answer -----

  predicate Plain(s: seq<byte>) { s != [] && forall i | 0 <= i < |s| :: 0x21 <= s[i] < 0x7f && s[i] != 0x3a }

  lemma PlainIsTrimmed(s: seq<byte>)
    requires Plain(s)
    ensures Trim(s) == s
  {
    assert SpaceAt(s) == 0;
    AsciiEndIsNoSpace(s);
  }

  lemma PlainFieldIsPrintable(name: seq<byte>, value: seq<byte>)
    requires Plain(name) && Plain(value)
    ensures PrintableField((name, value))
  {
    PlainIsTrimmed(name);
    PlainIsTrimmed(value);
    hide Trim;
    Utf8.AsciiIsValid(name);
    Utf8.AsciiIsValid(value);
    NoCrNoCrlf(FieldLine((name, value)));
  }

  /** Bytes of a text are the codes of its characters. */
  lemma CodesOf(text: string, low: nat)
    requires forall c | c in text :: low <= c as int < 0x7f && c != ':'
    ensures |Ascii(text)| == |text|
    ensures forall i | 0 <= i < |Ascii(text)| :: low <= Ascii(text)[i] < 0x7f && Ascii(text)[i] != 0x3a
  {
    forall i | 0 <= i < |text|
      ensures low <= Ascii(text)[i] < 0x7f && Ascii(text)[i] != 0x3a
    {
      assert text[i] in text;
    }
  }

  lemma NamesArePlain()
    ensures Plain(Ascii("Upgrade")) && Plain(Ascii("websocket")) && Plain(Ascii("Connection"))
  {
    hide Ascii;
    CodesOf("Upgrade", 0x21);
    CodesOf("websocket", 0x21);
    CodesOf("Connection", 0x21);
  }

  lemma PlainLineIsPrintable(line: seq<byte>)
    requires line != [] && forall i | 0 <= i < |line| :: 0x20 <= line[i] < 0x7f
    ensures Printable(line)
  {
    Utf8.AsciiIsValid(line);
    hide Utf8.Valid, NoCrlf;
    NoCrNoCrlf(line);
  }

  lemma StatusIsPrintable()
    ensures Printable(Ascii("HTTP/1.1 101 Switching Protocols"))
  {
    hide Ascii, Printable;
    CodesOf("HTTP/1.1 101 Switching Protocols", 0x20);
    PlainLineIsPrintable(Ascii("HTTP/1.1 101 Switching Protocols"));
  }

  lemma AnswerFieldsArePrintable(r: HandshakeResponse)
    requires PrintableFields(r.headers) && PrintableField((Ascii("Sec-WebSocket-Accept"), r.acceptKey))
    ensures PrintableFields(ResponseFields(r))
  {
    NamesArePlain();
    hide PrintableField, Ascii, Plain;
    PlainFieldIsPrintable(Ascii("Upgrade"), Ascii("websocket"));
    PlainFieldIsPrintable(Ascii("Connection"), Ascii("Upgrade"));
  }

  /** A client finds the end of the answer and reads status 101 and the three fields it waits for, then the handler's
      own. */
  lemma AnswerReads(r: HandshakeResponse, t: seq<byte>) returns (head: seq<byte>)
    requires PrintableFields(r.headers) && PrintableField((Ascii("Sec-WebSocket-Accept"), r.acceptKey))
    ensures EncodeHandshakeResponse(r) == head + BLANK
    ensures Find(EncodeHandshakeResponse(r) + t, BLANK, 0) == Some(|head|)
    ensures Lines(head)[0] == Ascii("HTTP/1.1 101 Switching Protocols")
    ensures ParseFields(Lines(head)[1..]) ==
            Ok([(Ascii("Upgrade"), Ascii("websocket")), (Ascii("Connection"), Ascii("Upgrade")),
                (Ascii("Sec-WebSocket-Accept"), r.acceptKey)] + r.headers)
  {
    hide PrintableField, Printable, Lines, Find, ParseFields, Join, Ascii, FieldLine, FieldLines, PrintableLines;
    var fields := ResponseFields(r);
    var lines := [Ascii("HTTP/1.1 101 Switching Protocols")] + FieldLines(fields);
    AnswerFieldsArePrintable(r);
    StatusIsPrintable();
    LinesArePrintable(Ascii("HTTP/1.1 101 Switching Protocols"), fields);
    head := Join(lines);
    LinesOfJoin(lines);
    BlankAfterJoin(lines, t);
    FieldsRead(fields);
    assert lines[1..] == FieldLines(fields);
    Assoc(head, BLANK, t);
  }

  lemma LinesArePrintable(first: seq<byte>, fields: seq<Field>)
    requires Printable(first) && PrintableFields(fields)
    ensures PrintableLines([first] + FieldLines(fields))
  {
    hide PrintableField, Printable;
    forall i | 0 <= i < |fields|
      ensures Printable(FieldLines(fields)[i])
    {
      FieldLineIsPrintable(fields[i]);
    }
  }

  // ----- Order on the wire -----

  /** What a codec that starts in this state lets through of some messages, one after another. */
  function LetThrough(state: State, ms: seq<Outbound>): seq<Outbound>
    decreases |ms|
  {
    if ms == [] then []
    else
      var (next, r) := EncodeAny(state, ms[0]);
      (if r.Ok? then [ms[0]] else []) + LetThrough(next, ms[1..])
  }

  /** Whatever is written in whatever order, what gets through is HTTP responses, at most one handshake response, then
      frames. */
  lemma {:induction false} EncoderKeepsOrder(state: State, ms: seq<Outbound>, before: seq<Outbound>)
    requires Upgrade.Shape(Upgrade.OutKinds(before), state)
    ensures Upgrade.Upgrades(Upgrade.OutKinds(before + LetThrough(state, ms)))
    decreases |ms|
  {
    hide Upgrade.Shape, HttpCodec.EncodeResponse, EncodeHandshakeResponse, WebSocketFrames.EncodeMessage;
    if ms == [] {
      assert before + [] == before;
      ShapeUpgrades(Upgrade.OutKinds(before), state);
    } else {
      var (next, r) := EncodeAny(state, ms[0]);
      if r.Ok? {
        Upgrade.ShapeGrows(Upgrade.OutKinds(before), state, Upgrade.OutKind(ms[0]), next);
        assert Upgrade.OutKinds(before + [ms[0]]) == Upgrade.OutKinds(before) + [Upgrade.OutKind(ms[0])];
        EncoderKeepsOrder(next, ms[1..], before + [ms[0]]);
        Assoc(before, [ms[0]], LetThrough(next, ms[1..]));
      } else {
        EncoderKeepsOrder(next, ms[1..], before);
        assert [] + LetThrough(next, ms[1..]) == LetThrough(next, ms[1..]);
      }
    }
  }

  lemma ShapeUpgrades(kinds: seq<Upgrade.Kind>, state: State)
    requires Upgrade.Shape(kinds, state)
    ensures Upgrade.Upgrades(kinds)
  {
  }

  // ----- The handshake-only codec -----

  /** Its state after writing some messages. */
  function AfterWriting(state: WebSocketState, items: seq<WebSocketOutbound>): WebSocketState
    decreases |items|
  {
    if items == [] then state else AfterWriting(EncodeWebSocket(state, items[0]).0, items[1..])
  }

  /** This codec decodes frames from the moment it has read a handshake or written an answer, and not before. */
  lemma {:induction false} MovesOnIff(state: WebSocketState, items: seq<WebSocketOutbound>)
    ensures AfterWriting(state, items) == InFrames <==>
            state == InFrames || exists i :: 0 <= i < |items| && items[i].HandshakeReply?
    decreases |items|
  {
    hide EncodeHandshakeResponse, WebSocketFrames.EncodeMessage;
    if items != [] {
      MovesOnIff(EncodeWebSocket(state, items[0]).0, items[1..]);
      assert forall i | 0 <= i < |items[1..]| :: items[1..][i] == items[i + 1];
      assert forall i | 0 < i < |items| :: items[i] == items[1..][i - 1];
    }
  }
}
