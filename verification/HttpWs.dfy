/** The opening handshake of section 4.2 of RFC 6455, and the codecs that move from HTTP to WebSocket frames. */
module HttpWs {
  import opened Core
  import opened Framing
  import Http
  import HttpCodec
  import HttpPrinting
  import opened HttpText
  import opened Search
  import Utf8
  import WebSocketFrames

  /** What decides whether a client key is Base64 of 16 bytes. */
  type KeyCheck = seq<byte> -> bool

  datatype Handshake = Handshake(path: seq<byte>, key: seq<byte>, headers: seq<Field>)

  datatype HandshakeResponse = HandshakeResponse(acceptKey: seq<byte>, headers: seq<Field>)

  // ----- The handshake -----

  predicate HeaderIs(headers: seq<Field>, name: string, expected: string) {
    var value := Header(headers, Ascii(name));
    value.Some? && SameIgnoringCase(value.value, Ascii(expected))
  }

  predicate ConnectionUpgrades(headers: seq<Field>) {
    var value := Header(headers, Ascii("Connection"));
    value.Some? &&
    var tokens := Split(value.value, 0x2c);
    exists i | 0 <= i < |tokens| :: Http.TokenIs(tokens[i], "upgrade")
  }

  /** The checks on the header fields, and the client's key. */
  function ClientKey(valid: KeyCheck, headers: seq<Field>): Result<seq<byte>> {
    if !HeaderIs(headers, "Upgrade", "websocket") then Err(Decode)
    else if !ConnectionUpgrades(headers) then Err(Decode)
    else if !HeaderIs(headers, "Sec-WebSocket-Version", "13") then Err(Decode)
    else
      match Header(headers, Ascii("Sec-WebSocket-Key"))
      case None => Err(Decode)
      case Some(key) => if valid(key) then Ok(key) else Err(Decode)
  }

  predicate IsUpgrade(r: Http.Request) {
    && SameIgnoringCase(r.head.httpMethod, Ascii("GET"))
    && HeaderIs(r.head.headers, "Upgrade", "websocket")
    && ConnectionUpgrades(r.head.headers)
  }

  function HandshakeOf(valid: KeyCheck, r: Http.Request): Result<Handshake> {
    if !SameIgnoringCase(r.head.httpMethod, Ascii("GET")) then Err(Decode)
    else if r.head.target == [] || !(Ascii("HTTP/1.1") <= r.head.version) then Err(Decode)
    else
      var key :- ClientKey(valid, r.head.headers);
      Ok(Handshake(r.head.target, key, r.head.headers))
  }

  /** The field lines before the first empty line. */
  function UntilBlank(lines: seq<seq<byte>>): seq<seq<byte>> {
    if lines == [] || lines[0] == [] then [] else [lines[0]] + UntilBlank(lines[1..])
  }

  /** The handshake-only codec's own parser: it insists on an upper-case GET and stops at the blank line. */
  function ParseHandshake(valid: KeyCheck, text: seq<byte>): Result<Handshake> {
    var lines := Lines(text);
    var (httpMethod, r1) := NextWord(lines[0]);
    var (path, r2) := NextWord(r1);
    var (version, _) := NextWord(r2);
    if httpMethod != Ascii("GET") || path == [] || !(Ascii("HTTP/1.1") <= version) then Err(Decode)
    else
      var headers :- ParseFields(UntilBlank(lines[1..]));
      var key :- ClientKey(valid, headers);
      Ok(Handshake(path, key, headers))
  }

  function ResponseFields(r: HandshakeResponse): seq<Field> {
    [(Ascii("Upgrade"), Ascii("websocket")), (Ascii("Connection"), Ascii("Upgrade")),
        (Ascii("Sec-WebSocket-Accept"), r.acceptKey)]
    + r.headers
  }

  function EncodeHandshakeResponse(r: HandshakeResponse): seq<byte> {
    HttpPrinting.Join([Ascii("HTTP/1.1 101 Switching Protocols")] + HttpPrinting.FieldLines(ResponseFields(r))) + BLANK
  }

  // ----- The handshake-only codec -----

  datatype WebSocketState = AwaitingHandshake | InFrames

  datatype WebSocketInbound = HandshakeReceived(handshake: Handshake)
      | MessageReceived(message: WebSocketFrames.Message)

  datatype WebSocketOutbound = HandshakeReply(response: HandshakeResponse)
      | MessageSent(message: WebSocketFrames.Message)

  datatype WebSocketOptions = WebSocketOptions(maxHeaderLen: usize, maxFrameLen: usize, requireMask: bool,
      validKey: KeyCheck)

  function DecodeHandshake(o: WebSocketOptions, src: seq<byte>): Step<WebSocketInbound> {
    match Find(src, BLANK, 0)
    case None => if |src| > o.maxHeaderLen then Fail(FrameTooLarge, 0) else Need
    case Some(end) =>
      if end > o.maxHeaderLen then Fail(FrameTooLarge, 0)
      else if !Utf8.Valid(src[..end + 4]) then Fail(Decode, end + 4)
      else
        match ParseHandshake(o.validKey, src[..end + 4])
        case Err(e) => Fail(e, end + 4)
        case Ok(h) => Item(HandshakeReceived(h), end + 4)
  }

  function DecodeWebSocket(o: WebSocketOptions, state: WebSocketState, src: seq<byte>): (WebSocketState,
        Step<WebSocketInbound>) {
    match state
    case AwaitingHandshake =>
      var step := DecodeHandshake(o, src);
      (if step.Item? then InFrames else AwaitingHandshake, step)
    case InFrames =>
      (InFrames,
       match WebSocketFrames.DecodeFrame(o.maxFrameLen, o.requireMask, src)
       case Need => Need
       case Fail(e, n) => Fail(e, n)
       case Item(m, n) => Item(MessageReceived(m), n))
  }

  /** This codec moves on when it decodes the handshake; its encoder does not look at the state. */
  function EncodeWebSocket(state: WebSocketState, item: WebSocketOutbound): (WebSocketState, Result<seq<byte>>) {
    match item
    case HandshakeReply(r) => (InFrames, Ok(EncodeHandshakeResponse(r)))
    case MessageSent(m) => (state, WebSocketFrames.EncodeMessage(m))
  }

  // ----- The shared-port codec -----

  datatype State = HttpState | FrameState

  datatype Inbound = HttpIn(request: Http.Request) | HandshakeIn(handshake: Handshake)
      | MessageIn(message: WebSocketFrames.Message)

  datatype Outbound = HttpOut(response: HttpCodec.Response) | HandshakeOut(reply: HandshakeResponse)
      | MessageOut(message: WebSocketFrames.Message)

  datatype Options = Options(http: Http.Options, maxFrameLen: usize, requireMask: bool, validKey: KeyCheck)

  function DecodeHttp(o: Options, src: seq<byte>): Step<Inbound> {
    match Http.DecodeRequest(o.http, src)
    case Need => Need
    case Fail(e, n) => Fail(e, n)
    case Item(request, n) =>
      if IsUpgrade(request) then
        match HandshakeOf(o.validKey, request)
        case Err(e) => Fail(e, n)
        case Ok(h) => Item(HandshakeIn(h), n)
      else Item(HttpIn(request), n)
  }

  function DecodeAny(o: Options, state: State, src: seq<byte>): Step<Inbound> {
    match state
    case HttpState => DecodeHttp(o, src)
    case FrameState =>
      match WebSocketFrames.DecodeFrame(o.maxFrameLen, o.requireMask, src)
      case Need => Need
      case Fail(e, n) => Fail(e, n)
      case Item(m, n) => Item(MessageIn(m), n)
  }

  /** The bytes of an outbound message, whatever the state. */
  function Bytes(item: Outbound): Result<seq<byte>> {
    match item
    case HttpOut(r) => Ok(HttpCodec.EncodeResponse(r))
    case HandshakeOut(r) => Ok(EncodeHandshakeResponse(r))
    case MessageOut(m) => WebSocketFrames.EncodeMessage(m)
  }

  /** Frames belong behind the handshake response, everything else before. */
  predicate RightState(state: State, item: Outbound) { item.MessageOut? <==> state == FrameState }

  /** This codec moves on when it encodes the handshake response. */
  function EncodeAny(state: State, item: Outbound): (State, Result<seq<byte>>) {
    if !RightState(state, item) then (state, Err(Encode))
    else (if item.HandshakeOut? then FrameState else state, Bytes(item))
  }

  // ----- The two handshake parsers agree -----

  ghost predicate NoneEmpty(lines: seq<seq<byte>>) { forall i | 0 <= i < |lines| :: lines[i] != [] }

  lemma EmptyLineIsBlank(text: seq<byte>, k: nat)
    requires MatchAt(text, CRLF, k)
    requires text[k + 2..] == [] || MatchAt(text[k + 2..], CRLF, 0)
    ensures MatchAt(text + BLANK, BLANK, k)
  {
    var s := text + BLANK;
    assert s[k..k + 2] == text[k..k + 2] == CRLF;
    assert s[k + 2..k + 4] == CRLF by {
      if |text| >= k + 4 {
        assert s[k + 2..k + 4] == text[k + 2..][0..2];
      }
    }
    assert s[k..k + 4] == s[k..k + 2] + s[k + 2..k + 4];
  }

  lemma NextLineIsNotEmpty(text: seq<byte>, k: nat)
    requires Find(text + BLANK, BLANK, 0) == Some(|text|) && MatchAt(text, CRLF, k)
    ensures text[k + 2..] != [] && !MatchAt(text[k + 2..], CRLF, 0)
  {
    if text[k + 2..] == [] || MatchAt(text[k + 2..], CRLF, 0) {
      EmptyLineIsBlank(text, k);
    }
  }

  lemma BlankStaysLast(text: seq<byte>, at: nat)
    requires Find(text + BLANK, BLANK, 0) == Some(|text|) && at <= |text|
    ensures Find(text[at..] + BLANK, BLANK, 0) == Some(|text| - at)
  {
    hide MatchAt, Find;
    FindIs(text + BLANK, BLANK, at, |text|);
    JoinCut(text, at);
    Assoc(text[..at], text[at..], BLANK);
    FindShifts(text[..at], text[at..] + BLANK, BLANK, 0);
  }

  /** When the first blank line stands at the end of the head, no header line is empty. */
  lemma {:induction false} NoLineIsEmpty(text: seq<byte>)
    requires Find(text + BLANK, BLANK, 0) == Some(|text|)
    ensures NoneEmpty(Lines(text)[1..])
    decreases |text|
  {
    hide MatchAt, Find;
    var found := Find(text, CRLF, 0);
    if found.Some? {
      CrlfFits(text, found.value);
      var rest := text[found.value + 2..];
      NextLineIsNotEmpty(text, found.value);
      BlankStaysLast(text, found.value + 2);
      NoLineIsEmpty(rest);
      FirstLineIsEmptyOnly(rest);
      assert Lines(text)[1..] == Lines(rest);
    }
  }

  lemma CrlfFits(text: seq<byte>, k: nat)
    requires MatchAt(text, CRLF, k)
    ensures k + 2 <= |text|
  {
  }

  lemma FirstLineIsEmptyOnly(rest: seq<byte>)
    requires rest != [] && !MatchAt(rest, CRLF, 0)
    ensures Lines(rest)[0] != []
  {
  }

  lemma {:induction false} UntilBlankTakesAll(lines: seq<seq<byte>>)
    requires NoneEmpty(lines)
    ensures UntilBlank(lines + [[], []]) == lines
    decreases |lines|
  {
    if lines == [] {
      assert lines + [[], []] == [[], []];
    } else {
      assert (lines + [[], []])[1..] == lines[1..] + [[], []];
      UntilBlankTakesAll(lines[1..]);
    }
  }

  lemma SameAsItself(s: seq<byte>)
    ensures SameIgnoringCase(s, s)
  {
  }

  /** For an upper-case GET the handshake-only codec and the shared-port codec read the same handshake, or the same
      refusal, from the same head. */
  lemma HandshakeParsersAgree(valid: KeyCheck, text: seq<byte>, body: seq<byte>, trailers: seq<Field>)
    requires Find(text + BLANK, BLANK, 0) == Some(|text|)
    requires Http.ParseHead(text).Ok? && Http.ParseHead(text).value.httpMethod == Ascii("GET")
    ensures ParseHandshake(valid, text + BLANK) ==
            HandshakeOf(valid, Http.Request(Http.ParseHead(text).value, body, trailers))
  {
    hide Lines, NextWord, ParseFields, ClientKey, Find, SameIgnoringCase, Ascii, UntilBlank;
    SameAsItself(Ascii("GET"));
    HandshakeLines(text);
  }

  lemma HandshakeLines(text: seq<byte>)
    requires Find(text + BLANK, BLANK, 0) == Some(|text|)
    ensures Lines(text + BLANK)[0] == Lines(text)[0] && UntilBlank(Lines(text + BLANK)[1..]) == Lines(text)[1..]
  {
    hide Lines, Find, NoneEmpty, UntilBlank;
    NoLineIsEmpty(text);
    Http.BlankLineSplits(text);
    var lines, blanks := Lines(text), [[], []];
    UntilBlankTakesAll(lines[1..]);
    RestOfJoined(lines, blanks);
  }

  /** A refused upgrade is one that misses the key, the version, the target or a valid HTTP/1.1: what makes a
      request an upgrade at all is checked again by both parsers. */
  lemma OnlyUpgradesHandshake(valid: KeyCheck, r: Http.Request)
    requires !IsUpgrade(r)
    ensures HandshakeOf(valid, r) == Err(Decode)
  {
  }

  /** The same step in the other codec's terms. */
  function AsShared(step: Step<WebSocketInbound>): Step<Inbound> {
    match step
    case Need => Need
    case Fail(e, n) => Fail(e, n)
    case Item(HandshakeReceived(h), n) => Item(HandshakeIn(h), n)
    case Item(MessageReceived(m), n) => Item(MessageIn(m), n)
  }

  /** On a complete upper-case GET that announces no body, the two codecs take the same step, the refusals included,
      when the request asks for an upgrade; when it does not, the shared-port codec passes it on as HTTP and the
      handshake-only codec refuses it. */
  lemma HandshakeCodecsAgree(o: Options, w: WebSocketOptions, src: seq<byte>, end: nat, head: Http.Head)
    requires w.maxHeaderLen == o.http.maxHeaderLen && w.validKey == o.validKey
    requires Find(src, BLANK, 0) == Some(end) && Utf8.Valid(src[..end])
    requires Http.ParseHead(src[..end]) == Ok(head) && head.httpMethod == Ascii("GET")
    requires Http.RequestBodyKind(head.headers, o.http.allowChunked) == Ok(Http.NoBody)
    ensures var request := Http.Request(head, [], []);
            if IsUpgrade(request) || end > w.maxHeaderLen then DecodeHttp(o, src) == AsShared(DecodeHandshake(w, src))
            else
              && DecodeHttp(o, src) == Item(HttpIn(request), end + 4)
              && DecodeHandshake(w, src) == Fail(Decode, end + 4)
  {
    hide Find, Http.DecodeRequest, Http.ParseHead, Http.RequestBodyKind, HandshakeOf, IsUpgrade, DecodeHandshake,
        Utf8.Valid;
    hide Ascii;
    RequestWithoutBody(o.http, src, end, head);
    HandshakeStep(w, src, end, head);
    if end <= w.maxHeaderLen {
      hide DecodeHttp;
      UpgradeStep(o, src, Http.Request(head, [], []), end + 4);
    }
  }

  /** What the shared-port codec makes of a complete request. */
  lemma UpgradeStep(o: Options, src: seq<byte>, request: Http.Request, n: nat)
    requires Http.DecodeRequest(o.http, src) == Item(request, n)
    ensures DecodeHttp(o, src) ==
            if !IsUpgrade(request) then Item(HttpIn(request), n)
            else
              match HandshakeOf(o.validKey, request)
              case Err(e) => Fail(e, n)
              case Ok(h) => Item(HandshakeIn(h), n)
    ensures !IsUpgrade(request) ==> HandshakeOf(o.validKey, request) == Err(Decode)
  {
    hide Http.DecodeRequest;
    if !IsUpgrade(request) {
      OnlyUpgradesHandshake(o.validKey, request);
    }
  }

  lemma RequestWithoutBody(o: Http.Options, src: seq<byte>, end: nat, head: Http.Head)
    requires Find(src, BLANK, 0) == Some(end) && Utf8.Valid(src[..end]) && Http.ParseHead(src[..end]) == Ok(head)
    requires Http.RequestBodyKind(head.headers, o.allowChunked) == Ok(Http.NoBody)
    ensures Http.DecodeRequest(o, src) ==
            if end > o.maxHeaderLen then Fail(FrameTooLarge, 0) else Item(Http.Request(head, [], []), end + 4)
  {
    hide Find, MatchAt, Http.ParseHead, Http.RequestBodyKind, Utf8.Valid;
    HeadFront(src, end);
    Http.BlankLineIsIgnored(src[..end]);
  }

  lemma HandshakeStep(w: WebSocketOptions, src: seq<byte>, end: nat, head: Http.Head)
    requires Find(src, BLANK, 0) == Some(end) && Utf8.Valid(src[..end])
    requires Http.ParseHead(src[..end]) == Ok(head) && head.httpMethod == Ascii("GET")
    ensures DecodeHandshake(w, src) ==
            if end > w.maxHeaderLen then Fail(FrameTooLarge, 0)
            else
              match HandshakeOf(w.validKey, Http.Request(head, [], []))
              case Err(e) => Fail(e, end + 4)
              case Ok(h) => Item(HandshakeReceived(h), end + 4)
  {
    hide Find, MatchAt, Http.ParseHead, ParseHandshake, HandshakeOf, Utf8.Valid, Ascii;
    HeadFront(src, end);
    Http.BlankLineIsIgnored(src[..end]);
    HandshakeParsersAgree(w.validKey, src[..end], [], []);
  }

  lemma HeadFront(src: seq<byte>, end: nat)
    requires Find(src, BLANK, 0) == Some(end)
    ensures end + 4 <= |src| && src[..end + 4] == src[..end] + BLANK
    ensures Find(src[..end] + BLANK, BLANK, 0) == Some(end)
  {
    Http.BlankSlice(src, end);
    var front := src[..end + 4];
    assert front[..end + 4] == src[..end + 4];
    FindLocal(src, front, BLANK, 0);
  }

  // ----- Progress of the handshake-only codec -----

  /** Its handshake, too, always shortens the buffer. */
  lemma WebSocketCodecProgress(o: WebSocketOptions, state: WebSocketState, src: seq<byte>)
    ensures var (next, step) := DecodeWebSocket(o, state, src);
            && (step.Item? ==>
                && 0 < step.used <= |src| && next == InFrames
                && (step.item.HandshakeReceived? <==> state == AwaitingHandshake))
            && (step.Fail? ==> step.used <= |src|)
            && (!step.Item? ==> next == state)
  {
    hide ParseHandshake, WebSocketFrames.DecodeFrame;
    WebSocketFrames.WsIsStable(o.maxFrameLen, o.requireMask);
    assert ProgressAt(WebSocketFrames.WsDecoder(o.maxFrameLen, o.requireMask), src);
  }

  // ----- The codecs' methods -----

  method WriteHandshakeResponse(r: HandshakeResponse, dst: BytesMut)
    modifies dst
    ensures dst.data == old(dst.data) + EncodeHandshakeResponse(r)
  {
    hide HttpPrinting.Join, HttpPrinting.FieldLine, Ascii;
    ghost var before := dst.data;
    var fields := ResponseFields(r);
    dst.Extend(Ascii("HTTP/1.1 101 Switching Protocols"));
    dst.Extend(CRLF);
    ghost var sent := [Ascii("HTTP/1.1 101 Switching Protocols")];
    assert sent[1..] == [];
    assert CRLF + [] == CRLF;
    Assoc(before, sent[0], CRLF);
    for i := 0 to |fields|
      invariant sent == [Ascii("HTTP/1.1 101 Switching Protocols")] + HttpPrinting.FieldLines(fields[..i])
      invariant dst.data == before + HttpCodec.Terminated(sent)
    {
      HttpCodec.ExtendField(dst, fields[i]);
      HttpCodec.TerminatedSnoc(sent, HttpPrinting.FieldLine(fields[i]));
      Assoc(before, HttpCodec.Terminated(sent), HttpPrinting.FieldLine(fields[i]) + CRLF);
      sent := sent + [HttpPrinting.FieldLine(fields[i])];
      assert HttpPrinting.FieldLines(fields[..i + 1]) ==
          HttpPrinting.FieldLines(fields[..i]) + [HttpPrinting.FieldLine(fields[i])];
    }
    assert fields[..|fields|] == fields;
    dst.Extend(CRLF);
    HttpCodec.TerminatedIsJoined(sent);
    assert CRLF + CRLF == BLANK;
    Assoc(before, HttpPrinting.Join(sent) + CRLF, CRLF);
    Assoc(HttpPrinting.Join(sent), CRLF, CRLF);
  }

  class HttpWsCodec {
    const options: Options
    var state: State

    constructor (options: Options)
      ensures this.options == options && state == HttpState
    {
      this.options := options;
      state := HttpState;
    }

    method Decode(src: BytesMut) returns (r: Result<Option<Inbound>>)
      modifies src
      ensures Performs(DecodeAny(options, state, old(src.data)), old(src.data), r, src.data)
    {
      hide Http.DecodeRequest, WebSocketFrames.DecodeFrame, IsUpgrade, HandshakeOf;
      match state {
        case HttpState =>
          var decoded :- HttpCodec.DecodeHttpRequest(src, options.http);
          if decoded.None? {
            return Ok(None);
          }
          if IsUpgrade(decoded.value) {
            var handshake :- HandshakeOf(options.validKey, decoded.value);
            return Ok(Some(HandshakeIn(handshake)));
          }
          return Ok(Some(HttpIn(decoded.value)));
        case FrameState =>
          var decoded :- WebSocketFrames.DecodeWebSocketFrame(src, options.maxFrameLen, options.requireMask);
          return Ok(if decoded.Some? then Some(MessageIn(decoded.value)) else None);
      }
    }

    method Encode(item: Outbound, dst: BytesMut) returns (r: Result<()>)
      modifies this, dst
      ensures Appends(EncodeAny(old(state), item).1, old(dst.data), r, dst.data)
      ensures state == EncodeAny(old(state), item).0
    {
      hide WebSocketFrames.EncodeMessage, HttpCodec.EncodeResponse, EncodeHandshakeResponse;
      match (state, item) {
        case (HttpState, HttpOut(response)) =>
          HttpCodec.EncodeHttpResponse(response, dst);
          return Ok(());
        case (HttpState, HandshakeOut(response)) =>
          WriteHandshakeResponse(response, dst);
          state := FrameState;
          return Ok(());
        case (HttpState, MessageOut(_)) => return Err(ErrorKind.Encode);
        case (FrameState, MessageOut(message)) =>
          r := WebSocketFrames.EncodeWebSocketMessage(message, dst);
        case (FrameState, _) => return Err(ErrorKind.Encode);
      }
    }
  }

  class WebSocketCodec {
    const options: WebSocketOptions
    var state: WebSocketState

    constructor (options: WebSocketOptions)
      ensures this.options == options && state == AwaitingHandshake
    {
      this.options := options;
      state := AwaitingHandshake;
    }

    method Decode(src: BytesMut) returns (r: Result<Option<WebSocketInbound>>)
      modifies this, src
      ensures Performs(DecodeWebSocket(options, old(state), old(src.data)).1, old(src.data), r, src.data)
      ensures state == DecodeWebSocket(options, old(state), old(src.data)).0
    {
      hide ParseHandshake, WebSocketFrames.DecodeFrame, Utf8.Valid;
      match state {
        case AwaitingHandshake =>
          var found := Find(src.data, BLANK, 0);
          if found.None? {
            return if |src.data| > options.maxHeaderLen then Err(FrameTooLarge) else Ok(None);
          }
          var end := found.value;
          if end > options.maxHeaderLen {
            return Err(FrameTooLarge);
          }
          var request := src.SplitTo(end + 4);
          if !Utf8.Valid(request) {
            return Err(ErrorKind.Decode);
          }
          var handshake :- ParseHandshake(options.validKey, request);
          state := InFrames;
          return Ok(Some(HandshakeReceived(handshake)));
        case InFrames =>
          var decoded :- WebSocketFrames.DecodeWebSocketFrame(src, options.maxFrameLen, options.requireMask);
          return Ok(if decoded.Some? then Some(MessageReceived(decoded.value)) else None);
      }
    }

    method Encode(item: WebSocketOutbound, dst: BytesMut) returns (r: Result<()>)
      modifies this, dst
      ensures Appends(EncodeWebSocket(old(state), item).1, old(dst.data), r, dst.data)
      ensures state == EncodeWebSocket(old(state), item).0
    {
      hide WebSocketFrames.EncodeMessage, EncodeHandshakeResponse;
      match item {
        case HandshakeReply(response) =>
          WriteHandshakeResponse(response, dst);
          state := InFrames;
          return Ok(());
        case MessageSent(message) =>
          r := WebSocketFrames.EncodeWebSocketMessage(message, dst);
      }
    }
  }
}
