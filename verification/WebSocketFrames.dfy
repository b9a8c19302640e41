/** WebSocket frames, sections 5.2, 5.3, 5.5 and 7.4 of RFC 6455, as functions on bytes. */
module WebSocketFrames {
  import opened Core
  import opened Numbers
  import opened Utf8
  import opened Framing

  datatype Close = Close(code: u16, reason: Text)

  datatype Message =
    | TextMessage(text: Text)
    | BinaryMessage(data: seq<byte>)
    | CloseMessage(close: Option<Close>)
    | PingMessage(data: seq<byte>)
    | PongMessage(data: seq<byte>)

  /** No Rust buffer is longer than `isize::MAX` bytes. */
  const MAX_BUFFER: nat := 0x7FFF_FFFF_FFFF_FFFF

  // ----- Masking -----

  function XorBit(a: nat, b: nat): (x: nat)
    ensures x < 2
  {
    (a % 2 + b % 2) % 2
  }

  function XorBits(a: nat, b: nat, width: nat): nat {
    if width == 0 then 0 else XorBit(a, b) + 2 * XorBits(a / 2, b / 2, width - 1)
  }

  function Pow2(n: nat): nat {
    if n == 0 then 1 else 2 * Pow2(n - 1)
  }

  lemma XorBitCancels(a: nat, b: nat, high: nat)
    ensures XorBit(XorBit(a, b) + 2 * high, b) == a % 2
    ensures (XorBit(a, b) + 2 * high) / 2 == high
  {
  }

  lemma {:induction false} XorBitsCancel(a: nat, b: nat, width: nat)
    requires a < Pow2(width)
    ensures XorBits(a, b, width) < Pow2(width)
    ensures XorBits(XorBits(a, b, width), b, width) == a
  {
    hide XorBit;
    if width > 0 {
      XorBitsCancel(a / 2, b / 2, width - 1);
      XorBitCancels(a, b, XorBits(a / 2, b / 2, width - 1));
    }
  }

  lemma EightBits()
    ensures Pow2(8) == 256
  {
    assert Pow2(4) == 16;
  }

  /** Exclusive or of two bytes. */
  function Xor(a: byte, b: byte): byte {
    EightBits();
    XorBitsCancel(a, b, 8);
    XorBits(a, b, 8)
  }

  type Key = k: seq<byte> | |k| == 4 witness [0, 0, 0, 0]

  function Mask(payload: seq<byte>, key: Key): (masked: seq<byte>)
    ensures |masked| == |payload|
  {
    seq(|payload|, i requires 0 <= i < |payload| => Xor(payload[i], key[i % 4]))
  }

  /** Masking twice with the same key is the identity, at every length. */
  lemma MaskCancels(payload: seq<byte>, key: Key)
    ensures Mask(Mask(payload, key), key) == payload
  {
    forall i | 0 <= i < |payload|
      ensures Mask(Mask(payload, key), key)[i] == payload[i]
    {
      EightBits();
      XorBitsCancel(payload[i], key[i % 4], 8);
    }
  }

  // ----- Messages and payloads -----

  predicate ValidCloseCode(code: u16) {
    1000 <= code <= 1003 || 1007 <= code <= 1014 || 3000 <= code <= 4999
  }

  function Opcode(m: Message): byte {
    match m
    case TextMessage(_) => 0x1
    case BinaryMessage(_) => 0x2
    case CloseMessage(_) => 0x8
    case PingMessage(_) => 0x9
    case PongMessage(_) => 0xA
  }

  predicate Control(opcode: byte) { 0x8 <= opcode <= 0xA }

  function PayloadOf(m: Message): Result<seq<byte>> {
    match m
    case TextMessage(t) => Ok(t)
    case BinaryMessage(d) => Ok(d)
    case CloseMessage(None) => Ok([])
    case CloseMessage(Some(c)) => if ValidCloseCode(c.code) then Ok(U16(c.code) + c.reason) else Err(Encode)
    case PingMessage(d) => Ok(d)
    case PongMessage(d) => Ok(d)
  }

  function DecodeClose(p: seq<byte>): Result<Option<Close>> {
    if p == [] then Ok(None)
    else if |p| == 1 then Err(Decode)
    else
      var code := Join(p[0], p[1]);
      if ValidCloseCode(code) && Valid(p[2..]) then Ok(Some(Close(code, p[2..]))) else Err(Decode)
  }

  function DecodePayload(opcode: byte, p: seq<byte>): Result<Message> {
    match opcode
    case 0x1 => if Valid(p) then Ok(TextMessage(p)) else Err(Decode)
    case 0x2 => Ok(BinaryMessage(p))
    case 0x8 =>
      var c :- DecodeClose(p);
      Ok(CloseMessage(c))
    case 0x9 => Ok(PingMessage(p))
    case 0xA => Ok(PongMessage(p))
    case _ => Err(Decode)
  }

  lemma CloseIff(p: seq<byte>, c: Option<Close>)
    ensures DecodeClose(p) == Ok(c) <==> PayloadOf(CloseMessage(c)) == Ok(p)
  {
    if |p| >= 2 {
      assert p == U16(Join(p[0], p[1])) + p[2..];
    }
    if c.Some? && p == U16(c.value.code) + c.value.reason {
      assert p[2..] == c.value.reason;
    }
  }

  /** Opcode and payload determine the message, and the message its opcode and payload. */
  lemma PayloadIff(opcode: byte, p: seq<byte>, m: Message)
    ensures DecodePayload(opcode, p) == Ok(m) <==> Opcode(m) == opcode && PayloadOf(m) == Ok(p)
  {
    hide DecodeClose;
    if m.CloseMessage? {
      CloseIff(p, m.close);
    }
    if opcode == 0x8 && DecodeClose(p).Ok? {
      CloseIff(p, DecodeClose(p).value);
    }
  }

  // ----- Frames -----

  /** The length field; `flag` is 128 when the mask bit is set. */
  function LengthField(flag: byte, n: nat): seq<byte>
    requires flag == 0 || flag == 128
  {
    if n <= 125 then [flag + n]
    else if n <= 65535 then [flag + 126] + U16(n)
    else [flag + 127] + U64(n % 0x1_0000_0000_0000_0000)
  }

  function KeyBytes(key: Option<Key>): seq<byte> { if key.Some? then key.value else [] }

  function KeyFlag(key: Option<Key>): byte { if key.Some? then 128 else 0 }

  function Masked(key: Option<Key>, payload: seq<byte>): (s: seq<byte>)
    ensures |s| == |payload|
  {
    if key.Some? then Mask(payload, key.value) else payload
  }

  /** A final frame as section 5.2 lays it out: the server's form without a key, a client's with one. */
  function Frame(opcode: byte, key: Option<Key>, payload: seq<byte>): seq<byte>
    requires opcode < 16
  {
    [128 + opcode] + (LengthField(KeyFlag(key), |payload|) + (KeyBytes(key) + Masked(key, payload)))
  }

  function EncodeMessage(m: Message): Result<seq<byte>> {
    var p :- PayloadOf(m);
    if Control(Opcode(m)) && |p| > 125 then Err(Encode) else Ok(Frame(Opcode(m), None, p))
  }

  /** Payload length and the number of bytes before the mask, or None while the length is incomplete. */
  function ReadLength(s: seq<byte>): (r: Option<(nat, nat)>)
    requires |s| >= 2
    ensures r.Some? ==> 2 <= r.value.1 <= |s|
  {
    var short := s[1] % 128;
    if short == 126 then if |s| < 4 then None else Some((BigValue(s[2..4]), 4))
    else if short == 127 then if |s| < 10 then None else Some((BigValue(s[2..10]), 10))
    else Some((short, 2))
  }

  predicate Minimal(short: byte, len: nat) {
    && (short == 126 ==> len >= 126)
    && (short == 127 ==> 65535 < len <= MAX_BUFFER)
  }

  predicate LegalHeader(first: byte, masked: bool, len: nat, requireMask: bool) {
    && (requireMask ==> masked)
    && first / 16 == 8  // FIN set, reserved bits clear
    && (Control(first % 16) ==> len <= 125)
  }

  function KeyAt(s: seq<byte>, head: nat): Key
    requires head + 4 <= |s|
  {
    s[head..head + 4]
  }

  function DecodeFrame(maxFrameLen: nat, requireMask: bool, s: seq<byte>): Step<Message> {
    if |s| < 2 then Need
    else
      match ReadLength(s)
      case None => Need
      case Some((len, head)) =>
        if !Minimal(s[1] % 128, len) then Fail(Decode, 0)
        else if len > maxFrameLen then Fail(FrameTooLarge, 0)
        else
          var masked := s[1] >= 128;
          var start := if masked then head + 4 else head;
          var end := start + len;
          if |s| < end then Need
          else if !LegalHeader(s[0], masked, len, requireMask) then Fail(Decode, 0)
          else
            var payload := if masked then Mask(s[start..end], KeyAt(s, head)) else s[start..end];
            match DecodePayload(s[0] % 16, payload)
            case Ok(m) => Item(m, end)
            case Err(e) => Fail(e, end)
  }

  function WsDecoder(maxFrameLen: nat, requireMask: bool): Decoder<Message> {
    s => DecodeFrame(maxFrameLen, requireMask, s)
  }

  // ----- Decoding inverts encoding -----

  /** The length field of a frame reads back, and its short form is never one of the longer ones in disguise. */
  lemma LengthFieldReads(first: byte, flag: byte, n: nat, t: seq<byte>)
    requires (flag == 0 || flag == 128) && n <= MAX_BUFFER
    ensures var s := [first] + (LengthField(flag, n) + t);
            && ReadLength(s) == Some((n, 1 + |LengthField(flag, n)|))
            && (s[1] >= 128 <==> flag == 128)
            && Minimal(s[1] % 128, n)
  {
    hide BigValue, U16, U64;
    var w := LengthField(flag, n);
    var s := [first] + (w + t);
    assert s[1] == w[0];
    if 125 < n <= 65535 {
      U16Value(n);
      assert s[2..4] == U16(n);
    } else if n > 65535 {
      U64Value(n);
      assert s[2..10] == U64(n);
    }
  }

  /** A length that was read, and is minimal, was written by `LengthField`. */
  lemma LengthFieldWrites(s: seq<byte>)
    requires |s| >= 2 && ReadLength(s).Some? && Minimal(s[1] % 128, ReadLength(s).value.0)
    ensures var (n, head) := ReadLength(s).value;
            n <= MAX_BUFFER && s[1..head] == LengthField(if s[1] >= 128 then 128 else 0, n)
  {
    hide BigValue, U16, U64;
    if s[1] % 128 == 126 {
      U16Spells(s[2..4]);
      LengthBytes(s, 4);
    } else if s[1] % 128 == 127 {
      U64Spells(s[2..10]);
      LengthBytes(s, 10);
    } else {
      assert s[1..2] == [s[1]];
    }
  }

  lemma LengthBytes(s: seq<byte>, head: nat)
    requires 2 <= head <= |s|
    ensures s[1..head] == [s[1]] + s[2..head]
  {
  }

  lemma FrameParts(a: seq<byte>, w: seq<byte>, k: seq<byte>, body: seq<byte>, t: seq<byte>)
    ensures var s := (a + (w + (k + body))) + t;
            var head := |a + w|;
            && s == a + (w + ((k + body) + t))
            && s[head..head + |k|] == k
            && s[head + |k|..head + |k| + |body|] == body
  {
    Assoc(a, w + (k + body), t);
    Assoc(w, k + body, t);
    Assoc(k, body, t);
    Assoc(a, w, k + (body + t));
    MiddleSlice(a + w, k, body + t);
    Assoc(a + w, k, body + t);
    MiddleSlice((a + w) + k, body, t);
  }

  /** A frame all of whose parts are in place. */
  lemma CompleteFrame(maxFrameLen: nat, requireMask: bool, s: seq<byte>, opcode: byte, key: Option<Key>,
        p: seq<byte>, head: nat)
    requires opcode < 16 && |p| <= maxFrameLen
    requires (requireMask ==> key.Some?) && (Control(opcode) ==> |p| <= 125)
    requires |s| >= 2 && s[0] == 128 + opcode && (s[1] >= 128 <==> key.Some?)
    requires ReadLength(s) == Some((|p|, head)) && Minimal(s[1] % 128, |p|)
    requires var start := head + |KeyBytes(key)|;
             start + |p| <= |s| && s[head..start] == KeyBytes(key) && s[start..start + |p|] == Masked(key, p)
    ensures DecodeFrame(maxFrameLen, requireMask, s) ==
            match DecodePayload(opcode, p)
            case Ok(m) => Item(m, head + |KeyBytes(key)| + |p|)
            case Err(e) => Fail(e, head + |KeyBytes(key)| + |p|)
  {
    hide ReadLength, Minimal, Mask, DecodePayload;
    if key.Some? {
      MaskCancels(p, key.value);
    }
  }

  /** What a decoder sees in a complete frame. */
  lemma FrameOpens(maxFrameLen: nat, requireMask: bool, opcode: byte, key: Option<Key>, p: seq<byte>, t: seq<byte>)
    requires opcode < 16 && |p| <= maxFrameLen && |p| <= MAX_BUFFER
    requires (requireMask ==> key.Some?) && (Control(opcode) ==> |p| <= 125)
    ensures var f := Frame(opcode, key, p);
            DecodeFrame(maxFrameLen, requireMask, f + t) ==
            match DecodePayload(opcode, p)
            case Ok(m) => Item(m, |f|)
            case Err(e) => Fail(e, |f|)
  {
    hide LengthField, Frame, ReadLength, Minimal, Masked, KeyBytes, DecodePayload, DecodeFrame, Control;
    FrameLayout(opcode, key, p, t);
    CompleteFrame(maxFrameLen, requireMask, Frame(opcode, key, p) + t, opcode, key, p,
        1 + |LengthField(KeyFlag(key), |p|)|);
  }

  /** Where the parts of a frame stand. */
  lemma FrameLayout(opcode: byte, key: Option<Key>, p: seq<byte>, t: seq<byte>)
    requires opcode < 16 && |p| <= MAX_BUFFER
    ensures var f, head := Frame(opcode, key, p), 1 + |LengthField(KeyFlag(key), |p|)|;
            var s, start := f + t, head + |KeyBytes(key)|;
            && 2 <= head && |f| == start + |p| <= |s|
            && s[0] == 128 + opcode && (s[1] >= 128 <==> key.Some?)
            && ReadLength(s) == Some((|p|, head)) && Minimal(s[1] % 128, |p|)
            && s[head..start] == KeyBytes(key) && s[start..start + |p|] == Masked(key, p)
  {
    hide LengthField, ReadLength, Minimal, Masked, KeyBytes;
    var w, k, body := LengthField(KeyFlag(key), |p|), KeyBytes(key), Masked(key, p);
    FrameParts([128 + opcode], w, k, body, t);
    LengthFieldReads(128 + opcode, KeyFlag(key), |p|, (k + body) + t);
    FrameSize([128 + opcode], w, k, body);
  }

  lemma FrameSize(a: seq<byte>, w: seq<byte>, k: seq<byte>, body: seq<byte>)
    ensures |a + (w + (k + body))| == |a| + |w| + |k| + |body|
  {
  }

  /** Unmasked, every encodable message within the limit decodes to itself in front of anything. */
  lemma EncodedMessageRecovers(maxFrameLen: nat, m: Message)
    requires EncodeMessage(m).Ok? && |PayloadOf(m).value| <= maxFrameLen && |PayloadOf(m).value| <= MAX_BUFFER
    ensures Recovers(WsDecoder(maxFrameLen, false), EncodeMessage(m).value, m)
  {
    hide DecodeFrame, Frame;
    var p := PayloadOf(m).value;
    PayloadIff(Opcode(m), p, m);
    forall t: seq<byte>
      ensures WsDecoder(maxFrameLen, false)(EncodeMessage(m).value + t) == Item(m, |EncodeMessage(m).value|)
    {
      FrameOpens(maxFrameLen, false, Opcode(m), None, p, t);
    }
  }

  /** A client's frame, masked with any key, decodes to the message whether or not masks are required. */
  lemma MaskedMessageRecovers(maxFrameLen: nat, requireMask: bool, m: Message, key: Key)
    requires EncodeMessage(m).Ok? && |PayloadOf(m).value| <= maxFrameLen && |PayloadOf(m).value| <= MAX_BUFFER
    ensures Recovers(WsDecoder(maxFrameLen, requireMask), Frame(Opcode(m), Some(key), PayloadOf(m).value), m)
  {
    hide DecodeFrame, Frame;
    var p := PayloadOf(m).value;
    PayloadIff(Opcode(m), p, m);
    var f := Frame(Opcode(m), Some(key), p);
    forall t: seq<byte>
      ensures WsDecoder(maxFrameLen, requireMask)(f + t) == Item(m, |f|)
    {
      FrameOpens(maxFrameLen, requireMask, Opcode(m), Some(key), p, t);
    }
  }

  /** The key carried by an accepted frame. */
  function FrameKey(s: seq<byte>): Option<Key>
    requires |s| >= 2
  {
    match ReadLength(s)
    case Some((_, head)) => if s[1] >= 128 && |s| >= head + 4 then Some(s[head..head + 4]) else None
    case None => None
  }

  lemma AcceptedFrameParts(maxFrameLen: nat, requireMask: bool, s: seq<byte>, m: Message, n: nat)
    requires DecodeFrame(maxFrameLen, requireMask, s) == Item(m, n)
    ensures 2 <= n <= |s| && ReadLength(s).Some?
    ensures var (len, head) := ReadLength(s).value;
            && Minimal(s[1] % 128, len) && s[0] / 16 == 8 && (Control(s[0] % 16) ==> len <= 125)
            && n == head + |KeyBytes(FrameKey(s))| + len
            && s[head..n - len] == KeyBytes(FrameKey(s)) && (s[1] >= 128 <==> FrameKey(s).Some?)
            && DecodePayload(s[0] % 16, Masked(FrameKey(s), s[n - len..n])) == Ok(m)
  {
    hide ReadLength, Minimal, Mask, DecodePayload;
    var (len, head) := ReadLength(s).value;
    assert s[head..head] == [];
    assert n - len == if s[1] >= 128 then head + 4 else head;
  }

  lemma MaskedCancels(key: Option<Key>, payload: seq<byte>)
    ensures Masked(key, Masked(key, payload)) == payload
  {
    if key.Some? {
      MaskCancels(payload, key.value);
    }
  }

  /** Conversely, the bytes of an accepted frame are the one frame with that message and that key. */
  lemma AcceptedFrameIsCanonical(maxFrameLen: nat, requireMask: bool, s: seq<byte>, m: Message, n: nat)
    requires DecodeFrame(maxFrameLen, requireMask, s) == Item(m, n)
    ensures 2 <= n <= |s| && PayloadOf(m).Ok?
    ensures s[..n] == Frame(Opcode(m), FrameKey(s), PayloadOf(m).value)
    ensures s[1] < 128 ==> EncodeMessage(m) == Ok(s[..n])
  {
    hide ReadLength, Minimal, DecodePayload, LengthField, DecodeFrame, FrameKey, KeyBytes, Masked, PayloadOf, Opcode;
    AcceptedFrameParts(maxFrameLen, requireMask, s, m, n);
    var (len, head) := ReadLength(s).value;
    LengthFieldWrites(s);
    var key := FrameKey(s);
    var start := n - len;
    var p := Masked(key, s[start..n]);
    PayloadIff(s[0] % 16, p, m);
    MaskedCancels(key, s[start..n]);
    FourParts(s, head, start, n);
    assert |p| == len;
    assert s[..n] == Frame(Opcode(m), key, p);
  }

  lemma FourParts(s: seq<byte>, head: nat, start: nat, n: nat)
    requires 1 <= head <= start <= n <= |s|
    ensures s[..n] == [s[0]] + (s[1..head] + (s[head..start] + s[start..n]))
  {
  }

  lemma FrameVerdictStands(maxFrameLen: nat, requireMask: bool, s: seq<byte>, t: seq<byte>)
    ensures var d := DecodeFrame(maxFrameLen, requireMask, s);
            d != Need ==> DecodeFrame(maxFrameLen, requireMask, s + t) == d
  {
    hide ReadLength, Minimal, LegalHeader, Mask, DecodePayload;
    if |s| >= 2 && ReadLength(s).Some? {
      var (len, head) := ReadLength(s).value;
      LengthStands(s, t);
      var start := if s[1] >= 128 then head + 4 else head;
      if |s| >= start + len {
        SliceStands(s, t, head, start);
        SliceStands(s, t, start, start + len);
      }
    }
  }

  lemma LengthStands(s: seq<byte>, t: seq<byte>)
    requires |s| >= 2 && ReadLength(s).Some?
    ensures ReadLength(s + t) == ReadLength(s)
  {
    hide BigValue;
    if |s| >= 4 {
      SliceStands(s, t, 2, 4);
    }
    if |s| >= 10 {
      SliceStands(s, t, 2, 10);
    }
  }

  /** Frame decoding terminates and does not depend on how the stream is split into reads. */
  lemma WsIsStable(maxFrameLen: nat, requireMask: bool)
    ensures Progress(WsDecoder(maxFrameLen, requireMask)) && Stable(WsDecoder(maxFrameLen, requireMask))
  {
    var d := WsDecoder(maxFrameLen, requireMask);
    forall s: seq<byte>
      ensures ProgressAt(d, s)
    {
    }
    forall s: seq<byte>, t: seq<byte>
      ensures StableAt(d, s, t)
    {
      FrameVerdictStands(maxFrameLen, requireMask, s, t);
    }
  }

  // ----- The codec's methods -----

  /** The unmasking loop, which works on the payload in place. */
  method UnmaskInPlace(payload: array<byte>, key: Key)
    modifies payload
    ensures payload[..] == Mask(old(payload[..]), key)
  {
    ghost var before := payload[..];
    for index := 0 to payload.Length
      invariant forall i | 0 <= i < index :: payload[i] == Mask(before, key)[i]
      invariant forall i | index <= i < payload.Length :: payload[i] == before[i]
    {
      payload[index] := Xor(payload[index], key[index % 4]);
    }
  }

  /** The payload of a complete frame, unmasked if it carries a key. */
  method OpenPayload(frame: seq<byte>, head: nat, start: nat, masked: bool) returns (payload: seq<byte>)
    requires start <= |frame| && start == if masked then head + 4 else head
    ensures payload == if masked then Mask(frame[start..], KeyAt(frame, head)) else frame[start..]
  {
    var body := frame[start..];
    if !masked {
      return body;
    }
    var buffer := new byte[|body|](i requires 0 <= i < |body| => body[i]);
    assert buffer[..] == body;
    UnmaskInPlace(buffer, KeyAt(frame, head));
    return buffer[..];
  }

  lemma FrontSlices(s: seq<byte>, head: nat, start: nat, end: nat)
    requires head <= start <= end <= |s|
    ensures s[..end][start..] == s[start..end]
    ensures start == head + 4 ==> KeyAt(s[..end], head) == KeyAt(s, head)
  {
  }

  method DecodeWebSocketFrame(src: BytesMut, maxFrameLen: nat, requireMask: bool) returns (r: Result<Option<Message>>)
    modifies src
    ensures Performs(DecodeFrame(maxFrameLen, requireMask, old(src.data)), old(src.data), r, src.data)
  {
    hide BigValue, Mask, DecodePayload, LegalHeader, KeyAt;
    if |src.data| < 2 {
      return Ok(None);
    }
    var first, second := src.data[0], src.data[1];
    var masked := second >= 128;
    var len: nat := second % 128;
    var head := 2;
    if second % 128 == 126 {
      if |src.data| < head + 2 {
        return Ok(None);
      }
      len := BigValue(src.data[2..4]);
      head := head + 2;
    } else if second % 128 == 127 {
      if |src.data| < head + 8 {
        return Ok(None);
      }
      len := BigValue(src.data[2..10]);
      head := head + 8;
    }
    if !Minimal(second % 128, len) {
      return Err(Decode);
    }
    if len > maxFrameLen {
      return Err(FrameTooLarge);
    }
    var start := if masked then head + 4 else head;
    if |src.data| < start + len {
      return Ok(None);
    }
    if !LegalHeader(first, masked, len, requireMask) {
      return Err(Decode);
    }
    FrontSlices(src.data, head, start, start + len);
    var frame := src.SplitTo(start + len);
    var payload := OpenPayload(frame, head, start, masked);
    var m :- DecodePayload(first % 16, payload);
    return Ok(Some(m));
  }

  method EncodeWebSocketFrame(opcode: byte, payload: seq<byte>, dst: BytesMut)
    requires opcode < 16
    modifies dst
    ensures dst.data == old(dst.data) + Frame(opcode, None, payload)
  {
    hide U16, U64;
    ghost var start := dst.data;
    dst.Extend([128 + opcode]);
    var n := |payload|;
    if n <= 125 {
      dst.Extend([n]);
    } else if n <= 65535 {
      dst.Extend([126]);
      dst.Extend(U16(n));
      Assoc(start + [128 + opcode], [126], U16(n));
    } else {
      dst.Extend([127]);
      dst.Extend(U64(n % 0x1_0000_0000_0000_0000));
      Assoc(start + [128 + opcode], [127], U64(n % 0x1_0000_0000_0000_0000));
    }
    assert dst.data == (start + [128 + opcode]) + LengthField(0, n);
    dst.Extend(payload);
    assert [] + payload == payload;
    Assoc(start + [128 + opcode], LengthField(0, n), payload);
    Assoc(start, [128 + opcode], LengthField(0, n) + payload);
  }

  method EncodeWebSocketMessage(m: Message, dst: BytesMut) returns (r: Result<()>)
    modifies dst
    ensures Appends(EncodeMessage(m), old(dst.data), r, dst.data)
  {
    hide Frame;
    var payload :- PayloadOf(m);
    if Control(Opcode(m)) && |payload| > 125 {
      return Err(Encode);
    }
    EncodeWebSocketFrame(Opcode(m), payload, dst);
    return Ok(());
  }
}
