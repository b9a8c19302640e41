/** Exactly which bytes are accepted as WebSocket frames, what becomes of the others, and the frames themselves byte by
    byte (sections 5.2, 5.3, 5.5 and 7.4 of RFC 6455). */
module WebSocketVerdicts {
  import opened Core
  import opened Framing
  import opened Numbers
  import opened Utf8
  import opened WebSocketFrames

  // ----- Masking, section 5.3 -----

  /** Bit `i` of a number. */
  predicate BitOf(n: nat, i: nat) { if i == 0 then n % 2 == 1 else BitOf(n / 2, i - 1) }

  lemma {:induction false} XorBitsAre(a: nat, b: nat, width: nat, i: nat)
    requires i < width
    ensures BitOf(XorBits(a, b, width), i) <==> BitOf(a, i) != BitOf(b, i)
  {
    var high := XorBits(a / 2, b / 2, width - 1);
    assert (XorBit(a, b) + 2 * high) / 2 == high && (XorBit(a, b) + 2 * high) % 2 == XorBit(a, b);
    if i > 0 {
      XorBitsAre(a / 2, b / 2, width - 1, i - 1);
    }
  }

  /** Masking flips exactly the bits that are set in the key byte whose turn it is. */
  lemma MaskedBits(payload: seq<byte>, key: Key, k: nat, i: nat)
    requires k < |payload| && i < 8
    ensures BitOf(Mask(payload, key)[k], i) <==> BitOf(payload[k], i) != BitOf(key[k % 4], i)
  {
    XorBitsAre(payload[k], key[k % 4], 8, i);
  }

  // ----- Frames byte by byte -----

  /** Final, no reserved bits, and the opcode. */
  function FirstByte(m: Message): byte {
    match m
    case TextMessage(_) => 0x81
    case BinaryMessage(_) => 0x82
    case CloseMessage(_) => 0x88
    case PingMessage(_) => 0x89
    case PongMessage(_) => 0x8a
  }

  function Payload(m: Message): seq<byte> {
    match m
    case TextMessage(t) => t
    case BinaryMessage(d) => d
    case CloseMessage(None) => []
    case CloseMessage(Some(c)) => [c.code / 256, c.code % 256] + c.reason
    case PingMessage(d) => d
    case PongMessage(d) => d
  }

  /** The close codes an endpoint may send: neither the reserved ones nor those of other ranges. */
  predicate MayBeSent(code: u16) {
    1000 <= code <= 4999 && code !in {1004, 1005, 1006} && !(1015 <= code <= 2999)
  }

  predicate Encodable(m: Message) {
    match m
    case TextMessage(_) => true
    case BinaryMessage(_) => true
    case CloseMessage(c) => (c.Some? ==> MayBeSent(c.value.code)) && |Payload(m)| <= 125
    case PingMessage(d) => |d| <= 125
    case PongMessage(d) => |d| <= 125
  }

  /** A number in `width` bytes, the most significant first. */
  function Bytes(width: nat, n: nat): seq<byte> {
    if width == 0 then [] else Bytes(width - 1, n / 256) + [n % 256]
  }

  lemma {:induction false} ValueInBytes(s: seq<byte>)
    ensures Bytes(|s|, BigValue(s)) == s
  {
    if s != [] {
      var k := |s| - 1;
      ValueInBytes(s[..k]);
      assert BigValue(s) / 256 == BigValue(s[..k]) && BigValue(s) % 256 == s[k];
    }
  }

  /** The shortest of the three length forms, behind the mask bit. */
  function LengthBytes(mask: byte, n: nat): seq<byte>
    requires mask == 0 || mask == 128
  {
    if n <= 125 then [mask + n]
    else if n <= 65535 then [mask + 126, n / 256, n % 256]
    else [mask + 127] + Bytes(8, n % 0x1_0000_0000_0000_0000)
  }

  function Layout(m: Message, key: Option<Key>): seq<byte> {
    var p := Payload(m);
    if key.Some? then [FirstByte(m)] + (LengthBytes(128, |p|) + (key.value + Mask(p, key.value)))
    else [FirstByte(m)] + (LengthBytes(0, |p|) + p)
  }

  lemma LengthIsLaidOut(mask: byte, n: nat)
    requires mask == 0 || mask == 128
    ensures LengthField(mask, n) == LengthBytes(mask, n)
  {
    if n > 65535 {
      var wrapped := n % 0x1_0000_0000_0000_0000;
      U64Value(wrapped);
      ValueInBytes(U64(wrapped));
    } else if n > 125 {
      assert [mask + 126] + U16(n) == [mask + 126, n / 256, n % 256];
    }
  }

  lemma PayloadIs(m: Message)
    ensures Opcode(m) + 128 == FirstByte(m) && Opcode(m) < 16
    ensures PayloadOf(m).Ok? && !(Control(Opcode(m)) && |PayloadOf(m).value| > 125) <==> Encodable(m)
    ensures PayloadOf(m).Ok? ==> PayloadOf(m).value == Payload(m)
    ensures PayloadOf(m).Err? ==> PayloadOf(m).error == Encode
  {
  }

  /** Every message that can be encoded is, byte by byte; the others are refused. */
  lemma MessageIsLaidOut(m: Message)
    ensures EncodeMessage(m) == if Encodable(m) then Ok(Layout(m, None)) else Err(Encode)
  {
    hide PayloadOf, Payload, Encodable, LengthField, LengthBytes, FirstByte, Opcode, Control;
    PayloadIs(m);
    LengthIsLaidOut(0, |Payload(m)|);
    CutJoined([], Payload(m));
  }

  lemma FrameIsLaidOut(m: Message, key: Option<Key>)
    requires PayloadOf(m).Ok?
    ensures Frame(Opcode(m), key, PayloadOf(m).value) == Layout(m, key)
  {
    hide PayloadOf, Payload, LengthField, LengthBytes, FirstByte, Opcode, Encodable, Control;
    PayloadIs(m);
    LengthIsLaidOut(KeyFlag(key), |Payload(m)|);
    CutJoined([], Payload(m));
  }

  // ----- What is accepted -----

  /** The first `n` bytes are the frame of this message under this key, within the limits, and masked if masks are
      required. */
  predicate Frames(maxFrameLen: nat, requireMask: bool, s: seq<byte>, m: Message, n: nat, key: Option<Key>) {
    && Encodable(m) && |Payload(m)| <= maxFrameLen && |Payload(m)| <= 0x7FFF_FFFF_FFFF_FFFF
    && (requireMask ==> key.Some?)
    && n <= |s| && s[..n] == Layout(m, key)
  }

  /** A message is decoded from the front of the buffer exactly when its frame stands there. */
  lemma AcceptedIff(maxFrameLen: nat, requireMask: bool, s: seq<byte>, m: Message, n: nat)
    ensures DecodeFrame(maxFrameLen, requireMask, s) == Item(m, n) <==>
            exists key: Option<Key> :: Frames(maxFrameLen, requireMask, s, m, n, key)
  {
    hide DecodeFrame, Layout, Payload, Encodable;
    if DecodeFrame(maxFrameLen, requireMask, s) == Item(m, n) {
      AcceptedIsFramed(maxFrameLen, requireMask, s, m, n);
    }
    if key: Option<Key> :| Frames(maxFrameLen, requireMask, s, m, n, key) {
      FramedIsAccepted(maxFrameLen, requireMask, s, m, n, key);
    }
  }

  lemma FramedIsAccepted(maxFrameLen: nat, requireMask: bool, s: seq<byte>, m: Message, n: nat, key: Option<Key>)
    requires Frames(maxFrameLen, requireMask, s, m, n, key)
    ensures DecodeFrame(maxFrameLen, requireMask, s) == Item(m, n)
  {
    PayloadIs(m);
    hide DecodeFrame, Layout, Payload, Encodable, Frame, PayloadOf, Opcode, FirstByte, DecodePayload;
    FrameIsLaidOut(m, key);
    PayloadIff(Opcode(m), Payload(m), m);
    JoinCut(s, n);
    FrameOpens(maxFrameLen, requireMask, Opcode(m), key, Payload(m), s[n..]);
  }

  lemma AcceptedIsFramed(maxFrameLen: nat, requireMask: bool, s: seq<byte>, m: Message, n: nat)
    requires DecodeFrame(maxFrameLen, requireMask, s) == Item(m, n)
    ensures 2 <= n <= |s| && Frames(maxFrameLen, requireMask, s, m, n, FrameKey(s))
  {
    PayloadIs(m);
    hide Layout, Payload, Encodable, Frame, PayloadOf, Opcode, FirstByte, DecodePayload, ReadLength, Minimal, Mask;
    AcceptedFrameIsCanonical(maxFrameLen, requireMask, s, m, n);
    AcceptedFrameParts(maxFrameLen, requireMask, s, m, n);
    LengthFieldWrites(s);
    PayloadIff(s[0] % 16, Masked(FrameKey(s), s[n - ReadLength(s).value.0..n]), m);
    FrameIsLaidOut(m, FrameKey(s));
  }

  // ----- What is refused -----

  function Four(a: nat, b: nat, c: nat, d: nat): nat { a * 0x100_0000 + b * 0x1_0000 + c * 0x100 + d }

  /** The announced payload length and where the mask or the payload begins, once the length is complete. */
  function Announced(s: seq<byte>): Option<(nat, nat)>
    requires |s| >= 2
  {
    if s[1] % 128 <= 125 then Some((s[1] % 128, 2))
    else if s[1] % 128 == 126 then if |s| < 4 then None else Some((Four(0, 0, s[2], s[3]), 4))
    else if |s| < 10 then None
    else Some((Four(s[2], s[3], s[4], s[5]) * 0x1_0000_0000 + Four(s[6], s[7], s[8], s[9]), 10))
  }

  lemma ValueStep(s: seq<byte>, k: nat)
    requires k < |s|
    ensures BigValue(s[..k + 1]) == BigValue(s[..k]) * 256 + s[k]
  {
    assert s[..k + 1][..k] == s[..k];
  }

  lemma ValueOfFour(s: seq<byte>, k: nat)
    requires k + 4 <= |s|
    ensures BigValue(s[..k + 4]) == BigValue(s[..k]) * 0x1_0000_0000 + Four(s[k], s[k + 1], s[k + 2], s[k + 3])
  {
    hide BigValue;
    ValueStep(s, k);
    ValueStep(s, k + 1);
    ValueStep(s, k + 2);
    ValueStep(s, k + 3);
  }

  lemma NoValue()
    ensures BigValue([]) == 0
  {
  }

  lemma TwoByteValue(t: seq<byte>)
    requires |t| == 2
    ensures BigValue(t) == Four(0, 0, t[0], t[1])
  {
    hide BigValue;
    NoValue();
    assert t[..0] == [] && t[..2] == t;
    ValueStep(t, 0);
    ValueStep(t, 1);
  }

  lemma EightByteValue(t: seq<byte>)
    requires |t| == 8
    ensures BigValue(t) == Four(t[0], t[1], t[2], t[3]) * 0x1_0000_0000 + Four(t[4], t[5], t[6], t[7])
  {
    hide BigValue, Four;
    NoValue();
    assert t[..0] == [] && t[..8] == t;
    ValueOfFour(t, 0);
    ValueOfFour(t, 4);
  }

  lemma LengthIsAnnounced(s: seq<byte>)
    requires |s| >= 2
    ensures ReadLength(s) == Announced(s)
  {
    hide BigValue, Four;
    if s[1] % 128 == 126 && |s| >= 4 {
      TwoByteValue(s[2..4]);
    } else if s[1] % 128 == 127 && |s| >= 10 {
      EightByteValue(s[2..10]);
    }
  }

  /** The length is not in the shortest form, or uses the reserved high bit. */
  predicate Misspelled(s: seq<byte>, len: nat)
    requires |s| >= 2
  {
    (s[1] % 128 == 126 && len <= 125) || (s[1] % 128 == 127 && (len <= 65535 || len > 0x7FFF_FFFF_FFFF_FFFF))
  }

  /** The mask is missing where it is required, the frame is not final, a reserved bit is set, or a control frame is
      too long. */
  predicate IllFormed(s: seq<byte>, len: nat, requireMask: bool)
    requires |s| >= 2
  {
    (requireMask && s[1] <= 127) || s[0] <= 127 || s[0] >= 144 || (0x88 <= s[0] <= 0x8a && len > 125)
  }

  lemma DecodeErrors(opcode: byte, p: seq<byte>)
    ensures DecodePayload(opcode, p).Err? ==> DecodePayload(opcode, p).error == Decode
  {
  }

  /** What becomes of every other buffer: a misspelled length is refused at once, then one beyond the limit; a complete
      frame with an ill-formed header stays in the buffer, one with a bad payload is removed, and both are decode
      errors. */
  lemma RefusedAs(maxFrameLen: nat, requireMask: bool, s: seq<byte>)
    ensures var step := DecodeFrame(maxFrameLen, requireMask, s);
            if |s| < 2 || Announced(s).None? then step == Need
            else
              var (len, head) := Announced(s).value;
              var end := (if s[1] <= 127 then head else head + 4) + len;
              if Misspelled(s, len) then step == Fail(Decode, 0)
              else if len > maxFrameLen then step == Fail(FrameTooLarge, 0)
              else if |s| < end then step == Need
              else if IllFormed(s, len, requireMask) then step == Fail(Decode, 0)
              else step == Fail(Decode, end) || (step.Item? && step.used == end)
  {
    hide ReadLength, Announced, DecodePayload, Mask;
    if |s| >= 2 {
      LengthIsAnnounced(s);
      if ReadLength(s).Some? {
        var (len, head) := ReadLength(s).value;
        var start := if s[1] >= 128 then head + 4 else head;
        if |s| >= start + len {
          DecodeErrors(s[0] % 16, if s[1] >= 128 then Mask(s[start..start + len], KeyAt(s, head))
              else s[start..start + len]);
        }
      }
    }
  }

  /** Where masks are required only masked frames are accepted, and a whole frame without one is a decode error. */
  lemma MasksAreEnforced(maxFrameLen: nat, s: seq<byte>, m: Message, t: seq<byte>)
    ensures DecodeFrame(maxFrameLen, true, s).Item? ==> s[1] >= 128
    ensures Encodable(m) && |Payload(m)| <= maxFrameLen && |Payload(m)| <= 0x7FFF_FFFF_FFFF_FFFF ==>
              DecodeFrame(maxFrameLen, true, Layout(m, None) + t) == Fail(Decode, 0)
  {
    hide DecodeFrame, Announced;
    RefusedAs(maxFrameLen, true, s);
    if Encodable(m) && |Payload(m)| <= maxFrameLen && |Payload(m)| <= 0x7FFF_FFFF_FFFF_FFFF {
      PayloadIs(m);
      hide Payload, Encodable, Opcode, PayloadOf;
      FrameIsLaidOut(m, None);
      hide Layout, Frame, ReadLength, Minimal, Control;
      FrameLayout(Opcode(m), None, Payload(m), t);
      LengthIsAnnounced(Layout(m, None) + t);
      RefusedAs(maxFrameLen, true, Layout(m, None) + t);
    }
  }
}
