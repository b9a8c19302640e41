/** The fixed header of section 2.1 of MQTT 5.0, whole packets, and what the codec promises about them. */
module MqttFrames {
  import opened Core
  import opened Framing
  import opened MqttTypes
  import opened MqttWire
  import opened MqttBodies
  import VarInt

  /** Flag bits that must accompany a packet type; PUBLISH, type 3, carries its own. */
  function RequiredFlags(kind: byte): byte {
    if kind == 6 || kind == 8 || kind == 10 then 2 else 0
  }

  function ReadBody(kind: byte, flags: byte, s: seq<byte>): Parsed<MqttPacket> {
    if kind == 0 || kind > 15 || (kind != 3 && flags != RequiredFlags(kind)) then Err(Decode)
    else match kind
      case 1 => var (p, t) :- ReadConnect(s); Ok((Connect(p), t))
      case 2 => var (p, t) :- ReadConnAck(s); Ok((ConnAck(p), t))
      case 3 => var (p, t) :- ReadPublish(flags, s); Ok((Publish(p), t))
      case 4 => var (p, t) :- ReadAck(s); Ok((PubAck(p), t))
      case 5 => var (p, t) :- ReadAck(s); Ok((PubRec(p), t))
      case 6 => var (p, t) :- ReadAck(s); Ok((PubRel(p), t))
      case 7 => var (p, t) :- ReadAck(s); Ok((PubComp(p), t))
      case 8 => var (p, t) :- ReadSubscribe(s); Ok((Subscribe(p), t))
      case 9 => var (p, t) :- ReadCodes(s); Ok((SubAck(p), t))
      case 10 => var (p, t) :- ReadUnsubscribe(s); Ok((Unsubscribe(p), t))
      case 11 => var (p, t) :- ReadCodes(s); Ok((UnsubAck(p), t))
      case 12 => if s != [] then Err(Decode) else Ok((PingReq, s))
      case 13 => if s != [] then Err(Decode) else Ok((PingResp, s))
      case 14 => var (p, t) :- ReadReason(s); Ok((Disconnect(p), t))
      case _ => var (p, t) :- ReadReason(s); Ok((Auth(p), t))
  }

  /** A packet must fill its frame. */
  function DecodePacket(kind: byte, flags: byte, s: seq<byte>): Result<MqttPacket> {
    var (p, t) :- ReadBody(kind, flags, s);
    if t == [] then Ok(p) else Err(Decode)
  }

  function Kind(p: MqttPacket): (k: byte)
    ensures 1 <= k < 16
  {
    match p
    case Connect(_) => 1
    case ConnAck(_) => 2
    case Publish(_) => 3
    case PubAck(_) => 4
    case PubRec(_) => 5
    case PubRel(_) => 6
    case PubComp(_) => 7
    case Subscribe(_) => 8
    case SubAck(_) => 9
    case Unsubscribe(_) => 10
    case UnsubAck(_) => 11
    case PingReq => 12
    case PingResp => 13
    case Disconnect(_) => 14
    case Auth(_) => 15
  }

  function Flags(p: MqttPacket): (f: byte)
    ensures f < 16
  {
    if p.Publish? then PublishFlags(p.publish) else RequiredFlags(Kind(p))
  }

  function Header(p: MqttPacket): (h: byte)
    ensures h / 16 == Kind(p) && h % 16 == Flags(p)
  {
    Kind(p) * 16 + Flags(p)
  }

  function WriteBody(p: MqttPacket): Result<seq<byte>> {
    match p
    case Connect(c) => WriteConnect(c)
    case ConnAck(c) => WriteConnAck(c)
    case Publish(c) => WritePublish(c)
    case PubAck(c) => WriteAck(c)
    case PubRec(c) => WriteAck(c)
    case PubRel(c) => WriteAck(c)
    case PubComp(c) => WriteAck(c)
    case Subscribe(c) => WriteSubscribe(c)
    case SubAck(c) => WriteCodes(c)
    case Unsubscribe(c) => WriteUnsubscribe(c)
    case UnsubAck(c) => WriteCodes(c)
    case PingReq => Ok([])
    case PingResp => Ok([])
    case Disconnect(c) => WriteReason(c)
    case Auth(c) => WriteReason(c)
  }

  lemma WrittenBodyReads(p: MqttPacket)
    requires WriteBody(p).Ok? && |WriteBody(p).value| <= VarInt.MAX
    ensures DecodePacket(Kind(p), Flags(p), WriteBody(p).value) == Ok(p)
  {
    hide ReadConnect, WriteConnect, ReadConnAck, WriteConnAck, ReadPublish, WritePublish, ReadAck, WriteAck;
    hide ReadSubscribe, WriteSubscribe, ReadUnsubscribe, WriteUnsubscribe, ReadCodes, WriteCodes, ReadReason,
        WriteReason;
    match p
    case Connect(c) => WrittenConnectReads(c);
    case ConnAck(c) => WrittenConnAckReads(c);
    case Publish(c) => WrittenPublishReads(c);
    case PubAck(c) => WrittenAckReads(c);
    case PubRec(c) => WrittenAckReads(c);
    case PubRel(c) => WrittenAckReads(c);
    case PubComp(c) => WrittenAckReads(c);
    case Subscribe(c) => WrittenSubscribeReads(c);
    case SubAck(c) => WrittenCodesReads(c);
    case Unsubscribe(c) => WrittenUnsubscribeReads(c);
    case UnsubAck(c) => WrittenCodesReads(c);
    case PingReq =>
    case PingResp =>
    case Disconnect(c) => WrittenReasonReads(c);
    case Auth(c) => WrittenReasonReads(c);
  }

  lemma ReadBodyWrites(kind: byte, flags: byte, s: seq<byte>)
    requires flags < 16 && DecodePacket(kind, flags, s).Ok?
    ensures var p := DecodePacket(kind, flags, s).value;
            Kind(p) == kind && Flags(p) == flags && WriteBody(p).Ok? && |WriteBody(p).value| <= |s|
  {
    hide ReadConnect, WriteConnect, ReadConnAck, WriteConnAck, ReadPublish, WritePublish, ReadAck, WriteAck,
        PublishFlags;
    hide ReadSubscribe, WriteSubscribe, ReadUnsubscribe, WriteUnsubscribe, ReadCodes, WriteCodes, ReadReason,
        WriteReason;
    match kind
    case 1 => ReadConnectWrites(s);
    case 2 => ReadConnAckWrites(s);
    case 3 => ReadPublishWrites(flags, s);
    case 4 => ReadAckWrites(s);
    case 5 => ReadAckWrites(s);
    case 6 => ReadAckWrites(s);
    case 7 => ReadAckWrites(s);
    case 8 => ReadSubscribeWrites(s);
    case 9 => ReadCodesWrites(s);
    case 10 => ReadUnsubscribeWrites(s);
    case 11 => ReadCodesWrites(s);
    case 12 =>
    case 13 =>
    case _ => ReadReasonWrites(s);
  }

  // ----- Frames -----

  /** One decoder call.  A malformed packet is removed before its error is reported; other errors remove nothing. */
  function DecodeFrame(maxPacketSize: nat, s: seq<byte>): Step<MqttPacket> {
    if |s| < 2 then Need
    else
      match VarInt.ReadPrefix(s[1..])
      case Err(e) => Fail(e, 0)
      case Ok(None) => Need
      case Ok(Some((len, width))) =>
        if len > maxPacketSize then Fail(FrameTooLarge, 0)
        else
          var end := 1 + width + len;
          if |s| < end then Need
          else
            match DecodePacket(s[0] / 16, s[0] % 16, s[1 + width..end])
            case Ok(p) => Item(p, end)
            case Err(e) => Fail(e, end)
  }

  function EncodeFrame(maxPacketSize: nat, p: MqttPacket): Result<seq<byte>> {
    var body :- WriteBody(p);
    if |body| > maxPacketSize then Err(FrameTooLarge)
    else
      var len := |body| % 0x1_0000_0000;
      if len > VarInt.MAX then Err(Encode)
      else Ok([Header(p)] + (VarInt.Encode(len) + body))
  }

  function MqttDecoder(maxPacketSize: nat): Decoder<MqttPacket> {
    s => DecodeFrame(maxPacketSize, s)
  }

  /** What a decoder sees in a complete frame with an honest length. */
  lemma FrameOpens(maxPacketSize: nat, header: byte, body: seq<byte>, t: seq<byte>)
    requires |body| <= VarInt.MAX && |body| <= maxPacketSize
    ensures var b := [header] + (VarInt.Encode(|body|) + body);
            DecodeFrame(maxPacketSize, b + t) ==
            match DecodePacket(header / 16, header % 16, body)
            case Ok(p) => Item(p, |b|)
            case Err(e) => Fail(e, |b|)
  {
    hide DecodePacket, VarInt.ReadPrefix, VarInt.Encode;
    var w := VarInt.Encode(|body|);
    FrameParts(header, w, body, t);
    CutJoined(w, body + t);
    VarInt.PrefixIffEncoded(w + (body + t), |body|, |w|);
  }

  lemma FrameParts(header: byte, w: seq<byte>, body: seq<byte>, t: seq<byte>)
    ensures var s := ([header] + (w + body)) + t;
            && |s| >= 1 + |w| + |body| && s[0] == header && s[1..] == w + (body + t)
            && s[1 + |w|..1 + |w| + |body|] == body
  {
    Assoc([header], w + body, t);
    Assoc(w, body, t);
    Assoc([header], w, body + t);
    MiddleSlice([header] + w, body, t);
  }

  /** A shorter announcement than the body makes the decoder take fewer bytes than were written. */
  lemma FrameCutShort(maxPacketSize: nat, header: byte, len: nat, body: seq<byte>, t: seq<byte>)
    requires len <= VarInt.MAX && len < |body|
    ensures var b := [header] + (VarInt.Encode(len) + body);
            var step := DecodeFrame(maxPacketSize, b + t);
            step.Item? ==> step.used < |b|
  {
    hide DecodePacket, VarInt.ReadPrefix, VarInt.Encode;
    var w := VarInt.Encode(len);
    var b := [header] + (w + body);
    var s := b + t;
    Assoc([header], w + body, t);
    Assoc(w, body, t);
    assert s[1..] == w + (body + t);
    CutJoined(w, body + t);
    VarInt.PrefixIffEncoded(s[1..], len, |w|);
  }

  /** Whatever is encoded decodes to itself, with any bytes behind it, exactly when its body is no longer than the
      Remaining Length can say. */
  lemma FrameRoundTrip(maxPacketSize: nat, p: MqttPacket, t: seq<byte>)
    requires EncodeFrame(maxPacketSize, p).Ok?
    ensures var b := EncodeFrame(maxPacketSize, p).value;
            DecodeFrame(maxPacketSize, b + t) == Item(p, |b|) <==> |WriteBody(p).value| <= VarInt.MAX
  {
    hide DecodePacket, WriteBody, DecodeFrame, VarInt.Encode, Header;
    var body := WriteBody(p).value;
    if |body| <= VarInt.MAX {
      FrameOpens(maxPacketSize, Header(p), body, t);
      WrittenBodyReads(p);
    } else {
      FrameCutShort(maxPacketSize, Header(p), |body| % 0x1_0000_0000, body, t);
    }
  }

  /** Under a configured maximum within the protocol's, every encoding decodes to the packet it came from. */
  lemma EncodedFrameRecovers(maxPacketSize: nat, p: MqttPacket)
    requires maxPacketSize <= VarInt.MAX && EncodeFrame(maxPacketSize, p).Ok?
    ensures Recovers(MqttDecoder(maxPacketSize), EncodeFrame(maxPacketSize, p).value, p)
  {
    hide WriteBody, DecodeFrame;
    var b := EncodeFrame(maxPacketSize, p).value;
    forall t: seq<byte>
      ensures MqttDecoder(maxPacketSize)(b + t) == Item(p, |b|)
    {
      FrameRoundTrip(maxPacketSize, p, t);
    }
  }

  lemma HugePublishEncodes(publish: PublishPacket)
    requires publish.qos == AtMostOnce && publish.topicName == [] && publish.packetId == None
        && publish.properties == []
    requires |publish.payload| == 0x1_0000_0000
    ensures WriteBody(Publish(publish)).Ok? && |WriteBody(Publish(publish)).value| == 0x1_0000_0003
        && EncodeFrame(0x2_0000_0000, Publish(publish)).Ok?
  {
    assert WriteProperties([]) == Ok([0] + []);
  }

  /** A maximum beyond the protocol's lets a body of 2^32 bytes and more through with a truncated length. */
  lemma HugePublishIsGarbled()
    ensures exists maxPacketSize: nat, p: MqttPacket ::
              EncodeFrame(maxPacketSize, p).Ok?
                  && !Recovers(MqttDecoder(maxPacketSize), EncodeFrame(maxPacketSize, p).value, p)
  {
    var payload: seq<byte> := seq(0x1_0000_0000, i => 0);
    var publish := PublishPacket(false, AtMostOnce, false, [], None, [], payload);
    var p := Publish(publish);
    var max := 0x2_0000_0000;
    HugePublishEncodes(publish);
    hide WriteBody, DecodeFrame, EncodeFrame;
    var b := EncodeFrame(max, p).value;
    FrameRoundTrip(max, p, []);
    assert !Recovers(MqttDecoder(max), b, p) by {
      assert MqttDecoder(max)(b + []) != Item(p, |b|);
    }
  }

  /** Strictly inside an encoding the decoder asks for more and leaves the buffer alone. */
  lemma PartialFrameWaits(maxPacketSize: nat, p: MqttPacket, k: nat)
    requires maxPacketSize <= VarInt.MAX && EncodeFrame(maxPacketSize, p).Ok?
    requires k < |EncodeFrame(maxPacketSize, p).value|
    ensures DecodeFrame(maxPacketSize, EncodeFrame(maxPacketSize, p).value[..k]) == Need
  {
    hide WriteBody, DecodePacket, VarInt.ReadPrefix, VarInt.Encode;
    var body := WriteBody(p).value;
    var w := VarInt.Encode(|body|);
    var rest := w + body;
    var s := EncodeFrame(maxPacketSize, p).value[..k];
    assert EncodeFrame(maxPacketSize, p).value == [Header(p)] + rest;
    if k >= 2 {
      assert s[1..] == rest[..k - 1];
      if k - 1 < |w| {
        assert s[1..] == w[..k - 1];
        VarInt.PrefixOfEncodingIsIncomplete(|body|, k - 1);
      } else {
        assert s[1..][..|w|] == w;
        VarInt.PrefixIffEncoded(s[1..], |body|, |w|);
      }
    }
  }

  /** Any accepted frame re-encodes under the same maximum to no more bytes than it took, and that encoding decodes
      to the same packet. */
  lemma NormalForm(maxPacketSize: nat, s: seq<byte>, p: MqttPacket, n: nat)
    requires DecodeFrame(maxPacketSize, s) == Item(p, n)
    ensures var w := EncodeFrame(maxPacketSize, p);
            w.Ok? && |w.value| <= n && forall t :: DecodeFrame(maxPacketSize, w.value + t) == Item(p, |w.value|)
  {
    hide WriteBody, DecodePacket, VarInt.ReadPrefix, VarInt.Encode, Kind, Flags;
    var (len, width) := VarInt.ReadPrefix(s[1..]).value.value;
    VarInt.PrefixWithinMax(s[1..]);
    ReadBodyWrites(s[0] / 16, s[0] % 16, s[1 + width..n]);
    var body := WriteBody(p).value;
    VarInt.EncodeMonotone(|body|, len);
    var b := EncodeFrame(maxPacketSize, p).value;
    forall t: seq<byte>
      ensures DecodeFrame(maxPacketSize, b + t) == Item(p, |b|)
    {
      hide DecodeFrame;
      FrameRoundTrip(maxPacketSize, p, t);
    }
  }

  /** Packets decode in the order they were encoded, whatever follows them. */
  lemma PacketsDecodeInOrder(maxPacketSize: nat, ps: seq<MqttPacket>, frames: seq<seq<byte>>, t: seq<byte>)
    requires maxPacketSize <= VarInt.MAX && |ps| == |frames|
    requires forall i | 0 <= i < |ps| :: EncodeFrame(maxPacketSize, ps[i]) == Ok(frames[i])
    ensures Progress(MqttDecoder(maxPacketSize))
    ensures var r := DecodeAll(MqttDecoder(maxPacketSize), t);
            DecodeAll(MqttDecoder(maxPacketSize), Concat(frames) + t) == r.(items := ps + r.items)
  {
    hide EncodeFrame, DecodeFrame;
    MqttIsStable(maxPacketSize);
    forall i | 0 <= i < |ps|
      ensures Recovers(MqttDecoder(maxPacketSize), frames[i], ps[i])
    {
      EncodedFrameRecovers(maxPacketSize, ps[i]);
    }
    FramesDecodeInOrder(MqttDecoder(maxPacketSize), frames, ps, t);
  }

  lemma FrameVerdictStands(maxPacketSize: nat, s: seq<byte>, t: seq<byte>)
    ensures DecodeFrame(maxPacketSize, s) != Need ==> DecodeFrame(maxPacketSize, s + t) == DecodeFrame(maxPacketSize, s)
  {
    hide DecodePacket, VarInt.ReadPrefix;
    if |s| >= 2 {
      assert (s + t)[1..] == s[1..] + t;
      VarInt.PrefixStable(s[1..], t);
      match VarInt.ReadPrefix(s[1..])
      case Ok(Some((len, width))) =>
        var end := 1 + width + len;
        if |s| >= end {
          assert (s + t)[1 + width..end] == s[1 + width..end];
        }
      case _ =>
    }
  }

  /** MQTT decoding terminates and does not depend on how the stream is split into reads. */
  lemma MqttIsStable(maxPacketSize: nat)
    ensures Progress(MqttDecoder(maxPacketSize)) && Stable(MqttDecoder(maxPacketSize))
  {
    var d := MqttDecoder(maxPacketSize);
    forall s: seq<byte>
      ensures ProgressAt(d, s)
    {
    }
    forall s: seq<byte>, t: seq<byte>
      ensures StableAt(d, s, t)
    {
      FrameVerdictStands(maxPacketSize, s, t);
    }
  }
}
