/** The variable headers and payloads of the control packets, section 3 of MQTT 5.0, as functions on bytes. */
module MqttBodies {
  import opened Core
  import opened Numbers
  import opened Utf8
  import opened MqttTypes
  import opened MqttWire
  import VarInt

  // ----- Packet identifiers -----

  function ReadId(s: seq<byte>): Parsed<u16> {
    var (id, t) :- ReadU16(s);
    if id == 0 then Err(Decode) else Ok((id, t))
  }

  function WriteId(id: u16): Result<seq<byte>> {
    if id == 0 then Err(Encode) else Ok(U16(id))
  }

  lemma ReadIdIff(s: seq<byte>, id: u16, t: seq<byte>)
    ensures ReadId(s) == Ok((id, t)) <==> Spells(WriteId(id), s, t)
  {
    hide ReadU16, U16;
    ReadU16Iff(s, id, t);
    if ReadU16(s).Ok? {
      ReadU16Iff(s, ReadU16(s).value.0, ReadU16(s).value.1);
    }
  }

  // ----- Reason code and properties, both optional -----

  /** The tail of an acknowledgement, and the whole of DISCONNECT and AUTH. */
  function ReadReason(s: seq<byte>): Parsed<ReasonPacket> {
    if s == [] then Ok((ReasonPacket(0, []), []))
    else
      var (code, t) :- ReadU8(s);
      if t == [] then Ok((ReasonPacket(code, []), []))
      else
        var (ps, u) :- ReadProperties(t);
        Ok((ReasonPacket(code, ps), u))
  }

  function WriteReason(p: ReasonPacket): Result<seq<byte>> {
    if p.properties == [] then Ok(if p.reasonCode == 0 then [] else [p.reasonCode])
    else
      var ps :- WriteProperties(p.properties);
      Ok([p.reasonCode] + ps)
  }

  lemma WrittenReasonReads(p: ReasonPacket)
    requires WriteReason(p).Ok? && |WriteReason(p).value| <= VarInt.MAX
    ensures ReadReason(WriteReason(p).value) == Ok((p, []))
  {
    hide ReadProperties;
    if p.properties != [] {
      var w := WriteProperties(p.properties).value;
      assert w + [] == w;
      WrittenPropertiesRead(p.properties, w, []);
      assert ([p.reasonCode] + w)[1..] == w;
    }
  }

  lemma ReadReasonWrites(s: seq<byte>)
    requires ReadReason(s).Ok?
    ensures var (p, t) := ReadReason(s).value;
            WriteReason(p).Ok? && |WriteReason(p).value| + |t| <= |s|
  {
    hide ReadProperties, WriteProperties;
    if |s| > 1 {
      ReadPropertiesWrite(s[1..]);
    }
  }

  function ReadAck(s: seq<byte>): Parsed<AckPacket> {
    var (id, t) :- ReadId(s);
    var (r, u) :- ReadReason(t);
    Ok((AckPacket(id, r.reasonCode, r.properties), u))
  }

  function WriteAck(p: AckPacket): Result<seq<byte>> {
    var id :- WriteId(p.packetId);
    var r :- WriteReason(ReasonPacket(p.reasonCode, p.properties));
    Ok(id + r)
  }

  lemma WrittenAckReads(p: AckPacket)
    requires WriteAck(p).Ok? && |WriteAck(p).value| <= VarInt.MAX
    ensures ReadAck(WriteAck(p).value) == Ok((p, []))
  {
    hide ReadId, WriteId, ReadReason, WriteReason;
    var r := ReasonPacket(p.reasonCode, p.properties);
    ReadIdIff(WriteAck(p).value, p.packetId, WriteReason(r).value);
    WrittenReasonReads(r);
  }

  lemma ReadAckWrites(s: seq<byte>)
    requires ReadAck(s).Ok?
    ensures var (p, t) := ReadAck(s).value;
            WriteAck(p).Ok? && |WriteAck(p).value| + |t| <= |s|
  {
    hide ReadId, WriteId, ReadReason, WriteReason;
    var (id, t) := ReadId(s).value;
    ReadIdIff(s, id, t);
    ReadReasonWrites(t);
  }

  // ----- CONNACK -----

  function ReadConnAck(s: seq<byte>): Parsed<ConnAckPacket> {
    var (flags, t) :- ReadU8(s);
    if flags > 1 then Err(Decode)
    else
      var (code, u) :- ReadU8(t);
      var (ps, v) :- ReadProperties(u);
      Ok((ConnAckPacket(flags == 1, code, ps), v))
  }

  function WriteConnAck(p: ConnAckPacket): Result<seq<byte>> {
    var ps :- WriteProperties(p.properties);
    Ok([BoolByte(p.sessionPresent)] + ([p.reasonCode] + ps))
  }

  lemma WrittenConnAckReads(p: ConnAckPacket)
    requires WriteConnAck(p).Ok? && |WriteConnAck(p).value| <= VarInt.MAX
    ensures ReadConnAck(WriteConnAck(p).value) == Ok((p, []))
  {
    hide ReadProperties, WriteProperties, ReadU8;
    var ps := WriteProperties(p.properties).value;
    assert ps + [] == ps;
    ReadU8Iff(WriteConnAck(p).value, BoolByte(p.sessionPresent), [p.reasonCode] + ps);
    ReadU8Iff([p.reasonCode] + ps, p.reasonCode, ps);
    WrittenPropertiesRead(p.properties, ps, []);
  }

  lemma ReadConnAckWrites(s: seq<byte>)
    requires ReadConnAck(s).Ok?
    ensures var (p, t) := ReadConnAck(s).value;
            WriteConnAck(p).Ok? && |WriteConnAck(p).value| + |t| <= |s|
  {
    hide ReadProperties, WriteProperties;
    ReadPropertiesWrite(s[1..][1..]);
  }

  // ----- PUBLISH -----

  function ReadPublishId(qos: QoS, s: seq<byte>): Parsed<Option<u16>> {
    if qos == AtMostOnce then Ok((None, s))
    else
      var (id, t) :- ReadId(s);
      Ok((Some(id), t))
  }

  function WritePublishId(qos: QoS, id: Option<u16>): Result<seq<byte>> {
    match id
    case None => if qos == AtMostOnce then Ok([]) else Err(Encode)
    case Some(n) => if qos == AtMostOnce then Err(Encode) else WriteId(n)
  }

  lemma ReadPublishIdIff(qos: QoS, s: seq<byte>, id: Option<u16>, t: seq<byte>)
    ensures ReadPublishId(qos, s) == Ok((id, t)) <==> Spells(WritePublishId(qos, id), s, t)
  {
    hide ReadId, WriteId;
    assert [] + t == t;
    if id.Some? {
      ReadIdIff(s, id.value, t);
    }
    if ReadId(s).Ok? {
      ReadIdIff(s, ReadId(s).value.0, ReadId(s).value.1);
    }
  }

  function PublishFlags(p: PublishPacket): byte {
    QoSByte(p.qos) * 2 + BoolByte(p.dup) * 8 + BoolByte(p.retain)
  }

  /** The payload is everything behind the properties. */
  function ReadPublish(flags: byte, s: seq<byte>): Parsed<PublishPacket> {
    var qos :- QoSFrom(flags / 2 % 4);
    var (topic, t) :- ReadText(s);
    var (id, u) :- ReadPublishId(qos, t);
    var (ps, v) :- ReadProperties(u);
    Ok((PublishPacket(Bit(flags, 8), qos, Bit(flags, 1), topic, id, ps, v), []))
  }

  function WritePublish(p: PublishPacket): Result<seq<byte>> {
    var id :- WritePublishId(p.qos, p.packetId);
    var topic :- WriteBlob(p.topicName);
    var ps :- WriteProperties(p.properties);
    Ok(topic + (id + (ps + p.payload)))
  }

  lemma WrittenPublishReads(p: PublishPacket)
    requires WritePublish(p).Ok? && |WritePublish(p).value| <= VarInt.MAX
    ensures ReadPublish(PublishFlags(p), WritePublish(p).value) == Ok((p, []))
  {
    hide ReadProperties, WriteProperties, ReadText, WriteBlob, ReadPublishId, WritePublishId;
    var ps := WriteProperties(p.properties).value + p.payload;
    var rest := WritePublishId(p.qos, p.packetId).value + ps;
    ReadTextIff(WritePublish(p).value, p.topicName, rest);
    ReadPublishIdIff(p.qos, rest, p.packetId, ps);
    WrittenPropertiesRead(p.properties, ps, p.payload);
  }

  lemma ReadPublishWrites(flags: byte, s: seq<byte>)
    requires flags < 16 && ReadPublish(flags, s).Ok?
    ensures var (p, t) := ReadPublish(flags, s).value;
            t == [] && PublishFlags(p) == flags && WritePublish(p).Ok? && |WritePublish(p).value| <= |s|
  {
    hide ReadProperties, WriteProperties, ReadText, WriteBlob, ReadPublishId, WritePublishId;
    var qos := QoSFrom(flags / 2 % 4).value;
    var (topic, t) := ReadText(s).value;
    var (id, u) := ReadPublishId(qos, t).value;
    ReadTextIff(s, topic, t);
    ReadPublishIdIff(qos, t, id, u);
    ReadPropertiesWrite(u);
  }

  // ----- SUBSCRIBE -----

  function ReadOptions(b: byte): Result<SubscriptionOptions> {
    if b >= 64 || b / 16 % 4 == 3 then Err(Decode)
    else
      var qos :- QoSFrom(b % 4);
      Ok(SubscriptionOptions(qos, Bit(b, 4), Bit(b, 8), b / 16 % 4))
  }

  function WriteOptions(o: SubscriptionOptions): Result<byte> {
    if o.retainHandling > 2 then Err(Encode)
    else Ok(QoSByte(o.maximumQoS) + BoolByte(o.noLocal) * 4 + BoolByte(o.retainAsPublished) * 8 + o.retainHandling * 16)
  }

  lemma WrittenOptionsRead(o: SubscriptionOptions)
    requires WriteOptions(o).Ok?
    ensures ReadOptions(WriteOptions(o).value) == Ok(o)
  {
    var b := WriteOptions(o).value;
    assert b / 4 == BoolByte(o.noLocal) + BoolByte(o.retainAsPublished) * 2 + o.retainHandling * 4;
    assert b / 8 == BoolByte(o.retainAsPublished) + o.retainHandling * 2;
    assert b / 16 == o.retainHandling;
    assert b % 4 == QoSByte(o.maximumQoS);
  }

  lemma ReadOptionsWrite(b: byte)
    requires ReadOptions(b).Ok?
    ensures WriteOptions(ReadOptions(b).value) == Ok(b)
  {
    assert b / 8 / 2 == b / 16 && b / 4 / 2 == b / 8;
    assert b == b / 16 * 16 + b / 8 % 2 * 8 + b / 4 % 2 * 4 + b % 4;
  }

  /** The options byte of a subscription spells the options and nothing else. */
  lemma OptionsIff(b: byte, o: SubscriptionOptions)
    ensures ReadOptions(b) == Ok(o) <==> WriteOptions(o) == Ok(b)
  {
    hide ReadOptions, WriteOptions;
    if WriteOptions(o).Ok? {
      WrittenOptionsRead(o);
    }
    if ReadOptions(b).Ok? {
      ReadOptionsWrite(b);
    }
  }

  function ReadSubscription(s: seq<byte>): (r: Parsed<Subscription>)
    ensures r.Ok? ==> |r.value.1| < |s|
  {
    var (topic, t) :- ReadText(s);
    var (b, u) :- ReadU8(t);
    var o :- ReadOptions(b);
    Ok((Subscription(topic, o), u))
  }

  function WriteSubscription(x: Subscription): Result<seq<byte>> {
    var b :- WriteOptions(x.options);
    var topic :- WriteBlob(x.topicFilter);
    Ok(topic + [b])
  }

  lemma ReadSubscriptionIff(s: seq<byte>, x: Subscription, t: seq<byte>)
    ensures ReadSubscription(s) == Ok((x, t)) <==> Spells(WriteSubscription(x), s, t)
  {
    hide ReadText, WriteBlob, ReadU8, ReadOptions, WriteOptions;
    var o, w := WriteOptions(x.options), WriteBlob(x.topicFilter);
    if o.Ok? && w.Ok? {
      Assoc(w.value, [o.value], t);
      ReadTextIff(s, x.topicFilter, [o.value] + t);
      ReadU8Iff([o.value] + t, o.value, t);
      OptionsIff(o.value, x.options);
    }
    if ReadSubscription(s) == Ok((x, t)) {
      var (topic, u) := ReadText(s).value;
      var (b, v) := ReadU8(u).value;
      ReadTextIff(s, topic, u);
      ReadU8Iff(u, b, v);
      OptionsIff(b, x.options);
    }
  }

  function ReadSubscriptions(s: seq<byte>): Result<seq<Subscription>>
    decreases |s|
  {
    if s == [] then Ok([])
    else
      var (x, t) :- ReadSubscription(s);
      var xs :- ReadSubscriptions(t);
      Ok([x] + xs)
  }

  function WriteSubscriptions(xs: seq<Subscription>): Result<seq<byte>> {
    if xs == [] then Ok([])
    else
      var x :- WriteSubscription(xs[0]);
      var rest :- WriteSubscriptions(xs[1..]);
      Ok(x + rest)
  }

  lemma {:induction false} ReadSubscriptionsIff(s: seq<byte>, xs: seq<Subscription>)
    ensures ReadSubscriptions(s) == Ok(xs) <==> WriteSubscriptions(xs) == Ok(s)
    decreases |s| + |xs|
  {
    hide ReadSubscription, WriteSubscription;
    if s != [] && ReadSubscription(s).Ok? {
      var (x, t) := ReadSubscription(s).value;
      ReadSubscriptionIff(s, x, t);
      if xs != [] {
        ReadSubscriptionsIff(t, xs[1..]);
        assert xs == [xs[0]] + xs[1..];
      }
    }
    if xs != [] && WriteSubscriptions(xs) == Ok(s) {
      var t := WriteSubscriptions(xs[1..]).value;
      ReadSubscriptionIff(s, xs[0], t);
      ReadSubscriptionsIff(t, xs[1..]);
      assert xs == [xs[0]] + xs[1..];
    }
  }

  function ReadSubscribe(s: seq<byte>): Parsed<SubscribePacket> {
    var (id, t) :- ReadId(s);
    var (ps, u) :- ReadProperties(t);
    var xs :- ReadSubscriptions(u);
    if xs == [] then Err(Decode) else Ok((SubscribePacket(id, ps, xs), []))
  }

  function WriteSubscribe(p: SubscribePacket): Result<seq<byte>> {
    if p.subscriptions == [] then Err(Encode)
    else
      var id :- WriteId(p.packetId);
      var ps :- WriteProperties(p.properties);
      var xs :- WriteSubscriptions(p.subscriptions);
      Ok(id + (ps + xs))
  }

  lemma WrittenSubscribeReads(p: SubscribePacket)
    requires WriteSubscribe(p).Ok? && |WriteSubscribe(p).value| <= VarInt.MAX
    ensures ReadSubscribe(WriteSubscribe(p).value) == Ok((p, []))
  {
    hide ReadId, WriteId, ReadProperties, WriteProperties, ReadSubscriptions, WriteSubscriptions;
    var xs := WriteSubscriptions(p.subscriptions).value;
    var rest := WriteProperties(p.properties).value + xs;
    ReadIdIff(WriteSubscribe(p).value, p.packetId, rest);
    WrittenPropertiesRead(p.properties, rest, xs);
    ReadSubscriptionsIff(xs, p.subscriptions);
  }

  lemma ReadSubscribeWrites(s: seq<byte>)
    requires ReadSubscribe(s).Ok?
    ensures var (p, t) := ReadSubscribe(s).value;
            t == [] && WriteSubscribe(p).Ok? && |WriteSubscribe(p).value| <= |s|
  {
    hide ReadId, WriteId, ReadProperties, WriteProperties, ReadSubscriptions, WriteSubscriptions;
    var (id, t) := ReadId(s).value;
    var (ps, u) := ReadProperties(t).value;
    ReadIdIff(s, id, t);
    ReadPropertiesWrite(t);
    ReadSubscriptionsIff(u, ReadSubscriptions(u).value);
  }

  // ----- UNSUBSCRIBE -----

  function ReadFilters(s: seq<byte>): Result<seq<Text>>
    decreases |s|
  {
    if s == [] then Ok([])
    else
      var (x, t) :- ReadText(s);
      var xs :- ReadFilters(t);
      Ok([x] + xs)
  }

  function WriteFilters(xs: seq<Text>): Result<seq<byte>> {
    if xs == [] then Ok([])
    else
      var x :- WriteBlob(xs[0]);
      var rest :- WriteFilters(xs[1..]);
      Ok(x + rest)
  }

  lemma {:induction false} ReadFiltersIff(s: seq<byte>, xs: seq<Text>)
    ensures ReadFilters(s) == Ok(xs) <==> WriteFilters(xs) == Ok(s)
    decreases |s| + |xs|
  {
    hide ReadU16, Valid;
    if s != [] && ReadText(s).Ok? {
      var (x, t) := ReadText(s).value;
      ReadTextIff(s, x, t);
      if xs != [] {
        ReadFiltersIff(t, xs[1..]);
        assert xs == [xs[0]] + xs[1..];
      }
    }
    if xs != [] && WriteFilters(xs) == Ok(s) {
      var t := WriteFilters(xs[1..]).value;
      ReadTextIff(s, xs[0], t);
      ReadFiltersIff(t, xs[1..]);
      assert xs == [xs[0]] + xs[1..];
    }
  }

  function ReadUnsubscribe(s: seq<byte>): Parsed<UnsubscribePacket> {
    var (id, t) :- ReadId(s);
    var (ps, u) :- ReadProperties(t);
    var xs :- ReadFilters(u);
    if xs == [] then Err(Decode) else Ok((UnsubscribePacket(id, ps, xs), []))
  }

  function WriteUnsubscribe(p: UnsubscribePacket): Result<seq<byte>> {
    if p.topicFilters == [] then Err(Encode)
    else
      var id :- WriteId(p.packetId);
      var ps :- WriteProperties(p.properties);
      var xs :- WriteFilters(p.topicFilters);
      Ok(id + (ps + xs))
  }

  lemma WrittenUnsubscribeReads(p: UnsubscribePacket)
    requires WriteUnsubscribe(p).Ok? && |WriteUnsubscribe(p).value| <= VarInt.MAX
    ensures ReadUnsubscribe(WriteUnsubscribe(p).value) == Ok((p, []))
  {
    hide ReadId, WriteId, ReadProperties, WriteProperties, ReadFilters, WriteFilters;
    var xs := WriteFilters(p.topicFilters).value;
    var rest := WriteProperties(p.properties).value + xs;
    ReadIdIff(WriteUnsubscribe(p).value, p.packetId, rest);
    WrittenPropertiesRead(p.properties, rest, xs);
    ReadFiltersIff(xs, p.topicFilters);
  }

  lemma ReadUnsubscribeWrites(s: seq<byte>)
    requires ReadUnsubscribe(s).Ok?
    ensures var (p, t) := ReadUnsubscribe(s).value;
            t == [] && WriteUnsubscribe(p).Ok? && |WriteUnsubscribe(p).value| <= |s|
  {
    hide ReadId, WriteId, ReadProperties, WriteProperties, ReadFilters, WriteFilters;
    var (id, t) := ReadId(s).value;
    var (ps, u) := ReadProperties(t).value;
    ReadIdIff(s, id, t);
    ReadPropertiesWrite(t);
    ReadFiltersIff(u, ReadFilters(u).value);
  }

  // ----- SUBACK and UNSUBACK -----

  function ReadCodes(s: seq<byte>): Parsed<CodesPacket> {
    var (id, t) :- ReadId(s);
    var (ps, u) :- ReadProperties(t);
    if u == [] then Err(Decode) else Ok((CodesPacket(id, ps, u), []))
  }

  function WriteCodes(p: CodesPacket): Result<seq<byte>> {
    var id :- WriteId(p.packetId);
    if p.reasonCodes == [] then Err(Encode)
    else
      var ps :- WriteProperties(p.properties);
      Ok(id + (ps + p.reasonCodes))
  }

  lemma WrittenCodesReads(p: CodesPacket)
    requires WriteCodes(p).Ok? && |WriteCodes(p).value| <= VarInt.MAX
    ensures ReadCodes(WriteCodes(p).value) == Ok((p, []))
  {
    hide ReadId, WriteId, ReadProperties, WriteProperties;
    var rest := WriteProperties(p.properties).value + p.reasonCodes;
    ReadIdIff(WriteCodes(p).value, p.packetId, rest);
    WrittenPropertiesRead(p.properties, rest, p.reasonCodes);
  }

  lemma ReadCodesWrites(s: seq<byte>)
    requires ReadCodes(s).Ok?
    ensures var (p, t) := ReadCodes(s).value;
            t == [] && WriteCodes(p).Ok? && |WriteCodes(p).value| <= |s|
  {
    hide ReadId, WriteId, ReadProperties, WriteProperties;
    var (id, t) := ReadId(s).value;
    ReadIdIff(s, id, t);
    ReadPropertiesWrite(t);
  }

  // ----- CONNECT -----

  datatype ConnectFlags = ConnectFlags(user: bool, pass: bool, retain: bool, qos: QoS, will: bool, clean: bool)

  predicate LegalFlags(f: ConnectFlags) {
    && (f.will || (!f.retain && f.qos == AtMostOnce))
    && (f.pass ==> f.user)
  }

  function FlagsFrom(b: byte): Result<ConnectFlags> {
    if Bit(b, 1) then Err(Decode)
    else
      var qos :- QoSFrom(b / 8 % 4);
      var f := ConnectFlags(Bit(b, 128), Bit(b, 64), Bit(b, 32), qos, Bit(b, 4), Bit(b, 2));
      if LegalFlags(f) then Ok(f) else Err(Decode)
  }

  function FlagsByte(f: ConnectFlags): byte {
    BoolByte(f.user) * 128 + BoolByte(f.pass) * 64 + BoolByte(f.retain) * 32 + QoSByte(f.qos) * 8
        + BoolByte(f.will) * 4 + BoolByte(f.clean) * 2
  }

  lemma BitsOf(b: byte)
    ensures b == b / 128 % 2 * 128 + b / 64 % 2 * 64 + b / 32 % 2 * 32 + b / 8 % 4 * 8 + b / 4 % 2 * 4
        + b / 2 % 2 * 2 + b % 2
  {
    assert b / 64 / 2 == b / 128 && b / 32 / 2 == b / 64 && b / 8 / 4 == b / 32 && b / 4 / 2 == b / 8
        && b / 2 / 2 == b / 4;
  }

  lemma BitByte(b: byte, w: nat)
    requires w > 0
    ensures BoolByte(Bit(b, w)) == b / w % 2 && (!Bit(b, w) ==> b / w % 2 == 0)
  {
  }

  lemma BitsMake(u: nat, p: nat, r: nat, q: nat, w: nat, c: nat, b: byte)
    requires u < 2 && p < 2 && r < 2 && q < 4 && w < 2 && c < 2
    requires b == u * 128 + p * 64 + r * 32 + q * 8 + w * 4 + c * 2
    ensures b / 128 % 2 == u && b / 64 % 2 == p && b / 32 % 2 == r
    ensures b / 8 % 4 == q && b / 4 % 2 == w && b / 2 % 2 == c && b % 2 == 0
  {
    assert b / 2 == u * 64 + p * 32 + r * 16 + q * 4 + w * 2 + c;
    assert b / 4 == u * 32 + p * 16 + r * 8 + q * 2 + w;
    assert b / 8 == u * 16 + p * 8 + r * 4 + q;
    assert b / 32 == u * 4 + p * 2 + r;
    assert b / 64 == u * 2 + p;
    assert b / 128 == u;
  }

  lemma WrittenFlagsRead(f: ConnectFlags)
    requires LegalFlags(f)
    ensures FlagsFrom(FlagsByte(f)) == Ok(f)
  {
    hide LegalFlags;
    var b := FlagsByte(f);
    BitsMake(BoolByte(f.user), BoolByte(f.pass), BoolByte(f.retain), QoSByte(f.qos), BoolByte(f.will),
        BoolByte(f.clean), b);
    assert QoSFrom(QoSByte(f.qos)) == Ok(f.qos);
  }

  lemma ReadFlagsWrite(b: byte)
    requires FlagsFrom(b).Ok?
    ensures LegalFlags(FlagsFrom(b).value) && FlagsByte(FlagsFrom(b).value) == b
  {
    hide LegalFlags, Bit, BoolByte;
    BitsOf(b);
    BitByte(b, 128);
    BitByte(b, 64);
    BitByte(b, 32);
    BitByte(b, 4);
    BitByte(b, 2);
    BitByte(b, 1);
    assert QoSByte(QoSFrom(b / 8 % 4).value) == b / 8 % 4;
  }

  /** The flags byte of CONNECT spells the flags and nothing else. */
  lemma FlagsIff(b: byte, f: ConnectFlags)
    ensures FlagsFrom(b) == Ok(f) <==> LegalFlags(f) && FlagsByte(f) == b
  {
    hide LegalFlags, FlagsFrom, FlagsByte;
    if LegalFlags(f) {
      WrittenFlagsRead(f);
    }
    if FlagsFrom(b).Ok? {
      ReadFlagsWrite(b);
    }
  }

  /** The protocol name "MQTT" with its length, and protocol level 5. */
  const PROTOCOL: seq<byte> := [0x4d, 0x51, 0x54, 0x54]
  const LEVEL: byte := 5

  function ReadPreamble(s: seq<byte>): Parsed<ConnectFlags> {
    var (name, t) :- ReadText(s);
    if name != PROTOCOL then Err(Decode)
    else
      var (level, u) :- ReadU8(t);
      if level != LEVEL then Err(Decode)
      else
        var (b, v) :- ReadU8(u);
        var f :- FlagsFrom(b);
        Ok((f, v))
  }

  function WritePreamble(f: ConnectFlags): seq<byte> {
    (U16(4) + PROTOCOL) + ([LEVEL] + [FlagsByte(f)])
  }

  lemma WrittenPreambleReads(f: ConnectFlags, t: seq<byte>)
    requires LegalFlags(f)
    ensures ReadPreamble(WritePreamble(f) + t) == Ok((f, t))
  {
    hide ReadText, ReadU8, FlagsFrom, FlagsByte;
    AsciiIsValid(PROTOCOL);
    FlagsIff(FlagsByte(f), f);
    var b := [FlagsByte(f)] + t;
    var a := [LEVEL] + b;
    Assoc([LEVEL], [FlagsByte(f)], t);
    Assoc(U16(4) + PROTOCOL, [LEVEL] + [FlagsByte(f)], t);
    ReadTextIff(WritePreamble(f) + t, PROTOCOL, a);
    ReadU8Iff(a, LEVEL, b);
    ReadU8Iff(b, FlagsByte(f), t);
  }

  lemma ReadPreambleLegal(s: seq<byte>)
    requires ReadPreamble(s).Ok?
    ensures var (f, t) := ReadPreamble(s).value; LegalFlags(f) && |WritePreamble(f)| + |t| == |s|
  {
    hide ReadText;
    var (name, t) := ReadText(s).value;
    ReadTextIff(s, name, t);
  }

  function ReadOptional(present: bool, s: seq<byte>): Parsed<Option<seq<byte>>> {
    if !present then Ok((None, s))
    else
      var (d, t) :- ReadData(s);
      Ok((Some(d), t))
  }

  function ReadOptionalText(present: bool, s: seq<byte>): Parsed<Option<Text>> {
    if !present then Ok((None, s))
    else
      var (x, t) :- ReadText(s);
      Ok((Some(x), t))
  }

  function WriteOptional(o: Option<seq<byte>>): Result<seq<byte>> {
    match o
    case None => Ok([])
    case Some(d) => WriteBlob(d)
  }

  lemma ReadOptionalIff(s: seq<byte>, o: Option<seq<byte>>, t: seq<byte>)
    ensures ReadOptional(o.Some?, s) == Ok((o, t)) <==> Spells(WriteOptional(o), s, t)
  {
    hide ReadData, WriteBlob;
    assert [] + t == t;
    if o.Some? {
      ReadDataIff(s, o.value, t);
      if ReadData(s).Ok? {
        ReadDataIff(s, ReadData(s).value.0, ReadData(s).value.1);
      }
    }
  }

  lemma ReadOptionalTextIff(s: seq<byte>, o: Option<Text>, t: seq<byte>)
    ensures ReadOptionalText(o.Some?, s) == Ok((o, t)) <==> Spells(WriteOptional(o), s, t)
  {
    hide ReadText, WriteBlob;
    assert [] + t == t;
    if o.Some? {
      ReadTextIff(s, o.value, t);
      if ReadText(s).Ok? {
        ReadTextIff(s, ReadText(s).value.0, ReadText(s).value.1);
      }
    }
  }

  function ReadWill(f: ConnectFlags, s: seq<byte>): Parsed<Option<Will>> {
    if !f.will then Ok((None, s))
    else
      var (ps, t) :- ReadProperties(s);
      var (topic, u) :- ReadText(t);
      var (payload, v) :- ReadData(u);
      Ok((Some(Will(f.qos, f.retain, ps, topic, payload)), v))
  }

  function WriteWill(w: Option<Will>): Result<seq<byte>> {
    match w
    case None => Ok([])
    case Some(x) =>
      var ps :- WriteProperties(x.properties);
      var topic :- WriteBlob(x.topic);
      var payload :- WriteBlob(x.payload);
      Ok(ps + (topic + payload))
  }

  /** What the flags byte says about the Will. */
  predicate Announces(f: ConnectFlags, w: Option<Will>) {
    match w
    case None => !f.will
    case Some(x) => f.will && f.qos == x.qos && f.retain == x.retain
  }

  lemma WrittenWillReads(f: ConnectFlags, w: Option<Will>, t: seq<byte>)
    requires Announces(f, w) && WriteWill(w).Ok? && |WriteWill(w).value| <= VarInt.MAX
    ensures ReadWill(f, WriteWill(w).value + t) == Ok((w, t))
  {
    hide ReadProperties, WriteProperties, ReadText, ReadData, WriteBlob;
    if w.Some? {
      var ps, topic, payload := WriteProperties(w.value.properties).value, WriteBlob(w.value.topic).value,
          WriteBlob(w.value.payload).value;
      Assoc(ps, topic + payload, t);
      Assoc(topic, payload, t);
      WrittenPropertiesRead(w.value.properties, ps + (topic + (payload + t)), topic + (payload + t));
      ReadTextIff(topic + (payload + t), w.value.topic, payload + t);
      ReadDataIff(payload + t, w.value.payload, t);
    } else {
      assert [] + t == t;
    }
  }

  lemma ReadWillWrites(f: ConnectFlags, s: seq<byte>)
    requires ReadWill(f, s).Ok?
    ensures var (w, t) := ReadWill(f, s).value;
            Announces(f, w) && WriteWill(w).Ok? && |WriteWill(w).value| + |t| <= |s|
  {
    hide ReadProperties, WriteProperties, ReadText, ReadData, WriteBlob;
    if f.will {
      var (ps, t) := ReadProperties(s).value;
      var (topic, u) := ReadText(t).value;
      var (payload, v) := ReadData(u).value;
      ReadPropertiesWrite(s);
      ReadTextIff(t, topic, u);
      ReadDataIff(u, payload, v);
    }
  }

  datatype ConnectFront = ConnectFront(keepAlive: u16, properties: seq<MqttProperty>, clientId: Text)

  function ReadFront(s: seq<byte>): Parsed<ConnectFront> {
    var (keep, t) :- ReadU16(s);
    var (ps, u) :- ReadProperties(t);
    var (id, v) :- ReadText(u);
    Ok((ConnectFront(keep, ps, id), v))
  }

  function WriteFront(x: ConnectFront): Result<seq<byte>> {
    var ps :- WriteProperties(x.properties);
    var id :- WriteBlob(x.clientId);
    Ok(U16(x.keepAlive) + (ps + id))
  }

  lemma WrittenFrontReads(x: ConnectFront, t: seq<byte>)
    requires WriteFront(x).Ok? && |WriteFront(x).value| <= VarInt.MAX
    ensures ReadFront(WriteFront(x).value + t) == Ok((x, t))
  {
    hide ReadU16, U16, ReadProperties, WriteProperties, ReadText, WriteBlob;
    var keep, ps, id := U16(x.keepAlive), WriteProperties(x.properties).value, WriteBlob(x.clientId).value;
    Assoc(keep, ps + id, t);
    Assoc(ps, id, t);
    ReadU16Iff(keep + (ps + (id + t)), x.keepAlive, ps + (id + t));
    WrittenPropertiesRead(x.properties, ps + (id + t), id + t);
    ReadTextIff(id + t, x.clientId, t);
  }

  lemma ReadFrontWrites(s: seq<byte>)
    requires ReadFront(s).Ok?
    ensures var (x, t) := ReadFront(s).value;
            WriteFront(x).Ok? && |WriteFront(x).value| + |t| <= |s|
  {
    hide ReadU16, U16, ReadProperties, WriteProperties, ReadText, WriteBlob;
    var (keep, t) := ReadU16(s).value;
    var (ps, u) := ReadProperties(t).value;
    var (id, v) := ReadText(u).value;
    ReadU16Iff(s, keep, t);
    ReadPropertiesWrite(t);
    ReadTextIff(u, id, v);
  }

  datatype ConnectBack = ConnectBack(will: Option<Will>, username: Option<Text>, password: Option<seq<byte>>)

  function ReadBack(f: ConnectFlags, s: seq<byte>): Parsed<ConnectBack> {
    var (will, t) :- ReadWill(f, s);
    var (user, u) :- ReadOptionalText(f.user, t);
    var (pass, v) :- ReadOptional(f.pass, u);
    Ok((ConnectBack(will, user, pass), v))
  }

  function WriteBack(x: ConnectBack): Result<seq<byte>> {
    var will :- WriteWill(x.will);
    var user :- WriteOptional(x.username);
    var pass :- WriteOptional(x.password);
    Ok(will + (user + pass))
  }

  lemma WrittenBackReads(f: ConnectFlags, x: ConnectBack)
    requires Announces(f, x.will) && f.user == x.username.Some? && f.pass == x.password.Some?
    requires WriteBack(x).Ok? && |WriteBack(x).value| <= VarInt.MAX
    ensures ReadBack(f, WriteBack(x).value) == Ok((x, []))
  {
    hide ReadWill, WriteWill, ReadOptional, ReadOptionalText, WriteOptional;
    var user, pass := WriteOptional(x.username).value, WriteOptional(x.password).value;
    assert pass == pass + [];
    WrittenWillReads(f, x.will, user + pass);
    ReadOptionalTextIff(user + pass, x.username, pass);
    ReadOptionalIff(pass, x.password, []);
  }

  lemma ReadBackWrites(f: ConnectFlags, s: seq<byte>)
    requires ReadBack(f, s).Ok?
    ensures var (x, t) := ReadBack(f, s).value;
            && Announces(f, x.will) && f.user == x.username.Some? && f.pass == x.password.Some?
            && WriteBack(x).Ok? && |WriteBack(x).value| + |t| <= |s|
  {
    hide ReadWill, WriteWill, WriteBlob, ReadText, ReadData;
    var (will, t) := ReadWill(f, s).value;
    var (user, u) := ReadOptionalText(f.user, t).value;
    var (pass, v) := ReadOptional(f.pass, u).value;
    ReadWillWrites(f, s);
    ReadOptionalTextIff(t, user, u);
    ReadOptionalIff(u, pass, v);
  }

  function ReadConnect(s: seq<byte>): Parsed<ConnectPacket> {
    var (f, t) :- ReadPreamble(s);
    var (x, u) :- ReadFront(t);
    var (y, v) :- ReadBack(f, u);
    Ok((ConnectPacket(f.clean, x.keepAlive, x.properties, x.clientId, y.will, y.username, y.password), v))
  }

  function FlagsOf(p: ConnectPacket): ConnectFlags {
    ConnectFlags(
      p.username.Some?,
      p.password.Some?,
      p.will.Some? && p.will.value.retain,
      if p.will.Some? then p.will.value.qos else AtMostOnce,
      p.will.Some?,
      p.cleanStart)
  }

  function FrontOf(p: ConnectPacket): ConnectFront { ConnectFront(p.keepAlive, p.properties, p.clientId) }

  function BackOf(p: ConnectPacket): ConnectBack { ConnectBack(p.will, p.username, p.password) }

  function WriteConnect(p: ConnectPacket): Result<seq<byte>> {
    if p.password.Some? && p.username.None? then Err(Encode)
    else
      var front :- WriteFront(FrontOf(p));
      var back :- WriteBack(BackOf(p));
      Ok(WritePreamble(FlagsOf(p)) + (front + back))
  }

  lemma WrittenConnectReads(p: ConnectPacket)
    requires WriteConnect(p).Ok? && |WriteConnect(p).value| <= VarInt.MAX
    ensures ReadConnect(WriteConnect(p).value) == Ok((p, []))
  {
    hide ReadPreamble, WritePreamble, ReadFront, WriteFront, ReadBack, WriteBack;
    var front, back := WriteFront(FrontOf(p)).value, WriteBack(BackOf(p)).value;
    WrittenPreambleReads(FlagsOf(p), front + back);
    WrittenFrontReads(FrontOf(p), back);
    WrittenBackReads(FlagsOf(p), BackOf(p));
  }

  lemma ReadConnectWrites(s: seq<byte>)
    requires ReadConnect(s).Ok?
    ensures var (p, t) := ReadConnect(s).value;
            WriteConnect(p).Ok? && |WriteConnect(p).value| + |t| <= |s|
  {
    hide ReadPreamble, ReadFront, WriteFront, ReadBack, WriteBack;
    var (f, t) := ReadPreamble(s).value;
    var (x, u) := ReadFront(t).value;
    ReadPreambleLegal(s);
    ReadFrontWrites(t);
    ReadBackWrites(f, u);
    assert FrontOf(ReadConnect(s).value.0) == x;
    assert BackOf(ReadConnect(s).value.0) == ReadBack(f, u).value.0;
  }
}
