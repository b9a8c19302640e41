/** How MQTT 5.0 lays out its packets, section by section and in literal bytes, and that the codec's packets are laid
    out so: a second description of the wire format, which shares nothing with the writers. */
module MqttLayout {
  import opened Core
  import opened Framing
  import opened Numbers
  import opened Utf8
  import opened MqttTypes
  import MqttBodies
  import MqttFrames
  import MqttWire
  import VarInt

  // ----- Data representation, section 1.5 -----

  function Two(n: nat): seq<byte> { [n / 256 % 256, n % 256] }

  function Four(n: nat): seq<byte> { [n / 0x100_0000 % 256, n / 0x1_0000 % 256, n / 256 % 256, n % 256] }

  function Prefixed(b: seq<byte>): seq<byte> { Two(|b|) + b }

  /** A variable byte integer: seven bits a byte, the least significant first, the high bit on all but the last. */
  function Variable(n: nat): seq<byte>
    requires n <= 268435455
  {
    if n <= 127 then [n]
    else if n <= 16383 then [128 + n % 128, n / 128]
    else if n <= 2097151 then [128 + n % 128, 128 + n / 128 % 128, n / 16384]
    else [128 + n % 128, 128 + n / 128 % 128, 128 + n / 16384 % 128, n / 2097152]
  }

  lemma VariableIs(n: nat)
    requires n <= 268435455
    ensures VarInt.Encode(n) == Variable(n)
  {
    assert n / 128 / 128 == n / 16384 && n / 128 / 128 / 128 == n / 2097152;
    if n > 127 {
      var m := n / 128;
      if m > 127 {
        assert VarInt.Encode(m / 128) == if m / 128 <= 127 then [m / 128]
          else [m / 128 % 128 + 128] + VarInt.Encode(m / 128 / 128);
      }
    }
  }

  predicate Short(b: seq<byte>) { |b| <= 65535 }

  // ----- Properties, section 2.2.2.2 -----

  function Property(p: MqttProperty): (bytes: seq<byte>)
    requires PropertyFits(p)
    ensures bytes != []
  {
    match p
    case PayloadFormatIndicator(b) => [1, b]
    case MessageExpiryInterval(w) => [2] + Four(w)
    case ContentType(t) => [3] + Prefixed(t)
    case ResponseTopic(t) => [8] + Prefixed(t)
    case CorrelationData(d) => [9] + Prefixed(d)
    case SubscriptionIdentifier(w) => [11] + Variable(w)
    case SessionExpiryInterval(w) => [17] + Four(w)
    case AssignedClientIdentifier(t) => [18] + Prefixed(t)
    case ServerKeepAlive(h) => [19] + Two(h)
    case AuthenticationMethod(t) => [21] + Prefixed(t)
    case AuthenticationData(d) => [22] + Prefixed(d)
    case RequestProblemInformation(b) => [23, b]
    case WillDelayInterval(w) => [24] + Four(w)
    case RequestResponseInformation(b) => [25, b]
    case ResponseInformation(t) => [26] + Prefixed(t)
    case ServerReference(t) => [28] + Prefixed(t)
    case ReasonString(t) => [31] + Prefixed(t)
    case ReceiveMaximum(h) => [33] + Two(h)
    case TopicAliasMaximum(h) => [34] + Two(h)
    case TopicAlias(h) => [35] + Two(h)
    case MaximumQoS(b) => [36, b]
    case RetainAvailable(b) => [37, b]
    case UserProperty(k, v) => [38] + (Prefixed(k) + Prefixed(v))
    case MaximumPacketSize(w) => [39] + Four(w)
    case WildcardSubscriptionAvailable(b) => [40, b]
    case SubscriptionIdentifierAvailable(b) => [41, b]
    case SharedSubscriptionAvailable(b) => [42, b]
  }

  /** Only over-long texts and data, and subscription identifiers beyond four bytes, cannot be written. */
  predicate PropertyFits(p: MqttProperty) {
    match p
    case ContentType(t) => Short(t)
    case ResponseTopic(t) => Short(t)
    case CorrelationData(d) => Short(d)
    case SubscriptionIdentifier(w) => w <= 268435455
    case AssignedClientIdentifier(t) => Short(t)
    case AuthenticationMethod(t) => Short(t)
    case AuthenticationData(d) => Short(d)
    case ResponseInformation(t) => Short(t)
    case ServerReference(t) => Short(t)
    case ReasonString(t) => Short(t)
    case UserProperty(k, v) => Short(k) && Short(v)
    case _ => true
  }

  lemma U32Bytes(w: u32)
    ensures U32(w) == Four(w)
  {
    assert w / 0x1_0000 / 256 == w / 0x100_0000 && w % 0x1_0000 / 256 == w / 256 % 256;
    assert w % 0x1_0000 % 256 == w % 256;
  }

  lemma BlobBytes(b: seq<byte>)
    ensures MqttWire.WriteBlob(b) == if Short(b) then Ok(Prefixed(b)) else Err(Encode)
  {
  }

  function Value(v: Payload): Result<seq<byte>> {
    match v
    case Byte(b) => Ok([b])
    case Half(h) => Ok(Two(h))
    case Word(w) => Ok(Four(w))
    case Var(w) => if w <= 268435455 then Ok(Variable(w)) else Err(Encode)
    case Str(t) => if Short(t) then Ok(Prefixed(t)) else Err(Encode)
    case Data(d) => if Short(d) then Ok(Prefixed(d)) else Err(Encode)
    case Pair(k, v) => if Short(k) && Short(v) then Ok(Prefixed(k) + Prefixed(v)) else Err(Encode)
  }

  lemma ValueIsLaidOut(v: Payload)
    ensures MqttWire.WritePayload(v) == Value(v)
  {
    hide Two, Four, U16, U32, Prefixed, Short, MqttWire.WriteBlob, Variable;
    match v
    case Byte(b) =>
    case Half(h) => HalfBytes(h);
    case Word(w) => U32Bytes(w);
    case Var(w) => if w <= 268435455 { VariableIs(w); }
    case Str(t) => BlobBytes(t);
    case Data(d) => BlobBytes(d);
    case Pair(k, v) =>
      BlobBytes(k);
      BlobBytes(v);
  }

  lemma PropertyIsLaidOut(p: MqttProperty)
    ensures MqttWire.WriteProperty(p) == if PropertyFits(p) then Ok(Property(p)) else Err(Encode)
  {
    hide Two, Four, Prefixed, Short, Variable, MqttWire.WritePayload, VarInt.Encode;
    ValueIsLaidOut(PayloadOf(p));
    OneByteIdentifier(p);
    if PayloadOf(p).Byte? {
      assert [Id(p)] + [p.b] == [Id(p), p.b];
    }
  }

  lemma HalfBytes(h: u16)
    ensures U16(h) == Two(h)
  {
  }

  predicate AllFit(ps: seq<MqttProperty>) { forall i | 0 <= i < |ps| :: PropertyFits(ps[i]) }

  function Properties(ps: seq<MqttProperty>): seq<byte>
    requires AllFit(ps)
  {
    if ps == [] then [] else Property(ps[0]) + Properties(ps[1..])
  }

  lemma {:induction false} PropertiesAreLaidOut(ps: seq<MqttProperty>)
    ensures MqttWire.WritePropertyList(ps) == if AllFit(ps) then Ok(Properties(ps)) else Err(Encode)
  {
    hide Property, PropertyFits, MqttWire.WriteProperty;
    if ps != [] {
      PropertyIsLaidOut(ps[0]);
      PropertiesAreLaidOut(ps[1..]);
      assert forall i | 0 <= i < |ps[1..]| :: ps[1..][i] == ps[i + 1];
      assert forall i | 0 < i < |ps| :: ps[i] == ps[1..][i - 1];
    }
  }

  /** A section's length is cut to 32 bits before it is written. */
  predicate SectionFits(ps: seq<MqttProperty>) {
    AllFit(ps) && |Properties(ps)| % 0x1_0000_0000 <= 268435455
  }

  /** A property section: its length and the properties. */
  function Section(ps: seq<MqttProperty>): seq<byte>
    requires SectionFits(ps)
  {
    Variable(|Properties(ps)| % 0x1_0000_0000) + Properties(ps)
  }

  lemma SectionIsLaidOut(ps: seq<MqttProperty>)
    ensures MqttWire.WriteProperties(ps) == if SectionFits(ps) then Ok(Section(ps)) else Err(Encode)
  {
    hide MqttWire.WritePropertyList, VarInt.Encode, Variable, AllFit;
    PropertiesAreLaidOut(ps);
    if SectionFits(ps) {
      VariableIs(|Properties(ps)| % 0x1_0000_0000);
    }
  }

  // ----- Packets, section 3 -----

  function Flag(b: bool, weight: byte): byte { if b then weight else 0 }

  function Level(q: QoS): byte {
    match q
    case AtMostOnce => 0
    case AtLeastOnce => 1
    case ExactlyOnce => 2
  }

  /** Packet type and flags, section 2.1. */
  function FirstByte(p: MqttPacket): byte {
    match p
    case Connect(_) => 0x10
    case ConnAck(_) => 0x20
    case Publish(c) => 0x30 + Flag(c.dup, 8) + 2 * Level(c.qos) + Flag(c.retain, 1)
    case PubAck(_) => 0x40
    case PubRec(_) => 0x50
    case PubRel(_) => 0x62
    case PubComp(_) => 0x70
    case Subscribe(_) => 0x82
    case SubAck(_) => 0x90
    case Unsubscribe(_) => 0xa2
    case UnsubAck(_) => 0xb0
    case PingReq => 0xc0
    case PingResp => 0xd0
    case Disconnect(_) => 0xe0
    case Auth(_) => 0xf0
  }

  function ConnectFlags(c: ConnectPacket): byte {
    Flag(c.username.Some?, 0x80) + Flag(c.password.Some?, 0x40) + Flag(c.cleanStart, 0x02)
    + match c.will
      case None => 0
      case Some(w) => Flag(w.retain, 0x20) + 8 * Level(w.qos) + 0x04
  }

  function WillPart(w: Option<Will>): seq<byte>
    requires WillFits(w)
  {
    match w
    case None => []
    case Some(x) => Section(x.properties) + (Prefixed(x.topic) + Prefixed(x.payload))
  }

  predicate WillFits(w: Option<Will>) {
    w.Some? ==> SectionFits(w.value.properties) && Short(w.value.topic) && Short(w.value.payload)
  }

  /** Protocol name "MQTT", protocol level 5, flags, keep alive, properties; then client identifier, will, user name and
      password. */
  function ConnectBody(c: ConnectPacket): seq<byte>
    requires ConnectFits(c)
  {
    [0, 4, 0x4d, 0x51, 0x54, 0x54, 5, ConnectFlags(c)]
    + ((Two(c.keepAlive) + (Section(c.properties) + Prefixed(c.clientId)))
       + (WillPart(c.will)
          + ((if c.username.Some? then Prefixed(c.username.value) else [])
             + (if c.password.Some? then Prefixed(c.password.value) else []))))
  }

  predicate ConnectFits(c: ConnectPacket) {
    && (c.password.Some? ==> c.username.Some?)
    && SectionFits(c.properties) && Short(c.clientId) && WillFits(c.will)
    && (c.username.Some? ==> Short(c.username.value)) && (c.password.Some? ==> Short(c.password.value))
  }

  lemma PreambleIsLaidOut(c: ConnectPacket)
    ensures MqttBodies.WritePreamble(MqttBodies.FlagsOf(c)) == [0, 4, 0x4d, 0x51, 0x54, 0x54, 5, ConnectFlags(c)]
  {
    assert U16(4) == [0, 4];
    assert MqttBodies.FlagsByte(MqttBodies.FlagsOf(c)) == ConnectFlags(c);
  }

  lemma WillIsLaidOut(w: Option<Will>)
    ensures MqttBodies.WriteWill(w) == if WillFits(w) then Ok(WillPart(w)) else Err(Encode)
  {
    hide Section, SectionFits, MqttWire.WriteProperties, Prefixed, Short, MqttWire.WriteBlob;
    if w.Some? {
      SectionIsLaidOut(w.value.properties);
      BlobBytes(w.value.topic);
      BlobBytes(w.value.payload);
    }
  }

  lemma OptionalIsLaidOut(o: Option<seq<byte>>)
    ensures MqttBodies.WriteOptional(o) ==
            if o.Some? && !Short(o.value) then Err(Encode) else Ok(if o.Some? then Prefixed(o.value) else [])
  {
    if o.Some? {
      BlobBytes(o.value);
    }
  }

  lemma ConnectIsLaidOut(c: ConnectPacket)
    ensures MqttBodies.WriteConnect(c) == if ConnectFits(c) then Ok(ConnectBody(c)) else Err(Encode)
  {
    hide Section, SectionFits, MqttWire.WriteProperties, Prefixed, Short, MqttWire.WriteBlob, Two, U16;
    hide MqttBodies.WriteWill, MqttBodies.WriteOptional, MqttBodies.WritePreamble, MqttBodies.FlagsOf;
    hide WillFits, WillPart, ConnectFlags;
    PreambleIsLaidOut(c);
    HalfBytes(c.keepAlive);
    SectionIsLaidOut(c.properties);
    BlobBytes(c.clientId);
    WillIsLaidOut(c.will);
    OptionalIsLaidOut(c.username);
    OptionalIsLaidOut(c.password);
  }

  /** Session-present flag, reason code, properties. */
  function ConnAckBody(c: ConnAckPacket): seq<byte>
    requires SectionFits(c.properties)
  {
    [Flag(c.sessionPresent, 1), c.reasonCode] + Section(c.properties)
  }

  lemma ConnAckIsLaidOut(c: ConnAckPacket)
    ensures MqttBodies.WriteConnAck(c) == if SectionFits(c.properties) then Ok(ConnAckBody(c)) else Err(Encode)
  {
    hide Section, SectionFits, MqttWire.WriteProperties;
    SectionIsLaidOut(c.properties);
    if SectionFits(c.properties) {
      Assoc([Flag(c.sessionPresent, 1)], [c.reasonCode], Section(c.properties));
      assert [Flag(c.sessionPresent, 1)] + [c.reasonCode] == [Flag(c.sessionPresent, 1), c.reasonCode];
    }
  }

  predicate IsId(id: u16) { id > 0 }

  lemma IdIsLaidOut(id: u16)
    ensures MqttBodies.WriteId(id) == if IsId(id) then Ok(Two(id)) else Err(Encode)
  {
  }

  /** A packet identifier is present exactly when the quality of service asks for one. */
  predicate PublishFits(c: PublishPacket) {
    && (c.packetId.Some? <==> c.qos != AtMostOnce) && (c.packetId.Some? ==> IsId(c.packetId.value))
    && Short(c.topicName) && SectionFits(c.properties)
  }

  /** Topic name, packet identifier, properties, payload. */
  function PublishBody(c: PublishPacket): seq<byte>
    requires PublishFits(c)
  {
    Prefixed(c.topicName)
    + ((if c.packetId.Some? then Two(c.packetId.value) else []) + (Section(c.properties) + c.payload))
  }

  lemma PublishIsLaidOut(c: PublishPacket)
    ensures MqttBodies.WritePublish(c) == if PublishFits(c) then Ok(PublishBody(c)) else Err(Encode)
  {
    hide Section, SectionFits, MqttWire.WriteProperties, Prefixed, Short, MqttWire.WriteBlob, Two, IsId,
        MqttBodies.WriteId;
    BlobBytes(c.topicName);
    SectionIsLaidOut(c.properties);
    if c.packetId.Some? {
      IdIsLaidOut(c.packetId.value);
    }
  }

  /** Reason code and properties, the latter left out when empty, and both when the code is zero too. */
  function ReasonPart(code: byte, ps: seq<MqttProperty>): seq<byte>
    requires SectionFits(ps)
  {
    if ps != [] then [code] + Section(ps) else if code != 0 then [code] else []
  }

  lemma ReasonIsLaidOut(code: byte, ps: seq<MqttProperty>)
    ensures MqttBodies.WriteReason(ReasonPacket(code, ps)) ==
            if SectionFits(ps) then Ok(ReasonPart(code, ps)) else Err(Encode)
  {
    hide Section, SectionFits, MqttWire.WriteProperties;
    SectionIsLaidOut(ps);
    if ps == [] {
      assert SectionFits([]) by {
        NothingFits();
      }
    }
  }

  lemma NothingFits()
    ensures SectionFits([])
  {
  }

  lemma AckIsLaidOut(c: AckPacket)
    ensures MqttBodies.WriteAck(c) ==
            if IsId(c.packetId) && SectionFits(c.properties)
            then Ok(Two(c.packetId) + ReasonPart(c.reasonCode, c.properties)) else Err(Encode)
  {
    hide SectionFits, ReasonPart, MqttBodies.WriteReason, Two, IsId, MqttBodies.WriteId;
    IdIsLaidOut(c.packetId);
    ReasonIsLaidOut(c.reasonCode, c.properties);
  }

  /** Subscription options, section 3.8.3.1: bits 0 and 1 the maximum quality of service, bit 2 No Local, bit 3 Retain
      As Published, bits 4 and 5 Retain Handling. */
  function OptionsByte(o: SubscriptionOptions): byte
    requires o.retainHandling <= 2
  {
    Level(o.maximumQoS) + Flag(o.noLocal, 4) + Flag(o.retainAsPublished, 8) + 16 * o.retainHandling
  }

  predicate SubscriptionFits(x: Subscription) { Short(x.topicFilter) && x.options.retainHandling <= 2 }

  predicate SubscriptionsFit(xs: seq<Subscription>) { forall i | 0 <= i < |xs| :: SubscriptionFits(xs[i]) }

  function Subscriptions(xs: seq<Subscription>): seq<byte>
    requires SubscriptionsFit(xs)
  {
    if xs == [] then []
    else (Prefixed(xs[0].topicFilter) + [OptionsByte(xs[0].options)]) + Subscriptions(xs[1..])
  }

  lemma {:induction false} SubscriptionsAreLaidOut(xs: seq<Subscription>)
    ensures MqttBodies.WriteSubscriptions(xs) == if SubscriptionsFit(xs) then Ok(Subscriptions(xs)) else Err(Encode)
  {
    hide Prefixed, Short, MqttWire.WriteBlob;
    if xs != [] {
      BlobBytes(xs[0].topicFilter);
      SubscriptionsAreLaidOut(xs[1..]);
      assert forall i | 0 <= i < |xs[1..]| :: xs[1..][i] == xs[i + 1];
      assert forall i | 0 < i < |xs| :: xs[i] == xs[1..][i - 1];
    }
  }

  predicate SubscribeFits(c: SubscribePacket) {
    IsId(c.packetId) && SectionFits(c.properties) && c.subscriptions != [] && SubscriptionsFit(c.subscriptions)
  }

  function SubscribeBody(c: SubscribePacket): seq<byte>
    requires SubscribeFits(c)
  {
    Two(c.packetId) + (Section(c.properties) + Subscriptions(c.subscriptions))
  }

  lemma SubscribeIsLaidOut(c: SubscribePacket)
    ensures MqttBodies.WriteSubscribe(c) == if SubscribeFits(c) then Ok(SubscribeBody(c)) else Err(Encode)
  {
    hide Section, SectionFits, MqttWire.WriteProperties, Two, IsId, MqttBodies.WriteId, SubscriptionsFit, Subscriptions,
        MqttBodies.WriteSubscriptions;
    IdIsLaidOut(c.packetId);
    SectionIsLaidOut(c.properties);
    SubscriptionsAreLaidOut(c.subscriptions);
  }

  predicate FiltersFit(xs: seq<Text>) { forall i | 0 <= i < |xs| :: Short(xs[i]) }

  function Filters(xs: seq<Text>): seq<byte> {
    if xs == [] then [] else Prefixed(xs[0]) + Filters(xs[1..])
  }

  lemma {:induction false} FiltersAreLaidOut(xs: seq<Text>)
    ensures MqttBodies.WriteFilters(xs) == if FiltersFit(xs) then Ok(Filters(xs)) else Err(Encode)
  {
    hide Prefixed, Short, MqttWire.WriteBlob;
    if xs != [] {
      BlobBytes(xs[0]);
      FiltersAreLaidOut(xs[1..]);
      assert forall i | 0 <= i < |xs[1..]| :: xs[1..][i] == xs[i + 1];
      assert forall i | 0 < i < |xs| :: xs[i] == xs[1..][i - 1];
    }
  }

  predicate UnsubscribeFits(c: UnsubscribePacket) {
    IsId(c.packetId) && SectionFits(c.properties) && c.topicFilters != [] && FiltersFit(c.topicFilters)
  }

  function UnsubscribeBody(c: UnsubscribePacket): seq<byte>
    requires UnsubscribeFits(c)
  {
    Two(c.packetId) + (Section(c.properties) + Filters(c.topicFilters))
  }

  lemma UnsubscribeIsLaidOut(c: UnsubscribePacket)
    ensures MqttBodies.WriteUnsubscribe(c) == if UnsubscribeFits(c) then Ok(UnsubscribeBody(c)) else Err(Encode)
  {
    hide Section, SectionFits, MqttWire.WriteProperties, Two, IsId, MqttBodies.WriteId, FiltersFit, Filters,
        MqttBodies.WriteFilters;
    IdIsLaidOut(c.packetId);
    SectionIsLaidOut(c.properties);
    FiltersAreLaidOut(c.topicFilters);
  }

  predicate CodesFit(c: CodesPacket) { IsId(c.packetId) && SectionFits(c.properties) && c.reasonCodes != [] }

  function CodesBody(c: CodesPacket): seq<byte>
    requires CodesFit(c)
  {
    Two(c.packetId) + (Section(c.properties) + c.reasonCodes)
  }

  lemma CodesAreLaidOut(c: CodesPacket)
    ensures MqttBodies.WriteCodes(c) == if CodesFit(c) then Ok(CodesBody(c)) else Err(Encode)
  {
    hide Section, SectionFits, MqttWire.WriteProperties, Two, IsId, MqttBodies.WriteId;
    IdIsLaidOut(c.packetId);
    SectionIsLaidOut(c.properties);
  }

  // ----- Whole packets -----

  predicate Fits(p: MqttPacket) {
    match p
    case Connect(c) => ConnectFits(c)
    case ConnAck(c) => SectionFits(c.properties)
    case Publish(c) => PublishFits(c)
    case PubAck(c) => IsId(c.packetId) && SectionFits(c.properties)
    case PubRec(c) => IsId(c.packetId) && SectionFits(c.properties)
    case PubRel(c) => IsId(c.packetId) && SectionFits(c.properties)
    case PubComp(c) => IsId(c.packetId) && SectionFits(c.properties)
    case Subscribe(c) => SubscribeFits(c)
    case SubAck(c) => CodesFit(c)
    case Unsubscribe(c) => UnsubscribeFits(c)
    case UnsubAck(c) => CodesFit(c)
    case PingReq => true
    case PingResp => true
    case Disconnect(c) => SectionFits(c.properties)
    case Auth(c) => SectionFits(c.properties)
  }

  /** Variable header and payload. */
  function Body(p: MqttPacket): seq<byte>
    requires Fits(p)
  {
    match p
    case Connect(c) => ConnectBody(c)
    case ConnAck(c) => ConnAckBody(c)
    case Publish(c) => PublishBody(c)
    case PubAck(c) => Two(c.packetId) + ReasonPart(c.reasonCode, c.properties)
    case PubRec(c) => Two(c.packetId) + ReasonPart(c.reasonCode, c.properties)
    case PubRel(c) => Two(c.packetId) + ReasonPart(c.reasonCode, c.properties)
    case PubComp(c) => Two(c.packetId) + ReasonPart(c.reasonCode, c.properties)
    case Subscribe(c) => SubscribeBody(c)
    case SubAck(c) => CodesBody(c)
    case Unsubscribe(c) => UnsubscribeBody(c)
    case UnsubAck(c) => CodesBody(c)
    case PingReq => []
    case PingResp => []
    case Disconnect(c) => ReasonPart(c.reasonCode, c.properties)
    case Auth(c) => ReasonPart(c.reasonCode, c.properties)
  }

  /** Every packet kind is written as the standard lays it out, exactly when its fields fit their representations. */
  lemma BodyIsLaidOut(p: MqttPacket)
    ensures MqttFrames.WriteBody(p) == if Fits(p) then Ok(Body(p)) else Err(Encode)
  {
    hide ConnectFits, ConnectBody, ConnAckBody, PublishFits, PublishBody, SectionFits, ReasonPart, SubscribeFits,
        SubscribeBody, CodesFit, CodesBody, UnsubscribeFits, UnsubscribeBody, Two, IsId;
    hide MqttBodies.WriteConnect, MqttBodies.WriteConnAck, MqttBodies.WritePublish, MqttBodies.WriteAck,
        MqttBodies.WriteSubscribe, MqttBodies.WriteCodes, MqttBodies.WriteUnsubscribe, MqttBodies.WriteReason;
    match p
    case Connect(c) => ConnectIsLaidOut(c);
    case ConnAck(c) => ConnAckIsLaidOut(c);
    case Publish(c) => PublishIsLaidOut(c);
    case PubAck(c) => AckIsLaidOut(c);
    case PubRec(c) => AckIsLaidOut(c);
    case PubRel(c) => AckIsLaidOut(c);
    case PubComp(c) => AckIsLaidOut(c);
    case Subscribe(c) => SubscribeIsLaidOut(c);
    case SubAck(c) => CodesAreLaidOut(c);
    case Unsubscribe(c) => UnsubscribeIsLaidOut(c);
    case UnsubAck(c) => CodesAreLaidOut(c);
    case PingReq =>
    case PingResp =>
    case Disconnect(c) => ReasonIsLaidOut(c.reasonCode, c.properties);
    case Auth(c) => ReasonIsLaidOut(c.reasonCode, c.properties);
  }

  lemma FirstByteIs(p: MqttPacket)
    ensures MqttFrames.Header(p) == FirstByte(p)
  {
  }

  /** The encoder writes first byte, length and body of every packet whose fields fit, and refuses the others: with
      "encode" those whose fields or length do not fit, with "too large" those beyond the configured maximum. */
  lemma FrameIsLaidOut(maxPacketSize: nat, p: MqttPacket)
    ensures MqttFrames.EncodeFrame(maxPacketSize, p) ==
            if !Fits(p) then Err(Encode)
            else if |Body(p)| > maxPacketSize then Err(FrameTooLarge)
            else if |Body(p)| % 0x1_0000_0000 > 268435455 then Err(Encode)
            else Ok([FirstByte(p)] + (Variable(|Body(p)| % 0x1_0000_0000) + Body(p)))
  {
    hide Fits, Body, Variable, FirstByte, MqttFrames.Header, MqttFrames.WriteBody, VarInt.Encode;
    BodyIsLaidOut(p);
    FirstByteIs(p);
    if Fits(p) && |Body(p)| % 0x1_0000_0000 <= 268435455 {
      VariableIs(|Body(p)| % 0x1_0000_0000);
    }
  }

  /** A packet laid out as the standard has it is decoded, in front of anything. */
  lemma LaidOutFrameDecodes(maxPacketSize: nat, p: MqttPacket, t: seq<byte>)
    requires Fits(p) && |Body(p)| <= maxPacketSize && |Body(p)| <= 268435455
    ensures var b := [FirstByte(p)] + (Variable(|Body(p)|) + Body(p));
            MqttFrames.DecodeFrame(maxPacketSize, b + t) == Item(p, |b|)
  {
    hide Fits, Body, Variable, FirstByte, MqttFrames.WriteBody, MqttFrames.DecodeFrame, MqttFrames.EncodeFrame;
    BodyIsLaidOut(p);
    FrameIsLaidOut(maxPacketSize, p);
    MqttFrames.FrameRoundTrip(maxPacketSize, p, t);
  }

  lemma PreambleOpens(s: seq<byte>, f: MqttBodies.ConnectFlags, t: seq<byte>)
    requires MqttBodies.ReadPreamble(s) == Ok((f, t))
    ensures |s| >= 8 && s[..7] == [0, 4, 0x4d, 0x51, 0x54, 0x54, 5]
    ensures s[7] == MqttBodies.FlagsByte(f) && t == s[8..] && MqttBodies.LegalFlags(f)
  {
    hide MqttBodies.FlagsByte, MqttBodies.FlagsFrom, MqttBodies.LegalFlags, Valid;
    var name := MqttWire.ReadText(s).value;
    MqttWire.ReadTextIff(s, name.0, name.1);
    MqttBodies.FlagsIff(s[7], f);
    assert |s| >= 8 && s == [0, 4, 0x4d, 0x51, 0x54, 0x54] + name.1;
    assert name.1 == [5, s[7]] + t;
  }

  lemma FlagsAre(c: ConnectPacket, f: MqttBodies.ConnectFlags)
    requires MqttBodies.LegalFlags(f) && MqttBodies.Announces(f, c.will) && f.clean == c.cleanStart
    requires f.user == c.username.Some? && f.pass == c.password.Some?
    ensures MqttBodies.FlagsByte(f) == ConnectFlags(c)
  {
  }

  /** What an accepted CONNECT begins with: protocol name, level 5, the flags that say which fields follow, and the
      keep alive. */
  lemma AcceptedConnectOpens(s: seq<byte>, c: ConnectPacket, t: seq<byte>)
    requires MqttBodies.ReadConnect(s) == Ok((c, t))
    ensures |s| >= 10 && s[..7] == [0, 4, 0x4d, 0x51, 0x54, 0x54, 5]
    ensures s[7] == ConnectFlags(c) && s[8..10] == Two(c.keepAlive)
  {
    hide MqttBodies.ReadPreamble, MqttBodies.ReadBack, MqttBodies.ReadFront, MqttBodies.LegalFlags,
        MqttBodies.Announces, MqttBodies.FlagsByte, ConnectFlags, Two;
    var (f, u) := MqttBodies.ReadPreamble(s).value;
    var (x, v) := MqttBodies.ReadFront(u).value;
    PreambleOpens(s, f, u);
    MqttBodies.ReadBackWrites(f, v);
    FlagsAre(c, f);
    FrontOpens(u);
    SliceOfRest(s, 8, 2);
  }

  lemma FrontOpens(s: seq<byte>)
    requires MqttBodies.ReadFront(s).Ok?
    ensures |s| >= 2 && s[..2] == Two(MqttBodies.ReadFront(s).value.0.keepAlive)
  {
    hide MqttWire.ReadProperties, MqttWire.ReadText;
    assert s[..2] == [s[0], s[1]];
  }

  // ----- Other accepted forms -----

  /** Only the low eight bits of a property identifier count. */
  lemma IdentifierIsCut(p: MqttProperty, id: u32, t: seq<byte>)
    requires PropertyFits(p) && id <= 268435455 && id % 256 == Id(p)
    ensures MqttWire.ReadProperty(Variable(id) + (Property(p)[1..] + t)) == Ok((p, t))
  {
    hide Property, PropertyFits, Variable, VarInt.Encode, VarInt.Read, MqttWire.ReadPayload, MqttWire.WritePayload,
        ShapeOfId, PayloadOf, Make, Id;
    var v := Property(p)[1..] + t;
    VariableIs(id);
    VarInt.ReadIffEncoded(Variable(id) + v, id, v);
    IdentifiersAgree(p);
    PropertyIsLaidOut(p);
    assert Property(p)[1..] == MqttWire.WritePayload(PayloadOf(p)).value by {
      OneByteIdentifier(p);
    }
    MqttWire.ReadPayloadIff(v, PayloadOf(p), t);
  }

  lemma OneByteIdentifier(p: MqttProperty)
    ensures VarInt.Encode(Id(p)) == [Id(p)]
  {
  }

  // ----- Refusals -----

  /** An announced length beyond the maximum is refused before any of the body has arrived. */
  lemma TooLongIsRefusedAtOnce(maxPacketSize: nat, first: byte, len: nat, t: seq<byte>)
    requires maxPacketSize < len <= 268435455
    ensures MqttFrames.DecodeFrame(maxPacketSize, [first] + (Variable(len) + t)) == Fail(FrameTooLarge, 0)
  {
    hide Variable, VarInt.ReadPrefix, VarInt.Encode;
    VariableIs(len);
    CutJoined(Variable(len), t);
    var s := [first] + (Variable(len) + t);
    assert s[1..] == Variable(len) + t;
    VarInt.PrefixIffEncoded(s[1..], len, |Variable(len)|);
  }

  lemma PayloadErrors(shape: Shape, s: seq<byte>)
    ensures MqttWire.ReadPayload(shape, s).Err? ==> MqttWire.ReadPayload(shape, s).error == Decode
  {
    hide Valid, VarInt.Continued, VarInt.Value, VarInt.Encode;
  }

  lemma {:induction false} PropertyListErrors(s: seq<byte>)
    ensures MqttWire.ReadPropertyList(s).Err? ==> MqttWire.ReadPropertyList(s).error == Decode
    decreases |s|
  {
    hide MqttWire.ReadPayload, ShapeOfId, Make, VarInt.Continued, VarInt.Value, VarInt.Encode;
    if s != [] {
      if VarInt.Read(s).Ok? {
        var (n, t) := VarInt.Read(s).value;
        var id: byte := n % 256;
        if ShapeOfId(id).Some? {
          PayloadErrors(ShapeOfId(id).value, t);
        }
      }
      if MqttWire.ReadProperty(s).Ok? {
        MqttWire.ReadPropertyWrites(s);
        PropertyListErrors(MqttWire.ReadProperty(s).value.1);
      }
    }
  }

  lemma SectionErrors(s: seq<byte>)
    ensures MqttWire.ReadProperties(s).Err? ==> MqttWire.ReadProperties(s).error == Decode
  {
    hide MqttWire.ReadPropertyList, VarInt.Continued, VarInt.Value, VarInt.Encode;
    if VarInt.Read(s).Ok? {
      var (n, t) := VarInt.Read(s).value;
      if n <= |t| {
        PropertyListErrors(t[..n]);
      }
    }
  }

  lemma {:induction false} SubscriptionErrors(s: seq<byte>)
    ensures MqttBodies.ReadSubscriptions(s).Err? ==> MqttBodies.ReadSubscriptions(s).error == Decode
    decreases |s|
  {
    hide Valid;
    if s != [] && MqttBodies.ReadSubscription(s).Ok? {
      SubscriptionErrors(MqttBodies.ReadSubscription(s).value.1);
    }
  }

  lemma {:induction false} FilterErrors(s: seq<byte>)
    ensures MqttBodies.ReadFilters(s).Err? ==> MqttBodies.ReadFilters(s).error == Decode
    decreases |s|
  {
    hide Valid;
    if s != [] && MqttWire.ReadText(s).Ok? {
      FilterErrors(MqttWire.ReadText(s).value.1);
    }
  }

  /** The section behind `n` bytes, if the reader gets there. */
  lemma LaterSectionErrors(s: seq<byte>, n: nat)
    ensures n <= |s| && MqttWire.ReadProperties(s[n..]).Err? ==> MqttWire.ReadProperties(s[n..]).error == Decode
  {
    if n <= |s| {
      SectionErrors(s[n..]);
    }
  }

  lemma ConnectErrors(s: seq<byte>)
    ensures MqttBodies.ReadConnect(s).Err? ==> MqttBodies.ReadConnect(s).error == Decode
  {
    hide Valid, MqttWire.ReadProperties, MqttBodies.LegalFlags, Bit;
    if MqttBodies.ReadPreamble(s).Ok? {
      var (f, t) := MqttBodies.ReadPreamble(s).value;
      hide MqttBodies.ReadPreamble;
      LaterSectionErrors(t, 2);
      if MqttBodies.ReadFront(t).Ok? {
        SectionErrors(MqttBodies.ReadFront(t).value.1);
      }
    }
  }

  lemma PublishErrors(flags: byte, s: seq<byte>)
    ensures MqttBodies.ReadPublish(flags, s).Err? ==> MqttBodies.ReadPublish(flags, s).error == Decode
  {
    hide Valid, MqttWire.ReadProperties;
    if QoSFrom(flags / 2 % 4).Ok? && MqttWire.ReadText(s).Ok? {
      var qos, t := QoSFrom(flags / 2 % 4).value, MqttWire.ReadText(s).value.1;
      if MqttBodies.ReadPublishId(qos, t).Ok? {
        SectionErrors(MqttBodies.ReadPublishId(qos, t).value.1);
      }
    }
  }

  /** SUBSCRIBE, SUBACK, UNSUBSCRIBE and UNSUBACK: an identifier, a section, and a list. */
  lemma ListErrors(s: seq<byte>)
    ensures MqttBodies.ReadSubscribe(s).Err? ==> MqttBodies.ReadSubscribe(s).error == Decode
    ensures MqttBodies.ReadUnsubscribe(s).Err? ==> MqttBodies.ReadUnsubscribe(s).error == Decode
    ensures MqttBodies.ReadCodes(s).Err? ==> MqttBodies.ReadCodes(s).error == Decode
  {
    hide MqttWire.ReadProperties, MqttBodies.ReadSubscriptions, MqttBodies.ReadFilters;
    LaterSectionErrors(s, 2);
    if |s| >= 2 && MqttWire.ReadProperties(s[2..]).Ok? {
      SubscriptionErrors(MqttWire.ReadProperties(s[2..]).value.1);
      FilterErrors(MqttWire.ReadProperties(s[2..]).value.1);
    }
  }

  lemma ReasonErrors(s: seq<byte>)
    ensures MqttBodies.ReadReason(s).Err? ==> MqttBodies.ReadReason(s).error == Decode
    ensures MqttBodies.ReadAck(s).Err? ==> MqttBodies.ReadAck(s).error == Decode
    ensures MqttBodies.ReadConnAck(s).Err? ==> MqttBodies.ReadConnAck(s).error == Decode
  {
    hide MqttWire.ReadProperties;
    LaterSectionErrors(s, 1);
    if |s| >= 2 {
      LaterSectionErrors(s[2..], 1);
      LaterSectionErrors(s[1..], 1);
    }
  }

  lemma PacketErrors(kind: byte, flags: byte, body: seq<byte>)
    ensures var r := MqttFrames.DecodePacket(kind, flags, body); r.Err? ==> r.error == Decode
  {
    hide MqttBodies.ReadConnect, MqttBodies.ReadConnAck, MqttBodies.ReadPublish, MqttBodies.ReadAck,
        MqttBodies.ReadSubscribe, MqttBodies.ReadUnsubscribe, MqttBodies.ReadCodes, MqttBodies.ReadReason;
    ConnectErrors(body);
    PublishErrors(flags, body);
    ListErrors(body);
    ReasonErrors(body);
  }

  /** A complete frame whose packet is malformed is removed and reported as a decode error. */
  lemma MalformedFrameIsRemoved(maxPacketSize: nat, first: byte, body: seq<byte>, t: seq<byte>)
    requires |body| <= maxPacketSize && |body| <= 268435455
    requires MqttFrames.DecodePacket(first / 16, first % 16, body).Err?
    ensures var b := [first] + (Variable(|body|) + body);
            MqttFrames.DecodeFrame(maxPacketSize, b + t) == Fail(Decode, |b|)
  {
    hide Variable, VarInt.Encode, MqttFrames.DecodePacket, MqttFrames.DecodeFrame;
    VariableIs(|body|);
    PacketErrors(first / 16, first % 16, body);
    MqttFrames.FrameOpens(maxPacketSize, first, body, t);
  }

  /** The first byte of an accepted packet is the one its kind is written with: reserved flag bits are enforced. */
  lemma AcceptedFirstByte(maxPacketSize: nat, s: seq<byte>, p: MqttPacket, n: nat)
    requires MqttFrames.DecodeFrame(maxPacketSize, s) == Item(p, n)
    ensures 2 <= n <= |s| && s[0] == FirstByte(p)
  {
    hide MqttFrames.DecodePacket, MqttFrames.WriteBody, VarInt.ReadPrefix, FirstByte, MqttFrames.Kind, MqttFrames.Flags;
    var (len, width) := VarInt.ReadPrefix(s[1..]).value.value;
    MqttFrames.ReadBodyWrites(s[0] / 16, s[0] % 16, s[1 + width..n]);
    FirstByteIs(p);
  }
}
