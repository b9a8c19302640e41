/** MQTT 5 control packets and properties. */
module MqttTypes {
  import opened Core
  import opened Utf8

  datatype QoS = AtMostOnce | AtLeastOnce | ExactlyOnce

  datatype MqttPacket =
    | Connect(connect: ConnectPacket)
    | ConnAck(connAck: ConnAckPacket)
    | Publish(publish: PublishPacket)
    | PubAck(ack: AckPacket)
    | PubRec(ack: AckPacket)
    | PubRel(ack: AckPacket)
    | PubComp(ack: AckPacket)
    | Subscribe(subscribe: SubscribePacket)
    | SubAck(codes: CodesPacket)
    | Unsubscribe(unsubscribe: UnsubscribePacket)
    | UnsubAck(codes: CodesPacket)
    | PingReq
    | PingResp
    | Disconnect(reason: ReasonPacket)
    | Auth(reason: ReasonPacket)

  datatype ConnectPacket = ConnectPacket(
    cleanStart: bool,
    keepAlive: u16,
    properties: seq<MqttProperty>,
    clientId: Text,
    will: Option<Will>,
    username: Option<Text>,
    password: Option<seq<byte>>)

  datatype Will = Will(qos: QoS, retain: bool, properties: seq<MqttProperty>, topic: Text, payload: seq<byte>)

  datatype ConnAckPacket = ConnAckPacket(sessionPresent: bool, reasonCode: byte, properties: seq<MqttProperty>)

  datatype PublishPacket = PublishPacket(
    dup: bool,
    qos: QoS,
    retain: bool,
    topicName: Text,
    packetId: Option<u16>,
    properties: seq<MqttProperty>,
    payload: seq<byte>)

  /** PUBACK, PUBREC, PUBREL and PUBCOMP. */
  datatype AckPacket = AckPacket(packetId: u16, reasonCode: byte, properties: seq<MqttProperty>)

  datatype SubscribePacket = SubscribePacket(packetId: u16, properties: seq<MqttProperty>,
      subscriptions: seq<Subscription>)

  datatype Subscription = Subscription(topicFilter: Text, options: SubscriptionOptions)

  datatype SubscriptionOptions = SubscriptionOptions(maximumQoS: QoS, noLocal: bool, retainAsPublished: bool,
      retainHandling: byte)

  datatype UnsubscribePacket = UnsubscribePacket(packetId: u16, properties: seq<MqttProperty>, topicFilters: seq<Text>)

  /** SUBACK and UNSUBACK. */
  datatype CodesPacket = CodesPacket(packetId: u16, properties: seq<MqttProperty>, reasonCodes: seq<byte>)

  /** DISCONNECT and AUTH. */
  datatype ReasonPacket = ReasonPacket(reasonCode: byte, properties: seq<MqttProperty>)

  datatype MqttProperty =
    | PayloadFormatIndicator(b: byte)
    | MessageExpiryInterval(w: u32)
    | ContentType(t: Text)
    | ResponseTopic(t: Text)
    | CorrelationData(d: seq<byte>)
    | SubscriptionIdentifier(w: u32)
    | SessionExpiryInterval(w: u32)
    | AssignedClientIdentifier(t: Text)
    | ServerKeepAlive(h: u16)
    | AuthenticationMethod(t: Text)
    | AuthenticationData(d: seq<byte>)
    | RequestProblemInformation(b: byte)
    | WillDelayInterval(w: u32)
    | RequestResponseInformation(b: byte)
    | ResponseInformation(t: Text)
    | ServerReference(t: Text)
    | ReasonString(t: Text)
    | ReceiveMaximum(h: u16)
    | TopicAliasMaximum(h: u16)
    | TopicAlias(h: u16)
    | MaximumQoS(b: byte)
    | RetainAvailable(b: byte)
    | UserProperty(key: Text, val: Text)
    | MaximumPacketSize(w: u32)
    | WildcardSubscriptionAvailable(b: byte)
    | SubscriptionIdentifierAvailable(b: byte)
    | SharedSubscriptionAvailable(b: byte)

  /** The wire form of a property's value. */
  datatype Shape = OneByte | TwoBytes | FourBytes | VarBytes | TextBytes | DataBytes | TextPair

  datatype Payload =
    | Byte(b: byte)
    | Half(h: u16)
    | Word(w: u32)
    | Var(w: u32)
    | Str(t: Text)
    | Data(d: seq<byte>)
    | Pair(key: Text, val: Text)
  {
    function Shape(): Shape {
      match this
      case Byte(_) => OneByte
      case Half(_) => TwoBytes
      case Word(_) => FourBytes
      case Var(_) => VarBytes
      case Str(_) => TextBytes
      case Data(_) => DataBytes
      case Pair(_, _) => TextPair
    }
  }

  /** The property identifiers, section 2.2.2.2 of MQTT 5.0. */
  function Id(p: MqttProperty): byte {
    match p
    case PayloadFormatIndicator(_) => 0x01
    case MessageExpiryInterval(_) => 0x02
    case ContentType(_) => 0x03
    case ResponseTopic(_) => 0x08
    case CorrelationData(_) => 0x09
    case SubscriptionIdentifier(_) => 0x0b
    case SessionExpiryInterval(_) => 0x11
    case AssignedClientIdentifier(_) => 0x12
    case ServerKeepAlive(_) => 0x13
    case AuthenticationMethod(_) => 0x15
    case AuthenticationData(_) => 0x16
    case RequestProblemInformation(_) => 0x17
    case WillDelayInterval(_) => 0x18
    case RequestResponseInformation(_) => 0x19
    case ResponseInformation(_) => 0x1a
    case ServerReference(_) => 0x1c
    case ReasonString(_) => 0x1f
    case ReceiveMaximum(_) => 0x21
    case TopicAliasMaximum(_) => 0x22
    case TopicAlias(_) => 0x23
    case MaximumQoS(_) => 0x24
    case RetainAvailable(_) => 0x25
    case UserProperty(_, _) => 0x26
    case MaximumPacketSize(_) => 0x27
    case WildcardSubscriptionAvailable(_) => 0x28
    case SubscriptionIdentifierAvailable(_) => 0x29
    case SharedSubscriptionAvailable(_) => 0x2a
  }

  function PayloadOf(p: MqttProperty): Payload {
    match p
    case PayloadFormatIndicator(b) => Byte(b)
    case MessageExpiryInterval(w) => Word(w)
    case ContentType(t) => Str(t)
    case ResponseTopic(t) => Str(t)
    case CorrelationData(d) => Data(d)
    case SubscriptionIdentifier(w) => Var(w)
    case SessionExpiryInterval(w) => Word(w)
    case AssignedClientIdentifier(t) => Str(t)
    case ServerKeepAlive(h) => Half(h)
    case AuthenticationMethod(t) => Str(t)
    case AuthenticationData(d) => Data(d)
    case RequestProblemInformation(b) => Byte(b)
    case WillDelayInterval(w) => Word(w)
    case RequestResponseInformation(b) => Byte(b)
    case ResponseInformation(t) => Str(t)
    case ServerReference(t) => Str(t)
    case ReasonString(t) => Str(t)
    case ReceiveMaximum(h) => Half(h)
    case TopicAliasMaximum(h) => Half(h)
    case TopicAlias(h) => Half(h)
    case MaximumQoS(b) => Byte(b)
    case RetainAvailable(b) => Byte(b)
    case UserProperty(k, v) => Pair(k, v)
    case MaximumPacketSize(w) => Word(w)
    case WildcardSubscriptionAvailable(b) => Byte(b)
    case SubscriptionIdentifierAvailable(b) => Byte(b)
    case SharedSubscriptionAvailable(b) => Byte(b)
  }

  function ShapeOfId(id: byte): Option<Shape> {
    match id
    case 0x01 | 0x17 | 0x19 | 0x24 | 0x25 | 0x28 | 0x29 | 0x2a => Some(OneByte)
    case 0x13 | 0x21 | 0x22 | 0x23 => Some(TwoBytes)
    case 0x02 | 0x11 | 0x18 | 0x27 => Some(FourBytes)
    case 0x0b => Some(VarBytes)
    case 0x03 | 0x08 | 0x12 | 0x15 | 0x1a | 0x1c | 0x1f => Some(TextBytes)
    case 0x09 | 0x16 => Some(DataBytes)
    case 0x26 => Some(TextPair)
    case _ => None
  }

  /** The property with this identifier and value. */
  function Make(id: byte, v: Payload): MqttProperty
    requires ShapeOfId(id) == Some(v.Shape())
  {
    match v
    case Byte(b) =>
      (match id
       case 0x01 => PayloadFormatIndicator(b)
       case 0x17 => RequestProblemInformation(b)
       case 0x19 => RequestResponseInformation(b)
       case 0x24 => MaximumQoS(b)
       case 0x25 => RetainAvailable(b)
       case 0x28 => WildcardSubscriptionAvailable(b)
       case 0x29 => SubscriptionIdentifierAvailable(b)
       case _ => SharedSubscriptionAvailable(b))
    case Half(h) =>
      (match id
       case 0x13 => ServerKeepAlive(h)
       case 0x21 => ReceiveMaximum(h)
       case 0x22 => TopicAliasMaximum(h)
       case _ => TopicAlias(h))
    case Word(w) =>
      (match id
       case 0x02 => MessageExpiryInterval(w)
       case 0x11 => SessionExpiryInterval(w)
       case 0x18 => WillDelayInterval(w)
       case _ => MaximumPacketSize(w))
    case Var(w) => SubscriptionIdentifier(w)
    case Str(t) =>
      (match id
       case 0x03 => ContentType(t)
       case 0x08 => ResponseTopic(t)
       case 0x12 => AssignedClientIdentifier(t)
       case 0x15 => AuthenticationMethod(t)
       case 0x1a => ResponseInformation(t)
       case 0x1c => ServerReference(t)
       case _ => ReasonString(t))
    case Data(d) => if id == 0x09 then CorrelationData(d) else AuthenticationData(d)
    case Pair(k, v) => UserProperty(k, v)
  }

  /** The identifier table of the encoder and that of the decoder are inverse to each other. */
  lemma IdentifiersAgree(p: MqttProperty)
    ensures ShapeOfId(Id(p)) == Some(PayloadOf(p).Shape())
    ensures Make(Id(p), PayloadOf(p)) == p
  {
  }

  lemma MakeKeepsIdAndValue(id: byte, v: Payload)
    requires ShapeOfId(id) == Some(v.Shape())
    ensures Id(Make(id, v)) == id && PayloadOf(Make(id, v)) == v
  {
  }

  function QoSByte(q: QoS): byte {
    match q
    case AtMostOnce => 0
    case AtLeastOnce => 1
    case ExactlyOnce => 2
  }

  function QoSFrom(b: byte): Result<QoS> {
    match b
    case 0 => Ok(AtMostOnce)
    case 1 => Ok(AtLeastOnce)
    case 2 => Ok(ExactlyOnce)
    case _ => Err(Decode)
  }

  /** Bit of weight `w` of a flags byte. */
  predicate Bit(flags: byte, w: nat)
    requires w > 0
  {
    (flags / w) % 2 == 1
  }

  function BoolByte(b: bool): byte { if b then 1 else 0 }
}
