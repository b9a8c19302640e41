/** The MQTT codec as it runs: packets read through the cursor and written into growing buffers. */
module MqttCodec {
  import opened Core
  import opened Numbers
  import opened Utf8
  import opened Framing
  import opened MqttTypes
  import opened MqttReader
  import W = MqttWire
  import B = MqttBodies
  import F = MqttFrames
  import VarInt

  // ----- Decoding -----

  method DecodeId(reader: Reader) returns (r: Result<u16>)
    requires reader.Valid()
    modifies reader
    ensures reader.Valid() && Consumes(B.ReadId(old(reader.Rest())), r, reader.Rest())
  {
    hide W.ReadU16;
    var id :- reader.ReadU16();
    return if id == 0 then Err(Decode) else Ok(id);
  }

  method DecodeReason(reader: Reader) returns (r: Result<ReasonPacket>)
    requires reader.Valid()
    modifies reader
    ensures reader.Valid() && Consumes(B.ReadReason(old(reader.Rest())), r, reader.Rest())
  {
    hide W.ReadProperties;
    var left := reader.Remaining();
    if left == 0 {
      return Ok(ReasonPacket(0, []));
    }
    var code :- reader.ReadU8();
    left := reader.Remaining();
    if left == 0 {
      return Ok(ReasonPacket(code, []));
    }
    var ps :- reader.ReadProperties();
    return Ok(ReasonPacket(code, ps));
  }

  method DecodeAck(reader: Reader) returns (r: Result<AckPacket>)
    requires reader.Valid()
    modifies reader
    ensures reader.Valid() && Consumes(B.ReadAck(old(reader.Rest())), r, reader.Rest())
  {
    hide B.ReadId, B.ReadReason;
    var id :- DecodeId(reader);
    var tail :- DecodeReason(reader);
    return Ok(AckPacket(id, tail.reasonCode, tail.properties));
  }

  method DecodeConnAck(reader: Reader) returns (r: Result<ConnAckPacket>)
    requires reader.Valid()
    modifies reader
    ensures reader.Valid() && Consumes(B.ReadConnAck(old(reader.Rest())), r, reader.Rest())
  {
    hide W.ReadU8, W.ReadProperties;
    var flags :- reader.ReadU8();
    if flags > 1 {
      return Err(Decode);
    }
    var code :- reader.ReadU8();
    var ps :- reader.ReadProperties();
    return Ok(ConnAckPacket(flags == 1, code, ps));
  }

  method DecodePublish(flags: byte, reader: Reader) returns (r: Result<PublishPacket>)
    requires reader.Valid()
    modifies reader
    ensures reader.Valid() && Consumes(B.ReadPublish(flags, old(reader.Rest())), r, reader.Rest())
  {
    hide W.ReadText, W.ReadProperties, B.ReadId, QoSFrom, Bit;
    var qos :- QoSFrom(flags / 2 % 4);
    var topic :- reader.ReadText();
    var packetId: Option<u16> := None;
    if qos != AtMostOnce {
      var id :- DecodeId(reader);
      packetId := Some(id);
    }
    var ps :- reader.ReadProperties();
    var payload := reader.ReadRemaining();
    return Ok(PublishPacket(Bit(flags, 8), qos, Bit(flags, 1), topic, packetId, ps, payload));
  }

  method DecodeSubscription(reader: Reader) returns (r: Result<Subscription>)
    requires reader.Valid()
    modifies reader
    ensures reader.Valid() && Consumes(B.ReadSubscription(old(reader.Rest())), r, reader.Rest())
  {
    hide W.ReadText, W.ReadU8, B.ReadOptions;
    var topic :- reader.ReadText();
    var b :- reader.ReadU8();
    var options :- B.ReadOptions(b);
    return Ok(Subscription(topic, options));
  }

  method DecodeSubscriptions(reader: Reader) returns (r: Result<seq<Subscription>>)
    requires reader.Valid()
    modifies reader
    ensures reader.Valid() && r == B.ReadSubscriptions(old(reader.Rest()))
    ensures r.Ok? ==> reader.Rest() == []
  {
    hide B.ReadSubscription;
    var subscriptions: seq<Subscription> := [];
    PrependNothing(B.ReadSubscriptions(reader.Rest()));
    var left := reader.Remaining();
    while left > 0
      invariant reader.Valid() && left == |reader.Rest()|
      invariant B.ReadSubscriptions(old(reader.Rest())) == Prepend(subscriptions, B.ReadSubscriptions(reader.Rest()))
      decreases left
    {
      var next := DecodeSubscription(reader);
      assert next.Err? ==> B.ReadSubscriptions(old(reader.Rest())) == Err(next.error);
      var x :- next;
      ghost var ahead := B.ReadSubscriptions(reader.Rest());
      if ahead.Ok? {
        Assoc(subscriptions, [x], ahead.value);
      }
      subscriptions := subscriptions + [x];
      left := reader.Remaining();
    }
    assert subscriptions + [] == subscriptions;
    return Ok(subscriptions);
  }

  method DecodeSubscribe(reader: Reader) returns (r: Result<SubscribePacket>)
    requires reader.Valid()
    modifies reader
    ensures reader.Valid() && Consumes(B.ReadSubscribe(old(reader.Rest())), r, reader.Rest())
  {
    hide B.ReadId, W.ReadProperties, B.ReadSubscriptions;
    var id :- DecodeId(reader);
    var ps :- reader.ReadProperties();
    var xs :- DecodeSubscriptions(reader);
    return if xs == [] then Err(Decode) else Ok(SubscribePacket(id, ps, xs));
  }

  method DecodeFilters(reader: Reader) returns (r: Result<seq<Text>>)
    requires reader.Valid()
    modifies reader
    ensures reader.Valid() && r == B.ReadFilters(old(reader.Rest()))
    ensures r.Ok? ==> reader.Rest() == []
  {
    hide W.ReadU16, Utf8.Valid;
    var filters: seq<Text> := [];
    PrependNothing(B.ReadFilters(reader.Rest()));
    var left := reader.Remaining();
    while left > 0
      invariant reader.Valid() && left == |reader.Rest()|
      invariant B.ReadFilters(old(reader.Rest())) == Prepend(filters, B.ReadFilters(reader.Rest()))
      decreases left
    {
      ghost var before := reader.Rest();
      var next := reader.ReadText();
      assert next.Err? ==> B.ReadFilters(old(reader.Rest())) == Err(next.error);
      var x :- next;
      W.ReadTextIff(before, x, reader.Rest());
      ghost var ahead := B.ReadFilters(reader.Rest());
      if ahead.Ok? {
        Assoc(filters, [x], ahead.value);
      }
      filters := filters + [x];
      left := reader.Remaining();
    }
    assert filters + [] == filters;
    return Ok(filters);
  }

  method DecodeUnsubscribe(reader: Reader) returns (r: Result<UnsubscribePacket>)
    requires reader.Valid()
    modifies reader
    ensures reader.Valid() && Consumes(B.ReadUnsubscribe(old(reader.Rest())), r, reader.Rest())
  {
    hide B.ReadId, W.ReadProperties, B.ReadFilters;
    var id :- DecodeId(reader);
    var ps :- reader.ReadProperties();
    var xs :- DecodeFilters(reader);
    return if xs == [] then Err(Decode) else Ok(UnsubscribePacket(id, ps, xs));
  }

  method DecodeCodes(reader: Reader) returns (r: Result<CodesPacket>)
    requires reader.Valid()
    modifies reader
    ensures reader.Valid() && Consumes(B.ReadCodes(old(reader.Rest())), r, reader.Rest())
  {
    hide B.ReadId, W.ReadProperties;
    var id :- DecodeId(reader);
    var ps :- reader.ReadProperties();
    var codes := reader.ReadRemaining();
    return if codes == [] then Err(Decode) else Ok(CodesPacket(id, ps, codes));
  }

  method DecodePreamble(reader: Reader) returns (r: Result<B.ConnectFlags>)
    requires reader.Valid()
    modifies reader
    ensures reader.Valid() && Consumes(B.ReadPreamble(old(reader.Rest())), r, reader.Rest())
  {
    hide W.ReadText, W.ReadU8, B.FlagsFrom;
    var name :- reader.ReadText();
    if name != B.PROTOCOL {
      return Err(Decode);
    }
    var level :- reader.ReadU8();
    if level != B.LEVEL {
      return Err(Decode);
    }
    var b :- reader.ReadU8();
    r := B.FlagsFrom(b);
  }

  method DecodeWill(f: B.ConnectFlags, reader: Reader) returns (r: Result<Option<Will>>)
    requires reader.Valid()
    modifies reader
    ensures reader.Valid() && Consumes(B.ReadWill(f, old(reader.Rest())), r, reader.Rest())
  {
    hide W.ReadProperties, W.ReadText, W.ReadData;
    if !f.will {
      return Ok(None);
    }
    var ps :- reader.ReadProperties();
    var topic :- reader.ReadText();
    var payload :- reader.ReadData();
    return Ok(Some(Will(f.qos, f.retain, ps, topic, payload)));
  }

  method DecodeFront(reader: Reader) returns (r: Result<B.ConnectFront>)
    requires reader.Valid()
    modifies reader
    ensures reader.Valid() && Consumes(B.ReadFront(old(reader.Rest())), r, reader.Rest())
  {
    hide W.ReadU16, W.ReadProperties, W.ReadText;
    var keepAlive :- reader.ReadU16();
    var ps :- reader.ReadProperties();
    var clientId :- reader.ReadText();
    return Ok(B.ConnectFront(keepAlive, ps, clientId));
  }

  method DecodeBack(f: B.ConnectFlags, reader: Reader) returns (r: Result<B.ConnectBack>)
    requires reader.Valid()
    modifies reader
    ensures reader.Valid() && Consumes(B.ReadBack(f, old(reader.Rest())), r, reader.Rest())
  {
    hide B.ReadWill, W.ReadText, W.ReadData;
    var will :- DecodeWill(f, reader);
    var username: Option<Text> := None;
    if f.user {
      var t :- reader.ReadText();
      username := Some(t);
    }
    var password: Option<seq<byte>> := None;
    if f.pass {
      var d :- reader.ReadData();
      password := Some(d);
    }
    return Ok(B.ConnectBack(will, username, password));
  }

  method DecodeConnect(reader: Reader) returns (r: Result<ConnectPacket>)
    requires reader.Valid()
    modifies reader
    ensures reader.Valid() && Consumes(B.ReadConnect(old(reader.Rest())), r, reader.Rest())
  {
    hide B.ReadPreamble, B.ReadFront, B.ReadBack;
    var f :- DecodePreamble(reader);
    var x :- DecodeFront(reader);
    var y :- DecodeBack(f, reader);
    return Ok(ConnectPacket(f.clean, x.keepAlive, x.properties, x.clientId, y.will, y.username, y.password));
  }

  method DecodeBody(kind: byte, flags: byte, reader: Reader) returns (r: Result<MqttPacket>)
    requires reader.Valid()
    modifies reader
    ensures reader.Valid() && Consumes(F.ReadBody(kind, flags, old(reader.Rest())), r, reader.Rest())
  {
    hide B.ReadConnect, B.ReadConnAck, B.ReadPublish, B.ReadAck, B.ReadSubscribe, B.ReadUnsubscribe, B.ReadCodes,
        B.ReadReason;
    if kind == 0 || kind > 15 || (kind != 3 && flags != F.RequiredFlags(kind)) {
      return Err(Decode);
    }
    match kind
    case 1 => var p :- DecodeConnect(reader); return Ok(Connect(p));
    case 2 => var p :- DecodeConnAck(reader); return Ok(ConnAck(p));
    case 3 => var p :- DecodePublish(flags, reader); return Ok(Publish(p));
    case 4 => var p :- DecodeAck(reader); return Ok(PubAck(p));
    case 5 => var p :- DecodeAck(reader); return Ok(PubRec(p));
    case 6 => var p :- DecodeAck(reader); return Ok(PubRel(p));
    case 7 => var p :- DecodeAck(reader); return Ok(PubComp(p));
    case 8 => var p :- DecodeSubscribe(reader); return Ok(Subscribe(p));
    case 9 => var p :- DecodeCodes(reader); return Ok(SubAck(p));
    case 10 => var p :- DecodeUnsubscribe(reader); return Ok(Unsubscribe(p));
    case 11 => var p :- DecodeCodes(reader); return Ok(UnsubAck(p));
    case 12 => var left := reader.Remaining(); return if left != 0 then Err(Decode) else Ok(PingReq);
    case 13 => var left := reader.Remaining(); return if left != 0 then Err(Decode) else Ok(PingResp);
    case 14 => var p :- DecodeReason(reader); return Ok(Disconnect(p));
    case _ => var p :- DecodeReason(reader); return Ok(Auth(p));
  }

  method DecodePacket(kind: byte, flags: byte, packet: seq<byte>) returns (r: Result<MqttPacket>)
    ensures r == F.DecodePacket(kind, flags, packet)
  {
    hide F.ReadBody;
    var reader := new Reader(packet);
    var decoded :- DecodeBody(kind, flags, reader);
    var left := reader.Remaining();
    return if left != 0 then Err(Decode) else Ok(decoded);
  }

  // ----- Encoding -----

  method EncodeReason(p: ReasonPacket, dst: BytesMut) returns (r: Result<()>)
    modifies dst
    ensures Appends(B.WriteReason(p), old(dst.data), r, dst.data)
  {
    hide W.WriteProperties;
    if p.reasonCode != 0 || p.properties != [] {
      dst.Extend([p.reasonCode]);
    }
    if p.properties != [] {
      var _ :- WriteProperties(p.properties, dst);
      Assoc(old(dst.data), [p.reasonCode], W.WriteProperties(p.properties).value);
    } else if p.reasonCode == 0 {
      assert dst.data == old(dst.data) + [];
    }
    return Ok(());
  }

  method EncodeId(id: u16, dst: BytesMut) returns (r: Result<()>)
    modifies dst
    ensures Appends(B.WriteId(id), old(dst.data), r, dst.data)
  {
    if id == 0 {
      return Err(Encode);
    }
    dst.Extend(U16(id));
    return Ok(());
  }

  method EncodeAck(p: AckPacket, dst: BytesMut) returns (r: Result<()>)
    modifies dst
    ensures Appends(B.WriteAck(p), old(dst.data), r, dst.data)
  {
    hide B.WriteId, B.WriteReason;
    ghost var tail := B.WriteReason(ReasonPacket(p.reasonCode, p.properties));
    var _ :- EncodeId(p.packetId, dst);
    r := EncodeReason(ReasonPacket(p.reasonCode, p.properties), dst);
    if r.Ok? {
      Assoc(old(dst.data), B.WriteId(p.packetId).value, tail.value);
    }
  }

  method EncodeConnAck(p: ConnAckPacket, dst: BytesMut) returns (r: Result<()>)
    modifies dst
    ensures Appends(B.WriteConnAck(p), old(dst.data), r, dst.data)
  {
    hide W.WriteProperties, BoolByte;
    dst.Extend([BoolByte(p.sessionPresent)]);
    dst.Extend([p.reasonCode]);
    r := WriteProperties(p.properties, dst);
    if r.Ok? {
      ghost var ps := W.WriteProperties(p.properties).value;
      Assoc(old(dst.data) + [BoolByte(p.sessionPresent)], [p.reasonCode], ps);
      Assoc(old(dst.data), [BoolByte(p.sessionPresent)], [p.reasonCode] + ps);
    }
  }

  /** Appending three parts one after another. */
  lemma ThreeParts(start: seq<byte>, a: seq<byte>, b: seq<byte>, c: seq<byte>)
    ensures ((start + a) + b) + c == start + (a + (b + c))
  {
    Assoc(start + a, b, c);
    Assoc(start, a, b + c);
  }

  method EncodePublish(p: PublishPacket, dst: BytesMut) returns (r: Result<byte>)
    modifies dst
    ensures match B.WritePublish(p)
            case Ok(b) => r == Ok(B.PublishFlags(p)) && dst.data == old(dst.data) + b
            case Err(e) => r == Err(e) && old(dst.data) <= dst.data
  {
    hide W.WriteBlob, W.WriteProperties, U16, B.PublishFlags;
    if p.qos == AtMostOnce && p.packetId.Some? {
      return Err(Encode);
    }
    if p.qos != AtMostOnce && p.packetId.None? {
      return Err(Encode);
    }
    if p.packetId.Some? && p.packetId.value == 0 {
      return Err(Encode);
    }
    var _ :- WriteBlob(p.topicName, dst);
    ghost var topic := W.WriteBlob(p.topicName).value;
    ghost var id := B.WritePublishId(p.qos, p.packetId).value;
    if p.packetId.Some? {
      dst.Extend(U16(p.packetId.value));
    }
    assert dst.data == (old(dst.data) + topic) + id;
    var _ :- WriteProperties(p.properties, dst);
    dst.Extend(p.payload);
    ghost var ps := W.WriteProperties(p.properties).value;
    Assoc((old(dst.data) + topic) + id, ps, p.payload);
    ThreeParts(old(dst.data), topic, id, ps + p.payload);
    return Ok(B.PublishFlags(p));
  }

  method EncodeSubscription(x: Subscription, dst: BytesMut) returns (r: Result<()>)
    modifies dst
    ensures Appends(B.WriteSubscription(x), old(dst.data), r, dst.data)
  {
    hide W.WriteBlob;
    if x.options.retainHandling > 2 {
      return Err(Encode);
    }
    var _ :- WriteBlob(x.topicFilter, dst);
    var options := B.WriteOptions(x.options).value;
    dst.Extend([options]);
    Assoc(old(dst.data), W.WriteBlob(x.topicFilter).value, [options]);
    return Ok(());
  }

  method EncodeSubscribe(p: SubscribePacket, dst: BytesMut) returns (r: Result<()>)
    modifies dst
    ensures Appends(B.WriteSubscribe(p), old(dst.data), r, dst.data)
  {
    hide B.WriteId, W.WriteProperties, B.WriteSubscription;
    if p.subscriptions == [] {
      return Err(Encode);
    }
    var _ :- EncodeId(p.packetId, dst);
    ghost var id := B.WriteId(p.packetId).value;
    var _ :- WriteProperties(p.properties, dst);
    ghost var ps := W.WriteProperties(p.properties).value;
    ghost var head := dst.data;
    ghost var done: seq<byte> := [];
    var xs := p.subscriptions;
    PrependNothing(B.WriteSubscriptions(xs));
    assert xs[0..] == xs;
    for i := 0 to |xs|
      invariant dst.data == head + done && old(dst.data) <= head
      invariant B.WriteSubscriptions(xs) == Prepend(done, B.WriteSubscriptions(xs[i..]))
    {
      assert xs[i..][0] == xs[i] && xs[i..][1..] == xs[i + 1..];
      ghost var w := B.WriteSubscription(xs[i]);
      var next := EncodeSubscription(xs[i], dst);
      assert next.Err? ==> B.WriteSubscriptions(xs) == Err(next.error);
      var _ :- next;
      Assoc(head, done, w.value);
      ghost var ahead := B.WriteSubscriptions(xs[i + 1..]);
      if ahead.Ok? {
        Assoc(done, w.value, ahead.value);
      }
      done := done + w.value;
    }
    assert xs[|xs|..] == [] && done + [] == done;
    ThreeParts(old(dst.data), id, ps, done);
    return Ok(());
  }

  method EncodeUnsubscribe(p: UnsubscribePacket, dst: BytesMut) returns (r: Result<()>)
    modifies dst
    ensures Appends(B.WriteUnsubscribe(p), old(dst.data), r, dst.data)
  {
    hide B.WriteId, W.WriteProperties, W.WriteBlob;
    if p.topicFilters == [] {
      return Err(Encode);
    }
    var _ :- EncodeId(p.packetId, dst);
    ghost var id := B.WriteId(p.packetId).value;
    var _ :- WriteProperties(p.properties, dst);
    ghost var ps := W.WriteProperties(p.properties).value;
    ghost var head := dst.data;
    ghost var done: seq<byte> := [];
    var xs := p.topicFilters;
    PrependNothing(B.WriteFilters(xs));
    assert xs[0..] == xs;
    for i := 0 to |xs|
      invariant dst.data == head + done && old(dst.data) <= head
      invariant B.WriteFilters(xs) == Prepend(done, B.WriteFilters(xs[i..]))
    {
      assert xs[i..][0] == xs[i] && xs[i..][1..] == xs[i + 1..];
      ghost var w := W.WriteBlob(xs[i]);
      var next := WriteBlob(xs[i], dst);
      assert next.Err? ==> B.WriteFilters(xs) == Err(next.error);
      var _ :- next;
      Assoc(head, done, w.value);
      ghost var ahead := B.WriteFilters(xs[i + 1..]);
      if ahead.Ok? {
        Assoc(done, w.value, ahead.value);
      }
      done := done + w.value;
    }
    assert xs[|xs|..] == [] && done + [] == done;
    ThreeParts(old(dst.data), id, ps, done);
    return Ok(());
  }

  method EncodeCodes(p: CodesPacket, dst: BytesMut) returns (r: Result<()>)
    modifies dst
    ensures Appends(B.WriteCodes(p), old(dst.data), r, dst.data)
  {
    hide B.WriteId, W.WriteProperties;
    var _ :- EncodeId(p.packetId, dst);
    if p.reasonCodes == [] {
      return Err(Encode);
    }
    var _ :- WriteProperties(p.properties, dst);
    dst.Extend(p.reasonCodes);
    ThreeParts(old(dst.data), B.WriteId(p.packetId).value, W.WriteProperties(p.properties).value, p.reasonCodes);
    return Ok(());
  }

  method EncodeFront(x: B.ConnectFront, dst: BytesMut) returns (r: Result<()>)
    modifies dst
    ensures Appends(B.WriteFront(x), old(dst.data), r, dst.data)
  {
    hide U16, W.WriteProperties, W.WriteBlob;
    dst.Extend(U16(x.keepAlive));
    var _ :- WriteProperties(x.properties, dst);
    var _ :- WriteBlob(x.clientId, dst);
    ThreeParts(old(dst.data), U16(x.keepAlive), W.WriteProperties(x.properties).value, W.WriteBlob(x.clientId).value);
    return Ok(());
  }

  method EncodeWill(x: Will, dst: BytesMut) returns (r: Result<()>)
    modifies dst
    ensures Appends(B.WriteWill(Some(x)), old(dst.data), r, dst.data)
  {
    hide W.WriteProperties, W.WriteBlob;
    var _ :- WriteProperties(x.properties, dst);
    var _ :- WriteBlob(x.topic, dst);
    var _ :- WriteBlob(x.payload, dst);
    ThreeParts(old(dst.data), W.WriteProperties(x.properties).value, W.WriteBlob(x.topic).value,
        W.WriteBlob(x.payload).value);
    return Ok(());
  }

  method EncodeOptional(o: Option<seq<byte>>, dst: BytesMut) returns (r: Result<()>)
    modifies dst
    ensures Appends(B.WriteOptional(o), old(dst.data), r, dst.data)
  {
    hide W.WriteBlob;
    if o.Some? {
      r := WriteBlob(o.value, dst);
    } else {
      assert dst.data == old(dst.data) + [];
      r := Ok(());
    }
  }

  method EncodeBack(x: B.ConnectBack, dst: BytesMut) returns (r: Result<()>)
    modifies dst
    ensures Appends(B.WriteBack(x), old(dst.data), r, dst.data)
  {
    hide B.WriteWill, B.WriteOptional;
    ghost var will := B.WriteWill(x.will);
    if x.will.Some? {
      var _ :- EncodeWill(x.will.value, dst);
    } else {
      AbsentWill();
      assert dst.data == old(dst.data) + [];
    }
    var _ :- EncodeOptional(x.username, dst);
    var _ :- EncodeOptional(x.password, dst);
    ThreeParts(old(dst.data), will.value, B.WriteOptional(x.username).value, B.WriteOptional(x.password).value);
    return Ok(());
  }

  lemma AbsentWill()
    ensures B.WriteWill(None) == Ok([])
  {
  }

  method EncodeConnect(p: ConnectPacket, dst: BytesMut) returns (r: Result<()>)
    modifies dst
    ensures Appends(B.WriteConnect(p), old(dst.data), r, dst.data)
  {
    hide B.WritePreamble, B.WriteFront, B.WriteBack;
    if p.password.Some? && p.username.None? {
      return Err(Encode);
    }
    dst.Extend(B.WritePreamble(B.FlagsOf(p)));
    var _ :- EncodeFront(B.FrontOf(p), dst);
    var _ :- EncodeBack(B.BackOf(p), dst);
    ThreeParts(old(dst.data), B.WritePreamble(B.FlagsOf(p)), B.WriteFront(B.FrontOf(p)).value,
        B.WriteBack(B.BackOf(p)).value);
    return Ok(());
  }

  /** Writes the packet's body and returns its type and flag bits. */
  method EncodePacket(p: MqttPacket, dst: BytesMut) returns (r: Result<(byte, byte)>)
    modifies dst
    ensures match F.WriteBody(p)
            case Ok(b) => r == Ok((F.Kind(p), F.Flags(p))) && dst.data == old(dst.data) + b
            case Err(e) => r == Err(e) && old(dst.data) <= dst.data
  {
    hide B.WriteConnect, B.WriteConnAck, B.WritePublish, B.WriteAck, B.WriteSubscribe, B.WriteUnsubscribe, B.WriteCodes;
    hide B.WriteReason, B.PublishFlags;
    var written: Result<()> := Ok(());
    var kind: byte, flags: byte := 0, 0;
    match p {
      case Connect(c) =>
        written := EncodeConnect(c, dst);
        kind := 1;
      case ConnAck(c) =>
        written := EncodeConnAck(c, dst);
        kind := 2;
      case Publish(c) =>
        flags :- EncodePublish(c, dst);
        kind := 3;
      case PubAck(c) =>
        written := EncodeAck(c, dst);
        kind := 4;
      case PubRec(c) =>
        written := EncodeAck(c, dst);
        kind := 5;
      case PubRel(c) =>
        written := EncodeAck(c, dst);
        kind, flags := 6, 2;
      case PubComp(c) =>
        written := EncodeAck(c, dst);
        kind := 7;
      case Subscribe(c) =>
        written := EncodeSubscribe(c, dst);
        kind, flags := 8, 2;
      case SubAck(c) =>
        written := EncodeCodes(c, dst);
        kind := 9;
      case Unsubscribe(c) =>
        written := EncodeUnsubscribe(c, dst);
        kind, flags := 10, 2;
      case UnsubAck(c) =>
        written := EncodeCodes(c, dst);
        kind := 11;
      case PingReq => kind := 12;
      case PingResp => kind := 13;
      case Disconnect(c) =>
        written := EncodeReason(c, dst);
        kind := 14;
      case Auth(c) =>
        written := EncodeReason(c, dst);
        kind := 15;
    }
    assert old(dst.data) + [] == old(dst.data);
    var _ :- written;
    return Ok((kind, flags));
  }

  class MqttCodec {
    const maxPacketSize: nat

    constructor (maxPacketSize: nat)
      ensures this.maxPacketSize == maxPacketSize
    {
      this.maxPacketSize := maxPacketSize;
    }

    method Decode(src: BytesMut) returns (r: Result<Option<MqttPacket>>)
      modifies src
      ensures Performs(F.DecodeFrame(maxPacketSize, old(src.data)), old(src.data), r, src.data)
    {
      hide F.DecodePacket, VarInt.ReadPrefix;
      if |src.data| < 2 {
        return Ok(None);
      }
      var fixedHeader := src.data[0];
      var prefix := VarInt.DecodePrefix(src.data[1..]);
      var announced :- prefix;
      if announced.None? {
        return Ok(None);
      }
      var (len, width) := announced.value;
      if len > maxPacketSize {
        return Err(FrameTooLarge);
      }
      var end := 1 + width + len;
      if |src.data| < end {
        return Ok(None);
      }
      var packet := src.SplitTo(end);
      assert packet[1 + width..] == old(src.data)[1 + width..end];
      var decoded :- DecodePacket(fixedHeader / 16, fixedHeader % 16, packet[1 + width..]);
      return Ok(Some(decoded));
    }

    method Encode(item: MqttPacket, dst: BytesMut) returns (r: Result<()>)
      modifies dst
      ensures Appends(F.EncodeFrame(maxPacketSize, item), old(dst.data), r, dst.data)
    {
      hide F.WriteBody, F.Kind, F.Flags, VarInt.Encode;
      var body := new BytesMut();
      var encoded := EncodePacket(item, body);
      var packet :- encoded;
      var (packetType, flags) := packet;
      assert body.data == F.WriteBody(item).value;
      if |body.data| > maxPacketSize {
        return Err(FrameTooLarge);
      }
      var len: u32 := |body.data| % 0x1_0000_0000;
      dst.Extend([packetType * 16 + flags]);
      var _ :- VarInt.Write(len, dst);
      dst.Extend(body.data);
      ThreeParts(old(dst.data), [F.Header(item)], VarInt.Encode(len), body.data);
      return Ok(());
    }
  }
}
