/** Exactly which bytes the MQTT decoder accepts, in the literal bytes of the standard: every packet may be spelled with
    longer property identifiers and with reason codes and properties spelled out, and in no other way. */
module MqttAcceptance {
  import opened Core
  import opened Framing
  import opened Numbers
  import opened Utf8
  import opened MqttTypes
  import opened MqttWire
  import opened MqttLayout
  import MqttBodies
  import MqttFrames
  import VarInt

  // ----- Property sections -----

  /** An identifier whose low byte is the property's, and the value. */
  predicate SpelledProperty(s: seq<byte>, p: MqttProperty, id: u32, t: seq<byte>) {
    id <= 268435455 && id % 256 == Id(p) && PropertyFits(p) && s == Variable(id) + (Property(p)[1..] + t)
  }

  lemma PropertyRead(s: seq<byte>) returns (id: u32)
    requires ReadProperty(s).Ok?
    ensures SpelledProperty(s, ReadProperty(s).value.0, id, ReadProperty(s).value.1)
  {
    hide Property, PropertyFits, Variable, VarInt.Encode, VarInt.Read, ReadPayload, WritePayload, ShapeOfId, PayloadOf,
        Make, Id;
    var (n, u) := VarInt.Read(s).value;
    id := n;
    VarInt.ReadIffEncoded(s, n, u);
    VariableIs(n);
    var low: byte := n % 256;
    var (v, t) := ReadPayload(ShapeOfId(low).value, u).value;
    ReadPayloadIff(u, v, t);
    MakeKeepsIdAndValue(low, v);
    var p := Make(low, v);
    PropertyIsLaidOut(p);
    OneByteIdentifier(p);
  }

  ghost predicate SpelledList(s: seq<byte>, ps: seq<MqttProperty>)
    decreases |ps|
  {
    if ps == [] then s == []
    else exists id: u32, t: seq<byte> :: SpelledProperty(s, ps[0], id, t) && SpelledList(t, ps[1..])
  }

  lemma {:induction false} ReadListIff(s: seq<byte>, ps: seq<MqttProperty>)
    ensures ReadPropertyList(s) == Ok(ps) <==> SpelledList(s, ps)
    decreases |ps|
  {
    hide ReadProperty, SpelledProperty, WriteProperty;
    if ReadPropertyList(s) == Ok(ps) && s != [] {
      var id := PropertyRead(s);
      ReadListIff(ReadProperty(s).value.1, ps[1..]);
    }
    if ps != [] && SpelledList(s, ps) {
      var id: u32, t: seq<byte> :| SpelledProperty(s, ps[0], id, t) && SpelledList(t, ps[1..]);
      SpelledPropertyReads(s, ps[0], id, t);
      ReadListIff(t, ps[1..]);
      ReadPropertyWrites(s);
      assert ps == [ps[0]] + ps[1..];
    }
  }

  lemma SpelledPropertyReads(s: seq<byte>, p: MqttProperty, id: u32, t: seq<byte>)
    requires SpelledProperty(s, p, id, t)
    ensures ReadProperty(s) == Ok((p, t))
  {
    IdentifierIsCut(p, id, t);
  }

  /** A section: its length, and spelled properties of that length. */
  ghost predicate SpelledSection(s: seq<byte>, ps: seq<MqttProperty>) {
    exists list: seq<byte> :: |list| <= 268435455 && SpelledList(list, ps) && s == Variable(|list|) + list
  }

  lemma SectionRead(s: seq<byte>) returns (section: seq<byte>)
    requires ReadProperties(s).Ok?
    ensures SpelledSection(section, ReadProperties(s).value.0) && s == section + ReadProperties(s).value.1
    ensures section != []
  {
    hide VarInt.Read, VarInt.Encode, Variable, ReadPropertyList, SpelledList;
    var (n, u) := VarInt.Read(s).value;
    VarInt.ReadIffEncoded(s, n, u);
    VariableIs(n);
    var list := u[..n];
    ReadListIff(list, ReadPropertyList(list).value);
    section := Variable(n) + list;
    assert |list| == n && section == Variable(|list|) + list;
    JoinCut(u, n);
    Assoc(Variable(n), list, u[n..]);
  }

  lemma SectionReads(s: seq<byte>, section: seq<byte>, ps: seq<MqttProperty>, t: seq<byte>)
    requires SpelledSection(section, ps) && s == section + t
    ensures ReadProperties(s) == Ok((ps, t))
  {
    hide VarInt.Read, VarInt.Encode, Variable, ReadPropertyList, SpelledList;
    var list: seq<byte> :| |list| <= 268435455 && SpelledList(list, ps) && section == Variable(|list|) + list;
    VariableIs(|list|);
    Assoc(Variable(|list|), list, t);
    VarInt.ReadIffEncoded(s, |list|, list + t);
    CutJoined(list, t);
    ReadListIff(list, ps);
  }

  /** Reason code and properties: nothing for zero and none, the code alone for none, or both spelled out. */
  ghost predicate SpelledReason(s: seq<byte>, code: byte, ps: seq<MqttProperty>) {
    || (s == [] && code == 0 && ps == [])
    || (s == [code] && ps == [])
    || exists section: seq<byte> :: SpelledSection(section, ps) && section != [] && s == [code] + section
  }

  lemma ReadReasonIff(s: seq<byte>, code: byte, ps: seq<MqttProperty>)
    ensures MqttBodies.ReadReason(s) == Ok((ReasonPacket(code, ps), [])) <==> SpelledReason(s, code, ps)
  {
    hide ReadProperties, SpelledSection;
    if MqttBodies.ReadReason(s) == Ok((ReasonPacket(code, ps), [])) && |s| > 1 {
      var section := SectionRead(s[1..]);
      assert section + [] == section;
      assert s == [code] + section;
    }
    if section: seq<byte> :| SpelledSection(section, ps) && section != [] && s == [code] + section {
      assert s[1..] == section + [];
      SectionReads(s[1..], section, ps, []);
    }
  }

  // ----- Packets around a section -----

  lemma TextIs(s: seq<byte>, b: Text, t: seq<byte>)
    ensures ReadText(s) == Ok((b, t)) <==> Short(b) && s == Prefixed(b) + t
  {
    hide ReadText, Prefixed;
    ReadTextIff(s, b, t);
    BlobBytes(b);
  }

  lemma DataIs(s: seq<byte>, b: seq<byte>, t: seq<byte>)
    ensures ReadData(s) == Ok((b, t)) <==> Short(b) && s == Prefixed(b) + t
  {
    hide ReadData, Prefixed;
    ReadDataIff(s, b, t);
    BlobBytes(b);
  }

  lemma IdIs(s: seq<byte>, id: u16, t: seq<byte>)
    ensures MqttBodies.ReadId(s) == Ok((id, t)) <==> id > 0 && s == Two(id) + t
  {
    hide MqttBodies.ReadId, MqttBodies.WriteId, Two;
    MqttBodies.ReadIdIff(s, id, t);
    IdIsLaidOut(id);
  }

  ghost predicate SpelledConnAck(s: seq<byte>, c: ConnAckPacket, section: seq<byte>) {
    SpelledSection(section, c.properties) && s == [Flag(c.sessionPresent, 1), c.reasonCode] + section
  }

  lemma ConnAckIff(s: seq<byte>, c: ConnAckPacket)
    ensures MqttBodies.ReadConnAck(s) == Ok((c, [])) <==> exists section: seq<byte> :: SpelledConnAck(s, c, section)
  {
    hide ReadProperties, SpelledSection;
    if MqttBodies.ReadConnAck(s) == Ok((c, [])) {
      assert s[1..][1..] == s[2..];
      var section := SectionRead(s[2..]);
      assert section + [] == section && s == [s[0], s[1]] + section;
      assert SpelledConnAck(s, c, section);
    }
    if section: seq<byte> :| SpelledConnAck(s, c, section) {
      assert s[1..][1..] == section && section + [] == section;
      SectionReads(section, section, c.properties, []);
    }
  }

  function IdBytes(id: Option<u16>): seq<byte> { if id.Some? then Two(id.value) else [] }

  predicate RightId(c: PublishPacket) {
    (c.packetId.Some? <==> c.qos != AtMostOnce) && (c.packetId.Some? ==> c.packetId.value > 0)
  }

  ghost predicate SpelledPublish(flags: byte, s: seq<byte>, c: PublishPacket, section: seq<byte>) {
    && flags == Flag(c.dup, 8) + 2 * Level(c.qos) + Flag(c.retain, 1) && RightId(c) && Short(c.topicName)
    && SpelledSection(section, c.properties)
    && s == Prefixed(c.topicName) + (IdBytes(c.packetId) + (section + c.payload))
  }

  lemma PublishIdIs(c: PublishPacket, s: seq<byte>, t: seq<byte>)
    ensures MqttBodies.ReadPublishId(c.qos, s) == Ok((c.packetId, t)) <==>
            RightId(c) && s == IdBytes(c.packetId) + t
  {
    hide MqttBodies.ReadId, Two;
    assert [] + t == t;
    if c.packetId.Some? {
      IdIs(s, c.packetId.value, t);
    }
    if MqttBodies.ReadId(s).Ok? {
      IdIs(s, MqttBodies.ReadId(s).value.0, MqttBodies.ReadId(s).value.1);
    }
  }

  lemma PublishFlagsAre(flags: byte, c: PublishPacket)
    requires flags < 16
    ensures flags == Flag(c.dup, 8) + 2 * Level(c.qos) + Flag(c.retain, 1) <==>
            QoSFrom(flags / 2 % 4) == Ok(c.qos) && Bit(flags, 8) == c.dup && Bit(flags, 1) == c.retain
  {
    assert flags == flags / 8 * 8 + flags / 2 % 4 * 2 + flags % 2;
  }

  lemma PublishIff(flags: byte, s: seq<byte>, c: PublishPacket)
    requires flags < 16
    ensures MqttBodies.ReadPublish(flags, s) == Ok((c, [])) <==>
            exists section: seq<byte> :: SpelledPublish(flags, s, c, section)
  {
    hide ReadProperties, SpelledSection, ReadText, Prefixed, Short, MqttBodies.ReadPublishId, IdBytes, RightId, QoSFrom,
        Bit, Flag, Level;
    PublishFlagsAre(flags, c);
    if MqttBodies.ReadPublish(flags, s) == Ok((c, [])) {
      var t := ReadText(s).value.1;
      var u := MqttBodies.ReadPublishId(c.qos, t).value.1;
      TextIs(s, c.topicName, t);
      PublishIdIs(c, t, u);
      var section := SectionRead(u);
      assert SpelledPublish(flags, s, c, section);
    }
    if section: seq<byte> :| SpelledPublish(flags, s, c, section) {
      var u := section + c.payload;
      TextIs(s, c.topicName, IdBytes(c.packetId) + u);
      PublishIdIs(c, IdBytes(c.packetId) + u, u);
      SectionReads(u, section, c.properties, c.payload);
    }
  }

  ghost predicate SpelledAck(s: seq<byte>, c: AckPacket, reason: seq<byte>) {
    c.packetId > 0 && SpelledReason(reason, c.reasonCode, c.properties) && s == Two(c.packetId) + reason
  }

  lemma AckIff(s: seq<byte>, c: AckPacket)
    ensures MqttBodies.ReadAck(s) == Ok((c, [])) <==> exists reason: seq<byte> :: SpelledAck(s, c, reason)
  {
    hide MqttBodies.ReadId, MqttBodies.ReadReason, SpelledReason, Two;
    if MqttBodies.ReadAck(s) == Ok((c, [])) {
      var reason := MqttBodies.ReadId(s).value.1;
      var r := MqttBodies.ReadReason(reason).value.0;
      assert r == ReasonPacket(c.reasonCode, c.properties);
      IdIs(s, c.packetId, reason);
      ReadReasonIff(reason, c.reasonCode, c.properties);
      assert SpelledAck(s, c, reason);
    }
    if reason: seq<byte> :| SpelledAck(s, c, reason) {
      IdIs(s, c.packetId, reason);
      ReadReasonIff(reason, c.reasonCode, c.properties);
    }
  }

  /** An identifier, a section and a list, as in SUBSCRIBE, SUBACK, UNSUBSCRIBE and UNSUBACK. */
  ghost predicate SpelledListing(s: seq<byte>, id: u16, ps: seq<MqttProperty>, section: seq<byte>, list: seq<byte>) {
    id > 0 && SpelledSection(section, ps) && s == Two(id) + (section + list)
  }

  lemma ListingRead(s: seq<byte>) returns (section: seq<byte>)
    requires MqttBodies.ReadId(s).Ok? && ReadProperties(MqttBodies.ReadId(s).value.1).Ok?
    ensures var (id, t) := MqttBodies.ReadId(s).value;
            var (ps, u) := ReadProperties(t).value;
            SpelledListing(s, id, ps, section, u)
  {
    hide MqttBodies.ReadId, ReadProperties, SpelledSection, Two;
    var (id, t) := MqttBodies.ReadId(s).value;
    IdIs(s, id, t);
    section := SectionRead(t);
  }

  lemma ListingReads(s: seq<byte>, id: u16, ps: seq<MqttProperty>, section: seq<byte>, list: seq<byte>)
    requires SpelledListing(s, id, ps, section, list)
    ensures MqttBodies.ReadId(s) == Ok((id, section + list)) && ReadProperties(section + list) == Ok((ps, list))
  {
    hide MqttBodies.ReadId, ReadProperties, SpelledSection, Two;
    IdIs(s, id, section + list);
    SectionReads(section + list, section, ps, list);
  }

  ghost predicate SpelledSubscribe(s: seq<byte>, c: SubscribePacket, section: seq<byte>) {
    && c.subscriptions != [] && SubscriptionsFit(c.subscriptions)
    && SpelledListing(s, c.packetId, c.properties, section, Subscriptions(c.subscriptions))
  }

  lemma SubscribeIff(s: seq<byte>, c: SubscribePacket)
    ensures MqttBodies.ReadSubscribe(s) == Ok((c, [])) <==> exists section: seq<byte> :: SpelledSubscribe(s, c, section)
  {
    hide MqttBodies.ReadId, ReadProperties, SpelledListing, SubscriptionsFit, Subscriptions,
        MqttBodies.ReadSubscriptions, MqttBodies.WriteSubscriptions;
    SubscriptionsAreLaidOut(c.subscriptions);
    if MqttBodies.ReadSubscribe(s) == Ok((c, [])) {
      var section := ListingRead(s);
      MqttBodies.ReadSubscriptionsIff(ReadProperties(MqttBodies.ReadId(s).value.1).value.1, c.subscriptions);
      assert SpelledSubscribe(s, c, section);
    }
    if section: seq<byte> :| SpelledSubscribe(s, c, section) {
      ListingReads(s, c.packetId, c.properties, section, Subscriptions(c.subscriptions));
      MqttBodies.ReadSubscriptionsIff(Subscriptions(c.subscriptions), c.subscriptions);
    }
  }

  ghost predicate SpelledUnsubscribe(s: seq<byte>, c: UnsubscribePacket, section: seq<byte>) {
    && c.topicFilters != [] && FiltersFit(c.topicFilters)
    && SpelledListing(s, c.packetId, c.properties, section, Filters(c.topicFilters))
  }

  lemma UnsubscribeIff(s: seq<byte>, c: UnsubscribePacket)
    ensures MqttBodies.ReadUnsubscribe(s) == Ok((c, [])) <==>
            exists section: seq<byte> :: SpelledUnsubscribe(s, c, section)
  {
    hide MqttBodies.ReadId, ReadProperties, SpelledListing, FiltersFit, Filters, MqttBodies.ReadFilters,
        MqttBodies.WriteFilters;
    FiltersAreLaidOut(c.topicFilters);
    if MqttBodies.ReadUnsubscribe(s) == Ok((c, [])) {
      var section := ListingRead(s);
      MqttBodies.ReadFiltersIff(ReadProperties(MqttBodies.ReadId(s).value.1).value.1, c.topicFilters);
      assert SpelledUnsubscribe(s, c, section);
    }
    if section: seq<byte> :| SpelledUnsubscribe(s, c, section) {
      ListingReads(s, c.packetId, c.properties, section, Filters(c.topicFilters));
      MqttBodies.ReadFiltersIff(Filters(c.topicFilters), c.topicFilters);
    }
  }

  ghost predicate SpelledCodes(s: seq<byte>, c: CodesPacket, section: seq<byte>) {
    c.reasonCodes != [] && SpelledListing(s, c.packetId, c.properties, section, c.reasonCodes)
  }

  lemma CodesIff(s: seq<byte>, c: CodesPacket)
    ensures MqttBodies.ReadCodes(s) == Ok((c, [])) <==> exists section: seq<byte> :: SpelledCodes(s, c, section)
  {
    hide MqttBodies.ReadId, ReadProperties, SpelledListing;
    if MqttBodies.ReadCodes(s) == Ok((c, [])) {
      var section := ListingRead(s);
      assert SpelledCodes(s, c, section);
    }
    if section: seq<byte> :| SpelledCodes(s, c, section) {
      ListingReads(s, c.packetId, c.properties, section, c.reasonCodes);
    }
  }

  // ----- CONNECT -----

  ghost predicate SpelledWill(s: seq<byte>, w: Option<Will>, section: seq<byte>) {
    match w
    case None => s == []
    case Some(x) =>
      && Short(x.topic) && Short(x.payload) && SpelledSection(section, x.properties)
      && s == section + (Prefixed(x.topic) + Prefixed(x.payload))
  }

  lemma WillRead(f: MqttBodies.ConnectFlags, s: seq<byte>) returns (will: seq<byte>, section: seq<byte>)
    requires MqttBodies.ReadWill(f, s).Ok?
    ensures var (w, t) := MqttBodies.ReadWill(f, s).value;
            SpelledWill(will, w, section) && s == will + t && MqttBodies.Announces(f, w)
  {
    hide ReadProperties, SpelledSection, ReadText, ReadData, Prefixed, Short;
    if f.will {
      section := SectionRead(s);
      var t := ReadProperties(s).value.1;
      var (topic, u) := ReadText(t).value;
      var (payload, v) := ReadData(u).value;
      TextIs(t, topic, u);
      DataIs(u, payload, v);
      will := section + (Prefixed(topic) + Prefixed(payload));
      Assoc(section, Prefixed(topic) + Prefixed(payload), v);
      Assoc(Prefixed(topic), Prefixed(payload), v);
    } else {
      will, section := [], [];
      assert [] + s == s;
    }
  }

  lemma WillReads(f: MqttBodies.ConnectFlags, w: Option<Will>, will: seq<byte>, section: seq<byte>, t: seq<byte>)
    requires MqttBodies.Announces(f, w) && SpelledWill(will, w, section)
    ensures MqttBodies.ReadWill(f, will + t) == Ok((w, t))
  {
    hide ReadProperties, SpelledSection, ReadText, ReadData, Prefixed, Short;
    if w.Some? {
      var topic, payload := Prefixed(w.value.topic), Prefixed(w.value.payload);
      Assoc(section, topic + payload, t);
      Assoc(topic, payload, t);
      SectionReads(will + t, section, w.value.properties, topic + (payload + t));
      TextIs(topic + (payload + t), w.value.topic, payload + t);
      DataIs(payload + t, w.value.payload, t);
    } else {
      assert [] + t == t;
    }
  }

  function Field(o: Option<seq<byte>>): seq<byte> { if o.Some? then Prefixed(o.value) else [] }

  predicate ShortField(o: Option<seq<byte>>) { o.Some? ==> Short(o.value) }

  lemma OptionalIs(o: Option<seq<byte>>, s: seq<byte>, t: seq<byte>)
    ensures MqttBodies.ReadOptional(o.Some?, s) == Ok((o, t)) <==> ShortField(o) && s == Field(o) + t
  {
    hide MqttBodies.ReadOptional, MqttBodies.WriteOptional, Prefixed, Short;
    MqttBodies.ReadOptionalIff(s, o, t);
    OptionalIsLaidOut(o);
  }

  lemma OptionalTextIs(o: Option<Text>, s: seq<byte>, t: seq<byte>)
    ensures MqttBodies.ReadOptionalText(o.Some?, s) == Ok((o, t)) <==> ShortField(o) && s == Field(o) + t
  {
    hide MqttBodies.ReadOptionalText, MqttBodies.WriteOptional, Prefixed, Short;
    MqttBodies.ReadOptionalTextIff(s, o, t);
    OptionalIsLaidOut(o);
  }

  /** Keep alive, a section, and the client identifier. */
  ghost predicate SpelledFront(s: seq<byte>, x: MqttBodies.ConnectFront, section: seq<byte>) {
    && Short(x.clientId) && SpelledSection(section, x.properties)
    && s == Two(x.keepAlive) + (section + Prefixed(x.clientId))
  }

  lemma FrontRead(s: seq<byte>) returns (front: seq<byte>, section: seq<byte>)
    requires MqttBodies.ReadFront(s).Ok?
    ensures SpelledFront(front, MqttBodies.ReadFront(s).value.0, section)
    ensures s == front + MqttBodies.ReadFront(s).value.1
  {
    hide ReadU16, ReadProperties, SpelledSection, ReadText, Prefixed, Short, Two, U16;
    var (keep, t) := ReadU16(s).value;
    ReadU16Iff(s, keep, t);
    HalfBytes(keep);
    section := SectionRead(t);
    var u := ReadProperties(t).value.1;
    var (id, v) := ReadText(u).value;
    TextIs(u, id, v);
    front := Two(keep) + (section + Prefixed(id));
    Assoc(Two(keep), section + Prefixed(id), v);
    Assoc(section, Prefixed(id), v);
  }

  lemma FrontReads(x: MqttBodies.ConnectFront, front: seq<byte>, section: seq<byte>, t: seq<byte>)
    requires SpelledFront(front, x, section)
    ensures MqttBodies.ReadFront(front + t) == Ok((x, t))
  {
    hide ReadU16, ReadProperties, SpelledSection, ReadText, Prefixed, Short, Two, U16;
    var keep, id := Two(x.keepAlive), Prefixed(x.clientId);
    Assoc(keep, section + id, t);
    Assoc(section, id, t);
    HalfBytes(x.keepAlive);
    ReadU16Iff(front + t, x.keepAlive, section + (id + t));
    SectionReads(section + (id + t), section, x.properties, id + t);
    TextIs(id + t, x.clientId, t);
  }

  /** Will, user name and password, with the flags' word for each. */
  ghost predicate SpelledBack(s: seq<byte>, x: MqttBodies.ConnectBack, section: seq<byte>) {
    && ShortField(x.username) && ShortField(x.password)
    && exists will: seq<byte> ::
         SpelledWill(will, x.will, section) && s == will + (Field(x.username) + Field(x.password))
  }

  lemma BackRead(f: MqttBodies.ConnectFlags, s: seq<byte>) returns (section: seq<byte>)
    requires MqttBodies.ReadBack(f, s).Ok? && MqttBodies.ReadBack(f, s).value.1 == []
    ensures SpelledBack(s, MqttBodies.ReadBack(f, s).value.0, section)
  {
    hide MqttBodies.ReadWill, SpelledWill, MqttBodies.ReadOptional, MqttBodies.ReadOptionalText, Field, ShortField;
    var (w, t) := MqttBodies.ReadWill(f, s).value;
    var (user, u) := MqttBodies.ReadOptionalText(f.user, t).value;
    var (pass, v) := MqttBodies.ReadOptional(f.pass, u).value;
    var will: seq<byte>;
    will, section := WillRead(f, s);
    MqttBodies.ReadBackWrites(f, s);
    OptionalTextIs(user, t, u);
    OptionalIs(pass, u, []);
    assert Field(pass) + [] == Field(pass);
    assert s == will + (Field(user) + Field(pass));
  }

  lemma BackReads(f: MqttBodies.ConnectFlags, x: MqttBodies.ConnectBack, s: seq<byte>, section: seq<byte>)
    requires MqttBodies.Announces(f, x.will) && f.user == x.username.Some? && f.pass == x.password.Some?
    requires SpelledBack(s, x, section)
    ensures MqttBodies.ReadBack(f, s) == Ok((x, []))
  {
    hide MqttBodies.ReadWill, SpelledWill, MqttBodies.ReadOptional, MqttBodies.ReadOptionalText, Field, ShortField;
    var rest := Field(x.username) + Field(x.password);
    var will: seq<byte> :| SpelledWill(will, x.will, section) && s == will + rest;
    WillReads(f, x.will, will, section, rest);
    OptionalTextIs(x.username, rest, Field(x.password));
    assert Field(x.password) + [] == Field(x.password);
    OptionalIs(x.password, Field(x.password), []);
  }

  /** Protocol name, level 5, the flags that say which fields follow, and the fields. */
  ghost predicate SpelledConnect(s: seq<byte>, c: ConnectPacket, section: seq<byte>, will: seq<byte>) {
    && (c.password.Some? ==> c.username.Some?)
    && exists front: seq<byte>, back: seq<byte> ::
         && SpelledFront(front, MqttBodies.FrontOf(c), section) && SpelledBack(back, MqttBodies.BackOf(c), will)
         && s == [0, 4, 0x4d, 0x51, 0x54, 0x54, 5, ConnectFlags(c)] + (front + back)
  }

  lemma ConnectRead(s: seq<byte>, c: ConnectPacket) returns (section: seq<byte>, will: seq<byte>)
    requires MqttBodies.ReadConnect(s) == Ok((c, []))
    ensures SpelledConnect(s, c, section, will)
  {
    hide MqttBodies.ReadPreamble, MqttBodies.ReadFront, MqttBodies.ReadBack, SpelledFront, SpelledBack,
        MqttBodies.FlagsByte, ConnectFlags;
    var (f, t) := MqttBodies.ReadPreamble(s).value;
    var (x, u) := MqttBodies.ReadFront(t).value;
    PreambleOpens(s, f, t);
    MqttBodies.ReadBackWrites(f, u);
    FlagsAre(c, f);
    var front: seq<byte>;
    front, section := FrontRead(t);
    will := BackRead(f, u);
    JoinCut(s, 8);
    assert s[..8] == [0, 4, 0x4d, 0x51, 0x54, 0x54, 5, ConnectFlags(c)];
    assert MqttBodies.FrontOf(c) == x && MqttBodies.BackOf(c) == MqttBodies.ReadBack(f, u).value.0;
  }

  lemma ConnectReads(s: seq<byte>, c: ConnectPacket, section: seq<byte>, will: seq<byte>)
    requires SpelledConnect(s, c, section, will)
    ensures MqttBodies.ReadConnect(s) == Ok((c, []))
  {
    hide MqttBodies.ReadPreamble, MqttBodies.WritePreamble, MqttBodies.ReadFront, MqttBodies.ReadBack, SpelledFront,
        SpelledBack, ConnectFlags;
    var front: seq<byte>, back: seq<byte> :|
      && SpelledFront(front, MqttBodies.FrontOf(c), section) && SpelledBack(back, MqttBodies.BackOf(c), will)
      && s == [0, 4, 0x4d, 0x51, 0x54, 0x54, 5, ConnectFlags(c)] + (front + back);
    PreambleIsLaidOut(c);
    var f := MqttBodies.FlagsOf(c);
    MqttBodies.WrittenPreambleReads(f, front + back);
    FrontReads(MqttBodies.FrontOf(c), front, section, back);
    BackReads(f, MqttBodies.BackOf(c), back, will);
  }

  // ----- Whole packets -----

  /** A packet's body, around its property section or reason part and the will's section. */
  ghost predicate SpelledBody(s: seq<byte>, p: MqttPacket, section: seq<byte>, will: seq<byte>) {
    match p
    case Connect(c) => SpelledConnect(s, c, section, will)
    case ConnAck(c) => SpelledConnAck(s, c, section)
    case Publish(c) => SpelledPublish(FirstByte(p) % 16, s, c, section)
    case PubAck(c) => SpelledAck(s, c, section)
    case PubRec(c) => SpelledAck(s, c, section)
    case PubRel(c) => SpelledAck(s, c, section)
    case PubComp(c) => SpelledAck(s, c, section)
    case Subscribe(c) => SpelledSubscribe(s, c, section)
    case SubAck(c) => SpelledCodes(s, c, section)
    case Unsubscribe(c) => SpelledUnsubscribe(s, c, section)
    case UnsubAck(c) => SpelledCodes(s, c, section)
    case PingReq => s == []
    case PingResp => s == []
    case Disconnect(c) => SpelledReason(s, c.reasonCode, c.properties)
    case Auth(c) => SpelledReason(s, c.reasonCode, c.properties)
  }

  /** The packet's own reader takes all of the body. */
  predicate Reads(s: seq<byte>, p: MqttPacket) {
    match p
    case Connect(c) => MqttBodies.ReadConnect(s) == Ok((c, []))
    case ConnAck(c) => MqttBodies.ReadConnAck(s) == Ok((c, []))
    case Publish(c) => MqttBodies.ReadPublish(FirstByte(p) % 16, s) == Ok((c, []))
    case PubAck(c) => MqttBodies.ReadAck(s) == Ok((c, []))
    case PubRec(c) => MqttBodies.ReadAck(s) == Ok((c, []))
    case PubRel(c) => MqttBodies.ReadAck(s) == Ok((c, []))
    case PubComp(c) => MqttBodies.ReadAck(s) == Ok((c, []))
    case Subscribe(c) => MqttBodies.ReadSubscribe(s) == Ok((c, []))
    case SubAck(c) => MqttBodies.ReadCodes(s) == Ok((c, []))
    case Unsubscribe(c) => MqttBodies.ReadUnsubscribe(s) == Ok((c, []))
    case UnsubAck(c) => MqttBodies.ReadCodes(s) == Ok((c, []))
    case PingReq => s == []
    case PingResp => s == []
    case Disconnect(c) => MqttBodies.ReadReason(s) == Ok((c, []))
    case Auth(c) => MqttBodies.ReadReason(s) == Ok((c, []))
  }

  lemma ReadsIs(s: seq<byte>, p: MqttPacket)
    ensures MqttFrames.DecodePacket(FirstByte(p) / 16, FirstByte(p) % 16, s) == Ok(p) <==> Reads(s, p)
  {
    hide MqttBodies.ReadConnect, MqttBodies.ReadConnAck, MqttBodies.ReadPublish, MqttBodies.ReadAck,
        MqttBodies.ReadSubscribe, MqttBodies.ReadUnsubscribe, MqttBodies.ReadCodes, MqttBodies.ReadReason;
    hide FirstByte, MqttFrames.Header;
    FirstByteIs(p);
    var kind, flags := FirstByte(p) / 16, FirstByte(p) % 16;
    assert kind == MqttFrames.Kind(p) && flags == MqttFrames.Flags(p);
    match p
    case Connect(c) => Whole(MqttBodies.ReadConnect(s), c);
    case ConnAck(c) => Whole(MqttBodies.ReadConnAck(s), c);
    case Publish(c) => Whole(MqttBodies.ReadPublish(flags, s), c);
    case PubAck(c) => Whole(MqttBodies.ReadAck(s), c);
    case PubRec(c) => Whole(MqttBodies.ReadAck(s), c);
    case PubRel(c) => Whole(MqttBodies.ReadAck(s), c);
    case PubComp(c) => Whole(MqttBodies.ReadAck(s), c);
    case Subscribe(c) => Whole(MqttBodies.ReadSubscribe(s), c);
    case SubAck(c) => Whole(MqttBodies.ReadCodes(s), c);
    case Unsubscribe(c) => Whole(MqttBodies.ReadUnsubscribe(s), c);
    case UnsubAck(c) => Whole(MqttBodies.ReadCodes(s), c);
    case PingReq =>
    case PingResp =>
    case Disconnect(c) => Whole(MqttBodies.ReadReason(s), c);
    case Auth(c) => Whole(MqttBodies.ReadReason(s), c);
  }

  lemma Whole<T>(r: Parsed<T>, x: T)
    ensures r == Ok((x, [])) <==> r.Ok? && r.value.0 == x && r.value.1 == []
  {
  }

  ghost predicate IsSpelled(s: seq<byte>, p: MqttPacket) {
    exists section: seq<byte>, will: seq<byte> :: SpelledBody(s, p, section, will)
  }

  lemma SpelledSomehow(s: seq<byte>, p: MqttPacket, section: seq<byte>, will: seq<byte>)
    requires SpelledBody(s, p, section, will)
    ensures IsSpelled(s, p)
  {
  }

  lemma ReadsIff(s: seq<byte>, p: MqttPacket)
    ensures Reads(s, p) <==> IsSpelled(s, p)
  {
    hide Reads, SpelledBody;
    if Reads(s, p) {
      SpellingOf(s, p);
    }
    if section: seq<byte>, will: seq<byte> :| SpelledBody(s, p, section, will) {
      SpelledReads(s, p, section, will);
    }
  }

  lemma SpellingOf(s: seq<byte>, p: MqttPacket)
    requires Reads(s, p)
    ensures IsSpelled(s, p)
  {
    hide MqttBodies.ReadConnect, MqttBodies.ReadConnAck, MqttBodies.ReadPublish, MqttBodies.ReadAck,
        MqttBodies.ReadSubscribe, MqttBodies.ReadUnsubscribe, MqttBodies.ReadCodes, MqttBodies.ReadReason;
    hide SpelledConnect, SpelledConnAck, SpelledPublish, SpelledAck, SpelledSubscribe, SpelledUnsubscribe, SpelledCodes,
        SpelledReason, IsSpelled;
    match p
    case Connect(c) =>
      var section, will := ConnectRead(s, c);
      SpelledSomehow(s, p, section, will);
    case ConnAck(c) =>
      ConnAckIff(s, c);
      var section: seq<byte> :| SpelledConnAck(s, c, section);
      SpelledSomehow(s, p, section, []);
    case Publish(c) =>
      PublishIff(FirstByte(p) % 16, s, c);
      var section: seq<byte> :| SpelledPublish(FirstByte(p) % 16, s, c, section);
      SpelledSomehow(s, p, section, []);
    case PubAck(c) => AckSpelling(s, p, c);
    case PubRec(c) => AckSpelling(s, p, c);
    case PubRel(c) => AckSpelling(s, p, c);
    case PubComp(c) => AckSpelling(s, p, c);
    case Subscribe(c) =>
      SubscribeIff(s, c);
      var section: seq<byte> :| SpelledSubscribe(s, c, section);
      SpelledSomehow(s, p, section, []);
    case SubAck(c) => CodesSpelling(s, p, c);
    case Unsubscribe(c) =>
      UnsubscribeIff(s, c);
      var section: seq<byte> :| SpelledUnsubscribe(s, c, section);
      SpelledSomehow(s, p, section, []);
    case UnsubAck(c) => CodesSpelling(s, p, c);
    case PingReq => SpelledSomehow(s, p, [], []);
    case PingResp => SpelledSomehow(s, p, [], []);
    case Disconnect(c) =>
      ReadReasonIff(s, c.reasonCode, c.properties);
      SpelledSomehow(s, p, [], []);
    case Auth(c) =>
      ReadReasonIff(s, c.reasonCode, c.properties);
      SpelledSomehow(s, p, [], []);
  }

  lemma AckSpelling(s: seq<byte>, p: MqttPacket, c: AckPacket)
    requires p in {PubAck(c), PubRec(c), PubRel(c), PubComp(c)} && MqttBodies.ReadAck(s) == Ok((c, []))
    ensures IsSpelled(s, p)
  {
    hide MqttBodies.ReadAck, SpelledAck, IsSpelled;
    AckIff(s, c);
    var reason: seq<byte> :| SpelledAck(s, c, reason);
    SpelledSomehow(s, p, reason, []);
  }

  lemma CodesSpelling(s: seq<byte>, p: MqttPacket, c: CodesPacket)
    requires p in {SubAck(c), UnsubAck(c)} && MqttBodies.ReadCodes(s) == Ok((c, []))
    ensures IsSpelled(s, p)
  {
    hide MqttBodies.ReadCodes, SpelledCodes, IsSpelled;
    CodesIff(s, c);
    var section: seq<byte> :| SpelledCodes(s, c, section);
    SpelledSomehow(s, p, section, []);
  }

  lemma SpelledReads(s: seq<byte>, p: MqttPacket, section: seq<byte>, will: seq<byte>)
    requires SpelledBody(s, p, section, will)
    ensures Reads(s, p)
  {
    hide MqttBodies.ReadConnect, MqttBodies.ReadConnAck, MqttBodies.ReadPublish, MqttBodies.ReadAck,
        MqttBodies.ReadSubscribe, MqttBodies.ReadUnsubscribe, MqttBodies.ReadCodes, MqttBodies.ReadReason;
    hide SpelledConnect, SpelledConnAck, SpelledPublish, SpelledAck, SpelledSubscribe, SpelledUnsubscribe, SpelledCodes,
        SpelledReason;
    match p
    case Connect(c) => ConnectReads(s, c, section, will);
    case ConnAck(c) => ConnAckIff(s, c);
    case Publish(c) => PublishIff(FirstByte(p) % 16, s, c);
    case PubAck(c) => AckIff(s, c);
    case PubRec(c) => AckIff(s, c);
    case PubRel(c) => AckIff(s, c);
    case PubComp(c) => AckIff(s, c);
    case Subscribe(c) => SubscribeIff(s, c);
    case SubAck(c) => CodesIff(s, c);
    case Unsubscribe(c) => UnsubscribeIff(s, c);
    case UnsubAck(c) => CodesIff(s, c);
    case PingReq =>
    case PingResp =>
    case Disconnect(c) => ReadReasonIff(s, c.reasonCode, c.properties);
    case Auth(c) => ReadReasonIff(s, c.reasonCode, c.properties);
  }

  /** A body is accepted as a packet exactly when it spells that packet behind that packet's first byte. */
  lemma BodyIff(first: byte, s: seq<byte>, p: MqttPacket)
    ensures MqttFrames.DecodePacket(first / 16, first % 16, s) == Ok(p) <==> first == FirstByte(p) && IsSpelled(s, p)
  {
    hide MqttFrames.DecodePacket, MqttFrames.WriteBody, MqttFrames.Kind, MqttFrames.Flags, FirstByte, Reads, IsSpelled;
    if MqttFrames.DecodePacket(first / 16, first % 16, s) == Ok(p) {
      MqttFrames.ReadBodyWrites(first / 16, first % 16, s);
      FirstByteIs(p);
    }
    ReadsIs(s, p);
    ReadsIff(s, p);
  }

  /** The first `n` bytes are a frame of this packet: its first byte, the length of a body within the limit, and a body
      that spells it. */
  ghost predicate Frames(maxPacketSize: nat, s: seq<byte>, p: MqttPacket, n: nat, body: seq<byte>) {
    && |body| <= maxPacketSize && |body| <= 268435455 && IsSpelled(body, p)
    && n <= |s| && s[..n] == [FirstByte(p)] + (Variable(|body|) + body)
  }

  /** A packet is decoded from the front of the buffer exactly when a frame of it stands there. */
  lemma AcceptedIff(maxPacketSize: nat, s: seq<byte>, p: MqttPacket, n: nat)
    ensures MqttFrames.DecodeFrame(maxPacketSize, s) == Item(p, n) <==>
            exists body: seq<byte> :: Frames(maxPacketSize, s, p, n, body)
  {
    hide FirstByte, IsSpelled, Variable, VarInt.Encode, VarInt.ReadPrefix, MqttFrames.DecodePacket;
    if MqttFrames.DecodeFrame(maxPacketSize, s) == Item(p, n) {
      var (len, width) := VarInt.ReadPrefix(s[1..]).value.value;
      var body := s[1 + width..n];
      BodyIff(s[0], body, p);
      VarInt.PrefixWithinMax(s[1..]);
      VarInt.PrefixIffEncoded(s[1..], len, width);
      VariableIs(len);
      FrontOfFrame(s, width, n);
      assert Frames(maxPacketSize, s, p, n, body);
    }
    if body: seq<byte> :| Frames(maxPacketSize, s, p, n, body) {
      hide MqttFrames.DecodeFrame;
      VariableIs(|body|);
      BodyIff(FirstByte(p), body, p);
      MqttFrames.FrameOpens(maxPacketSize, FirstByte(p), body, s[n..]);
      JoinCut(s, n);
    }
  }

  lemma FrontOfFrame(s: seq<byte>, width: nat, n: nat)
    requires 1 + width <= n <= |s|
    ensures s[..n] == [s[0]] + (s[1..][..width] + s[1 + width..n])
  {
  }
}
