/** The MQTT data representations of section 1.5 and the property lists of section 2.2.2, as functions on bytes. */
module MqttWire {
  import opened Core
  import opened Numbers
  import opened Utf8
  import opened MqttTypes
  import VarInt

  /** A value read off the front of some bytes, and the bytes behind it. */
  type Parsed<+T> = Result<(T, seq<byte>)>

  function ReadExact(s: seq<byte>, n: nat): Parsed<seq<byte>> {
    if |s| < n then Err(Decode) else Ok((s[..n], s[n..]))
  }

  function ReadU8(s: seq<byte>): Parsed<byte> {
    if |s| < 1 then Err(Decode) else Ok((s[0], s[1..]))
  }

  function ReadU16(s: seq<byte>): Parsed<u16> {
    if |s| < 2 then Err(Decode) else Ok((Join(s[0], s[1]), s[2..]))
  }

  function ReadU32(s: seq<byte>): Parsed<u32> {
    if |s| < 4 then Err(Decode)
    else
      U32Spells(s[..4]);
      Ok((BigValue(s[..4]), s[4..]))
  }

  function ReadData(s: seq<byte>): Parsed<seq<byte>> {
    var (n, t) :- ReadU16(s);
    ReadExact(t, n)
  }

  function ReadText(s: seq<byte>): Parsed<Text> {
    var (b, t) :- ReadData(s);
    if Valid(b) then Ok((b, t)) else Err(Decode)
  }

  /** A string or binary field: two length bytes and the contents. */
  function WriteBlob(b: seq<byte>): Result<seq<byte>> {
    if |b| >= 0x1_0000 then Err(Encode) else Ok(U16(|b|) + b)
  }

  /** `s` is an accepted spelling of `v` followed by `t`. */
  predicate Spells(w: Result<seq<byte>>, s: seq<byte>, t: seq<byte>) {
    w.Ok? && s == w.value + t
  }

  lemma ReadU8Iff(s: seq<byte>, v: byte, t: seq<byte>)
    ensures ReadU8(s) == Ok((v, t)) <==> s == [v] + t
  {
    if |s| >= 1 {
      assert s == [s[0]] + s[1..];
    }
  }

  lemma ReadU16Iff(s: seq<byte>, v: u16, t: seq<byte>)
    ensures ReadU16(s) == Ok((v, t)) <==> s == U16(v) + t
  {
    if |s| >= 2 {
      assert s == [s[0], s[1]] + s[2..];
    }
  }

  lemma ReadU32Iff(s: seq<byte>, v: u32, t: seq<byte>)
    ensures ReadU32(s) == Ok((v, t)) <==> s == U32(v) + t
  {
    hide U32, BigValue;
    U32Value(v);
    CutJoined(U32(v), t);
    if |s| >= 4 {
      U32Spells(s[..4]);
      JoinCut(s, 4);
    }
  }

  lemma ReadDataIff(s: seq<byte>, b: seq<byte>, t: seq<byte>)
    ensures ReadData(s) == Ok((b, t)) <==> Spells(WriteBlob(b), s, t)
  {
    if ReadU16(s).Ok? {
      var (n, u) := ReadU16(s).value;
      ReadU16Iff(s, n, u);
      if |u| >= n {
        JoinCut(u, n);
        Assoc(U16(n), u[..n], u[n..]);
      }
    }
    if |b| < 0x1_0000 {
      Assoc(U16(|b|), b, t);
      ReadU16Iff(s, |b|, b + t);
      CutJoined(b, t);
    }
  }

  lemma ReadTextIff(s: seq<byte>, b: Text, t: seq<byte>)
    ensures ReadText(s) == Ok((b, t)) <==> Spells(WriteBlob(b), s, t)
  {
    hide ReadU16, WriteBlob;
    ReadDataIff(s, b, t);
  }

  function ReadPayload(shape: Shape, s: seq<byte>): (r: Parsed<Payload>)
    ensures r.Ok? ==> r.value.0.Shape() == shape
  {
    match shape
    case OneByte => var (b, t) :- ReadU8(s); Ok((Byte(b), t))
    case TwoBytes => var (h, t) :- ReadU16(s); Ok((Half(h), t))
    case FourBytes => var (w, t) :- ReadU32(s); Ok((Word(w), t))
    case VarBytes => var (w, t) :- VarInt.Read(s); Ok((Var(w), t))
    case TextBytes => var (x, t) :- ReadText(s); Ok((Str(x), t))
    case DataBytes => var (d, t) :- ReadData(s); Ok((Data(d), t))
    case TextPair =>
      var (k, t) :- ReadText(s);
      var (v, u) :- ReadText(t);
      Ok((Pair(k, v), u))
  }

  function WritePayload(p: Payload): Result<seq<byte>> {
    match p
    case Byte(b) => Ok([b])
    case Half(h) => Ok(U16(h))
    case Word(w) => Ok(U32(w))
    case Var(w) => if w > VarInt.MAX then Err(Encode) else Ok(VarInt.Encode(w))
    case Str(t) => WriteBlob(t)
    case Data(d) => WriteBlob(d)
    case Pair(k, v) =>
      var a :- WriteBlob(k);
      var b :- WriteBlob(v);
      Ok(a + b)
  }

  /** Every property value has one spelling, and reading inverts writing. */
  lemma ReadPayloadIff(s: seq<byte>, p: Payload, t: seq<byte>)
    ensures ReadPayload(p.Shape(), s) == Ok((p, t)) <==> Spells(WritePayload(p), s, t)
  {
    match p
    case Byte(b) => ReadU8Iff(s, b, t);
    case Half(h) => ReadU16Iff(s, h, t);
    case Word(w) => ReadU32Iff(s, w, t);
    case Var(w) => VarInt.ReadIffEncoded(s, w, t);
    case Str(x) => ReadTextIff(s, x, t);
    case Data(d) => ReadDataIff(s, d, t);
    case Pair(k, v) => ReadPairIff(s, k, v, t);
  }

  lemma ReadPairIff(s: seq<byte>, k: Text, v: Text, t: seq<byte>)
    ensures ReadPayload(TextPair, s) == Ok((Pair(k, v), t)) <==> Spells(WritePayload(Pair(k, v)), s, t)
  {
    hide ReadText, WriteBlob;
    var wk, wv := WriteBlob(k), WriteBlob(v);
    if wk.Ok? && wv.Ok? {
      Assoc(wk.value, wv.value, t);
      ReadTextIff(s, k, wv.value + t);
      ReadTextIff(wv.value + t, v, t);
    }
    if ReadPayload(TextPair, s) == Ok((Pair(k, v), t)) {
      var (k', u) := ReadText(s).value;
      assert ReadText(u).value.0 == v && ReadText(u).value.1 == t;
      ReadTextIff(s, k, u);
      ReadTextIff(u, v, t);
    }
  }

  /** The identifier is read as a variable byte integer and then truncated to a byte. */
  function ReadProperty(s: seq<byte>): Parsed<MqttProperty> {
    var (n, t) :- VarInt.Read(s);
    var id: byte := n % 256;
    match ShapeOfId(id)
    case None => Err(Decode)
    case Some(shape) =>
      var (v, u) :- ReadPayload(shape, t);
      Ok((Make(id, v), u))
  }

  function WriteProperty(p: MqttProperty): Result<seq<byte>> {
    var v :- WritePayload(PayloadOf(p));
    Ok(VarInt.Encode(Id(p)) + v)
  }

  lemma WrittenPropertyReads(p: MqttProperty, s: seq<byte>, t: seq<byte>)
    requires Spells(WriteProperty(p), s, t)
    ensures ReadProperty(s) == Ok((p, t))
  {
    hide ReadPayload, WritePayload, VarInt.Read, VarInt.Encode, ShapeOfId, PayloadOf, Make;
    IdentifiersAgree(p);
    var v := WritePayload(PayloadOf(p)).value;
    Assoc(VarInt.Encode(Id(p)), v, t);
    VarInt.ReadIffEncoded(s, Id(p), v + t);
    ReadPayloadIff(v + t, PayloadOf(p), t);
  }

  /** A property that was read can be written in no more bytes than it took. */
  lemma ReadPropertyWrites(s: seq<byte>)
    requires ReadProperty(s).Ok?
    ensures var (p, t) := ReadProperty(s).value;
            WriteProperty(p).Ok? && 0 < |WriteProperty(p).value| && |WriteProperty(p).value| + |t| <= |s|
  {
    hide ReadPayload, WritePayload, VarInt.Read, VarInt.Encode, ShapeOfId, PayloadOf, Make, Id;
    var (n, t) := VarInt.Read(s).value;
    var id: byte := n % 256;
    var (v, u) := ReadPayload(ShapeOfId(id).value, t).value;
    VarInt.ReadIffEncoded(s, n, t);
    VarInt.EncodeMonotone(id, n);
    ReadPayloadIff(t, v, u);
    MakeKeepsIdAndValue(id, v);
  }

  function ReadPropertyList(s: seq<byte>): Result<seq<MqttProperty>>
    decreases |s|
  {
    if s == [] then Ok([])
    else
      var (p, t) :- ReadProperty(s);
      ReadPropertyWrites(s);
      var ps :- ReadPropertyList(t);
      Ok([p] + ps)
  }

  function WritePropertyList(ps: seq<MqttProperty>): Result<seq<byte>> {
    if ps == [] then Ok([])
    else
      var p :- WriteProperty(ps[0]);
      var rest :- WritePropertyList(ps[1..]);
      Ok(p + rest)
  }

  lemma {:induction false} WrittenListReads(ps: seq<MqttProperty>)
    requires WritePropertyList(ps).Ok?
    ensures ReadPropertyList(WritePropertyList(ps).value) == Ok(ps)
  {
    if ps != [] {
      var rest := WritePropertyList(ps[1..]).value;
      var s := WriteProperty(ps[0]).value + rest;
      WrittenPropertyReads(ps[0], s, rest);
      ReadPropertyWrites(s);
      WrittenListReads(ps[1..]);
      assert ps == [ps[0]] + ps[1..];
    }
  }

  lemma {:induction false} ReadListWrites(s: seq<byte>)
    requires ReadPropertyList(s).Ok?
    ensures var w := WritePropertyList(ReadPropertyList(s).value);
            w.Ok? && |w.value| <= |s|
    decreases |s|
  {
    if s != [] {
      var (p, t) := ReadProperty(s).value;
      ReadPropertyWrites(s);
      ReadListWrites(t);
      var ps := ReadPropertyList(t).value;
      assert ([p] + ps)[1..] == ps;
    }
  }

  /** The list length is written as a 32-bit integer, so a longer list is truncated. */
  function WriteProperties(ps: seq<MqttProperty>): Result<seq<byte>> {
    var list :- WritePropertyList(ps);
    var n := |list| % 0x1_0000_0000;
    if n > VarInt.MAX then Err(Encode) else Ok(VarInt.Encode(n) + list)
  }

  /** A nested reader sees exactly the announced number of bytes. */
  function ReadProperties(s: seq<byte>): Parsed<seq<MqttProperty>> {
    var (n, t) :- VarInt.Read(s);
    if |t| < n then Err(Decode)
    else
      var ps :- ReadPropertyList(t[..n]);
      Ok((ps, t[n..]))
  }

  lemma WrittenPropertiesRead(ps: seq<MqttProperty>, s: seq<byte>, t: seq<byte>)
    requires Spells(WriteProperties(ps), s, t)
    requires |WriteProperties(ps).value| <= VarInt.MAX
    ensures ReadProperties(s) == Ok((ps, t))
  {
    hide VarInt.Read, VarInt.Encode, ReadPropertyList, WritePropertyList;
    var list := WritePropertyList(ps).value;
    Assoc(VarInt.Encode(|list|), list, t);
    VarInt.ReadIffEncoded(s, |list|, list + t);
    CutJoined(list, t);
    WrittenListReads(ps);
  }

  lemma ReadPropertiesWrite(s: seq<byte>)
    requires ReadProperties(s).Ok?
    ensures var (ps, t) := ReadProperties(s).value;
            var w := WriteProperties(ps);
            w.Ok? && |w.value| + |t| <= |s|
  {
    hide VarInt.Read, VarInt.Encode, ReadPropertyList, WritePropertyList;
    var (n, t) := VarInt.Read(s).value;
    VarInt.ReadIffEncoded(s, n, t);
    ReadListWrites(t[..n]);
    var list := WritePropertyList(ReadPropertyList(t[..n]).value).value;
    VarInt.EncodeMonotone(|list|, n);
  }
}
