/** The cursor the MQTT decoder advances over a packet, and the appending writers of the encoder. */
module MqttReader {
  import opened Core
  import opened Numbers
  import opened Utf8
  import opened MqttTypes
  import opened Framing
  import W = MqttWire
  import VarInt

  /** A read returned what `spec` says and left the cursor in front of what `spec` leaves. */
  ghost predicate Consumes<T>(spec: W.Parsed<T>, r: Result<T>, rest: seq<byte>) {
    match spec
    case Ok(x) => r == Ok(x.0) && rest == x.1
    case Err(e) => r == Err(e)
  }

  /** What is still to come, put behind what was already collected. */
  function Prepend<T>(xs: seq<T>, r: Result<seq<T>>): Result<seq<T>> {
    match r
    case Ok(ys) => Ok(xs + ys)
    case Err(e) => Err(e)
  }

  lemma PrependNothing<T>(r: Result<seq<T>>)
    ensures Prepend([], r) == r
  {
    if r.Ok? {
      assert [] + r.value == r.value;
    }
  }

  class Reader {
    const src: seq<byte>
    var pos: nat

    ghost predicate Valid()
      reads this
    {
      pos <= |src|
    }

    ghost function Rest(): seq<byte>
      reads this
      requires Valid()
    {
      src[pos..]
    }

    constructor (src: seq<byte>)
      ensures Valid() && Rest() == src && this.src == src && pos == 0
    {
      this.src := src;
      pos := 0;
    }

    method Remaining() returns (n: nat)
      requires Valid()
      ensures n == |Rest()|
    {
      n := |src| - pos;
    }

    method ReadExact(len: nat) returns (r: Result<seq<byte>>)
      requires Valid()
      modifies this
      ensures Valid() && Consumes(W.ReadExact(old(Rest()), len), r, Rest())
    {
      var n := Remaining();
      if n < len {
        return Err(Decode);
      }
      var start := pos;
      pos := pos + len;
      assert src[start..pos] == old(Rest())[..len];
      return Ok(src[start..pos]);
    }

    method ReadU8() returns (r: Result<byte>)
      requires Valid()
      modifies this
      ensures Valid() && Consumes(W.ReadU8(old(Rest())), r, Rest())
    {
      var b :- ReadExact(1);
      return Ok(b[0]);
    }

    method ReadU16() returns (r: Result<u16>)
      requires Valid()
      modifies this
      ensures Valid() && Consumes(W.ReadU16(old(Rest())), r, Rest())
    {
      var b :- ReadExact(2);
      return Ok(Join(b[0], b[1]));
    }

    method ReadU32() returns (r: Result<u32>)
      requires Valid()
      modifies this
      ensures Valid() && Consumes(W.ReadU32(old(Rest())), r, Rest())
    {
      var b :- ReadExact(4);
      U32Spells(b);
      return Ok(BigValue(b));
    }

    method ReadData() returns (r: Result<seq<byte>>)
      requires Valid()
      modifies this
      ensures Valid() && Consumes(W.ReadData(old(Rest())), r, Rest())
    {
      var len :- ReadU16();
      r := ReadExact(len);
    }

    method ReadText() returns (r: Result<Text>)
      requires Valid()
      modifies this
      ensures Valid() && Consumes(W.ReadText(old(Rest())), r, Rest())
    {
      hide W.ReadData, Utf8.Valid;
      var b :- ReadData();
      return if Utf8.Valid(b) then Ok(b) else Err(Decode);
    }

    /** The four-byte loop; its accumulators stay within `u32`. */
    method ReadVariableInteger() returns (r: Result<u32>)
      requires Valid()
      modifies this
      ensures Valid() && Consumes(VarInt.Read(old(Rest())), r, Rest())
    {
      hide VarInt.Value, VarInt.Pow128, VarInt.Encode;
      ghost var s := Rest();
      ghost var start := pos;
      VarInt.NothingRead(s);
      var multiplier: u32 := 1;
      var value: u32 := 0;
      for taken := 0 to 4
        invariant Valid() && pos == start + taken
        invariant taken <= VarInt.Continued(s)
        invariant multiplier == VarInt.Pow128(taken) && value == VarInt.Value(s[..taken])
      {
        var encoded :- ReadU8();
        assert encoded == s[taken];
        VarInt.Accumulates(s, taken);
        value := value + encoded % 128 * multiplier;
        if encoded < 128 {
          var width := VarInt.Width(value);
          return if width != taken + 1 then Err(Decode) else Ok(value);
        }
        multiplier := multiplier * 128;
      }
      return Err(Decode);
    }

    method ReadPayload(shape: Shape) returns (r: Result<Payload>)
      requires Valid()
      modifies this
      ensures Valid() && Consumes(W.ReadPayload(shape, old(Rest())), r, Rest())
      ensures r.Ok? ==> r.value.Shape() == shape
    {
      hide W.ReadU8, W.ReadU16, W.ReadU32, W.ReadText, W.ReadData, VarInt.Read;
      match shape
      case OneByte => var b :- ReadU8(); return Ok(Byte(b));
      case TwoBytes => var h :- ReadU16(); return Ok(Half(h));
      case FourBytes => var w :- ReadU32(); return Ok(Word(w));
      case VarBytes => var w :- ReadVariableInteger(); return Ok(Var(w));
      case TextBytes => var t :- ReadText(); return Ok(Str(t));
      case DataBytes => var d :- ReadData(); return Ok(Data(d));
      case TextPair => var k :- ReadText(); var v :- ReadText(); return Ok(Pair(k, v));
    }

    method ReadProperty() returns (r: Result<MqttProperty>)
      requires Valid()
      modifies this
      ensures Valid() && Consumes(W.ReadProperty(old(Rest())), r, Rest())
    {
      hide W.ReadPayload, VarInt.Read, ShapeOfId, Make;
      var n :- ReadVariableInteger();
      var id: byte := n % 256;
      match ShapeOfId(id)
      case None => return Err(Decode);
      case Some(shape) =>
        var v :- ReadPayload(shape);
        return Ok(Make(id, v));
    }

    /** Properties are read by a second reader that cannot see past their announced length. */
    method ReadProperties() returns (r: Result<seq<MqttProperty>>)
      requires Valid()
      modifies this
      ensures Valid() && Consumes(W.ReadProperties(old(Rest())), r, Rest())
    {
      hide W.ReadProperty, VarInt.Read;
      var len :- ReadVariableInteger();
      var end := pos + len;
      if end > |src| {
        return Err(Decode);
      }
      var inner := new Reader(src[pos..end]);
      ghost var all := inner.Rest();
      assert all == Rest()[..len];
      var properties: seq<MqttProperty> := [];
      assert W.ReadPropertyList(all).Err? ==> W.ReadProperties(old(Rest())) == Err(W.ReadPropertyList(all).error);
      PrependNothing(W.ReadPropertyList(all));
      var more := inner.Remaining();
      while more > 0
        invariant Valid() && inner.Valid() && more == |inner.Rest()|
        invariant W.ReadPropertyList(all) == Prepend(properties, W.ReadPropertyList(inner.Rest()))
        decreases more
      {
        ghost var before := inner.Rest();
        var next := inner.ReadProperty();
        assert next.Err? ==> W.ReadPropertyList(all) == Err(next.error);
        var p :- next;
        W.ReadPropertyWrites(before);
        ghost var ahead := W.ReadPropertyList(inner.Rest());
        if ahead.Ok? {
          Assoc(properties, [p], ahead.value);
        }
        properties := properties + [p];
        more := inner.Remaining();
      }
      assert properties + [] == properties;
      pos := end;
      return Ok(properties);
    }

    method ReadRemaining() returns (b: seq<byte>)
      requires Valid()
      modifies this
      ensures Valid() && b == old(Rest()) && Rest() == []
    {
      b := src[pos..];
      pos := |src|;
    }
  }

  method WriteBlob(value: seq<byte>, dst: BytesMut) returns (r: Result<()>)
    modifies dst
    ensures Appends(W.WriteBlob(value), old(dst.data), r, dst.data)
  {
    if |value| >= 0x1_0000 {
      return Err(Encode);
    }
    dst.Extend(U16(|value|));
    dst.Extend(value);
    Assoc(old(dst.data), U16(|value|), value);
    return Ok(());
  }

  method WriteProperty(p: MqttProperty, dst: BytesMut) returns (r: Result<()>)
    modifies dst
    ensures Appends(W.WriteProperty(p), old(dst.data), r, dst.data)
  {
    hide W.WriteBlob, VarInt.Encode, U16, U32, Id, PayloadOf, ShapeOfId;
    IdentifiersAgree(p);
    ghost var start := dst.data;
    r := VarInt.Write(Id(p), dst);
    ghost var id := VarInt.Encode(Id(p));
    match PayloadOf(p)
    case Byte(b) => dst.Extend([b]); Assoc(start, id, [b]); return Ok(());
    case Half(h) => dst.Extend(U16(h)); Assoc(start, id, U16(h)); return Ok(());
    case Word(w) => dst.Extend(U32(w)); Assoc(start, id, U32(w)); return Ok(());
    case Var(w) =>
      r := VarInt.Write(w, dst);
      Assoc(start, id, VarInt.Encode(w));
    case Str(t) =>
      r := WriteBlob(t, dst);
      if r.Ok? { Assoc(start, id, W.WriteBlob(t).value); }
    case Data(d) =>
      r := WriteBlob(d, dst);
      if r.Ok? { Assoc(start, id, W.WriteBlob(d).value); }
    case Pair(k, v) =>
      r := WritePair(k, v, dst);
      if r.Ok? { Assoc(start, id, W.WritePayload(Pair(k, v)).value); }
  }

  method WritePair(k: Text, v: Text, dst: BytesMut) returns (r: Result<()>)
    modifies dst
    ensures Appends(W.WritePayload(Pair(k, v)), old(dst.data), r, dst.data)
  {
    hide W.WriteBlob;
    var _ :- WriteBlob(k, dst);
    r := WriteBlob(v, dst);
    if r.Ok? {
      Assoc(old(dst.data), W.WriteBlob(k).value, W.WriteBlob(v).value);
    }
  }

  method WriteProperties(properties: seq<MqttProperty>, dst: BytesMut) returns (r: Result<()>)
    modifies dst
    ensures Appends(W.WriteProperties(properties), old(dst.data), r, dst.data)
  {
    hide W.WriteProperty, VarInt.Encode;
    var list := new BytesMut();
    PrependNothing(W.WritePropertyList(properties));
    assert properties[0..] == properties;
    for i := 0 to |properties|
      invariant fresh(list) && dst.data == old(dst.data)
      invariant W.WritePropertyList(properties) == Prepend(list.data, W.WritePropertyList(properties[i..]))
    {
      assert properties[i..][0] == properties[i] && properties[i..][1..] == properties[i + 1..];
      ghost var before := list.data;
      var _ :- WriteProperty(properties[i], list);
      ghost var ahead := W.WritePropertyList(properties[i + 1..]);
      if ahead.Ok? {
        Assoc(before, W.WriteProperty(properties[i]).value, ahead.value);
      }
    }
    assert properties[|properties|..] == [] && list.data + [] == list.data;
    var len: u32 := |list.data| % 0x1_0000_0000;
    var _ :- VarInt.Write(len, dst);
    dst.Extend(list.data);
    Assoc(old(dst.data), VarInt.Encode(len), list.data);
    return Ok(());
  }
}
