/** Frames that carry their payload length in the byte stream. */
module LengthField {
  import opened Core
  import opened Numbers
  import opened Framing

  datatype ByteOrder = BigEndian | LittleEndian

  datatype Config = Config(
    maxFrameLength: nat,
    fieldOffset: nat,
    fieldLength: nat,
    lengthAdjustment: int,
    bytesToStrip: nat,
    order: ByteOrder)

  const USIZE_LIMIT: nat := 0x1_0000_0000_0000_0000

  /** The default decoder returns what stands behind the length field. */
  function Default(maxFrameLength: nat, fieldOffset: nat, fieldLength: nat, order: ByteOrder): Config {
    Config(maxFrameLength, fieldOffset, fieldLength, 0, fieldOffset + fieldLength, order)
  }

  predicate Supported(width: nat) { width in {1, 2, 3, 4, 8} }

  predicate Fits(width: nat, v: nat) {
    Supported(width) && v < Pow256(width)
  }

  function Reverse(s: seq<byte>): (r: seq<byte>)
    ensures |r| == |s|
  {
    seq(|s|, i requires 0 <= i < |s| => s[|s| - 1 - i])
  }

  function BigField(width: nat, v: nat): (s: seq<byte>)
    requires Fits(width, v)
    ensures |s| == width
  {
    WidthLimits();
    if width == 1 then [v]
    else if width == 2 then U16(v)
    else if width == 3 then [v / 0x1_0000] + U16(v % 0x1_0000)
    else if width == 4 then U32(v)
    else U64(v)
  }

  function Field(order: ByteOrder, width: nat, v: nat): (s: seq<byte>)
    requires Fits(width, v)
    ensures |s| == width
  {
    if order.BigEndian? then BigField(width, v) else Reverse(BigField(width, v))
  }

  function FieldValue(order: ByteOrder, s: seq<byte>): nat {
    BigValue(if order.BigEndian? then s else Reverse(s))
  }

  lemma WidthLimits()
    ensures Pow256(1) == 0x100 && Pow256(2) == 0x1_0000 && Pow256(3) == 0x100_0000
    ensures Pow256(4) == 0x1_0000_0000 && Pow256(8) == USIZE_LIMIT
  {
    assert Pow256(1) == 0x100;
    assert Pow256(2) == 0x1_0000;
    assert Pow256(3) == 0x100_0000;
    assert Pow256(4) == 0x1_0000_0000;
    assert Pow256(5) == 0x100_0000_0000;
    assert Pow256(6) == 0x1_0000_0000_0000;
    assert Pow256(7) == 0x100_0000_0000_0000;
  }

  /** At every supported width and in both byte orders the field reads back. */
  lemma FieldReads(order: ByteOrder, width: nat, v: nat)
    requires Fits(width, v)
    ensures FieldValue(order, Field(order, width, v)) == v
  {
    BigFieldReads(width, v);
    var s := BigField(width, v);
    assert Reverse(Reverse(s)) == s;
  }

  lemma BigFieldReads(width: nat, v: nat)
    requires Fits(width, v)
    ensures BigValue(BigField(width, v)) == v
  {
    WidthLimits();
    hide U16, U32, U64;
    if width == 1 {
      assert [v][..0] == [];
    } else if width == 2 {
      U16Value(v);
    } else if width == 3 {
      U16Value(v % 0x1_0000);
      BigFieldReads(1, v / 0x1_0000);
      BigValueAppend([v / 0x1_0000], U16(v % 0x1_0000), 0x1_0000);
    } else if width == 4 {
      U32Value(v);
    } else {
      U64Value(v);
    }
  }

  // ----- The decoder and the two encoders -----

  function DecodeFrame(c: Config, s: seq<byte>): Step<seq<byte>> {
    var fieldEnd := c.fieldOffset + c.fieldLength;
    if |s| < fieldEnd then Need
    else if !Supported(c.fieldLength) then Fail(Decode, 0)
    else
      var adjusted := FieldValue(c.order, s[c.fieldOffset..fieldEnd]) + c.lengthAdjustment;
      var end := fieldEnd + adjusted;
      if adjusted < 0 || adjusted >= USIZE_LIMIT || end >= USIZE_LIMIT then Fail(Decode, 0)
      else if end > c.maxFrameLength then Fail(FrameTooLarge, 0)
      else if |s| < end then Need
      else if c.bytesToStrip > end then Fail(Decode, 0)
      else Item(s[c.bytesToStrip..end], end)
  }

  function LengthFieldDecoder(c: Config): Decoder<seq<byte>> {
    s => DecodeFrame(c, s)
  }

  /** The outbound stage: a length field in front of the payload. */
  function Prepend(order: ByteOrder, width: nat, item: seq<byte>): Result<seq<byte>> {
    if Fits(width, |item|) then Ok(Field(order, width, |item|) + item) else Err(Encode)
  }

  /** The decoder's own encoder, which has no way to fill an offset or undo an adjustment. */
  function EncodeFrame(c: Config, item: seq<byte>): Result<seq<byte>> {
    if c.fieldOffset != 0 || c.lengthAdjustment != 0 then Err(Encode) else Prepend(c.order, c.fieldLength, item)
  }

  /** A complete frame under any offset, adjustment and strip count comes out as its slice from the strip count on. */
  lemma AdjustedFrameRecovers(c: Config, lead: seq<byte>, v: nat, rest: seq<byte>)
    requires |lead| == c.fieldOffset && Fits(c.fieldLength, v)
    requires v + c.lengthAdjustment == |rest|
    requires var frame := lead + (Field(c.order, c.fieldLength, v) + rest);
             |frame| <= c.maxFrameLength && |frame| < USIZE_LIMIT && c.bytesToStrip <= |frame|
    ensures var frame := lead + (Field(c.order, c.fieldLength, v) + rest);
            Recovers(LengthFieldDecoder(c), frame, frame[c.bytesToStrip..])
  {
    hide Field, FieldValue, Supported;
    var field := Field(c.order, c.fieldLength, v);
    var frame := lead + (field + rest);
    FieldReads(c.order, c.fieldLength, v);
    forall t: seq<byte>
      ensures LengthFieldDecoder(c)(frame + t) == Item(frame[c.bytesToStrip..], |frame|)
    {
      var s := frame + t;
      Assoc(lead, field + rest, t);
      Assoc(field, rest, t);
      MiddleSlice(lead, field, rest + t);
      assert s[c.bytesToStrip..|frame|] == frame[c.bytesToStrip..];
    }
  }

  /** With the default strip, what the codec or the prepender writes decodes to the payload, exactly when the whole
      frame is within the limit. */
  lemma EncodedFrameRecovers(c: Config, item: seq<byte>)
    requires c == Default(c.maxFrameLength, 0, c.fieldLength, c.order)
    requires Prepend(c.order, c.fieldLength, item).Ok? && |item| <= 0x7FFF_FFFF_FFFF_FFFF
    ensures EncodeFrame(c, item) == Prepend(c.order, c.fieldLength, item)
    ensures var b := Prepend(c.order, c.fieldLength, item).value;
            Recovers(LengthFieldDecoder(c), b, item) <==> |b| <= c.maxFrameLength
  {
    hide Field, FieldValue;
    var field := Field(c.order, c.fieldLength, |item|);
    var b := field + item;
    assert [] + b == b;
    CutJoined(field, item);
    if |b| <= c.maxFrameLength {
      AdjustedFrameRecovers(c, [], |item|, item);
    } else {
      FieldReads(c.order, c.fieldLength, |item|);
      assert (b + [])[0..|field|] == field;
      assert LengthFieldDecoder(c)(b + []) == Fail(FrameTooLarge, 0);
    }
  }

  /** Any list of payloads within the limits decodes back in order. */
  lemma PayloadsDecodeInOrder(c: Config, items: seq<seq<byte>>, frames: seq<seq<byte>>, t: seq<byte>)
    requires c == Default(c.maxFrameLength, 0, c.fieldLength, c.order) && |frames| == |items|
    requires forall i | 0 <= i < |items| ::
               && Prepend(c.order, c.fieldLength, items[i]) == Ok(frames[i])
               && |frames[i]| <= c.maxFrameLength && |items[i]| <= 0x7FFF_FFFF_FFFF_FFFF
    ensures Progress(LengthFieldDecoder(c))
    ensures var r := DecodeAll(LengthFieldDecoder(c), t);
            DecodeAll(LengthFieldDecoder(c), Concat(frames) + t) == r.(items := items + r.items)
  {
    hide DecodeFrame, Prepend;
    LengthFieldIsStable(c);
    forall i | 0 <= i < |items|
      ensures Recovers(LengthFieldDecoder(c), frames[i], items[i])
    {
      EncodedFrameRecovers(c, items[i]);
    }
    FramesDecodeInOrder(LengthFieldDecoder(c), frames, items, t);
  }

  /** Under any offset, adjustment and strip count, decoding terminates and does not depend on how the stream is
      split. */
  lemma LengthFieldIsStable(c: Config)
    ensures Progress(LengthFieldDecoder(c)) && Stable(LengthFieldDecoder(c))
  {
    hide FieldValue;
    var d := LengthFieldDecoder(c);
    forall s: seq<byte>
      ensures ProgressAt(d, s)
    {
    }
    forall s: seq<byte>, t: seq<byte>
      ensures StableAt(d, s, t)
    {
      var fieldEnd := c.fieldOffset + c.fieldLength;
      if |s| >= fieldEnd {
        assert (s + t)[c.fieldOffset..fieldEnd] == s[c.fieldOffset..fieldEnd];
        match d(s)
        case Item(x, n) => assert (s + t)[c.bytesToStrip..n] == s[c.bytesToStrip..n];
        case _ =>
      }
    }
  }

  // ----- Field bytes -----

  /** The byte of weight 256 to the power `k`. */
  function ByteOf(n: nat, k: nat): byte { if k == 0 then n % 256 else ByteOf(n / 256, k - 1) }

  lemma {:induction false} BytesOfValue(s: seq<byte>, k: nat)
    requires k < |s|
    ensures s[|s| - 1 - k] == ByteOf(BigValue(s), k)
  {
    var n := |s| - 1;
    assert BigValue(s) / 256 == BigValue(s[..n]) && BigValue(s) % 256 == s[n];
    if k > 0 {
      BytesOfValue(s[..n], k - 1);
    }
  }

  /** Every byte of a field in either order: big-endian fields end, little-endian ones begin with the lowest byte. */
  lemma FieldBytes(order: ByteOrder, width: nat, v: nat, k: nat)
    requires Fits(width, v) && k < width
    ensures Field(order, width, v)[if order.LittleEndian? then k else width - 1 - k] == ByteOf(v, k)
  {
    BigFieldReads(width, v);
    BytesOfValue(BigField(width, v), k);
    hide BigField, BigValue;
  }

  // ----- Verdicts -----

  /** Everything a decoder says of a buffer that begins with some bytes, a length field, and what has arrived behind
      it: a length that is not positive enough or overflows is a decode error, then a frame beyond the limit is
      refused, both before the frame is complete; a complete one must be as long as what is stripped off it. */
  lemma FieldDecides(c: Config, lead: seq<byte>, v: nat, rest: seq<byte>)
    requires |lead| == c.fieldOffset && Fits(c.fieldLength, v)
    ensures var s := lead + (Field(c.order, c.fieldLength, v) + rest);
            var body, front := v + c.lengthAdjustment, |lead| + c.fieldLength;
            DecodeFrame(c, s) ==
            if body < 0 || body >= 0x1_0000_0000_0000_0000 || front + body >= 0x1_0000_0000_0000_0000
            then Fail(Decode, 0)
            else if front + body > c.maxFrameLength then Fail(FrameTooLarge, 0)
            else if |rest| < body then Need
            else if c.bytesToStrip > front + body then Fail(Decode, 0)
            else Item(s[c.bytesToStrip..front + body], front + body)
  {
    hide Field, FieldValue, Supported;
    var field := Field(c.order, c.fieldLength, v);
    FieldReads(c.order, c.fieldLength, v);
    MiddleSlice(lead, field, rest);
  }

  /** Fields of other widths than 1, 2, 3, 4 and 8 bytes are never read, and shorter buffers wait. */
  lemma OddWidthsAreRefused(c: Config, s: seq<byte>)
    ensures |s| < c.fieldOffset + c.fieldLength ==> DecodeFrame(c, s) == Need
    ensures |s| >= c.fieldOffset + c.fieldLength && c.fieldLength !in {1, 2, 3, 4, 8} ==>
              DecodeFrame(c, s) == Fail(Decode, 0)
  {
    hide FieldValue;
  }

  /** Whatever the configuration, what its own encoder writes is the field and the payload, and decodes to what the
      strip count leaves of that, exactly when it is within the limit and long enough to be stripped. */
  lemma EncodedItemRecoversIff(c: Config, item: seq<byte>)
    requires EncodeFrame(c, item).Ok? && |item| <= 0x7FFF_FFFF_FFFF_FFFF
    ensures var b := EncodeFrame(c, item).value;
            && b == Field(c.order, c.fieldLength, |item|) + item
            && ((exists x :: Recovers(LengthFieldDecoder(c), b, x)) <==>
                |b| <= c.maxFrameLength && c.bytesToStrip <= |b|)
            && (|b| <= c.maxFrameLength && c.bytesToStrip <= |b| ==>
                Recovers(LengthFieldDecoder(c), b, b[c.bytesToStrip..]))
  {
    hide Field, FieldValue, DecodeFrame;
    var field := Field(c.order, c.fieldLength, |item|);
    var b := field + item;
    CutJoined([], b);
    if |b| <= c.maxFrameLength && c.bytesToStrip <= |b| {
      AdjustedFrameRecovers(c, [], |item|, item);
    }
    FieldDecides(c, [], |item|, item);
    CutJoined(b, []);
    if x :| Recovers(LengthFieldDecoder(c), b, x) {
      assert LengthFieldDecoder(c)(b + []) == Item(x, |b|);
      assert b + [] == b;
    }
  }

  /** The encoder refuses exactly offsets, adjustments, odd widths and payloads that the field cannot count. */
  lemma EncodableIff(c: Config, item: seq<byte>)
    ensures EncodeFrame(c, item).Ok? <==>
            && c.fieldOffset == 0 && c.lengthAdjustment == 0
            && match c.fieldLength
               case 1 => |item| <= 0xff
               case 2 => |item| <= 0xffff
               case 3 => |item| <= 0xff_ffff
               case 4 => |item| <= 0xffff_ffff
               case 8 => |item| <= 0xffff_ffff_ffff_ffff
               case _ => false
    ensures EncodeFrame(c, item).Err? ==> EncodeFrame(c, item).error == Encode
  {
    hide Field;
    WidthLimits();
  }

  // ----- Methods -----

  lemma ThreeBytes(len: nat)
    requires len < 0x100_0000
    ensures len / 0x1_0000 < 0x100 && Fits(3, len)
    ensures BigField(3, len) == [len / 0x1_0000, len / 0x100 % 0x100, len % 0x100]
    ensures Reverse(BigField(3, len)) == [len % 0x100, len / 0x100 % 0x100, len / 0x1_0000]
  {
    WidthLimits();
    assert len % 0x1_0000 / 0x100 == len / 0x100 % 0x100 && len % 0x1_0000 % 0x100 == len % 0x100;
    ReverseOfThree(len / 0x1_0000, len / 0x100 % 0x100, len % 0x100);
  }

  lemma ReverseOfThree(a: byte, b: byte, c: byte)
    ensures Reverse([a, b, c]) == [c, b, a]
  {
  }

  method WriteLength(len: nat, width: nat, order: ByteOrder, dst: BytesMut) returns (r: Result<()>)
    modifies dst
    ensures r == if Fits(width, len) then Ok(()) else Err(Encode)
    ensures dst.data == old(dst.data) + (if Fits(width, len) then Field(order, width, len) else [])
  {
    WidthLimits();
    if !Supported(width) || len >= Pow256(width) {
      return Err(Encode);
    }
    if width == 3 {
      // The 24-bit field is put a byte at a time.
      var high, middle, low: byte := len / 0x1_0000, len / 0x100 % 0x100, len % 0x100;
      ThreeBytes(len);
      hide BigField, Reverse, Pow256;
      ghost var bytes := [high, middle, low];
      ghost var start := dst.data;
      if order.BigEndian? {
        dst.Extend([high]);
        dst.Extend([middle]);
        dst.Extend([low]);
        assert dst.data == start + bytes;
      } else {
        dst.Extend([low]);
        dst.Extend([middle]);
        dst.Extend([high]);
        assert dst.data == start + Reverse(bytes);
      }
    } else {
      dst.Extend(Field(order, width, len));
    }
    return Ok(());
  }

  class LengthFieldBasedFrameDecoder {
    const config: Config

    constructor (config: Config)
      ensures this.config == config
    {
      this.config := config;
    }

    method Decode(src: BytesMut) returns (r: Result<Option<seq<byte>>>)
      modifies src
      ensures Performs(DecodeFrame(config, old(src.data)), old(src.data), r, src.data)
    {
      hide FieldValue;
      var fieldEnd := config.fieldOffset + config.fieldLength;
      if |src.data| < fieldEnd {
        return Ok(None);
      }
      if !Supported(config.fieldLength) {
        return Err(ErrorKind.Decode);
      }
      var len := FieldValue(config.order, src.data[config.fieldOffset..fieldEnd]);
      var adjusted := len + config.lengthAdjustment;
      if adjusted < 0 || adjusted >= USIZE_LIMIT {
        return Err(ErrorKind.Decode);
      }
      var end := fieldEnd + adjusted;
      if end >= USIZE_LIMIT {
        return Err(ErrorKind.Decode);
      }
      if end > config.maxFrameLength {
        return Err(FrameTooLarge);
      }
      if |src.data| < end {
        return Ok(None);
      }
      if config.bytesToStrip > end {
        return Err(ErrorKind.Decode);
      }
      var frame := src.SplitTo(end);
      assert frame[config.bytesToStrip..] == old(src.data)[config.bytesToStrip..end];
      return Ok(Some(frame[config.bytesToStrip..]));
    }

    method Encode(item: seq<byte>, dst: BytesMut) returns (r: Result<()>)
      modifies dst
      ensures Appends(EncodeFrame(config, item), old(dst.data), r, dst.data)
    {
      hide Field, Fits;
      if config.fieldOffset != 0 || config.lengthAdjustment != 0 {
        return Err(ErrorKind.Encode);
      }
      r := PrependLength(config.order, config.fieldLength, item, dst);
    }
  }

  method PrependLength(order: ByteOrder, width: nat, item: seq<byte>, dst: BytesMut) returns (r: Result<()>)
    modifies dst
    ensures Appends(Prepend(order, width, item), old(dst.data), r, dst.data)
  {
    hide Field, Fits;
    var _ :- WriteLength(|item|, width, order, dst);
    dst.Extend(item);
    Assoc(old(dst.data), Field(order, width, |item|), item);
    return Ok(());
  }

  /** The outbound stage. */
  class LengthFieldPrepender {
    const order: ByteOrder
    const fieldLength: nat

    constructor (order: ByteOrder, fieldLength: nat)
      ensures this.order == order && this.fieldLength == fieldLength
    {
      this.order := order;
      this.fieldLength := fieldLength;
    }

    method Encode(item: seq<byte>, dst: BytesMut) returns (r: Result<()>)
      modifies dst
      ensures Appends(Prepend(order, fieldLength, item), old(dst.data), r, dst.data)
    {
      r := PrependLength(order, fieldLength, item, dst);
    }
  }
}
