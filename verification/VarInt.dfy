/** Variable byte integers, section 1.5.5 of MQTT 5.0. */
module VarInt {
  import opened Core

  const MAX: nat := 268_435_455

  /** Seven bits a byte, least significant group first; the high bit marks that another byte follows. */
  function Encode(n: nat): (bytes: seq<byte>)
    ensures |bytes| >= 1
    decreases n
  {
    if n < 128 then [n] else [n % 128 + 128] + Encode(n / 128)
  }

  /** The number whose seven-bit groups are the low halves of `bytes`. */
  function Value(bytes: seq<byte>): nat {
    if bytes == [] then 0 else bytes[0] % 128 + 128 * Value(bytes[1..])
  }

  /** How many bytes at the front of `s` announce a successor. */
  function Continued(s: seq<byte>): (k: nat)
    ensures k <= |s|
    ensures forall i | 0 <= i < k :: s[i] >= 128
    ensures k < |s| ==> s[k] < 128
  {
    if s == [] || s[0] < 128 then 0 else 1 + Continued(s[1..])
  }

  /** The in-packet reader: the value and the bytes behind it. */
  function Read(s: seq<byte>): Result<(u32, seq<byte>)> {
    var k := Continued(s);
    if k >= 4 || |s| <= k then Err(Decode)
    else
      var v := Value(s[..k + 1]);
      if |Encode(v)| != k + 1 then Err(Decode)
      else
        assert v <= MAX by { ValueBound(s[..k + 1]); Pow128Small(k + 1); }
        Ok((v, s[k + 1..]))
  }

  /** The frame-prefix reader: the value and its width, or None while the integer is incomplete. */
  function ReadPrefix(s: seq<byte>): (r: Result<Option<(nat, nat)>>)
    ensures r.Ok? && r.value.Some? ==> 1 <= r.value.value.1 <= 4 && r.value.value.1 <= |s|
  {
    var k := Continued(s);
    if k >= 4 then Err(Decode)
    else if |s| <= k then Ok(None)
    else
      var v := Value(s[..k + 1]);
      if |Encode(v)| != k + 1 then Err(Decode) else Ok(Some((v, k + 1)))
  }

  function Pow128(k: nat): (p: nat)
    ensures p >= 1
  {
    if k == 0 then 1 else 128 * Pow128(k - 1)
  }

  lemma Pow128Small(k: nat)
    requires k <= 4
    ensures Pow128(k) <= MAX + 1
    ensures k <= 3 ==> Pow128(k) <= 2_097_152
  {
    assert Pow128(1) == 128;
    assert Pow128(2) == 16384;
    assert Pow128(3) == 2_097_152;
    assert Pow128(4) == 268_435_456;
  }

  lemma {:induction false} ValueBound(bytes: seq<byte>)
    ensures Value(bytes) < Pow128(|bytes|)
  {
    if bytes != [] {
      ValueBound(bytes[1..]);
    }
  }

  /** The accumulating step of both readers. */
  lemma {:induction false} ValueSnoc(bytes: seq<byte>, b: byte)
    ensures Value(bytes + [b]) == Value(bytes) + (b % 128) * Pow128(|bytes|)
  {
    if bytes == [] {
      assert bytes + [b] == [b];
      assert Value([]) == 0;
    } else {
      assert (bytes + [b])[1..] == bytes[1..] + [b];
      ValueSnoc(bytes[1..], b);
      var m, p := b % 128, Pow128(|bytes| - 1);
      assert 128 * (m * p) == m * (128 * p);
    }
  }

  lemma {:induction false} ContinuedAppend(s: seq<byte>, t: seq<byte>)
    ensures Continued(s) < |s| ==> Continued(s + t) == Continued(s)
    ensures Continued(s) == |s| ==> Continued(s + t) == |s| + Continued(t)
  {
    if s == [] {
      assert s + t == t;
    } else if s[0] >= 128 {
      assert (s + t)[1..] == s[1..] + t;
      ContinuedAppend(s[1..], t);
    }
  }

  lemma {:induction false} EncodeShape(n: nat)
    ensures Continued(Encode(n)) == |Encode(n)| - 1
    ensures Value(Encode(n)) == n
    decreases n
  {
    if n < 128 {
      assert Value([n]) == n % 128 + 128 * Value([]);
    } else {
      EncodeShape(n / 128);
      assert Encode(n)[1..] == Encode(n / 128);
    }
  }

  lemma {:induction false} EncodeMonotone(a: nat, b: nat)
    requires a <= b
    ensures |Encode(a)| <= |Encode(b)|
    decreases a
  {
    if a >= 128 {
      EncodeMonotone(a / 128, b / 128);
    }
  }

  lemma EncodeWidth(n: nat)
    requires n <= MAX
    ensures |Encode(n)| <= 4
  {
    EncodeMonotone(n, MAX);
    assert |Encode(127)| == 1;
    assert |Encode(16383)| == 2;
    assert |Encode(2_097_151)| == 3;
    assert |Encode(MAX)| == 4;
  }

  /** A terminated group list of minimal width is the encoding of its value. */
  lemma {:induction false} MinimalIsEncode(bytes: seq<byte>)
    requires bytes != [] && Continued(bytes) == |bytes| - 1
    requires |Encode(Value(bytes))| == |bytes|
    ensures Encode(Value(bytes)) == bytes
  {
    if |bytes| == 1 {
      assert bytes[1..] == [];
      assert Value(bytes) == bytes[0];
    } else {
      var rest := bytes[1..];
      EncodeStep(bytes[0], Value(rest));
      hide Encode;
      MinimalIsEncode(rest);
      assert bytes == [bytes[0]] + rest;
    }
  }

  lemma EncodeStep(b: byte, v: nat)
    requires b >= 128
    ensures if v == 0 then |Encode(b % 128)| == 1 else Encode(b % 128 + 128 * v) == [b] + Encode(v)
  {
    var n := b % 128 + 128 * v;
    assert n / 128 == v && n % 128 == b % 128;
  }

  /** Exactly the encodings of 0..MAX are accepted, so every value has one spelling and reading inverts writing. */
  lemma ReadIffEncoded(s: seq<byte>, v: u32, t: seq<byte>)
    ensures Read(s) == Ok((v, t)) <==> v <= MAX && s == Encode(v) + t
  {
    if Read(s) == Ok((v, t)) {
      var k := Continued(s);
      var bytes := s[..k + 1];
      assert s == bytes + t;
      ContinuedAppend(bytes, t);
      ValueBound(bytes);
      Pow128Small(k + 1);
      MinimalIsEncode(bytes);
    }
    if v <= MAX && s == Encode(v) + t {
      EncodeShape(v);
      EncodeWidth(v);
      ContinuedAppend(Encode(v), t);
      assert s[..|Encode(v)|] == Encode(v);
      assert s[|Encode(v)|..] == t;
    }
  }

  /** On a complete prefix the two readers agree; the frame reader alone can ask for more, and only short of a
      terminator. */
  lemma ReadersAgree(s: seq<byte>)
    ensures ReadPrefix(s) == Ok(None) <==> Continued(s) == |s| && |s| < 4
    ensures ReadPrefix(s) == Ok(None) ==> Read(s) == Err(Decode)
    ensures ReadPrefix(s).Err? ==> Read(s) == Err(Decode)
    ensures forall v: u32, n: nat ::
              ReadPrefix(s) == Ok(Some((v, n))) <==> n <= |s| && Read(s) == Ok((v, s[n..]))
  {
    forall v: u32, n: nat
      ensures ReadPrefix(s) == Ok(Some((v, n))) <==> n <= |s| && Read(s) == Ok((v, s[n..]))
    {
      if n <= |s| && Read(s) == Ok((v, s[n..])) {
        assert |s[n..]| == |s[Continued(s) + 1..]|;
      }
    }
  }

  /** The frame-prefix reader accepts a prefix exactly when it is the encoding of its value. */
  lemma PrefixIffEncoded(s: seq<byte>, v: u32, n: nat)
    ensures ReadPrefix(s) == Ok(Some((v, n))) <==> v <= MAX && n <= |s| && s[..n] == Encode(v)
  {
    ReadersAgree(s);
    if n <= |s| {
      ReadIffEncoded(s, v, s[n..]);
      assert s == s[..n] + s[n..];
      if s == Encode(v) + s[n..] {
        assert |Encode(v)| == n;
        assert s[..n] == Encode(v);
      }
    }
  }

  lemma PrefixWithinMax(s: seq<byte>)
    requires ReadPrefix(s).Ok? && ReadPrefix(s).value.Some?
    ensures var (v, n) := ReadPrefix(s).value.value;
            v <= MAX && n == |Encode(v)|
  {
    var (v, n) := ReadPrefix(s).value.value;
    ValueBound(s[..n]);
    Pow128Small(n);
    PrefixIffEncoded(s, v, n);
  }

  /** A verdict of the frame-prefix reader survives later bytes. */
  lemma PrefixStable(s: seq<byte>, t: seq<byte>)
    ensures ReadPrefix(s) != Ok(None) ==> ReadPrefix(s + t) == ReadPrefix(s)
  {
    ContinuedAppend(s, t);
    var k := Continued(s);
    if k < |s| {
      assert (s + t)[..k + 1] == s[..k + 1];
    }
  }

  /** Strictly inside an encoding the frame-prefix reader asks for more. */
  lemma PrefixOfEncodingIsIncomplete(v: nat, k: nat)
    requires v <= MAX && k < |Encode(v)|
    ensures ReadPrefix(Encode(v)[..k]) == Ok(None)
  {
    EncodeShape(v);
    EncodeWidth(v);
    var p := Encode(v)[..k];
    assert Encode(v) == p + Encode(v)[k..];
    ContinuedAppend(p, Encode(v)[k..]);
  }

  /** Writes `value` a group at a time; fails, writing nothing, above the MQTT maximum. */
  method Write(value: u32, dst: BytesMut) returns (r: Result<()>)
    modifies dst
    ensures r == if value > MAX then Err(ErrorKind.Encode) else Ok(())
    ensures dst.data == old(dst.data) + (if value > MAX then [] else Encode(value))
  {
    if value > MAX {
      return Err(ErrorKind.Encode);
    }
    var rest: u32 := value;
    var more := true;
    ghost var done: seq<byte> := [];
    while more
      invariant dst.data == old(dst.data) + done
      invariant Encode(value) == if more then done + Encode(rest) else done
      decreases more, rest
    {
      var encoded: byte := rest % 128;
      rest := rest / 128;
      if rest > 0 {
        encoded := encoded + 128;
      }
      dst.Extend([encoded]);
      Assoc(old(dst.data), done, [encoded]);
      Assoc(done, [encoded], Encode(rest));
      done := done + [encoded];
      more := rest != 0;
    }
    return Ok(());
  }

  /** The width of the shortest encoding. */
  method Width(value: usize) returns (len: nat)
    ensures len == |Encode(value)|
  {
    var rest := value;
    len := 1;
    while rest >= 128
      invariant |Encode(value)| == len - 1 + |Encode(rest)|
    {
      rest := rest / 128;
      len := len + 1;
    }
  }

  lemma NothingRead(s: seq<byte>)
    ensures Pow128(0) == 1 && Value(s[..0]) == 0
  {
  }

  /** One turn of either reader's loop. */
  lemma Accumulates(s: seq<byte>, taken: nat)
    requires taken < 4 && taken < |s|
    ensures Value(s[..taken + 1]) == Value(s[..taken]) + s[taken] % 128 * Pow128(taken) <= MAX
    ensures Pow128(taken + 1) == Pow128(taken) * 128 <= MAX + 1
  {
    assert s[..taken + 1] == s[..taken] + [s[taken]];
    ValueSnoc(s[..taken], s[taken]);
    ValueBound(s[..taken + 1]);
    Pow128Small(taken + 1);
  }

  /** The loop of the frame-prefix reader; its accumulators stay within `usize`. */
  method DecodePrefix(src: seq<byte>) returns (r: Result<Option<(nat, nat)>>)
    ensures r == ReadPrefix(src)
  {
    NothingRead(src);
    hide Value, Pow128;
    var multiplier: usize := 1;
    var value: usize := 0;
    var limit := if |src| < 4 then |src| else 4;
    for index := 0 to limit
      invariant multiplier == Pow128(index) && value == Value(src[..index])
      invariant index <= Continued(src)
    {
      var encoded := src[index];
      Accumulates(src, index);
      value := value + encoded % 128 * multiplier;
      if encoded < 128 {
        var width := Width(value);
        return if width != index + 1 then Err(Decode) else Ok(Some((value, index + 1)));
      }
      multiplier := multiplier * 128;
    }
    return if |src| >= 4 then Err(Decode) else Ok(None);
  }
}
