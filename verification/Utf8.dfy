/** Well-formed UTF-8, as section 4 of RFC 3629 defines it. */
module Utf8 {
  import opened Core

  predicate Tail(b: byte) { 0x80 <= b <= 0xBF }

  /** Length of the well-formed character at the front of `s`, or 0 when there is none. */
  function CharLen(s: seq<byte>): (n: nat)
    ensures n <= |s|
  {
    if |s| >= 1 && s[0] <= 0x7F then 1
    else if |s| >= 2 && 0xC2 <= s[0] <= 0xDF && Tail(s[1]) then 2
    else if |s| >= 3 && ThreeByteHead(s[0], s[1]) && Tail(s[2]) then 3
    else if |s| >= 4 && FourByteHead(s[0], s[1]) && Tail(s[2]) && Tail(s[3]) then 4
    else 0
  }

  predicate ThreeByteHead(a: byte, b: byte) {
    || (a == 0xE0 && 0xA0 <= b <= 0xBF)
    || (0xE1 <= a <= 0xEC && Tail(b))
    || (a == 0xED && 0x80 <= b <= 0x9F)
    || (0xEE <= a <= 0xEF && Tail(b))
  }

  predicate FourByteHead(a: byte, b: byte) {
    || (a == 0xF0 && 0x90 <= b <= 0xBF)
    || (0xF1 <= a <= 0xF3 && Tail(b))
    || (a == 0xF4 && 0x80 <= b <= 0x8F)
  }

  predicate Valid(s: seq<byte>)
    decreases |s|
  {
    s == [] || (CharLen(s) > 0 && Valid(s[CharLen(s)..]))
  }

  /** The bytes of a Rust `String`. */
  type Text = s: seq<byte> | Valid(s) witness []

  /** Every string of ASCII characters is well-formed. */
  lemma {:induction false} AsciiIsValid(s: seq<byte>)
    requires forall i | 0 <= i < |s| :: s[i] <= 0x7F
    ensures Valid(s)
    decreases |s|
  {
    if s != [] {
      AsciiIsValid(s[1..]);
    }
  }

  /** Appending keeps the character at the front. */
  lemma CharLenExtends(s: seq<byte>, t: seq<byte>)
    requires CharLen(s) > 0
    ensures CharLen(s + t) == CharLen(s)
  {
  }

  /** Well-formed strings concatenate. */
  lemma {:induction false} ValidAppend(s: seq<byte>, t: seq<byte>)
    requires Valid(s) && Valid(t)
    ensures Valid(s + t)
    decreases |s|
  {
    if s == [] {
      assert s + t == t;
    } else {
      CharLenExtends(s, t);
      var n := CharLen(s);
      assert (s + t)[n..] == s[n..] + t;
      ValidAppend(s[n..], t);
    }
  }

  /** A character cannot run into an ASCII byte. */
  lemma CharEndsBeforeAscii(s: seq<byte>, t: seq<byte>)
    requires s != [] && t != [] && t[0] <= 0x7F && CharLen(s + t) > 0
    ensures CharLen(s + t) <= |s| && CharLen(s) == CharLen(s + t)
  {
    var u := s + t;
    assert u[0] == s[0] && u[|s|] == t[0];
    assert !Tail(u[|s|]);
  }

  /** What stands in front of an ASCII byte of a well-formed string is well-formed. */
  lemma {:induction false} ValidBeforeAscii(s: seq<byte>, t: seq<byte>)
    requires Valid(s + t) && t != [] && t[0] <= 0x7F
    ensures Valid(s)
    decreases |s|
  {
    hide CharLen;
    if s != [] {
      CharEndsBeforeAscii(s, t);
      var n := CharLen(s + t);
      assert (s + t)[n..] == s[n..] + t;
      ValidBeforeAscii(s[n..], t);
    }
  }

  // ----- Code points -----

  /** The Unicode scalar values: every code point but the surrogates. */
  predicate Scalar(c: nat) { c <= 0xD7FF || 0xE000 <= c <= 0x10FFFF }

  /** Section 3 of RFC 3629. */
  function EncodeChar(c: nat): (s: seq<byte>)
    requires Scalar(c)
    ensures s != []
  {
    if c <= 0x7F then [c]
    else if c <= 0x7FF then [0xC0 + c / 64, 0x80 + c % 64]
    else if c <= 0xFFFF then [0xE0 + c / 4096, 0x80 + c / 64 % 64, 0x80 + c % 64]
    else [0xF0 + c / 262144, 0x80 + c / 4096 % 64, 0x80 + c / 64 % 64, 0x80 + c % 64]
  }

  predicate AllScalar(cs: seq<nat>) { forall i | 0 <= i < |cs| :: Scalar(cs[i]) }

  function EncodeText(cs: seq<nat>): seq<byte>
    requires AllScalar(cs)
  {
    if cs == [] then [] else EncodeChar(cs[0]) + EncodeText(cs[1..])
  }

  /** Six bits more. */
  function Shifted(high: nat, tail: byte): nat { high * 64 + tail % 64 }

  function Join2(a: nat, b: byte): nat { Shifted(a % 32, b) }

  function Join3(a: nat, b: byte, c: byte): nat { Shifted(Shifted(a % 16, b), c) }

  function Join4(a: nat, b: byte, c: byte, d: byte): nat { Shifted(Shifted(Shifted(a % 8, b), c), d) }

  /** The code point of the character at the front. */
  function CodePoint(s: seq<byte>): nat
    requires CharLen(s) > 0
  {
    match CharLen(s)
    case 1 => s[0]
    case 2 => Join2(s[0], s[1])
    case 3 => Join3(s[0], s[1], s[2])
    case _ => Join4(s[0], s[1], s[2], s[3])
  }

  lemma ShiftedBack(high: nat, tail: byte)
    ensures Shifted(high, tail) / 64 == high && Shifted(high, tail) % 64 == tail % 64
    ensures Tail(tail) ==> 0x80 + tail % 64 == tail
  {
  }

  lemma SixBitsTwice(c: nat)
    ensures c / 4096 == c / 64 / 64 && c / 262144 == c / 64 / 64 / 64
  {
  }

  lemma TwoByteChar(a: byte, b: byte)
    requires 0xC2 <= a <= 0xDF && Tail(b)
    ensures Scalar(Join2(a, b)) && EncodeChar(Join2(a, b)) == [a, b]
  {
    ShiftedBack(a % 32, b);
  }

  lemma ThreeByteHeads(a: byte, b: byte)
    requires ThreeByteHead(a, b)
    ensures Tail(b) && 0x20 <= Shifted(a % 16, b) <= 0x3FF && 0xE0 + a % 16 == a
    ensures Shifted(a % 16, b) <= 0x35F || 0x380 <= Shifted(a % 16, b)
  {
  }

  lemma ThreeByteChar(a: byte, b: byte, c: byte)
    requires ThreeByteHead(a, b) && Tail(c)
    ensures Scalar(Join3(a, b, c)) && EncodeChar(Join3(a, b, c)) == [a, b, c]
  {
    ThreeByteHeads(a, b);
    ShiftedBack(a % 16, b);
    var head := Shifted(a % 16, b);
    ShiftedBack(head, c);
    hide ThreeByteHead;
    var n := Shifted(head, c);
    assert n == head * 64 + c % 64;
    hide Shifted;
    assert 0x800 <= n <= 0xFFFF && Scalar(n);
    SixBitsTwice(n);
  }

  lemma FourByteChar(a: byte, b: byte, c: byte, d: byte)
    requires FourByteHead(a, b) && Tail(c) && Tail(d)
    ensures Scalar(Join4(a, b, c, d)) && EncodeChar(Join4(a, b, c, d)) == [a, b, c, d]
  {
    var n := Join4(a, b, c, d);
    ShiftedBack(a % 8, b);
    ShiftedBack(Shifted(a % 8, b), c);
    ShiftedBack(Shifted(Shifted(a % 8, b), c), d);
    SixBitsTwice(n);
    assert 0x10 <= Shifted(a % 8, b) <= 0x10F;
    assert 0x10000 <= n <= 0x10FFFF;
    hide Shifted;
  }

  /** Neither overlong forms, nor surrogates, nor anything beyond U+10FFFF: a character is the encoding of its code
      point, which is a scalar value. */
  lemma CharIsEncoded(s: seq<byte>)
    requires CharLen(s) > 0
    ensures Scalar(CodePoint(s)) && s[..CharLen(s)] == EncodeChar(CodePoint(s))
  {
    hide Join2, Join3, Join4;
    if CharLen(s) == 2 {
      TwoByteChar(s[0], s[1]);
    } else if CharLen(s) == 3 {
      ThreeByteChar(s[0], s[1], s[2]);
    } else if CharLen(s) == 4 {
      FourByteChar(s[0], s[1], s[2], s[3]);
    }
    hide EncodeChar;
  }

  lemma EncodedHeads(c: nat)
    requires Scalar(c)
    ensures var s := EncodeChar(c);
            && (|s| == 1 ==> s[0] <= 0x7F)
            && (|s| == 2 ==> 0xC2 <= s[0] <= 0xDF && Tail(s[1]))
            && (|s| == 3 ==> ThreeByteHead(s[0], s[1]) && Tail(s[2]))
            && (|s| == 4 ==> FourByteHead(s[0], s[1]) && Tail(s[2]) && Tail(s[3]))
    ensures |EncodeChar(c)| <= 4
  {
    if c > 0xFFFF {
      assert c / 4096 == c / 262144 * 64 + c / 4096 % 64;
    } else if c > 0x7FF {
      assert c / 64 == c / 4096 * 64 + c / 64 % 64;
    }
  }

  lemma EncodedCharReads(c: nat, t: seq<byte>)
    requires Scalar(c)
    ensures CharLen(EncodeChar(c) + t) == |EncodeChar(c)|
  {
    EncodedHeads(c);
    hide EncodeChar;
    var e := EncodeChar(c);
    var s := e + t;
    assert forall i | 0 <= i < |e| :: s[i] == e[i];
  }

  /** The well-formed texts are exactly the encodings of sequences of scalar values. */
  lemma {:induction false} ValidIff(s: seq<byte>)
    ensures Valid(s) <==> exists cs: seq<nat> :: AllScalar(cs) && EncodeText(cs) == s
  {
    if Valid(s) {
      var cs := Decoded(s);
    }
    if cs: seq<nat> :| AllScalar(cs) && EncodeText(cs) == s {
      EncodedIsValid(cs);
    }
  }

  lemma {:induction false} Decoded(s: seq<byte>) returns (cs: seq<nat>)
    requires Valid(s)
    ensures AllScalar(cs) && EncodeText(cs) == s
    decreases |s|
  {
    hide CharLen, EncodeChar;
    if s == [] {
      cs := [];
    } else {
      CharIsEncoded(s);
      var rest := Decoded(s[CharLen(s)..]);
      cs := [CodePoint(s)] + rest;
      assert cs[1..] == rest;
      JoinCut(s, CharLen(s));
    }
  }

  lemma {:induction false} EncodedIsValid(cs: seq<nat>)
    requires AllScalar(cs)
    ensures Valid(EncodeText(cs))
  {
    hide CharLen, EncodeChar;
    if cs != [] {
      EncodedIsValid(cs[1..]);
      EncodedCharReads(cs[0], EncodeText(cs[1..]));
      CutJoined(EncodeChar(cs[0]), EncodeText(cs[1..]));
    }
  }
}
