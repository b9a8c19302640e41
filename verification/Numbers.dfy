/** Big-endian integers of 16, 32 and 64 bits. */
module Numbers {
  import opened Core

  function Join(high: nat, low: byte): nat { high * 256 + low }

  function U16(v: u16): (s: seq<byte>)
    ensures |s| == 2
  {
    [v / 256, v % 256]
  }

  function U32(v: u32): (s: seq<byte>)
    ensures |s| == 4
  {
    U16(v / 0x1_0000) + U16(v % 0x1_0000)
  }

  function U64(v: usize): (s: seq<byte>)
    ensures |s| == 8
  {
    U32(v / 0x1_0000_0000) + U32(v % 0x1_0000_0000)
  }

  /** The number that some bytes spell, most significant first. */
  function BigValue(s: seq<byte>): nat {
    if s == [] then 0 else Join(BigValue(s[..|s| - 1]), s[|s| - 1])
  }

  function Pow256(n: nat): nat {
    if n == 0 then 1 else 256 * Pow256(n - 1)
  }

  lemma U16Value(v: u16)
    ensures BigValue(U16(v)) == v
  {
    assert U16(v)[..1] == [v / 256];
    assert BigValue([v / 256]) == v / 256 by {
      assert [v / 256][..0] == [];
    }
  }

  lemma U16Spells(s: seq<byte>)
    requires |s| == 2
    ensures BigValue(s) < 0x1_0000 && U16(BigValue(s)) == s
  {
    assert s[..1] == [s[0]] && [s[0]][..0] == [];
    assert BigValue([s[0]]) == s[0];
    assert s == [s[0], s[1]];
  }

  lemma JoinScaled(v: nat, p: nat, w: nat, b: byte)
    ensures Join(v * p + w, b) == v * (256 * p) + Join(w, b)
  {
    assert (v * p) * 256 == v * (256 * p);
  }

  lemma {:induction false} BigValueAppend(s: seq<byte>, t: seq<byte>, scale: nat)
    requires scale == Pow256(|t|)
    ensures BigValue(s + t) == BigValue(s) * scale + BigValue(t)
    decreases |t|
  {
    hide Join;
    if t == [] {
      assert s + t == s;
    } else {
      var n := |t| - 1;
      assert (s + t)[..|s + t| - 1] == s + t[..n];
      BigValueAppend(s, t[..n], Pow256(n));
      JoinScaled(BigValue(s), Pow256(n), BigValue(t[..n]), t[n]);
    }
  }

  lemma Pow256Values()
    ensures Pow256(2) == 0x1_0000 && Pow256(4) == 0x1_0000_0000
  {
    assert Pow256(1) == 256;
    assert Pow256(2) == 0x1_0000;
    assert Pow256(3) == 0x100_0000;
  }

  lemma U32Value(v: u32)
    ensures BigValue(U32(v)) == v
  {
    hide U16;
    Pow256Values();
    U16Value(v / 0x1_0000);
    U16Value(v % 0x1_0000);
    BigValueAppend(U16(v / 0x1_0000), U16(v % 0x1_0000), 0x1_0000);
  }

  lemma U32Spells(s: seq<byte>)
    requires |s| == 4
    ensures BigValue(s) < 0x1_0000_0000 && U32(BigValue(s)) == s
  {
    hide U16;
    Pow256Values();
    U16Spells(s[..2]);
    U16Spells(s[2..]);
    JoinCut(s, 2);
    BigValueAppend(s[..2], s[2..], 0x1_0000);
    hide BigValue, Pow256;
    assert BigValue(s) / 0x1_0000 == BigValue(s[..2]);
    assert BigValue(s) % 0x1_0000 == BigValue(s[2..]);
  }

  lemma U64Value(v: usize)
    ensures BigValue(U64(v)) == v
  {
    hide U32;
    Pow256Values();
    U32Value(v / 0x1_0000_0000);
    U32Value(v % 0x1_0000_0000);
    BigValueAppend(U32(v / 0x1_0000_0000), U32(v % 0x1_0000_0000), 0x1_0000_0000);
  }

  lemma U64Spells(s: seq<byte>)
    requires |s| == 8
    ensures BigValue(s) < 0x1_0000_0000_0000_0000 && U64(BigValue(s)) == s
  {
    hide U32;
    Pow256Values();
    U32Spells(s[..4]);
    U32Spells(s[4..]);
    JoinCut(s, 4);
    BigValueAppend(s[..4], s[4..], 0x1_0000_0000);
    hide BigValue, Pow256;
    assert BigValue(s) / 0x1_0000_0000 == BigValue(s[..4]);
    assert BigValue(s) % 0x1_0000_0000 == BigValue(s[4..]);
  }
}
