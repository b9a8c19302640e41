/** UTF-8 lines ending in LF, with an optional CR before it. */
module Line {
  import opened Core
  import opened Utf8
  import opened Framing
  import opened Search

  const LF: byte := 0x0a
  const CR: byte := 0x0d

  function WithoutCr(line: seq<byte>): seq<byte> {
    if line != [] && line[|line| - 1] == CR then line[..|line| - 1] else line
  }

  function DecodeFrame(maxLineLen: nat, s: seq<byte>): Step<Text> {
    match Find(s, [LF], 0)
    case None => if |s| > maxLineLen then Fail(FrameTooLarge, 0) else Need
    case Some(i) =>
      if i > maxLineLen then Fail(FrameTooLarge, 0)
      else
        var line := WithoutCr(s[..i]);
        if Valid(line) then Item(line, i + 1) else Fail(Decode, i + 1)
  }

  function LineDecoder(maxLineLen: nat): Decoder<Text> {
    s => DecodeFrame(maxLineLen, s)
  }

  function EncodeFrame(item: Text): seq<byte> {
    item + [LF]
  }

  lemma FindLf(line: seq<byte>, t: seq<byte>)
    requires LF !in line
    ensures Find((line + [LF]) + t, [LF], 0) == Some(|line|)
  {
    var s := (line + [LF]) + t;
    assert s[|line|..|line| + 1] == [LF];
    forall j | 0 <= j < |line|
      ensures !MatchAt(s, [LF], j)
    {
      assert s[j..j + 1] == [line[j]];
    }
    FindIs(s, [LF], 0, |line|);
  }

  /** A terminated line without an LF inside comes out without its CR. */
  lemma LineOpens(maxLineLen: nat, line: seq<byte>, t: seq<byte>)
    requires LF !in line && |line| <= maxLineLen && Valid(WithoutCr(line))
    ensures DecodeFrame(maxLineLen, (line + [LF]) + t) == Item(WithoutCr(line), |line| + 1)
  {
    FindLf(line, t);
    assert ((line + [LF]) + t)[..|line|] == line;
  }

  /** Everything the decoder says: too large when more than the limit stands in front of the first line feed, or is
      there without one; otherwise the line without one carriage return at its end, or a decode error that removes it,
      or a wait. */
  lemma LineDecides(maxLineLen: nat, line: seq<byte>, t: seq<byte>)
    requires 0x0a !in line
    ensures var text := if line != [] && line[|line| - 1] == 0x0d then line[..|line| - 1] else line;
            DecodeFrame(maxLineLen, (line + [0x0a]) + t) ==
            if |line| > maxLineLen then Fail(FrameTooLarge, 0)
            else if Valid(text) then Item(text, |line| + 1)
            else Fail(Decode, |line| + 1)
    ensures DecodeFrame(maxLineLen, line) == if |line| > maxLineLen then Fail(FrameTooLarge, 0) else Need
  {
    hide Utf8.Valid;
    FindLf(line, t);
    assert ((line + [LF]) + t)[..|line|] == line;
    FirstLf(line, |line|);
  }

  /** An encoded string decodes to itself exactly when it is within the limit, holds no LF and does not end in CR. */
  lemma EncodedLineRecoversIff(maxLineLen: nat, item: Text)
    ensures Recovers(LineDecoder(maxLineLen), EncodeFrame(item), item) <==>
            |item| <= maxLineLen && LF !in item && WithoutCr(item) == item
  {
    var d := LineDecoder(maxLineLen);
    var b := EncodeFrame(item);
    if Recovers(d, b, item) {
      assert b + [] == b;
      assert d(b + []) == Item(item, |b|);
      var i := Find(b, [LF], 0).value;
      assert i == |item| && b[..i] == item;
      forall j | 0 <= j < |item|
        ensures item[j] != LF
      {
        assert !MatchAt(b, [LF], j) && b[j..j + 1] == [item[j]];
      }
    }
    if |item| <= maxLineLen && LF !in item && WithoutCr(item) == item {
      forall t: seq<byte>
        ensures d(b + t) == Item(item, |b|)
      {
        LineOpens(maxLineLen, item, t);
      }
    }
  }

  /** A string sent with CRLF decodes to itself, even one that ends in CR. */
  lemma CrLfLineRecovers(maxLineLen: nat, item: Text)
    requires LF !in item && |item| + 1 <= maxLineLen
    ensures Recovers(LineDecoder(maxLineLen), item + [CR, LF], item)
  {
    var line := item + [CR];
    assert WithoutCr(line) == item;
    assert item + [CR, LF] == line + [LF];
    forall t: seq<byte>
      ensures LineDecoder(maxLineLen)((item + [CR, LF]) + t) == Item(item, |item| + 2)
    {
      LineOpens(maxLineLen, line, t);
    }
  }

  /** Line decoding terminates and does not depend on how the stream is split into reads. */
  lemma LineIsStable(maxLineLen: nat)
    ensures Progress(LineDecoder(maxLineLen)) && Stable(LineDecoder(maxLineLen))
  {
    hide Find, Utf8.Valid, WithoutCr;
    var d := LineDecoder(maxLineLen);
    forall s: seq<byte>
      ensures ProgressAt(d, s)
    {
    }
    forall s: seq<byte>, t: seq<byte>
      ensures StableAt(d, s, t)
    {
      FindExtends(s, t, [LF], 0);
      var before, after := Find(s, [LF], 0), Find(s + t, [LF], 0);
      if before.Some? {
        assert (s + t)[..before.value] == s[..before.value];
      } else if after.Some? && after.value < |s| {
        MatchExtends(s, t, [LF], after.value);
      }
    }
  }

  class LineCodec {
    const maxLineLen: nat

    constructor (maxLineLen: nat)
      ensures this.maxLineLen == maxLineLen
    {
      this.maxLineLen := maxLineLen;
    }

    method Decode(src: BytesMut) returns (r: Result<Option<Text>>)
      modifies src
      ensures Performs(DecodeFrame(maxLineLen, old(src.data)), old(src.data), r, src.data)
    {
      hide Utf8.Valid;
      var pos := 0;
      while pos < |src.data| && src.data[pos] != LF
        invariant pos <= |src.data| && src.data == old(src.data)
        invariant forall j | 0 <= j < pos :: src.data[j] != LF
      {
        pos := pos + 1;
      }
      FirstLf(src.data, pos);
      if pos == |src.data| {
        return if |src.data| > maxLineLen then Err(FrameTooLarge) else Ok(None);
      }
      if pos > maxLineLen {
        return Err(FrameTooLarge);
      }
      var line := src.SplitTo(pos + 1);
      assert line[..pos] == old(src.data)[..pos];
      line := line[..pos];
      if line != [] && line[|line| - 1] == CR {
        line := line[..|line| - 1];
      }
      return if Utf8.Valid(line) then Ok(Some(line)) else Err(ErrorKind.Decode);
    }

    method Encode(item: Text, dst: BytesMut) returns (r: Result<()>)
      modifies dst
      ensures Appends(Ok(EncodeFrame(item)), old(dst.data), r, dst.data)
    {
      dst.Extend(item);
      dst.Extend([LF]);
      Assoc(old(dst.data), item, [LF]);
      return Ok(());
    }
  }

  lemma FirstLf(s: seq<byte>, pos: nat)
    requires pos <= |s| && (forall j | 0 <= j < pos :: s[j] != LF) && (pos < |s| ==> s[pos] == LF)
    ensures Find(s, [LF], 0) == if pos == |s| then None else Some(pos)
  {
    forall j | 0 <= j < pos
      ensures !MatchAt(s, [LF], j)
    {
      assert s[j..j + 1] == [s[j]];
    }
    if pos < |s| {
      assert s[pos..pos + 1] == [LF];
      FindIs(s, [LF], 0, pos);
    }
  }
}
