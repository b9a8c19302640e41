/** Frames that end at the earliest of several delimiters. */
module Delimiter {
  import opened Core
  import opened Framing
  import opened Search

  /** Construction refuses an empty list and empty delimiters. */
  type Delimiters = ds: seq<seq<byte>> | |ds| > 0 && forall d :: d in ds ==> |d| > 0 witness [[0]]

  datatype Config = Config(maxFrameLength: nat, delimiters: Delimiters, stripDelimiter: bool)

  /** A position and the length of the delimiter that starts there. */
  type Hit = (nat, nat)

  predicate Earlier(a: Hit, b: Hit) {
    a.0 < b.0 || (a.0 == b.0 && a.1 <= b.1)
  }

  /** The least first occurrence over a list of delimiters, by position and then by length. */
  function FindDelimiter(s: seq<byte>, ds: seq<seq<byte>>): (r: Option<Hit>)
  {
    if ds == [] then None
    else
      var rest := FindDelimiter(s, ds[1..]);
      match Find(s, ds[0], 0)
      case None => rest
      case Some(i) =>
        var hit := (i, |ds[0]|);
        if rest.Some? && !Earlier(hit, rest.value) then rest else Some(hit)
  }

  predicate HitAt(s: seq<byte>, ds: seq<seq<byte>>, hit: Hit) {
    exists d :: d in ds && |d| == hit.1 && MatchAt(s, d, hit.0)
  }

  /** What is found is an occurrence, and no occurrence of any delimiter is earlier. */
  lemma {:induction false} FindDelimiterIsLeast(s: seq<byte>, ds: seq<seq<byte>>)
    ensures FindDelimiter(s, ds).Some? ==> HitAt(s, ds, FindDelimiter(s, ds).value)
    ensures forall d, i: nat | d in ds && MatchAt(s, d, i) ::
              FindDelimiter(s, ds).Some? && Earlier(FindDelimiter(s, ds).value, (i, |d|))
  {
    if ds != [] {
      FindDelimiterIsLeast(s, ds[1..]);
      var first := Find(s, ds[0], 0);
      var r := FindDelimiter(s, ds);
      if r.Some? && (first.None? || r.value != (first.value, |ds[0]|)) {
        var d :| d in ds[1..] && |d| == r.value.1 && MatchAt(s, d, r.value.0);
        assert d in ds;
      }
      forall d, i: nat | d in ds && MatchAt(s, d, i)
        ensures r.Some? && Earlier(r.value, (i, |d|))
      {
        if d != ds[0] {
          assert d in ds[1..];
        }
      }
    }
  }

  function DecodeFrame(c: Config, s: seq<byte>): Step<seq<byte>> {
    match FindDelimiter(s, c.delimiters)
    case None => if |s| > c.maxFrameLength then Fail(FrameTooLarge, 0) else Need
    case Some((i, n)) =>
      if i > c.maxFrameLength then Fail(FrameTooLarge, 0)
      else
        FindDelimiterIsLeast(s, c.delimiters);
        Item(if c.stripDelimiter then s[..i] else s[..i + n], i + n)
  }

  function DelimiterDecoder(c: Config): Decoder<seq<byte>> {
    s => DecodeFrame(c, s)
  }

  /** Every delimiter is followed by its frame, and the first configured one ends each outbound item. */
  function EncodeFrame(c: Config, item: seq<byte>): seq<byte> {
    item + c.delimiters[0]
  }

  /** Positions below this bound would change the verdict on `s`. */
  function Bound(c: Config, s: seq<byte>): nat {
    match FindDelimiter(s, c.delimiters)
    case Some((i, _)) => if i <= c.maxFrameLength then i else c.maxFrameLength + 1
    case None => c.maxFrameLength + 1
  }

  /** The last `k` bytes of `s` begin delimiter `d` without completing it. */
  predicate Begins(s: seq<byte>, d: seq<byte>, k: nat) {
    0 < k < |d| && k <= |s| && s[|s| - k..] == d[..k]
  }

  /** The buffer ends inside a delimiter that would end a frame earlier than anything found so far. */
  ghost predicate Pending(c: Config, s: seq<byte>) {
    exists d, k: nat :: d in c.delimiters && Begins(s, d, k) && |s| - k < Bound(c, s)
  }

  /** A hit of `s + t` that is not one of `s` starts where `s` ends in the beginning of a delimiter, or behind `s`. */
  lemma NewHit(s: seq<byte>, t: seq<byte>, d: seq<byte>, i: nat)
    requires MatchAt(s + t, d, i) && |d| > 0
    ensures MatchAt(s, d, i) || i >= |s| || Begins(s, d, |s| - i)
  {
    if i + |d| <= |s| {
      MatchExtends(s, t, d, i);
    } else if i < |s| {
      var k := |s| - i;
      assert d == (s + t)[i..i + |d|];
      assert s[i..] == d[..k];
    }
  }

  /** Nothing pending: a hit found earlier stays, and one that appears later is behind everything that matters. */
  lemma SettledHits(c: Config, s: seq<byte>, t: seq<byte>)
    requires !Pending(c, s)
    ensures var before, after := FindDelimiter(s, c.delimiters), FindDelimiter(s + t, c.delimiters);
            && (before.Some? ==> after.Some? && Earlier(after.value, before.value))
            && (after.Some? && after.value.0 < |s| &&
                (after.value.0 < Bound(c, s) || after.value.0 + after.value.1 <= |s|) ==>
                before.Some? && Earlier(before.value, after.value))
  {
    hide FindDelimiter, Bound;
    var ds := c.delimiters;
    var before, after := FindDelimiter(s, ds), FindDelimiter(s + t, ds);
    FindDelimiterIsLeast(s, ds);
    FindDelimiterIsLeast(s + t, ds);
    if before.Some? {
      var d :| d in ds && |d| == before.value.1 && MatchAt(s, d, before.value.0);
      MatchExtends(s, t, d, before.value.0);
    }
    if after.Some? && after.value.0 < |s| {
      var d :| d in ds && |d| == after.value.1 && MatchAt(s + t, d, after.value.0);
      NewHit(s, t, d, after.value.0);
    }
  }

  /** Nothing pending: later bytes leave the verdict alone. */
  lemma SettledVerdictStands(c: Config, s: seq<byte>, t: seq<byte>)
    requires DecodeFrame(c, s) != Need && !Pending(c, s)
    ensures DecodeFrame(c, s + t) == DecodeFrame(c, s)
  {
    hide FindDelimiter, Pending, HitAt, MatchAt;
    SettledHits(c, s, t);
    if FindDelimiter(s, c.delimiters).Some? {
      var (i, n) := FindDelimiter(s, c.delimiters).value;
      HitFits(c, s, i, n);
      assert (s + t)[..i] == s[..i] && (s + t)[..i + n] == s[..i + n];
    }
  }

  lemma HitFits(c: Config, s: seq<byte>, i: nat, n: nat)
    requires FindDelimiter(s, c.delimiters) == Some((i, n))
    ensures 0 < n && i + n <= |s|
  {
    hide FindDelimiter;
    FindDelimiterIsLeast(s, c.delimiters);
  }

  /** A pending delimiter can complete, and then the verdict was premature. */
  lemma PendingVerdictFalls(c: Config, s: seq<byte>, d: seq<byte>, k: nat)
    requires DecodeFrame(c, s) != Need
    requires d in c.delimiters && Begins(s, d, k) && |s| - k < Bound(c, s)
    ensures DecodeFrame(c, s + d[k..]) != DecodeFrame(c, s)
  {
    hide FindDelimiter;
    var t := d[k..];
    var ds := c.delimiters;
    assert (s + t)[|s| - k..|s| - k + |d|] == s[|s| - k..] + t;
    assert d[..k] + d[k..] == d;
    assert MatchAt(s + t, d, |s| - k);
    FindDelimiterIsLeast(s, ds);
    FindDelimiterIsLeast(s + t, ds);
    var (i, n) := FindDelimiter(s + t, ds).value;
    var e :| e in ds && |e| == n && MatchAt(s + t, e, i);
    assert i <= |s| - k;
    if i + n <= |s| {
      MatchExtends(s, t, e, i);
    }
  }

  /** When the split into reads cannot matter: a verdict is final exactly when no earlier delimiter is half read. */
  lemma VerdictIsFinalIff(c: Config, s: seq<byte>)
    requires DecodeFrame(c, s) != Need
    ensures (forall t: seq<byte> :: StableAt(DelimiterDecoder(c), s, t)) <==> !Pending(c, s)
  {
    hide FindDelimiter, Bound;
    if Pending(c, s) {
      var d, k: nat :| d in c.delimiters && Begins(s, d, k) && |s| - k < Bound(c, s);
      PendingVerdictFalls(c, s, d, k);
      assert !StableAt(DelimiterDecoder(c), s, d[k..]);
    } else {
      forall t: seq<byte>
        ensures StableAt(DelimiterDecoder(c), s, t)
      {
        SettledVerdictStands(c, s, t);
      }
    }
  }

  /** With one-byte delimiters nothing is ever half read, so decoding does not depend on the split at all. */
  lemma OneByteDelimitersAreStable(c: Config)
    requires forall d :: d in c.delimiters ==> |d| == 1
    ensures Progress(DelimiterDecoder(c)) && Stable(DelimiterDecoder(c))
  {
    hide FindDelimiter;
    var d := DelimiterDecoder(c);
    DelimiterProgress(c);
    forall s: seq<byte>, t: seq<byte>
      ensures StableAt(d, s, t)
    {
      if DecodeFrame(c, s) != Need {
        SettledVerdictStands(c, s, t);
      }
    }
  }

  /** Any delimiters: every item shrinks the buffer. */
  lemma DelimiterProgress(c: Config)
    ensures Progress(DelimiterDecoder(c))
  {
    hide FindDelimiter;
    forall s: seq<byte>
      ensures ProgressAt(DelimiterDecoder(c), s)
    {
      FindDelimiterIsLeast(s, c.delimiters);
    }
  }

  /** The CRLF/LF line delimiter: "a" CR is too large for a limit of one byte, yet "a" CR LF is a frame. */
  lemma LineDelimiterDependsOnSplit()
    ensures var c := Config(1, [[0x0d, 0x0a], [0x0a]], true);
            && DecodeFrame(c, [0x61, 0x0d]) == Fail(FrameTooLarge, 0)
            && DecodeFrame(c, [0x61, 0x0d] + [0x0a]) == Item([0x61], 3)
  {
    var c := Config(1, [[0x0d, 0x0a], [0x0a]], true);
    var s: seq<byte> := [0x61, 0x0d];
    var u: seq<byte> := s + [0x0a];
    FirstHits(s, u);
    hide Find;
    var lf: seq<seq<byte>> := [[0x0a]];
    assert c.delimiters[1..] == lf && lf[1..] == [];
    assert FindDelimiter(s, lf) == None && FindDelimiter(u, lf) == Some((2, 1));
    assert u[..1] == [0x61];
  }

  lemma FirstHits(s: seq<byte>, u: seq<byte>)
    requires s == [0x61, 0x0d] && u == [0x61, 0x0d, 0x0a]
    ensures Find(s, [0x0d, 0x0a], 0) == None && Find(s, [0x0a], 0) == None
    ensures Find(u, [0x0d, 0x0a], 0) == Some(1) && Find(u, [0x0a], 0) == Some(2)
  {
    assert s[0..2][0] == 0x61 && s[0..1][0] == 0x61 && s[1..2][0] == 0x0d;
    assert u[0..2][0] == 0x61 && u[0..1][0] == 0x61 && u[1..2][0] == 0x0d;
    assert u[1..3] == [0x0d, 0x0a] && u[2..3] == [0x0a];
    assert !MatchAt(u, [0x0d, 0x0a], 0) && !MatchAt(u, [0x0a], 0) && !MatchAt(u, [0x0a], 1);
    FindIs(u, [0x0d, 0x0a], 0, 1);
    FindIs(u, [0x0a], 0, 2);
  }

  /** With stripped delimiters, an encoded item decodes to itself in front of anything exactly when it is within the
      limit, its own delimiter is the earliest hit, and no other delimiter that would come earlier is left half
      read. */
  lemma EncodedItemRecoversIff(c: Config, item: seq<byte>)
    requires c.stripDelimiter
    ensures var b := EncodeFrame(c, item);
            Recovers(DelimiterDecoder(c), b, item) <==>
              && |item| <= c.maxFrameLength
              && FindDelimiter(b, c.delimiters) == Some((|item|, |c.delimiters[0]|))
              && !Pending(c, b)
  {
    hide FindDelimiter, Pending;
    var d, b := DelimiterDecoder(c), EncodeFrame(c, item);
    CutJoined(item, c.delimiters[0]);
    if Recovers(d, b, item) {
      assert b + [] == b;
      assert d(b + []) == Item(item, |b|);
      FindDelimiterIsLeast(b, c.delimiters);
      forall t: seq<byte>
        ensures StableAt(d, b, t)
      {
        assert d(b + t) == Item(item, |b|);
      }
      VerdictIsFinalIff(c, b);
    }
    if |item| <= c.maxFrameLength && FindDelimiter(b, c.delimiters) == Some((|item|, |c.delimiters[0]|))
        && !Pending(c, b) {
      forall t: seq<byte>
        ensures d(b + t) == Item(item, |b|)
      {
        SettledVerdictStands(c, b, t);
      }
    }
  }

  /** With delimiters kept, an encoded item comes out whole exactly when the earliest hit ends it within the limit and
      no earlier delimiter is left half read; which delimiter that is does not matter. */
  lemma KeptItemRecoversIff(c: Config, item: seq<byte>)
    requires !c.stripDelimiter
    ensures var b, hit := EncodeFrame(c, item), FindDelimiter(EncodeFrame(c, item), c.delimiters);
            Recovers(DelimiterDecoder(c), b, b) <==>
              hit.Some? && hit.value.0 + hit.value.1 == |b| && hit.value.0 <= c.maxFrameLength && !Pending(c, b)
  {
    hide FindDelimiter, Pending;
    var d, b := DelimiterDecoder(c), EncodeFrame(c, item);
    var hit := FindDelimiter(b, c.delimiters);
    if Recovers(d, b, b) {
      assert b + [] == b;
      assert d(b + []) == Item(b, |b|);
      forall t: seq<byte>
        ensures StableAt(d, b, t)
      {
        assert d(b + t) == Item(b, |b|);
      }
      VerdictIsFinalIff(c, b);
    }
    if hit.Some? && hit.value.0 + hit.value.1 == |b| && hit.value.0 <= c.maxFrameLength && !Pending(c, b) {
      assert b[..|b|] == b;
      forall t: seq<byte>
        ensures d(b + t) == Item(b, |b|)
      {
        SettledVerdictStands(c, b, t);
      }
    }
  }

  // ----- Verdicts -----

  /** Delimiter `d` stands at `i`, and no delimiter stands earlier, or is shorter there. */
  ghost predicate FirstAt(c: Config, s: seq<byte>, i: nat, d: seq<byte>) {
    && d in c.delimiters && MatchAt(s, d, i)
    && forall e, j: nat | e in c.delimiters && MatchAt(s, e, j) :: i < j || (i == j && |d| <= |e|)
  }

  lemma FirstIsFound(c: Config, s: seq<byte>, i: nat, n: nat)
    ensures FindDelimiter(s, c.delimiters) == Some((i, n)) <==> exists d :: FirstAt(c, s, i, d) && |d| == n
  {
    hide FindDelimiter, MatchAt;
    FindDelimiterIsLeast(s, c.delimiters);
    if FindDelimiter(s, c.delimiters) == Some((i, n)) {
      var d :| d in c.delimiters && |d| == n && MatchAt(s, d, i);
      assert FirstAt(c, s, i, d);
    }
  }

  /** The first delimiter ends a frame of `n` bytes, delimiter included, and this is what it leaves of them. */
  ghost predicate Ends(c: Config, s: seq<byte>, i: nat, d: seq<byte>, x: seq<byte>, n: nat) {
    && FirstAt(c, s, i, d) && i <= c.maxFrameLength && n == i + |d| <= |s|
    && x == s[..if c.stripDelimiter then i else n]
  }

  /** A frame is what stands in front of the first delimiter, with the delimiter or without. */
  lemma FrameIff(c: Config, s: seq<byte>, x: seq<byte>, n: nat)
    ensures DecodeFrame(c, s) == Item(x, n) <==> exists i: nat, d :: Ends(c, s, i, d, x, n)
  {
    hide FindDelimiter;
    var hit := FindDelimiter(s, c.delimiters);
    if DecodeFrame(c, s) == Item(x, n) {
      var (i, k) := hit.value;
      FirstIsFound(c, s, i, k);
      var d :| FirstAt(c, s, i, d) && |d| == k;
      assert Ends(c, s, i, d, x, n);
    }
    if i: nat, d :| Ends(c, s, i, d, x, n) {
      FirstIsFound(c, s, i, |d|);
    }
  }

  /** Otherwise it is too large when more than the limit stands in front of the first delimiter, or is there without
      one, and else waits. */
  lemma NoFrameIff(c: Config, s: seq<byte>)
    ensures DecodeFrame(c, s) == Need <==>
            |s| <= c.maxFrameLength && forall d, i: nat | d in c.delimiters :: !MatchAt(s, d, i)
    ensures DecodeFrame(c, s).Fail? <==>
            if exists d, i: nat :: FirstAt(c, s, i, d)
            then exists d, i: nat :: FirstAt(c, s, i, d) && i > c.maxFrameLength
            else |s| > c.maxFrameLength
    ensures DecodeFrame(c, s).Fail? ==> DecodeFrame(c, s) == Fail(FrameTooLarge, 0)
  {
    hide FindDelimiter, MatchAt;
    FindDelimiterIsLeast(s, c.delimiters);
    var hit := FindDelimiter(s, c.delimiters);
    if hit.Some? {
      FirstIsFound(c, s, hit.value.0, hit.value.1);
      var d :| FirstAt(c, s, hit.value.0, d) && |d| == hit.value.1;
    }
  }

  class DelimiterBasedFrameDecoder {
    const config: Config

    constructor (config: Config)
      ensures this.config == config
    {
      this.config := config;
    }

    method Decode(src: BytesMut) returns (r: Result<Option<seq<byte>>>)
      modifies src
      ensures Performs(DecodeFrame(config, old(src.data)), old(src.data), r, src.data)
    {
      hide FindDelimiter;
      var hit := FindDelimiter(src.data, config.delimiters);
      FindDelimiterIsLeast(src.data, config.delimiters);
      if hit.None? {
        return if |src.data| > config.maxFrameLength then Err(FrameTooLarge) else Ok(None);
      }
      var (end, len) := hit.value;
      if end > config.maxFrameLength {
        return Err(FrameTooLarge);
      }
      var frame := src.SplitTo(end + len);
      assert frame[..end] == old(src.data)[..end];
      if config.stripDelimiter {
        frame := frame[..end];
      }
      return Ok(Some(frame));
    }

    method Encode(item: seq<byte>, dst: BytesMut) returns (r: Result<()>)
      modifies dst
      ensures Appends(Ok(EncodeFrame(config, item)), old(dst.data), r, dst.data)
    {
      dst.Extend(item);
      dst.Extend(config.delimiters[0]);
      Assoc(old(dst.data), item, config.delimiters[0]);
      return Ok(());
    }
  }
}
