/** The text operations the HTTP parser is made of, on UTF-8 bytes. */
module HttpText {
  import opened Core
  import opened Search

  const CRLF: seq<byte> := [0x0d, 0x0a]
  const BLANK: seq<byte> := [0x0d, 0x0a, 0x0d, 0x0a]

  /** A header or trailer field. */
  type Field = (seq<byte>, seq<byte>)

  function Ascii(text: string): seq<byte> {
    seq(|text|, i requires 0 <= i < |text| => text[i] as int % 128)
  }

  // ----- White space -----

  /** Length of the character with the Unicode property White_Space at the front of `s`, or 0. */
  function SpaceAt(s: seq<byte>): (n: nat)
    ensures n <= |s|
  {
    if |s| >= 1 && (0x09 <= s[0] <= 0x0d || s[0] == 0x20) then 1
    else if |s| >= 2 && s[0] == 0xC2 && (s[1] == 0x85 || s[1] == 0xA0) then 2
    else if |s| >= 3 && WideSpace(s[0], s[1], s[2]) then 3
    else 0
  }

  predicate WideSpace(a: byte, b: byte, c: byte) {
    || (a == 0xE1 && b == 0x9A && c == 0x80)
    || (a == 0xE2 && b == 0x80 && (c <= 0x8A || c in {0xA8, 0xA9, 0xAF}) && c >= 0x80)
    || (a == 0xE2 && b == 0x81 && c == 0x9F)
    || (a == 0xE3 && b == 0x80 && c == 0x80)
  }

  /** Length of the white-space character at the end of `s`, or 0. */
  function SpaceBefore(s: seq<byte>): (n: nat)
    ensures n <= |s|
  {
    if |s| >= 1 && SpaceAt(s[|s| - 1..]) == 1 then 1
    else if |s| >= 2 && SpaceAt(s[|s| - 2..]) == 2 then 2
    else if |s| >= 3 && SpaceAt(s[|s| - 3..]) == 3 then 3
    else 0
  }

  function TrimStart(s: seq<byte>): (r: seq<byte>)
    ensures |r| <= |s|
    decreases |s|
  {
    if SpaceAt(s) == 0 then s else TrimStart(s[SpaceAt(s)..])
  }

  function TrimEnd(s: seq<byte>): (r: seq<byte>)
    ensures |r| <= |s|
    decreases |s|
  {
    if SpaceBefore(s) == 0 then s else TrimEnd(s[..|s| - SpaceBefore(s)])
  }

  function Trim(s: seq<byte>): seq<byte> { TrimEnd(TrimStart(s)) }

  /** Length of the longest front of `s` without white space. */
  function WordLen(s: seq<byte>): (n: nat)
    ensures n <= |s|
  {
    if s == [] || SpaceAt(s) > 0 then 0 else 1 + WordLen(s[1..])
  }

  /** The next white-space separated word (empty when there is none) and what follows it. */
  function NextWord(s: seq<byte>): (seq<byte>, seq<byte>) {
    var t := TrimStart(s);
    (t[..WordLen(t)], t[WordLen(t)..])
  }

  // ----- Splitting -----

  function Lines(s: seq<byte>): (lines: seq<seq<byte>>)
    ensures lines != []
    decreases |s|
  {
    match Find(s, CRLF, 0)
    case None => [s]
    case Some(i) => [s[..i]] + Lines(s[i + 2..])
  }

  /** The parts between separator bytes. */
  function Split(s: seq<byte>, separator: byte): (parts: seq<seq<byte>>)
    ensures parts != []
    decreases |s|
  {
    match Find(s, [separator], 0)
    case None => [s]
    case Some(i) => [s[..i]] + Split(s[i + 1..], separator)
  }

  // ----- Case-insensitive comparison -----

  function Lower(b: byte): byte { if 0x41 <= b <= 0x5a then b + 32 else b }

  predicate SameIgnoringCase(a: seq<byte>, b: seq<byte>) {
    |a| == |b| && forall i | 0 <= i < |a| :: Lower(a[i]) == Lower(b[i])
  }

  function Header(fields: seq<Field>, name: seq<byte>): Option<seq<byte>> {
    if fields == [] then None
    else if SameIgnoringCase(fields[0].0, name) then Some(fields[0].1)
    else Header(fields[1..], name)
  }

  // ----- Numbers -----

  function Digit(b: byte): nat {
    if 0x30 <= b <= 0x39 then b - 0x30
    else if 0x61 <= Lower(b) <= 0x66 then Lower(b) - 0x61 + 10
    else 99
  }

  predicate Digits(s: seq<byte>, base: nat) {
    s != [] && forall i | 0 <= i < |s| :: Digit(s[i]) < base
  }

  function DigitsValue(s: seq<byte>, base: nat): nat {
    if s == [] then 0 else DigitsValue(s[..|s| - 1], base) * base + Digit(s[|s| - 1])
  }

  /** Parsing a `usize`: an optional plus sign and digits whose value fits. */
  function ParseUsize(s: seq<byte>, base: nat): Option<nat> {
    var digits := if |s| > 1 && s[0] == 0x2b then s[1..] else s;
    if Digits(digits, base) && DigitsValue(digits, base) < 0x1_0000_0000_0000_0000
    then Some(DigitsValue(digits, base)) else None
  }

  // ----- Fields -----

  function ParseField(line: seq<byte>): Result<Field> {
    match Find(line, [0x3a], 0)
    case None => Err(Decode)
    case Some(i) => Ok((Trim(line[..i]), Trim(line[i + 1..])))
  }

  function ParseFields(lines: seq<seq<byte>>): Result<seq<Field>> {
    if lines == [] then Ok([])
    else if lines[0] == [] then ParseFields(lines[1..])
    else
      var f :- ParseField(lines[0]);
      var rest :- ParseFields(lines[1..]);
      Ok([f] + rest)
  }

  // ----- Properties -----

  /** The first occurrence depends only on the bytes up to its end. */
  lemma FindLocal(s: seq<byte>, s': seq<byte>, p: seq<byte>, from: nat)
    requires Find(s, p, from).Some?
    requires var end := Find(s, p, from).value + |p|; end <= |s'| && s'[..end] == s[..end]
    ensures Find(s', p, from) == Find(s, p, from)
  {
    var i := Find(s, p, from).value;
    var end := i + |p|;
    JoinCut(s, end);
    JoinCut(s', end);
    forall j | from <= j <= i
      ensures MatchAt(s', p, j) <==> MatchAt(s, p, j)
    {
      MatchExtends(s[..end], s[end..], p, j);
      MatchExtends(s[..end], s'[end..], p, j);
    }
    hide MatchAt;
    FindIs(s', p, from, i);
  }

  predicate NoCrlf(s: seq<byte>) { Find(s, CRLF, 0) == None }

  lemma NotYetCrlf(line: seq<byte>, t: seq<byte>, j: nat)
    requires j < |line| && !MatchAt(line, CRLF, j)
    ensures !MatchAt(line + (CRLF + t), CRLF, j)
  {
    if j + 2 <= |line| {
      MatchExtends(line, CRLF + t, CRLF, j);
    } else {
      var s := line + (CRLF + t);
      assert s[j + 1] == 0x0d && s[j..j + 2][1] == s[j + 1];
    }
  }

  /** A line's terminator is where it was put, whatever follows. */
  lemma LineEnd(line: seq<byte>, t: seq<byte>)
    requires NoCrlf(line)
    ensures Find(line + (CRLF + t), CRLF, 0) == Some(|line|)
  {
    MatchPlaced(line, CRLF, t);
    hide MatchAt;
    forall j | 0 <= j < |line|
      ensures !MatchAt(line + (CRLF + t), CRLF, j)
    {
      NotYetCrlf(line, t, j);
    }
    FindIs(line + (CRLF + t), CRLF, 0, |line|);
  }

  /** Splitting undoes joining a line in front. */
  lemma LinesOfJoined(line: seq<byte>, t: seq<byte>)
    requires NoCrlf(line)
    ensures Lines(line + (CRLF + t)) == [line] + Lines(t)
  {
    LineEnd(line, t);
    var s := line + (CRLF + t);
    assert s[..|line|] == line && s[|line| + 2..] == t;
  }

  /** What a CRLF ends is split the same with or without what follows. */
  lemma {:induction false} LinesAppend(s: seq<byte>, t: seq<byte>)
    ensures Lines(s + (CRLF + t)) == Lines(s) + Lines(t)
    decreases |s|
  {
    match Find(s, CRLF, 0)
    case None => LinesOfJoined(s, t);
    case Some(i) =>
      FindExtends(s, CRLF + t, CRLF, 0);
      var u := s[i + 2..];
      assert (s + (CRLF + t))[..i] == s[..i];
      assert (s + (CRLF + t))[i + 2..] == u + (CRLF + t);
      LinesAppend(u, t);
      Assoc([s[..i]], Lines(u), Lines(t));
  }

  lemma {:induction false} ParseFieldsIgnoresBlanks(lines: seq<seq<byte>>)
    ensures ParseFields(lines + [[], []]) == ParseFields(lines)
  {
    hide ParseField;
    var blanks: seq<seq<byte>> := [[], []];
    if lines == [] {
      assert lines + blanks == blanks && blanks[1..][1..] == [];
      assert blanks[1..][0] == [];
    } else {
      assert (lines + blanks)[1..] == lines[1..] + blanks;
      ParseFieldsIgnoresBlanks(lines[1..]);
    }
  }

  predicate Padding(s: seq<byte>) { forall i | 0 <= i < |s| :: s[i] == 0x20 || s[i] == 0x09 }

  lemma {:induction false} TrimPaddedStart(pad: seq<byte>, s: seq<byte>)
    requires Padding(pad) && SpaceAt(s) == 0
    ensures TrimStart(pad + s) == s
  {
    if pad == [] {
      assert pad + s == s;
    } else {
      assert (pad + s)[1..] == pad[1..] + s;
      TrimPaddedStart(pad[1..], s);
    }
  }

  lemma PadIsSpace(s: seq<byte>, pad: seq<byte>)
    requires Padding(pad) && pad != []
    ensures SpaceBefore(s + pad) == 1
    ensures (s + pad)[..|s + pad| - 1] == s + pad[..|pad| - 1]
  {
    assert (s + pad)[|s + pad| - 1..] == [pad[|pad| - 1]];
  }

  lemma {:induction false} TrimPaddedEnd(s: seq<byte>, pad: seq<byte>)
    requires Padding(pad) && SpaceBefore(s) == 0
    ensures TrimEnd(s + pad) == s
    decreases |pad|
  {
    hide SpaceBefore;
    if pad == [] {
      assert s + pad == s;
    } else {
      PadIsSpace(s, pad);
      TrimPaddedEnd(s, pad[..|pad| - 1]);
    }
  }
}
