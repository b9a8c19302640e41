/** What the HTTP parser's text operations mean: letters compared without case, white space by code point, lists by
    their separators, numbers by their digits. */
module HttpTextLaws {
  import opened Core
  import opened HttpText
  import opened Search
  import opened Utf8

  // ----- Letters -----

  /** The same byte, or the upper-case and the lower-case form of one ASCII letter. */
  predicate SameLetter(a: byte, b: byte) {
    a == b || (0x41 <= a <= 0x5a && b == a + 32) || (0x41 <= b <= 0x5a && a == b + 32)
  }

  lemma SameIgnoringCaseIff(a: seq<byte>, b: seq<byte>)
    ensures SameIgnoringCase(a, b) <==> |a| == |b| && forall i | 0 <= i < |a| :: SameLetter(a[i], b[i])
  {
    if SameIgnoringCase(a, b) {
      forall i | 0 <= i < |a|
        ensures SameLetter(a[i], b[i])
      {
        assert Lower(a[i]) == Lower(b[i]);
      }
    }
  }

  lemma SameNames(a: seq<byte>, b: seq<byte>, name: seq<byte>)
    requires SameIgnoringCase(a, b)
    ensures SameIgnoringCase(a, name) <==> SameIgnoringCase(b, name)
  {
    hide Lower;
  }

  // ----- White space, lists and numbers -----

  /** The code points with the Unicode property White_Space. */
  predicate WhiteSpace(c: nat) {
    || 0x9 <= c <= 0xd || c in {0x20, 0x85, 0xa0, 0x1680} || 0x2000 <= c <= 0x200a
    || c in {0x2028, 0x2029, 0x202f, 0x205f, 0x3000}
  }

  lemma TwoByteSpace(a: byte, b: byte)
    requires 0xc2 <= a <= 0xdf && Tail(b)
    ensures WhiteSpace(Join2(a, b)) <==> a == 0xc2 && (b == 0x85 || b == 0xa0)
  {
    ShiftedBack(a % 32, b);
  }

  lemma ThreeByteSpace(a: byte, b: byte, c: byte)
    requires ThreeByteHead(a, b) && Tail(c)
    ensures WhiteSpace(Join3(a, b, c)) <==> WideSpace(a, b, c)
  {
    ThreeByteHeads(a, b);
    var head := Shifted(a % 16, b);
    ShiftedBack(a % 16, b);
    ShiftedBack(head, c);
    assert Join3(a, b, c) == head * 64 + c % 64;
  }

  lemma FourByteSpace(a: byte, b: byte, c: byte, d: byte)
    requires FourByteHead(a, b) && Tail(c) && Tail(d)
    ensures !WhiteSpace(Join4(a, b, c, d))
  {
    assert Shifted(a % 8, b) >= 0x10;
  }

  /** White space is recognised by its code point. */
  lemma SpaceIff(s: seq<byte>)
    ensures SpaceAt(s) > 0 <==> CharLen(s) > 0 && WhiteSpace(CodePoint(s))
    ensures SpaceAt(s) > 0 ==> SpaceAt(s) == CharLen(s)
  {
    hide WhiteSpace, Join2, Join3, Join4;
    if CharLen(s) == 1 {
      assert WhiteSpace(s[0]) <==> 0x9 <= s[0] <= 0xd || s[0] == 0x20 by {
        AsciiSpace(s[0]);
      }
    } else if CharLen(s) == 2 {
      TwoByteSpace(s[0], s[1]);
    } else if CharLen(s) == 3 {
      ThreeByteSpace(s[0], s[1], s[2]);
    } else if CharLen(s) == 4 {
      FourByteSpace(s[0], s[1], s[2], s[3]);
    }
  }

  lemma AsciiSpace(b: byte)
    requires b <= 0x7f
    ensures WhiteSpace(b) <==> 0x9 <= b <= 0xd || b == 0x20
  {
  }

  /** Nothing but white space. */
  predicate Blank(s: seq<byte>)
    decreases |s|
  {
    s == [] || (SpaceAt(s) > 0 && Blank(s[SpaceAt(s)..]))
  }

  lemma {:induction false} BlankAppend(s: seq<byte>, t: seq<byte>)
    requires Blank(s) && Blank(t)
    ensures Blank(s + t)
    decreases |s|
  {
    if s == [] {
      assert s + t == t;
    } else {
      SpaceStands(s, t);
      assert (s + t)[SpaceAt(s)..] == s[SpaceAt(s)..] + t;
      hide SpaceAt;
      BlankAppend(s[SpaceAt(s)..], t);
    }
  }

  lemma SpaceStands(s: seq<byte>, t: seq<byte>)
    requires SpaceAt(s) > 0
    ensures SpaceAt(s + t) == SpaceAt(s)
  {
    var u := s + t;
    assert forall i | 0 <= i < |s| :: u[i] == s[i];
  }

  lemma {:induction false} TrimStartIs(s: seq<byte>)
    ensures exists a :: Blank(a) && s == a + TrimStart(s)
    ensures SpaceAt(TrimStart(s)) == 0
    decreases |s|
  {
    hide SpaceAt, Blank;
    if SpaceAt(s) == 0 {
      NothingIsBlank();
      assert s == [] + s;
    } else {
      var k := SpaceAt(s);
      TrimStartIs(s[k..]);
      var a :| Blank(a) && s[k..] == a + TrimStart(s[k..]);
      JoinCut(s, k);
      Assoc(s[..k], a, TrimStart(s[k..]));
      WholeSpace(s);
      BlankAppend(s[..k], a);
      assert s == (s[..k] + a) + TrimStart(s);
    }
  }

  lemma NothingIsBlank()
    ensures Blank([])
  {
  }

  lemma WholeSpace(s: seq<byte>)
    requires SpaceAt(s) > 0
    ensures Blank(s[..SpaceAt(s)])
  {
    var k := SpaceAt(s);
    assert forall i | 0 <= i < k :: s[..k][i] == s[i];
    assert SpaceAt(s[..k]) == k && s[..k][k..] == [];
  }

  lemma {:induction false} TrimEndIs(s: seq<byte>)
    ensures exists b :: Blank(b) && s == TrimEnd(s) + b
    ensures SpaceBefore(TrimEnd(s)) == 0
    decreases |s|
  {
    if SpaceBefore(s) == 0 {
      assert Blank([]) && s == s + [];
    } else {
      var n := |s| - SpaceBefore(s);
      TrimEndIs(s[..n]);
      var b :| Blank(b) && s[..n] == TrimEnd(s[..n]) + b;
      JoinCut(s, n);
      Assoc(TrimEnd(s[..n]), b, s[n..]);
      EndSpace(s);
      BlankAppend(b, s[n..]);
      assert s == TrimEnd(s) + (b + s[n..]);
    }
  }

  lemma EndSpace(s: seq<byte>)
    requires SpaceBefore(s) > 0
    ensures Blank(s[|s| - SpaceBefore(s)..])
  {
    var t := s[|s| - SpaceBefore(s)..];
    assert SpaceAt(t) == |t| && t[|t|..] == [];
    hide SpaceAt;
    assert Blank([]);
  }

  lemma ShorterStaysPlain(s: seq<byte>, n: nat)
    requires SpaceAt(s) == 0 && n <= |s|
    ensures SpaceAt(s[..n]) == 0
  {
    if SpaceAt(s[..n]) > 0 {
      JoinCut(s, n);
      SpaceStands(s[..n], s[n..]);
    }
  }

  /** Trimming takes white space off both ends, and all of it. */
  lemma TrimIs(s: seq<byte>)
    ensures exists a, b :: Blank(a) && Blank(b) && s == a + (Trim(s) + b)
    ensures SpaceAt(Trim(s)) == 0 && SpaceBefore(Trim(s)) == 0
  {
    hide SpaceAt, SpaceBefore, Blank, TrimStart, TrimEnd;
    TrimStartIs(s);
    var t := TrimStart(s);
    var a :| Blank(a) && s == a + t;
    TrimEndIs(t);
    var b :| Blank(b) && t == TrimEnd(t) + b;
    CutJoined(TrimEnd(t), b);
    ShorterStaysPlain(t, |TrimEnd(t)|);
    assert s == a + (Trim(s) + b);
  }

  /** The parts of a list with their separators between them. */
  function JoinedBy(parts: seq<seq<byte>>, separator: seq<byte>): seq<byte>
    requires parts != []
  {
    if |parts| == 1 then parts[0] else parts[0] + (separator + JoinedBy(parts[1..], separator))
  }

  lemma JoinedMore(first: seq<byte>, rest: seq<seq<byte>>, separator: seq<byte>)
    requires rest != []
    ensures JoinedBy([first] + rest, separator) == first + (separator + JoinedBy(rest, separator))
  {
    assert ([first] + rest)[1..] == rest;
  }

  /** Splitting is at every separator and nowhere else. */
  lemma {:induction false} SplitIs(s: seq<byte>, separator: byte)
    ensures JoinedBy(Split(s, separator), [separator]) == s
    ensures forall part | part in Split(s, separator) :: separator !in part
    decreases |s|
  {
    NotInFront(s, separator);
    hide Find, JoinedBy;
    match Find(s, [separator], 0)
    case None => OnePart(s, [separator]);
    case Some(k) =>
      SplitIs(s[k + 1..], separator);
      JoinedMore(s[..k], Split(s[k + 1..], separator), [separator]);
      assert s == s[..k] + ([separator] + s[k + 1..]);
  }

  lemma OnePart(s: seq<byte>, separator: seq<byte>)
    ensures JoinedBy([s], separator) == s
  {
  }

  lemma NotInFront(s: seq<byte>, b: byte)
    ensures match Find(s, [b], 0)
            case None => b !in s
            case Some(k) => k < |s| && s[k] == b && b !in s[..k]
  {
    forall j | 0 <= j < |s| && s[j] == b
      ensures MatchAt(s, [b], j)
    {
    }
    if Find(s, [b], 0).Some? {
      var k := Find(s, [b], 0).value;
      assert s[k..k + 1][0] == s[k];
    }
  }

  /** The lines of a text with their CRLF between them, none of them holding another. */
  lemma {:induction false} LinesAre(s: seq<byte>)
    ensures JoinedBy(Lines(s), CRLF) == s
    ensures forall line | line in Lines(s) :: NoCrlf(line)
    decreases |s|
  {
    match Find(s, CRLF, 0)
    case None => OnePart(s, CRLF);
    case Some(k) =>
      NoCrlfInFront(s, k);
      hide JoinedBy, Find, NoCrlf;
      LinesAre(s[k + 2..]);
      JoinedMore(s[..k], Lines(s[k + 2..]), CRLF);
      assert s[k..k + 2] == CRLF;
      assert s == s[..k] + (CRLF + s[k + 2..]);
  }

  lemma NoCrlfInFront(s: seq<byte>, k: nat)
    requires Find(s, CRLF, 0) == Some(k)
    ensures NoCrlf(s[..k])
  {
    forall j: nat
      ensures !MatchAt(s[..k], CRLF, j)
    {
      if j + 2 <= k {
        JoinCut(s, k);
        MatchExtends(s[..k], s[k..], CRLF, j);
      }
    }
  }

  /** A field line is a name and a value around its first colon, both trimmed; a line without a colon is none. */
  lemma FieldIs(line: seq<byte>, k: nat)
    ensures 0x3a !in line ==> ParseField(line) == Err(Decode)
    ensures k < |line| && line[k] == 0x3a && 0x3a !in line[..k] ==>
              ParseField(line) == Ok((Trim(line[..k]), Trim(line[k + 1..])))
  {
    hide Trim, Find;
    NotInFront(line, 0x3a);
    if k < |line| && line[k] == 0x3a && 0x3a !in line[..k] {
      forall j | 0 <= j < k
        ensures !MatchAt(line, [0x3a], j)
      {
        assert line[..k][j] == line[j] == line[j..j + 1][0];
      }
      FindIs(line, [0x3a], 0, k);
    }
  }

  /** Empty lines among the fields are skipped, wherever they stand. */
  lemma {:induction false} EmptyLinesAreSkipped(lines: seq<seq<byte>>, more: seq<seq<byte>>)
    ensures ParseFields(lines + ([[]] + more)) == ParseFields(lines + more)
  {
    hide ParseField;
    var blank: seq<byte> := [];
    if lines == [] {
      assert lines + more == more && lines + ([blank] + more) == [blank] + more;
      assert ([blank] + more)[1..] == more;
    } else {
      RestOfJoined(lines, more);
      RestOfJoined(lines, [blank] + more);
      EmptyLinesAreSkipped(lines[1..], more);
    }
  }

  /** The value of a digit: decimal, or hexadecimal in either case. */
  lemma DigitIs(b: byte)
    ensures Digit(b) == if 0x30 <= b <= 0x39 then b - 0x30
                        else if 0x41 <= b <= 0x46 then b - 0x41 + 10
                        else if 0x61 <= b <= 0x66 then b - 0x61 + 10
                        else 99
  {
  }

  /** A number is digits of the base, perhaps behind a plus sign, whose value fits 64 bits. */
  lemma ParseUsizeIff(s: seq<byte>, base: nat, n: nat)
    requires base <= 16
    ensures ParseUsize(s, base) == Some(n) <==>
            n < 0x1_0000_0000_0000_0000 && exists digits :: IsNumber(s, digits, base) && DigitsValue(digits, base) == n
  {
    hide DigitsValue;
    if ParseUsize(s, base) == Some(n) {
      var digits := if |s| > 1 && s[0] == 0x2b then s[1..] else s;
      assert IsNumber(s, digits, base);
    }
    if digits :| IsNumber(s, digits, base) && DigitsValue(digits, base) == n {
      assert Digit(digits[0]) < base;
      assert s != digits ==> s[1..] == digits;
    }
  }

  predicate IsNumber(s: seq<byte>, digits: seq<byte>, base: nat) {
    (s == digits || s == [0x2b] + digits) && Digits(digits, base)
  }
}
