/** Finding a byte pattern. */
module Search {
  import opened Core

  predicate MatchAt(s: seq<byte>, p: seq<byte>, i: nat) {
    i + |p| <= |s| && s[i..i + |p|] == p
  }

  /** Position of the first occurrence at or behind `from`. */
  function Find(s: seq<byte>, p: seq<byte>, from: nat): (r: Option<nat>)
    ensures r.Some? ==> from <= r.value && MatchAt(s, p, r.value)
    ensures forall j | from <= j && (r.Some? ==> j < r.value) :: !MatchAt(s, p, j)
    decreases |s| - from
  {
    if from + |p| > |s| then None
    else if MatchAt(s, p, from) then Some(from)
    else Find(s, p, from + 1)
  }

  /** The defining properties of the first occurrence pin it down. */
  lemma FindIs(s: seq<byte>, p: seq<byte>, from: nat, i: nat)
    requires from <= i && MatchAt(s, p, i)
    requires forall j | from <= j < i :: !MatchAt(s, p, j)
    ensures Find(s, p, from) == Some(i)
  {
    assert !MatchAt(s, p, i) || Find(s, p, from).Some?;
  }

  lemma FindReaches(s: seq<byte>, p: seq<byte>, from: nat, i: nat)
    requires from <= i && MatchAt(s, p, i)
    ensures Find(s, p, from).Some? && Find(s, p, from).value <= i
  {
    assert !MatchAt(s, p, i) || Find(s, p, from).Some?;
  }

  lemma MatchLast(lead: seq<byte>, p: seq<byte>)
    ensures MatchAt(lead + p, p, |lead|)
  {
  }

  lemma MatchPlaced(lead: seq<byte>, p: seq<byte>, t: seq<byte>)
    ensures MatchAt(lead + (p + t), p, |lead|)
  {
  }

  lemma MatchExtends(s: seq<byte>, t: seq<byte>, p: seq<byte>, i: nat)
    requires i + |p| <= |s|
    ensures MatchAt(s + t, p, i) <==> MatchAt(s, p, i)
  {
    assert (s + t)[i..i + |p|] == s[i..i + |p|];
  }

  lemma MatchShifts(lead: seq<byte>, s: seq<byte>, p: seq<byte>, i: nat)
    ensures MatchAt(lead + s, p, |lead| + i) <==> MatchAt(s, p, i)
  {
    if i + |p| <= |s| {
      assert (lead + s)[|lead| + i..|lead| + i + |p|] == s[i..i + |p|];
    }
  }

  /** Bytes that arrive later do not move the first occurrence. */
  lemma FindExtends(s: seq<byte>, t: seq<byte>, p: seq<byte>, from: nat)
    ensures Find(s, p, from).Some? ==> Find(s + t, p, from) == Find(s, p, from)
  {
    var r := Find(s, p, from);
    if r.Some? {
      forall j | from <= j <= r.value
        ensures MatchAt(s + t, p, j) <==> MatchAt(s, p, j)
      {
        MatchExtends(s, t, p, j);
      }
      FindIs(s + t, p, from, r.value);
    }
  }

  /** Bytes put in front of the search move the occurrence by as many. */
  lemma {:induction false} FindShifts(lead: seq<byte>, s: seq<byte>, p: seq<byte>, from: nat)
    ensures var r := Find(s, p, from);
            Find(lead + s, p, |lead| + from) == if r.None? then None else Some(|lead| + r.value)
    decreases |s| - from
  {
    hide MatchAt;
    if from + |p| <= |s| {
      MatchShifts(lead, s, p, from);
      FindShifts(lead, s, p, from + 1);
    }
  }
}
