/** Values shared by every component: bytes, fixed-width integers, results, and the growable byte buffer. */
module Core {

  type byte = x: int | 0 <= x < 0x100
  type u16 = x: int | 0 <= x < 0x1_0000
  type u32 = x: int | 0 <= x < 0x1_0000_0000
  /** `usize` and `u64` on a 64-bit target. */
  type usize = x: int | 0 <= x < 0x1_0000_0000_0000_0000

  /** The variants of the crate's error type; message texts are not modelled. */
  datatype ErrorKind =
    | Io | AddrParse | TaskJoin | Closed | ChannelClosed | FrameTooLarge | DatagramTooLarge
    | Decode | Encode | Pipeline | MissingDatagramPeer

  datatype Option<+T> = None | Some(value: T)

  datatype Result<+T> = Ok(value: T) | Err(error: ErrorKind) {
    predicate IsFailure() { Err? }

    function PropagateFailure<U>(): Result<U>
      requires Err?
    {
      Err(error)
    }

    function Extract(): T
      requires Ok?
    {
      value
    }
  }

  /** A growable buffer owned by one task and updated in place. */
  class BytesMut {
    var data: seq<byte>

    constructor ()
      ensures data == []
    {
      data := [];
    }

    constructor From(initial: seq<byte>)
      ensures data == initial
    {
      data := initial;
    }

    method Extend(tail: seq<byte>)
      modifies this
      ensures data == old(data) + tail
    {
      data := data + tail;
    }

    /** Removes and returns the first `at` bytes. */
    method SplitTo(at: nat) returns (front: seq<byte>)
      requires at <= |data|
      modifies this
      ensures front == old(data)[..at] && data == old(data)[at..]
      ensures old(data) == front + data
    {
      front := data[..at];
      data := data[at..];
    }
  }

  function Concat<T>(parts: seq<seq<T>>): (whole: seq<T>)
  {
    if parts == [] then [] else parts[0] + Concat(parts[1..])
  }

  lemma {:induction false} ConcatAppend<T>(xs: seq<seq<T>>, ys: seq<seq<T>>)
    ensures Concat(xs + ys) == Concat(xs) + Concat(ys)
  {
    if xs == [] {
      assert xs + ys == ys;
    } else {
      assert (xs + ys)[1..] == xs[1..] + ys;
      ConcatAppend(xs[1..], ys);
    }
  }

  lemma {:induction false} ConcatSnoc<T>(xs: seq<seq<T>>, y: seq<T>)
    ensures Concat(xs + [y]) == Concat(xs) + y
  {
    ConcatAppend(xs, [y]);
    assert Concat([y]) == y;
  }

  lemma Assoc<T>(a: seq<T>, b: seq<T>, c: seq<T>)
    ensures (a + b) + c == a + (b + c)
  {
  }

  lemma ConcatCut<T>(xs: seq<seq<T>>, i: nat)
    requires i < |xs|
    ensures Concat(xs[..i + 1]) == Concat(xs[..i]) + xs[i]
    ensures Concat(xs) == Concat(xs[..i + 1]) + Concat(xs[i + 1..])
  {
    hide Concat;
    assert xs[..i + 1] == xs[..i] + [xs[i]];
    ConcatSnoc(xs[..i], xs[i]);
    JoinCut(xs, i + 1);
    ConcatAppend(xs[..i + 1], xs[i + 1..]);
  }

  lemma CutJoined<T>(a: seq<T>, b: seq<T>)
    ensures (a + b)[..|a|] == a && (a + b)[|a|..] == b
  {
  }

  lemma RestOfJoined<T>(a: seq<T>, b: seq<T>)
    requires a != []
    ensures (a + b)[0] == a[0] && (a + b)[1..] == a[1..] + b
  {
  }

  lemma JoinCut<T>(s: seq<T>, n: nat)
    requires n <= |s|
    ensures s[..n] + s[n..] == s
  {
  }

  lemma SliceOfRest<T>(s: seq<T>, i: nat, n: nat)
    requires i + n <= |s|
    ensures s[i..i + n] == s[i..][..n]
  {
  }

  lemma SliceStands<T>(s: seq<T>, t: seq<T>, a: nat, b: nat)
    requires a <= b <= |s|
    ensures (s + t)[a..b] == s[a..b]
  {
  }

  lemma MiddleSlice<T>(a: seq<T>, b: seq<T>, c: seq<T>)
    ensures (a + (b + c))[|a|..|a| + |b|] == b
  {
  }
}
