/** Integers and strings as bytes, and taking them off the front of a byte sequence. */
module Bytes {
  import opened Symbols

  function Power256(width: nat): nat {
    if width == 0 then 1 else 256 * Power256(width - 1)
  }

  /** The object representation of n in `width` bytes, least significant first. */
  function LittleEndian(n: nat, width: nat): (b: seq<u8>)
    ensures |b| == width
  {
    if width == 0 then [] else [n % 256] + LittleEndian(n / 256, width - 1)
  }

  function FromLittleEndian(b: seq<u8>): nat {
    if b == [] then 0 else b[0] + 256 * FromLittleEndian(b[1..])
  }

  lemma {:induction false} LittleEndianRoundTrip(n: nat, width: nat)
    requires n < Power256(width)
    ensures FromLittleEndian(LittleEndian(n, width)) == n
    decreases width
  {
    if width > 0 {
      LittleEndianRoundTrip(n / 256, width - 1);
      assert LittleEndian(n, width)[1..] == LittleEndian(n / 256, width - 1);
    }
  }

  lemma {:induction false} FromLittleEndianBound(b: seq<u8>)
    ensures FromLittleEndian(b) < Power256(|b|)
  {
    if b != [] {
      FromLittleEndianBound(b[1..]);
    }
  }

  lemma PowersOf256()
    ensures Power256(1) == 0x100
    ensures Power256(2) == 0x1_0000
    ensures Power256(4) == 0x1_0000_0000
    ensures Power256(8) == 0x1_0000_0000_0000_0000
  {
    assert Power256(2) == 0x1_0000;
    assert Power256(4) == 256 * (256 * Power256(2));
    assert Power256(6) == 256 * (256 * Power256(4));
    assert Power256(8) == 256 * (256 * Power256(6));
  }

  // ---------------------------------------------------------------- weights of bytes

  function Bytes4(a: int, b: int, c: int, d: int): int {
    a + 0x100 * b + 0x1_0000 * c + 0x100_0000 * d
  }

  /** The four bytes of lowest weight. */
  lemma {:induction false} FirstFour(b: seq<u8>)
    requires |b| >= 4
    ensures FromLittleEndian(b)
         == Bytes4(b[0], b[1], b[2], b[3]) + 0x1_0000_0000 * FromLittleEndian(b[4..])
  {
    var c, d, e := b[1..], b[2..], b[3..];
    assert c[1..] == d && d[1..] == e && e[1..] == b[4..];
    assert FromLittleEndian(b) == b[0] + 256 * FromLittleEndian(c);
    assert FromLittleEndian(c) == b[1] + 256 * FromLittleEndian(d);
    assert FromLittleEndian(d) == b[2] + 256 * FromLittleEndian(e);
  }

  lemma {:induction false} LongWord(b: seq<u8>)
    requires |b| == 8
    ensures FromLittleEndian(b) == FromLittleEndian(b[..4]) + 0x1_0000_0000 * FromLittleEndian(b[4..])
  {
    FirstFour(b);
    FirstFour(b[..4]);
  }

  lemma TwoBytes(b: seq<u8>)
    requires |b| == 2
    ensures FromLittleEndian(b) == Bytes4(b[0], b[1], 0, 0)
  {
    assert b[1..][1..] == [];
    assert FromLittleEndian(b[1..]) == b[1];
  }

  // ---------------------------------------------------------------- integers at positions

  // The integers in two, four or eight bytes, the one of lowest weight first.

  function Int16(b: seq<u8>, at: nat): int
    requires at + 2 <= |b|
  {
    Bytes4(b[at], b[at + 1], 0, 0)
  }

  function Int32(b: seq<u8>, at: nat): int
    requires at + 4 <= |b|
  {
    Bytes4(b[at], b[at + 1], b[at + 2], b[at + 3])
  }

  function Int64(b: seq<u8>, at: nat): int
    requires at + 8 <= |b|
  {
    Int32(b, at) + 0x1_0000_0000 * Int32(b, at + 4)
  }

  lemma Inside(file: seq<u8>, at: nat, size: nat, from: nat, length: nat)
    requires at + size <= |file| && from + length <= size
    ensures file[at..at + size][from..from + length] == file[at + from..at + from + length]
  {
    var part := file[at..at + size];
    var one, other := part[from..from + length], file[at + from..at + from + length];
    forall k | 0 <= k < length
      ensures one[k] == other[k]
    {
      assert part[from + k] == file[at + (from + k)];
    }
  }

  // ---------------------------------------------------------------- C strings

  predicate NulFree(s: Str) {
    forall i :: 0 <= i < |s| ==> s[i] != 0
  }

  /** The string and its terminator. */
  predicate TextAt(b: seq<u8>, at: nat, s: Str) {
    at + |s| < |b| && b[at..at + |s|] == s && b[at + |s|] == 0
  }

  /** The bytes before the first NUL, if there is one. */
  function UpToNul(b: seq<u8>): (s: Option<Str>)
    ensures s.Some? ==> |s.value| < |b| && b[..|s.value|] == s.value && b[|s.value|] == 0 && NulFree(s.value)
    ensures s.None? ==> NulFree(b)
  {
    if b == [] then None
    else if b[0] == 0 then Some([])
    else
      var rest := UpToNul(b[1..]);
      if rest.Some? then Some([b[0]] + rest.value) else None
  }

  lemma {:induction false} UpToNulOfString(s: Str, rest: seq<u8>)
    requires NulFree(s)
    ensures UpToNul(s + [0] + rest) == Some(s)
  {
    if s != [] {
      UpToNulOfString(s[1..], rest);
      assert (s + [0] + rest)[1..] == s[1..] + [0] + rest;
      assert s == [s[0]] + s[1..];
    }
  }

  // ---------------------------------------------------------------- taking values off the front

  /** A value and the bytes that follow it, or None if the bytes do not start with one. */
  type Parsed<T> = Option<(T, seq<u8>)>

  function TakeString(b: seq<u8>): Parsed<Str> {
    var s := UpToNul(b);
    if s.None? then None else Some((s.value, b[|s.value| + 1..]))
  }

  function TakeU8(b: seq<u8>): Parsed<u8> {
    if |b| < 1 then None else Some((b[0], b[1..]))
  }

  lemma FromLittleEndianBounds(b: seq<u8>)
    ensures |b| >= 4 ==> FromLittleEndian(b[..4]) < 0x1_0000_0000
    ensures |b| >= 8 ==> FromLittleEndian(b[..8]) < 0x1_0000_0000_0000_0000
  {
    PowersOf256();
    if |b| >= 4 {
      FromLittleEndianBound(b[..4]);
    }
    if |b| >= 8 {
      FromLittleEndianBound(b[..8]);
    }
  }

  function TakeU32(b: seq<u8>): Parsed<u32> {
    FromLittleEndianBounds(b);
    if |b| < 4 then None else Some((FromLittleEndian(b[..4]), b[4..]))
  }

  function TakeU64(b: seq<u8>): Parsed<u64> {
    FromLittleEndianBounds(b);
    if |b| < 8 then None else Some((FromLittleEndian(b[..8]), b[8..]))
  }

  lemma TakeU32Back(n: u32, rest: seq<u8>)
    ensures TakeU32(LittleEndian(n, 4) + rest) == Some((n, rest))
  {
    PowersOf256();
    LittleEndianRoundTrip(n, 4);
    assert (LittleEndian(n, 4) + rest)[..4] == LittleEndian(n, 4);
  }

  lemma TakeU64Back(n: u64, rest: seq<u8>)
    ensures TakeU64(LittleEndian(n, 8) + rest) == Some((n, rest))
  {
    PowersOf256();
    LittleEndianRoundTrip(n, 8);
    assert (LittleEndian(n, 8) + rest)[..8] == LittleEndian(n, 8);
  }

  lemma TakeStringBack(s: Str, rest: seq<u8>)
    requires NulFree(s)
    ensures TakeString(s + [0] + rest) == Some((s, rest))
  {
    UpToNulOfString(s, rest);
    assert (s + [0] + rest)[|s| + 1..] == rest;
  }

  // ---------------------------------------------------------------- lists

  /** The elements one after the other, then rest. */
  function Put<T>(put: (T, seq<u8>) -> seq<u8>, xs: seq<T>, rest: seq<u8>): seq<u8> {
    if xs == [] then rest else put(xs[0], Put(put, xs[1..], rest))
  }

  /** The elements written to the end of out, in order. */
  function Append<T>(append: (seq<u8>, T) -> seq<u8>, out: seq<u8>, xs: seq<T>): seq<u8> {
    if xs == [] then out else append(Append(append, out, xs[..|xs| - 1]), xs[|xs| - 1])
  }

  function Take<T>(take: seq<u8> -> Parsed<T>, b: seq<u8>, count: nat): Parsed<seq<T>>
    decreases count
  {
    if count == 0 then Some(([], b))
    else
      var (x, b) :- take(b);
      var (xs, b) :- Take(take, b, count - 1);
      Some(([x] + xs, b))
  }

  lemma {:induction false} TakeBack<T(!new)>(
      put: (T, seq<u8>) -> seq<u8>, take: seq<u8> -> Parsed<T>, xs: seq<T>, rest: seq<u8>)
    requires forall x, r :: x in xs ==> take(put(x, r)) == Some((x, r))
    ensures Take(take, Put(put, xs, rest), |xs|) == Some((xs, rest))
  {
    if xs != [] {
      TakeBack(put, take, xs[1..], rest);
      assert take(put(xs[0], Put(put, xs[1..], rest))) == Some((xs[0], Put(put, xs[1..], rest)));
      assert xs == [xs[0]] + xs[1..];
    }
  }

  lemma {:induction false} PutThen<T(!new)>(
      put: (T, seq<u8>) -> seq<u8>, xs: seq<T>, rest: seq<u8>, more: seq<u8>)
    requires forall x, r :: put(x, r) + more == put(x, r + more)
    ensures Put(put, xs, rest) + more == Put(put, xs, rest + more)
  {
    if xs != [] {
      PutThen(put, xs[1..], rest, more);
    }
  }

  lemma {:induction false} PutOneMore<T>(put: (T, seq<u8>) -> seq<u8>, xs: seq<T>, rest: seq<u8>)
    requires xs != []
    ensures Put(put, xs, rest) == Put(put, xs[..|xs| - 1], put(xs[|xs| - 1], rest))
  {
    if |xs| > 1 {
      PutOneMore(put, xs[1..], rest);
      assert xs[1..][..|xs| - 2] == xs[..|xs| - 1][1..];
    }
  }

  lemma {:induction false} AppendIsPut<T(!new)>(
      put: (T, seq<u8>) -> seq<u8>, append: (seq<u8>, T) -> seq<u8>, out: seq<u8>, xs: seq<T>, rest: seq<u8>)
    requires forall o, x, r :: append(o, x) + r == o + put(x, r)
    ensures Append(append, out, xs) + rest == out + Put(put, xs, rest)
    decreases |xs|
  {
    if xs != [] {
      var shorter, x := xs[..|xs| - 1], xs[|xs| - 1];
      AppendIsPut(put, append, out, shorter, put(x, rest));
      PutOneMore(put, xs, rest);
    }
  }

  /** Whatever holds of every element that can be taken holds of all elements of a list. */
  lemma {:induction false} TakenHave<T(!new)>(
      take: seq<u8> -> Parsed<T>, p: T -> bool, b: seq<u8>, count: nat)
    requires forall b' :: take(b').Some? ==> p(take(b').value.0)
    requires Take(take, b, count).Some?
    ensures |Take(take, b, count).value.0| == count
    ensures forall x :: x in Take(take, b, count).value.0 ==> p(x)
    decreases count
  {
    if count > 0 {
      TakenHave(take, p, take(b).value.1, count - 1);
    }
  }
}
