/**
 Bytes, byte strings and big-endian integers: the vocabulary shared by the wire
 format, the file-transfer protocol and the onion codec.
 */
module Bytes {

  newtype Byte = x: int | 0 <= x < 256

  datatype Option<+T> = None | Some(value: T)

  const TWO32: int := 0x1_0000_0000

  /** base^n, used to bound an n-byte big-endian number. */
  function Pow(base: nat, n: nat): nat
  {
    if n == 0 then 1 else base * Pow(base, n - 1)
  }

  /** The n low-order bytes of x, most significant first (the shifts of a serializer). */
  function BigEndian(n: nat, x: nat): (b: seq<Byte>)
    ensures |b| == n
  {
    if n == 0 then [] else BigEndian(n - 1, x / 256) + [(x % 256) as Byte]
  }

  /** The number a big-endian byte string denotes (the shifts of a parser). */
  function FromBigEndian(b: seq<Byte>): (x: nat)
  {
    if b == [] then 0 else FromBigEndian(b[..|b| - 1]) * 256 + b[|b| - 1] as int
  }

  lemma {:induction false} BigEndianRoundTrip(n: nat, x: nat)
    requires x < Pow(256, n)
    ensures FromBigEndian(BigEndian(n, x)) == x
  {
    if n > 0 {
      var b := BigEndian(n, x);
      assert b[..n - 1] == BigEndian(n - 1, x / 256);
      assert x / 256 < Pow(256, n - 1);
      BigEndianRoundTrip(n - 1, x / 256);
    }
  }

  lemma {:induction false} FromBigEndianRoundTrip(b: seq<Byte>)
    ensures FromBigEndian(b) < Pow(256, |b|)
    ensures BigEndian(|b|, FromBigEndian(b)) == b
  {
    if b != [] {
      var hi := b[..|b| - 1];
      FromBigEndianRoundTrip(hi);
      assert FromBigEndian(b) / 256 == FromBigEndian(hi);
      assert FromBigEndian(b) % 256 == b[|b| - 1] as int;
      assert b == hi + [b[|b| - 1]];
    }
  }

  lemma PowersOf256()
    ensures Pow(256, 4) == TWO32
    ensures Pow(256, 8) == 0x1_0000_0000_0000_0000
  {
    assert Pow(256, 0) == 1;
    assert Pow(256, 1) == 256;
    assert Pow(256, 2) == 0x1_0000;
    assert Pow(256, 3) == 0x100_0000;
    assert Pow(256, 4) == 0x1_0000_0000;
    assert Pow(256, 5) == 0x100_0000_0000;
    assert Pow(256, 6) == 0x1_0000_0000_0000;
    assert Pow(256, 7) == 0x100_0000_0000_0000;
  }

  /** All pieces of a stream, in order. */
  function Concat<T>(pieces: seq<seq<T>>): (s: seq<T>)
  {
    if pieces == [] then [] else pieces[0] + Concat(pieces[1..])
  }

  lemma {:induction false} ConcatAppend<T>(a: seq<seq<T>>, b: seq<seq<T>>)
    ensures Concat(a + b) == Concat(a) + Concat(b)
  {
    if a == [] {
      assert a + b == b;
    } else {
      assert (a + b)[0] == a[0] && (a + b)[1..] == a[1..] + b;
      ConcatAppend(a[1..], b);
      assert a[0] + (Concat(a[1..]) + Concat(b)) == (a[0] + Concat(a[1..])) + Concat(b);
    }
  }

  lemma ConcatOne<T>(p: seq<T>)
    ensures Concat([p]) == p
  {
    assert Concat([p]) == p + Concat<T>([]);
  }

  predicate AllZero(b: seq<Byte>) {
    forall i :: 0 <= i < |b| ==> b[i] == 0
  }

  function Zeros(n: nat): (z: seq<Byte>)
    ensures |z| == n && AllZero(z)
  {
    seq(n, _ => 0)
  }

  /** A byte of a UTF-8 sequence after its first. */
  predicate Continuation(b: Byte) {
    128 <= b < 192
  }

  // ----- the value of a C string -----

  function StrLen(s: seq<Byte>): (n: nat)
    requires 0 in s
    ensures n < |s| && s[n] == 0 && forall i :: 0 <= i < n ==> s[i] != 0
  {
    if s[0] == 0 then 0
    else
      assert 0 in s[1..];
      StrLen(s[1..]) + 1
  }

  function CString(s: seq<Byte>): (t: seq<Byte>)
    requires 0 in s
    ensures 0 !in t
  {
    s[..StrLen(s)]
  }

  lemma CStringIs(s: seq<Byte>, n: nat)
    requires n < |s| && s[n] == 0 && forall i :: 0 <= i < n ==> s[i] != 0
    ensures 0 in s && CString(s) == s[..n]
  {
    assert StrLen(s) == n;
  }
}
