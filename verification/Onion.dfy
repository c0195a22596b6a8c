/**
 Onion v3 addresses: base32 decoding through a wrapping 32-bit accumulator, the body layout
 public key, checksum, version, and the claim-binding check (src/crypto.c:394-549,
 src/network.c:65-74). Base32 is that of section 6 of RFC 4648 in lower case; the address layout is
 that of section 6 of the Tor rend-spec-v3. SHA3-256 and Ed25519 are function parameters.
 */
module Onion {
  import opened Bytes

  const B32_LEN: nat := 56
  const BODY_LEN: nat := 35
  const ONION_LEN: nat := 62
  const KEY_LEN: nat := 32
  const VERSION: Byte := 3
  /** ".onion" */
  const SUFFIX: seq<Byte> := [46, 111, 110, 105, 111, 110]
  /** ".onion checksum" */
  const CHECKSUM_CTX: seq<Byte> := [46, 111, 110, 105, 111, 110, 32, 99, 104, 101, 99, 107, 115, 117, 109]
  /** "noxtor-bind-v1" */
  const BIND_CTX: seq<Byte> := [110, 111, 120, 116, 111, 114, 45, 98, 105, 110, 100, 45, 118, 49]

  // ----- base 32 as positional notation -----

  predicate IsSymbol(c: Byte) {
    97 <= c <= 122 || 50 <= c <= 55
  }

  function SymbolValue(c: Byte): (v: nat)
    requires IsSymbol(c)
    ensures v < 32
  {
    if c >= 97 then (c - 97) as int else 26 + (c - 50) as int
  }

  function Symbol(v: nat): (c: Byte)
    requires v < 32
    ensures IsSymbol(c) && SymbolValue(c) == v
  {
    if v < 26 then (97 + v) as Byte else (24 + v) as Byte
  }

  predicate AllSymbols(s: seq<Byte>) {
    forall i :: 0 <= i < |s| ==> IsSymbol(s[i])
  }

  function Value32(s: seq<Byte>): (x: nat)
    requires AllSymbols(s)
  {
    if s == [] then 0 else Value32(s[..|s| - 1]) * 32 + SymbolValue(s[|s| - 1])
  }

  function Symbols(n: nat, x: nat): (s: seq<Byte>)
    ensures |s| == n && AllSymbols(s)
  {
    if n == 0 then [] else Symbols(n - 1, x / 32) + [Symbol(x % 32)]
  }

  lemma {:induction false} ValueOfSymbols(n: nat, x: nat)
    requires x < Pow(32, n)
    ensures Value32(Symbols(n, x)) == x
  {
    if n > 0 {
      assert Symbols(n, x)[..n - 1] == Symbols(n - 1, x / 32);
      assert x / 32 < Pow(32, n - 1);
      ValueOfSymbols(n - 1, x / 32);
    }
  }

  lemma {:induction false} SymbolsOfValue(s: seq<Byte>)
    requires AllSymbols(s)
    ensures Value32(s) < Pow(32, |s|)
    ensures Symbols(|s|, Value32(s)) == s
  {
    if s != [] {
      var hi := s[..|s| - 1];
      SymbolsOfValue(hi);
      assert Value32(s) / 32 == Value32(hi);
      assert s == hi + [s[|s| - 1]];
    }
  }

  /** Eight symbols carry as much as five bytes. */
  lemma {:induction false} EightSymbolsAreFiveBytes(k: nat)
    ensures Pow(32, 8 * k) == Pow(256, 5 * k)
  {
    if k > 0 {
      EightSymbolsAreFiveBytes(k - 1);
      PowPlus(32, 8 * (k - 1), 8);
      PowPlus(256, 5 * (k - 1), 5);
      assert Pow(32, 8) == Pow(256, 5) by {
        assert Pow(32, 2) == 1024 && Pow(32, 4) == 0x10_0000 && Pow(32, 6) == 0x4000_0000;
        assert Pow(256, 2) == 0x1_0000 && Pow(256, 4) == 0x1_0000_0000;
      }
    }
  }

  lemma {:induction false} PowPlus(base: nat, m: nat, n: nat)
    ensures Pow(base, m + n) == Pow(base, m) * Pow(base, n)
  {
    if n > 0 {
      PowPlus(base, m, n - 1);
      assert base * (Pow(base, m) * Pow(base, n - 1)) == Pow(base, m) * (base * Pow(base, n - 1));
    }
  }

  // ----- encoding and decoding whole bodies -----

  /** The standard base32 text of a 35-byte body: the same 280 bits in groups of five. */
  function EncodeBody(body: seq<Byte>): (s: seq<Byte>)
    requires |body| == BODY_LEN
    ensures |s| == B32_LEN && AllSymbols(s)
  {
    Symbols(B32_LEN, FromBigEndian(body))
  }

  function DecodeBody(s: seq<Byte>): (body: seq<Byte>)
    requires |s| == B32_LEN && AllSymbols(s)
    ensures |body| == BODY_LEN
  {
    BigEndian(BODY_LEN, Value32(s))
  }

  lemma DecodeEncodeBody(body: seq<Byte>)
    requires |body| == BODY_LEN
    ensures DecodeBody(EncodeBody(body)) == body
  {
    EightSymbolsAreFiveBytes(7);
    FromBigEndianRoundTrip(body);
    ValueOfSymbols(B32_LEN, FromBigEndian(body));
  }

  lemma EncodeDecodeBody(s: seq<Byte>)
    requires |s| == B32_LEN && AllSymbols(s)
    ensures EncodeBody(DecodeBody(s)) == s
  {
    EightSymbolsAreFiveBytes(7);
    SymbolsOfValue(s);
    BigEndianRoundTrip(BODY_LEN, Value32(s));
  }

  /** 2^k for the shift counts that occur. */
  function Shift(k: nat): (p: nat)
    requires k < 8
    ensures p > 0
  {
    if k == 0 then 1 else if k == 1 then 2 else if k == 2 then 4 else if k == 3 then 8
    else if k == 4 then 16 else if k == 5 then 32 else if k == 6 then 64 else 128
  }

  /** One round of the decoder's arithmetic: with `bits` spare bits the accumulator, although it has
      lost everything above 32 bits, still yields the next byte of the exact value. */
  lemma AccumulatorStep(value: nat, v: nat, acc: nat, bits: nat, out: seq<Byte>)
    requires v < 32 && bits < 8 && acc == value % TWO32
    requires out == BigEndian(|out|, value / Shift(bits))
    ensures (acc * 32) % TWO32 + v == (value * 32 + v) % TWO32
    ensures bits < 3 ==> out == BigEndian(|out|, (value * 32 + v) / Shift(bits + 5))
    ensures bits >= 3 ==>
              var acc' := (acc * 32) % TWO32 + v;
              out + [((acc' / Shift(bits - 3)) % 256) as Byte] == BigEndian(|out| + 1, (value * 32 + v) / Shift(bits - 3))
  {
    var next := value * 32 + v;
    WrapStep(value, v);
    if bits >= 3 {
      var p := Shift(bits - 3);
      assert next / p / 256 == value / Shift(bits);
      LowByteSurvives(next, bits - 3);
    }
  }

  lemma WrapStep(value: nat, v: nat)
    requires v < 32
    ensures (value % TWO32 * 32) % TWO32 + v == (value * 32 + v) % TWO32
  {
    // only the low 27 bits survive the shift
    var r := value % TWO32;
    var high, low := value / 0x800_0000, value % 0x800_0000;
    ModOf(value * 32 + v, high, low * 32 + v);
    ModOf(value, high / 32, 0x800_0000 * (high % 32) + low);
    ModOf(r * 32, high % 32, low * 32);
  }

  lemma ModOf(x: nat, q: nat, r: nat)
    requires r < TWO32 && x == TWO32 * q + r
    ensures x % TWO32 == r
  {
  }

  lemma LowByteSurvives(x: nat, k: nat)
    requires k < 5
    ensures (x % TWO32 / Shift(k)) % 256 == (x / Shift(k)) % 256
  {
    var p := Shift(k);
    var q, r := x / TWO32, x % TWO32;
    var m := if k == 0 then 0x100_0000 else if k == 1 then 0x80_0000 else if k == 2 then 0x40_0000
             else if k == 3 then 0x20_0000 else 0x10_0000;
    assert TWO32 == p * (256 * m);
    assert x / p == 256 * (m * q) + r / p;
  }

  /** onion_b32_decode: fails exactly outside the alphabet; the check on left-over bits never fires. */
  method OnionB32Decode(text: seq<Byte>, out: array<Byte>) returns (ok: bool)
    requires |text| >= B32_LEN && out.Length == BODY_LEN
    modifies out
    ensures ok <==> AllSymbols(text[..B32_LEN])
    ensures ok ==> out[..] == DecodeBody(text[..B32_LEN])
  {
    var acc, bits, o := 0, 0, 0;
    for i := 0 to B32_LEN
      invariant AllSymbols(text[..i])
      invariant bits < 8 && 5 * i == 8 * o + bits && o <= BODY_LEN
      invariant acc == Value32(text[..i]) % TWO32
      invariant out[..o] == BigEndian(o, Value32(text[..i]) / Shift(bits))
    {
      var c := text[i];
      assert text[..i + 1][..i] == text[..i] && text[..i + 1][i] == c;
      if !IsSymbol(c) {
        assert !IsSymbol(text[..B32_LEN][i]);
        return false;
      }
      assert AllSymbols(text[..i + 1]);
      var v := SymbolValue(c);
      ghost var value := Value32(text[..i]);
      assert Value32(text[..i + 1]) == value * 32 + v;
      AccumulatorStep(value, v, acc, bits, out[..o]);
      acc := (acc * 32) % TWO32 + v;
      bits := bits + 5;
      if bits >= 8 {
        bits := bits - 8;
        ghost var done := out[..o];
        out[o] := ((acc / Shift(bits)) % 256) as Byte;
        assert out[..o + 1] == done + [out[o]];
        o := o + 1;
      }
    }
    assert bits == 0 && o == BODY_LEN;
    assert out[..] == out[..o];
    if bits != 0 || o != BODY_LEN { return false; }
    return true;
  }

  // ----- addresses -----

  type Sha3 = seq<Byte> -> seq<Byte>

  ghost predicate IsDigest(sha3: Sha3) {
    forall b :: |sha3(b)| == 32
  }

  datatype KeyResult = Key(pub: seq<Byte>) | ErrProto | ErrCrypto

  function Checksum(sha3: Sha3, pub: seq<Byte>): (c: seq<Byte>)
    requires IsDigest(sha3)
    ensures |c| == 2
  {
    sha3(CHECKSUM_CTX + pub + [VERSION])[..2]
  }

  /** crypto_onion_pubkey on a C string. */
  function OnionPubkey(sha3: Sha3, addr: seq<Byte>): (r: KeyResult)
    requires IsDigest(sha3)
  {
    if |addr| != ONION_LEN then ErrProto
    else if addr[B32_LEN..] != SUFFIX then ErrProto
    else if !AllSymbols(addr[..B32_LEN]) then ErrProto
    else
      var body := DecodeBody(addr[..B32_LEN]);
      if body[BODY_LEN - 1] != VERSION then ErrProto
      else if Checksum(sha3, body[..KEY_LEN]) != body[KEY_LEN..KEY_LEN + 2] then ErrProto
      else Key(body[..KEY_LEN])
  }

  /** The one address of a public key. */
  function AddressOf(sha3: Sha3, pub: seq<Byte>): (addr: seq<Byte>)
    requires IsDigest(sha3) && |pub| == KEY_LEN
    ensures |addr| == ONION_LEN
  {
    EncodeBody(pub + Checksum(sha3, pub) + [VERSION]) + SUFFIX
  }

  /** validate_onion_address accepts exactly the addresses of public keys, and the key it yields is
      the one the address was made from: accepted addresses and keys correspond one to one. */
  lemma AcceptedIffAddressOfKey(sha3: Sha3, addr: seq<Byte>, pub: seq<Byte>)
    requires IsDigest(sha3) && |pub| == KEY_LEN
    ensures OnionPubkey(sha3, addr) == Key(pub) <==> addr == AddressOf(sha3, pub)
  {
    if addr == AddressOf(sha3, pub) {
      var body := pub + Checksum(sha3, pub) + [VERSION];
      assert addr[..B32_LEN] == EncodeBody(body) && addr[B32_LEN..] == SUFFIX;
      DecodeEncodeBody(body);
      assert body[..KEY_LEN] == pub && body[KEY_LEN..KEY_LEN + 2] == Checksum(sha3, pub);
    }
    if OnionPubkey(sha3, addr) == Key(pub) {
      var text := addr[..B32_LEN];
      var body := DecodeBody(text);
      EncodeDecodeBody(text);
      assert body == body[..KEY_LEN] + body[KEY_LEN..KEY_LEN + 2] + [body[BODY_LEN - 1]];
      assert addr == text + addr[B32_LEN..];
    }
  }

  /** Two distinct accepted addresses never give the same public key. */
  lemma AddressesAreInjective(sha3: Sha3, a: seq<Byte>, b: seq<Byte>)
    requires IsDigest(sha3)
    requires OnionPubkey(sha3, a).Key? && OnionPubkey(sha3, a) == OnionPubkey(sha3, b)
    ensures a == b
  {
    var pub := OnionPubkey(sha3, a).pub;
    AcceptedIffAddressOfKey(sha3, a, pub);
    AcceptedIffAddressOfKey(sha3, b, pub);
  }

  // ----- the signed claim -----

  type Verify = (seq<Byte>, seq<Byte>, seq<Byte>) -> bool

  /** onion_bind_msg: context, address, static key. */
  function BindMessage(addr: seq<Byte>, staticPub: seq<Byte>): (m: seq<Byte>)
  {
    BIND_CTX + addr + staticPub
  }

  /** The signed message determines both the address and the static key it binds. */
  lemma BindMessageIsInjective(addr: seq<Byte>, pub: seq<Byte>, addr': seq<Byte>, pub': seq<Byte>)
    requires |addr| == |addr'| == ONION_LEN
    requires BindMessage(addr, pub) == BindMessage(addr', pub')
    ensures addr == addr' && pub == pub'
  {
    var m := BindMessage(addr, pub);
    assert addr == m[14..14 + ONION_LEN] && addr' == BindMessage(addr', pub')[14..14 + ONION_LEN];
    assert pub == m[14 + ONION_LEN..] && pub' == BindMessage(addr', pub')[14 + ONION_LEN..];
  }

  /** crypto_onion_verify: the key that checks the signature comes from the claimed address itself. */
  function OnionVerify(sha3: Sha3, verify: Verify, sig: seq<Byte>, addr: seq<Byte>, staticPub: seq<Byte>): (ok: bool)
    requires IsDigest(sha3)
  {
    var k := OnionPubkey(sha3, addr);
    k.Key? && verify(sig, BindMessage(addr, staticPub), k.pub)
  }
}
