/**
 Code points and grapheme clusters of the line editor (src/linenoise.c:180-374): how far one cursor
 movement goes on arbitrary bytes, valid UTF-8 or not.
 */
module Utf8 {
  import opened Bytes

  /** A decoded code point and the bytes it took. */
  datatype Point = Point(cp: nat, len: nat)

  /** utf8DecodeChar: invalid or truncated sequences count as one byte. */
  function DecodeChar(s: seq<Byte>): (p: Point)
    ensures p.len <= |s| && (s != [] ==> p.len >= 1)
  {
    if s == [] then Point(0, 0)
    else
      var b := s[0] as int;
      if b < 128 then Point(b, 1)
      else if 192 <= b < 224 && |s| >= 2 then Point((b % 32) * 64 + s[1] as int % 64, 2)
      else if 224 <= b < 240 && |s| >= 3 then Point((b % 16) * 4096 + s[1] as int % 64 * 64 + s[2] as int % 64, 3)
      else if 240 <= b < 248 && |s| >= 4 then
        Point((b % 8) * 262144 + s[1] as int % 64 * 4096 + s[2] as int % 64 * 64 + s[3] as int % 64, 4)
      else Point(b, 1)
  }

  /** The start of the code point that ends before pos: at most four bytes back, over continuation bytes. */
  function StartBefore(s: seq<Byte>, pos: nat, i: nat): (k: nat)
    requires i < pos <= |s|
    ensures k <= i
    decreases i
  {
    if i > 0 && pos - i < 4 && Continuation(s[i]) then StartBefore(s, pos, i - 1) else i
  }

  /** utf8DecodePrev */
  function DecodePrev(s: seq<Byte>, pos: nat): (p: Point)
    requires pos <= |s|
    ensures p.len <= pos && (pos > 0 ==> p.len >= 1)
  {
    if pos == 0 then Point(0, 0)
    else
      var i := StartBefore(s, pos, pos - 1);
      Point(DecodeChar(s[i..pos]).cp, pos - i)
  }

  /** The UTF-8 form of a code point, section 3 of RFC 3629. */
  function EncodePoint(cp: nat): (b: seq<Byte>)
    requires cp <= 0x10FFFF
    ensures 1 <= |b| <= 4
  {
    if cp < 0x80 then [cp as Byte]
    else if cp < 0x800 then [(192 + cp / 64) as Byte, (128 + cp % 64) as Byte]
    else if cp < 0x10000 then [(224 + cp / 4096) as Byte, (128 + cp / 64 % 64) as Byte, (128 + cp % 64) as Byte]
    else [(240 + cp / 262144) as Byte, (128 + cp / 4096 % 64) as Byte, (128 + cp / 64 % 64) as Byte, (128 + cp % 64) as Byte]
  }

  /** Decoding inverts the encoding, whatever follows. */
  lemma DecodeEncoded(cp: nat, rest: seq<Byte>)
    requires cp <= 0x10FFFF
    ensures DecodeChar(EncodePoint(cp) + rest) == Point(cp, |EncodePoint(cp)|)
  {
    hide DecodeChar;
    SixBits(cp);
    if cp < 0x80 {
      DecodeOne(cp, rest);
    } else if cp < 0x800 {
      DecodeTwo(cp / 64, cp % 64, rest);
    } else if cp < 0x10000 {
      DecodeThree(cp / 4096, cp / 64 % 64, cp % 64, rest);
    } else {
      DecodeFour(cp / 262144, cp / 4096 % 64, cp / 64 % 64, cp % 64, rest);
    }
  }

  lemma DecodeOne(a: nat, rest: seq<Byte>)
    requires a < 128
    ensures DecodeChar([a as Byte] + rest) == Point(a, 1)
  {
  }

  lemma DecodeTwo(a: nat, b: nat, rest: seq<Byte>)
    requires a < 32 && b < 64
    ensures DecodeChar([(192 + a) as Byte, (128 + b) as Byte] + rest) == Point(a * 64 + b, 2)
  {
  }

  lemma DecodeThree(a: nat, b: nat, c: nat, rest: seq<Byte>)
    requires a < 16 && b < 64 && c < 64
    ensures DecodeChar([(224 + a) as Byte, (128 + b) as Byte, (128 + c) as Byte] + rest) == Point(a * 4096 + b * 64 + c, 3)
  {
  }

  lemma DecodeFour(a: nat, b: nat, c: nat, d: nat, rest: seq<Byte>)
    requires a < 8 && b < 64 && c < 64 && d < 64
    ensures DecodeChar([(240 + a) as Byte, (128 + b) as Byte, (128 + c) as Byte, (128 + d) as Byte] + rest) ==
            Point(a * 262144 + b * 4096 + c * 64 + d, 4)
  {
  }

  lemma SixBits(cp: nat)
    ensures cp == cp / 64 * 64 + cp % 64
    ensures cp / 64 == cp / 4096 * 64 + cp / 64 % 64
    ensures cp / 4096 == cp / 262144 * 64 + cp / 4096 % 64
  {
  }

  /** So does decoding backwards, whatever stands before and after. */
  lemma DecodePrevEncoded(before: seq<Byte>, cp: nat, rest: seq<Byte>)
    requires cp <= 0x10FFFF
    ensures DecodePrev(before + EncodePoint(cp) + rest, |before| + |EncodePoint(cp)|) == Point(cp, |EncodePoint(cp)|)
  {
    var e := EncodePoint(cp);
    var s, n := before + e + rest, |before|;
    EncodedShape(cp);
    DecodeEncoded(cp, []);
    hide EncodePoint;
    hide DecodeChar;
    assert forall j :: n <= j < n + |e| ==> s[j] == e[j - n];
    StartIs(s, n + |e|, n + |e| - 1, n);
    assert s[n..n + |e|] == e && e + [] == e;
  }

  lemma EncodedShape(cp: nat)
    requires cp <= 0x10FFFF
    ensures var e := EncodePoint(cp); !Continuation(e[0]) && forall i :: 1 <= i < |e| ==> Continuation(e[i])
  {
  }

  lemma {:induction false} StartIs(s: seq<Byte>, pos: nat, i: nat, k: nat)
    requires k <= i < pos <= |s| && pos - k <= 4 && !Continuation(s[k]) && forall j :: k < j <= i ==> Continuation(s[j])
    ensures StartBefore(s, pos, i) == k
    decreases i
  {
    if i > k { StartIs(s, pos, i - 1, k); }
  }

  predicate IsZwj(cp: nat) {
    cp == 0x200D
  }

  predicate IsRegional(cp: nat) {
    0x1F1E6 <= cp <= 0x1F1FF
  }

  predicate IsCombining(cp: nat) {
    0x0300 <= cp <= 0x036F || 0x1AB0 <= cp <= 0x1AFF || 0x1DC0 <= cp <= 0x1DFF || 0x20D0 <= cp <= 0x20FF || 0xFE20 <= cp <= 0xFE2F
  }

  predicate Extends(cp: nat) {
    cp == 0xFE0E || cp == 0xFE0F || 0x1F3FB <= cp <= 0x1F3FF || IsZwj(cp) || IsCombining(cp)
  }

  /** Where the cluster goes on at cur, after its first code point. */
  function ClusterEnd(s: seq<Byte>, cur: nat, regional: bool): (e: nat)
    requires cur <= |s|
    ensures cur <= e <= |s|
    decreases |s| - cur
  {
    if cur == |s| then cur
    else
      var p := DecodeChar(s[cur..]);
      if IsZwj(p.cp) && cur + p.len < |s| then
        ClusterEnd(s, cur + p.len + DecodeChar(s[cur + p.len..]).len, regional)
      else if Extends(p.cp) then ClusterEnd(s, cur + p.len, regional)
      else if regional && IsRegional(p.cp) then ClusterEnd(s, cur + p.len, false)
      else cur
  }

  /** utf8NextCharLen */
  function NextCharLen(s: seq<Byte>, pos: nat): (n: nat)
    requires pos <= |s|
    ensures pos + n <= |s| && (pos < |s| ==> n >= 1)
  {
    if pos == |s| then 0
    else
      var p := DecodeChar(s[pos..]);
      ClusterEnd(s, pos + p.len, IsRegional(p.cp)) - pos
  }

  /** Where the cluster that continues at cur with code point cp begins. */
  function ClusterStart(s: seq<Byte>, cur: nat, cp: nat): (b: nat)
    requires cur <= |s|
    ensures b <= cur
    decreases cur
  {
    if cur == 0 then 0
    else
      var p := DecodePrev(s, cur);
      if IsZwj(p.cp) then
        var q := DecodePrev(s, cur - p.len);
        if q.len == 0 then cur - p.len else ClusterStart(s, cur - p.len - q.len, q.cp)
      else if Extends(cp) then ClusterStart(s, cur - p.len, p.cp)
      else if IsRegional(cp) && IsRegional(p.cp) then cur - p.len
      else cur
  }

  /** utf8PrevCharLen */
  function PrevCharLen(s: seq<Byte>, pos: nat): (n: nat)
    requires pos <= |s|
    ensures n <= pos && (pos > 0 ==> n >= 1)
  {
    if pos == 0 then 0
    else
      var p := DecodePrev(s, pos);
      pos - ClusterStart(s, pos - p.len, p.cp)
  }

  // ----- the loops -----

  lemma NextCharStarts(s: seq<Byte>, pos: nat)
    requires pos < |s|
    ensures var p := DecodeChar(s[pos..]); pos + NextCharLen(s, pos) == ClusterEnd(s, pos + p.len, IsRegional(p.cp))
  {
  }

  lemma ClusterStep(s: seq<Byte>, cur: nat, regional: bool)
    requires cur <= |s|
    ensures ClusterEnd(s, cur, regional) ==
            if cur == |s| then cur
            else
              var p := DecodeChar(s[cur..]);
              if IsZwj(p.cp) && cur + p.len < |s| then
                ClusterEnd(s, cur + p.len + DecodeChar(s[cur + p.len..]).len, regional)
              else if Extends(p.cp) then ClusterEnd(s, cur + p.len, regional)
              else if regional && IsRegional(p.cp) then ClusterEnd(s, cur + p.len, false)
              else cur
  {
  }

  /** utf8NextCharLen, the loop. */
  method NextCharLenLoop(s: seq<Byte>, pos: nat) returns (total: nat)
    requires pos <= |s|
    ensures total == NextCharLen(s, pos)
  {
    hide DecodeChar;
    hide Extends;
    hide IsZwj;
    hide IsRegional;
    if pos >= |s| { return 0; }
    NextCharStarts(s, pos);
    hide NextCharLen;
    hide ClusterEnd;
    var p := DecodeChar(s[pos..]);
    var cur := pos + p.len;
    total := p.len;
    var regional := IsRegional(p.cp);
    while cur < |s|
      invariant cur <= |s| && total == cur - pos
      invariant pos + NextCharLen(s, pos) == ClusterEnd(s, cur, regional)
      decreases |s| - cur
    {
      ClusterStep(s, cur, regional);
      var next := DecodeChar(s[cur..]);
      if IsZwj(next.cp) && cur + next.len < |s| {
        total, cur := total + next.len, cur + next.len;
        next := DecodeChar(s[cur..]);
        total, cur := total + next.len, cur + next.len;
      } else if Extends(next.cp) {
        total, cur := total + next.len, cur + next.len;
      } else if regional && IsRegional(next.cp) {
        total, cur := total + next.len, cur + next.len;
        regional := false;
      } else {
        break;
      }
    }
    ClusterStep(s, cur, regional);
  }

  method PrevCharLenLoop(s: seq<Byte>, pos: nat) returns (total: nat)
    requires pos <= |s|
    ensures total == PrevCharLen(s, pos)
  {
    hide DecodePrev;
    hide Extends;
    hide IsZwj;
    hide IsRegional;
    if pos == 0 { return 0; }
    var p := DecodePrev(s, pos);
    var cp, cur := p.cp, pos - p.len;
    total := p.len;
    while cur > 0
      invariant 0 <= cur <= |s| && total == pos - cur
      invariant pos - PrevCharLen(s, pos) == ClusterStart(s, cur, cp)
      decreases cur
    {
      var prev := DecodePrev(s, cur);
      if IsZwj(prev.cp) {
        total, cur := total + prev.len, cur - prev.len;
        prev := DecodePrev(s, cur);
        if prev.len == 0 { break; }
        total, cur, cp := total + prev.len, cur - prev.len, prev.cp;
      } else if Extends(cp) {
        total, cur, cp := total + prev.len, cur - prev.len, prev.cp;
      } else if IsRegional(cp) && IsRegional(prev.cp) {
        total, cur := total + prev.len, cur - prev.len;
        break;
      } else {
        break;
      }
    }
  }
}
