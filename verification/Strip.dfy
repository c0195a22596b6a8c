/**
 Removing escape sequences and control characters from received text in place (src/frontend.c:48-94).
 */
module Strip {
  import opened Bytes

  const ESC: Byte := 27
  const BEL: Byte := 7
  const DEL: Byte := 127
  const BACKSLASH: Byte := 92
  const OPEN_BRACKET: Byte := 91
  const CLOSE_BRACKET: Byte := 93
  const CAPITAL_P: Byte := 80

  /** How far an OSC or DCS string is followed. */
  const LIMIT: nat := 256

  /** Text may hold anything but DEL and the C0 controls other than TAB, LF and CR. */
  predicate Clean(b: Byte) {
    b != DEL && (b >= 32 || b == 9 || b == 10 || b == 13)
  }

  /** The byte at i of a NUL-terminated string. */
  function At(s: seq<Byte>, i: nat): (b: Byte) {
    if i < |s| then s[i] else 0
  }

  predicate Param(b: Byte) {
    48 <= b <= 63 || 32 <= b <= 47
  }

  function CsiEnd(s: seq<Byte>, i: nat): (e: nat)
    requires i <= |s|
    ensures i <= e <= |s|
    decreases |s| - i
  {
    if i < |s| && Param(s[i]) then CsiEnd(s, i + 1) else i
  }

  /** ESC \ */
  predicate StringEnd(s: seq<Byte>, i: nat) {
    At(s, i) == ESC && At(s, i + 1) == BACKSLASH
  }

  /** The loop over the body of an OSC (bel) or DCS string. */
  function BodyEnd(s: seq<Byte>, i: nat, limit: nat, bel: bool): (e: nat)
    requires i <= |s|
    ensures i <= e <= |s|
    decreases |s| - i
  {
    if i < |s| && limit > 0 && !(bel && s[i] == BEL) && !StringEnd(s, i) then BodyEnd(s, i + 1, limit - 1, bel) else i
  }

  /** How many bytes the escape sequence at the front takes. */
  function Skip(s: seq<Byte>): (n: nat)
    requires s != [] && s[0] == ESC
    ensures 0 < n <= |s|
  {
    if At(s, 1) == OPEN_BRACKET then
      var e := CsiEnd(s, 2);
      if e < |s| then e + 1 else e
    else if At(s, 1) == CLOSE_BRACKET || At(s, 1) == CAPITAL_P then
      var bel := At(s, 1) == CLOSE_BRACKET;
      var e := BodyEnd(s, 2, LIMIT, bel);
      if bel && At(s, e) == BEL then e + 1 else if StringEnd(s, e) then e + 2 else e
    else if At(s, 1) != 0 then 2 else 1
  }

  /** ui_strip_ansi, out of place. */
  function Stripped(s: seq<Byte>): (r: seq<Byte>) {
    if s == [] then []
    else if s[0] == ESC then Stripped(s[Skip(s)..])
    else if Clean(s[0]) then [s[0]] + Stripped(s[1..])
    else Stripped(s[1..])
  }

  // ----- what comes out -----

  predicate AllClean(s: seq<Byte>) {
    forall i :: 0 <= i < |s| ==> Clean(s[i])
  }

  /** r is s with some bytes left out. */
  predicate Subsequence(r: seq<Byte>, s: seq<Byte>) {
    r == [] || (s != [] && ((r[0] == s[0] && Subsequence(r[1..], s[1..])) || Subsequence(r, s[1..])))
  }

  lemma {:induction false} SubsequenceOfTail(r: seq<Byte>, s: seq<Byte>, n: nat)
    requires n <= |s| && Subsequence(r, s[n..])
    ensures Subsequence(r, s)
    decreases n
  {
    if n == 0 {
      assert s[0..] == s;
    } else {
      assert s[1..][n - 1..] == s[n..];
      SubsequenceOfTail(r, s[1..], n - 1);
    }
  }

  /** The result is clean and a subsequence of the text. */
  lemma {:induction false} StrippedIsClean(s: seq<Byte>)
    ensures AllClean(Stripped(s)) && Subsequence(Stripped(s), s) && |Stripped(s)| <= |s|
    decreases |s|
  {
    if s != [] {
      var n := if s[0] == ESC then Skip(s) else 1;
      StrippedIsClean(s[n..]);
      if s[0] != ESC && Clean(s[0]) {
        assert Stripped(s)[1..] == Stripped(s[1..]);
      } else {
        SubsequenceOfTail(Stripped(s), s, n);
      }
    }
  }

  /** Clean text, and only clean text, comes out unchanged. */
  lemma {:induction false} UnchangedExactly(s: seq<Byte>)
    ensures Stripped(s) == s <==> AllClean(s)
    ensures !AllClean(s) ==> |Stripped(s)| < |s|
    decreases |s|
  {
    if s != [] {
      if s[0] != ESC && Clean(s[0]) {
        UnchangedExactly(s[1..]);
        assert s == [s[0]] + s[1..];
        assert AllClean(s) <==> AllClean(s[1..]);
      } else {
        StrippedIsClean(s[if s[0] == ESC then Skip(s) else 1..]);
        assert !Clean(s[0]);
      }
    }
  }

  lemma StripTwice(s: seq<Byte>)
    ensures Stripped(Stripped(s)) == Stripped(s)
  {
    StrippedIsClean(s);
    UnchangedExactly(Stripped(s));
  }

  /** Clean text in front stays as it is and does not affect what follows. */
  lemma {:induction false} CleanPrefix(a: seq<Byte>, s: seq<Byte>)
    requires AllClean(a)
    ensures Stripped(a + s) == a + Stripped(s)
  {
    if a == [] {
      assert a + s == s;
    } else {
      assert (a + s)[0] == a[0] && (a + s)[1..] == a[1..] + s;
      CleanPrefix(a[1..], s);
      assert a == [a[0]] + a[1..];
    }
  }

  // ----- which sequences vanish -----

  lemma {:induction false} CsiEndIs(s: seq<Byte>, i: nat, e: nat)
    requires i <= e < |s| && !Param(s[e]) && forall k :: i <= k < e ==> Param(s[k])
    ensures CsiEnd(s, i) == e
    decreases e - i
  {
    if i < e { CsiEndIs(s, i + 1, e); }
  }

  lemma Vanishes(s: seq<Byte>, n: nat)
    requires s != [] && s[0] == ESC && n == Skip(s)
    ensures Stripped(s) == Stripped(s[n..])
  {
  }

  lemma CsiSkip(params: seq<Byte>, final: Byte, rest: seq<Byte>)
    requires !Param(final) && forall i :: 0 <= i < |params| ==> Param(params[i])
    ensures var s := [ESC, OPEN_BRACKET] + params + [final] + rest;
            Skip(s) == |params| + 3 && s[|params| + 3..] == rest
  {
    var s := [ESC, OPEN_BRACKET] + params + [final] + rest;
    var e := 2 + |params|;
    assert s[e] == final && forall k :: 2 <= k < e ==> s[k] == params[k - 2];
    CsiEndIs(s, 2, e);
  }

  /** ESC [ parameters final is removed whole, between any clean text and any rest. */
  lemma CsiVanishes(a: seq<Byte>, params: seq<Byte>, final: Byte, rest: seq<Byte>)
    requires AllClean(a) && !Param(final) && forall i :: 0 <= i < |params| ==> Param(params[i])
    ensures Stripped(a + ([ESC, OPEN_BRACKET] + params + [final] + rest)) == a + Stripped(rest)
  {
    hide Stripped;
    hide Skip;
    var s := [ESC, OPEN_BRACKET] + params + [final] + rest;
    CleanPrefix(a, s);
    CsiSkip(params, final, rest);
    Vanishes(s, |params| + 3);
  }

  /** No terminator inside the body of a string, up to byte e. */
  predicate Unterminated(s: seq<Byte>, i: nat, e: nat, bel: bool) {
    forall k :: i <= k < e ==> !(bel && At(s, k) == BEL) && !StringEnd(s, k)
  }

  lemma {:induction false} BodyEndIs(s: seq<Byte>, i: nat, e: nat, limit: nat, bel: bool)
    requires i <= e <= |s| && e - i <= limit && Unterminated(s, i, e, bel)
    requires e == |s| || e - i == limit || (bel && s[e] == BEL) || StringEnd(s, e)
    ensures BodyEnd(s, i, limit, bel) == e
    decreases e - i
  {
    if i < e {
      assert At(s, i) == s[i] && !StringEnd(s, i);
      BodyEndIs(s, i + 1, e, limit - 1, bel);
    }
  }

  /** How a string may end. */
  predicate Terminator(term: seq<Byte>, bel: bool) {
    term == [ESC, BACKSLASH] || (bel && term == [BEL])
  }

  /** An OSC or DCS string with a body of at most 256 bytes is removed whole. */
  lemma StringVanishes(a: seq<Byte>, bel: bool, body: seq<Byte>, term: seq<Byte>, rest: seq<Byte>)
    requires AllClean(a) && |body| <= LIMIT && Terminator(term, bel)
    requires var s := [ESC, if bel then CLOSE_BRACKET else CAPITAL_P] + body + term + rest;
             Unterminated(s, 2, 2 + |body|, bel)
    ensures Stripped(a + ([ESC, if bel then CLOSE_BRACKET else CAPITAL_P] + body + term + rest)) == a + Stripped(rest)
  {
    var s := [ESC, if bel then CLOSE_BRACKET else CAPITAL_P] + body + term + rest;
    var e := 2 + |body|;
    CleanPrefix(a, s);
    hide Stripped;
    assert s[e] == term[0] && (|term| == 2 ==> s[e + 1] == term[1]);
    BodyEndIs(s, 2, e, LIMIT, bel);
    Vanishes(s, e + |term|);
    assert s[e + |term|..] == rest;
  }

  /** Of a longer unterminated body exactly 256 bytes are removed; what follows is text again. */
  lemma StringLimit(bel: bool, body: seq<Byte>, rest: seq<Byte>)
    requires |body| == LIMIT
    requires var s := [ESC, if bel then CLOSE_BRACKET else CAPITAL_P] + body + rest;
             Unterminated(s, 2, 2 + LIMIT + 1, bel)
    ensures Stripped([ESC, if bel then CLOSE_BRACKET else CAPITAL_P] + body + rest) == Stripped(rest)
  {
    var s := [ESC, if bel then CLOSE_BRACKET else CAPITAL_P] + body + rest;
    BodyEndIs(s, 2, 2 + LIMIT, LIMIT, bel);
    assert s[2 + LIMIT..] == rest;
  }

  // ----- in place -----

  predicate EndsAt(s: seq<Byte>, n: nat) {
    n < |s| && s[n] == 0 && forall i :: 0 <= i < n ==> s[i] != 0
  }

  /** The terminated string that starts at p. */
  ghost predicate StringAt(buf: array<Byte>, p: nat, s: seq<Byte>)
    reads buf
  {
    p + |s| < buf.Length && forall j :: p <= j <= p + |s| ==> buf[j] == At(s, j - p) && (buf[j] == 0 <==> j == p + |s|)
  }

  method SkipCsi(buf: array<Byte>, p: nat, ghost s: seq<Byte>) returns (i: nat)
    requires StringAt(buf, p, s) && |s| >= 2
    ensures var e := CsiEnd(s, 2); i == if e < |s| then e + 1 else e
  {
    i := 2;
    while buf[p + i] != 0 && Param(buf[p + i])
      invariant 2 <= i <= |s| && CsiEnd(s, 2) == CsiEnd(s, i)
      decreases |s| - i
    {
      i := i + 1;
    }
    if buf[p + i] != 0 { i := i + 1; }
  }

  method SkipString(buf: array<Byte>, p: nat, bel: bool, ghost s: seq<Byte>) returns (i: nat)
    requires StringAt(buf, p, s) && |s| >= 2
    ensures var e := BodyEnd(s, 2, LIMIT, bel);
            i == if bel && At(s, e) == BEL then e + 1 else if StringEnd(s, e) then e + 2 else e
  {
    i := 2;
    var limit := LIMIT;
    while buf[p + i] != 0 && limit > 0 && !(bel && buf[p + i] == BEL) && !(buf[p + i] == ESC && buf[p + i + 1] == BACKSLASH)
      invariant 2 <= i <= |s| && 0 <= limit <= LIMIT && BodyEnd(s, 2, LIMIT, bel) == BodyEnd(s, i, limit, bel)
      decreases |s| - i
    {
      i, limit := i + 1, limit - 1;
    }
    if bel && buf[p + i] == BEL {
      i := i + 1;
    } else if buf[p + i] == ESC && buf[p + i + 1] == BACKSLASH {
      i := i + 2;
    }
  }

  /** Past the escape sequence at p; nothing beyond the terminator is read. */
  method SkipEscape(buf: array<Byte>, p: nat, ghost s: seq<Byte>) returns (n: nat)
    requires StringAt(buf, p, s) && s != [] && s[0] == ESC
    ensures n == Skip(s)
  {
    assert buf[p + 1] == At(s, 1);
    if buf[p + 1] == OPEN_BRACKET {
      n := SkipCsi(buf, p, s);
    } else if buf[p + 1] == CLOSE_BRACKET || buf[p + 1] == CAPITAL_P {
      n := SkipString(buf, p, buf[p + 1] == CLOSE_BRACKET, s);
    } else if buf[p + 1] != 0 {
      n := 2;
    } else {
      n := 1;
    }
  }

  lemma StrippedStep(s: seq<Byte>, p: nat)
    requires p < |s|
    ensures Stripped(s[p..]) ==
            if s[p] == ESC then Stripped(s[p + Skip(s[p..])..])
            else (if Clean(s[p]) then [s[p]] else []) + Stripped(s[p + 1..])
  {
    assert s[p..][0] == s[p] && s[p..][1..] == s[p + 1..];
    if s[p] == ESC { assert s[p..][Skip(s[p..])..] == s[p + Skip(s[p..])..]; }
  }

  lemma IsStringAt(buf: array<Byte>, p: nat, s: seq<Byte>)
    requires p <= |s| < buf.Length && buf[|s|] == 0 && forall i :: p <= i < |s| ==> buf[i] == s[i] != 0
    ensures StringAt(buf, p, s[p..])
  {
  }

  /** ui_strip_ansi: equal to the out-of-place version; the bytes after the new terminator are untouched. */
  method StripAnsi(buf: array<Byte>, n: nat) returns (dst: nat)
    requires EndsAt(buf[..], n)
    modifies buf
    ensures dst <= n && buf[..dst] == Stripped(old(buf[..n])) && buf[dst] == 0
    ensures forall i :: dst < i < buf.Length ==> buf[i] == old(buf[i])
  {
    hide Stripped;
    hide Skip;
    hide StringAt;
    ghost var s, done := buf[..n], [];
    assert forall i :: 0 <= i < n ==> s[i] == buf[..][i];
    assert buf[..][n] == 0;
    dst := 0;
    var src := 0;
    assert s[0..] == s;
    while buf[src] != 0
      invariant |done| == dst <= src <= n && buf[n] == 0
      invariant forall i :: 0 <= i < dst ==> buf[i] == done[i]
      invariant forall i :: dst <= i < buf.Length ==> buf[i] == old(buf[i])
      invariant forall i :: src <= i < n ==> buf[i] == s[i] != 0
      invariant Stripped(s) == done + Stripped(s[src..])
      decreases n - src
    {
      StrippedStep(s, src);
      IsStringAt(buf, src, s);
      if buf[src] == ESC {
        var skip := SkipEscape(buf, src, s[src..]);
        src := src + skip;
      } else if !Clean(buf[src]) {
        src := src + 1;
      } else {
        done := done + [buf[src]];
        buf[dst] := buf[src];
        dst, src := dst + 1, src + 1;
      }
    }
    assert s[src..] == [] && Stripped([]) == [] by { UnchangedExactly([]); }
    buf[dst] := 0;
    assert buf[..dst] == done;
  }
}
