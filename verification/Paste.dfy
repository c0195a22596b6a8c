/**
 Bracketed paste (src/linenoise.c:1804-1904): bytes are read until ESC[201~, line ends are normalised, and the
 text is inserted whole or not at all.
 */
module Paste {
  import opened Bytes
  import opened Utf8
  import opened Editor
  import opened EditBuffer

  const ESC: Byte := 27
  const CR: Byte := 13
  const LF: Byte := 10

  /** ESC [ 2 0 1 ~ */
  const END: seq<Byte> := [27, 91, 50, 48, 49, 126]

  const PASTE_MAX_BYTES: nat := 1048576
  const FOLD_THRESHOLD: nat := 200

  // ----- what the scanner is to find -----

  predicate MarkerAt(s: seq<Byte>, k: nat) {
    k + 6 <= |s| && s[k..k + 6] == END
  }

  /** The first place at or after i where the end marker stands, or |s|. */
  function FindEnd(s: seq<Byte>, i: nat): (k: nat)
    decreases |s| - i
  {
    if i + 6 > |s| then |s| else if MarkerAt(s, i) then i else FindEnd(s, i + 1)
  }

  predicate Terminated(s: seq<Byte>) {
    FindEnd(s, 0) < |s|
  }

  /** The length of the longest beginning of the marker, of at most m bytes, that s ends in. */
  function PartialEnd(s: seq<Byte>, m: nat): (k: nat)
    requires m <= 6
    ensures k <= m && k <= |s|
  {
    if m <= |s| && s[|s| - m..] == END[..m] then m else if m == 0 then 0 else PartialEnd(s, m - 1)
  }

  /** The pasted bytes: those before the marker; without one, all but a trailing beginning of it. */
  function Body(s: seq<Byte>): (b: seq<Byte>) {
    if Terminated(s) then s[..FindEnd(s, 0)] else s[..|s| - PartialEnd(s, 5)]
  }

  /** How much of the stream is read. */
  function Used(s: seq<Byte>): (n: nat) {
    if Terminated(s) then FindEnd(s, 0) + 6 else |s|
  }

  lemma {:induction false} FindEndMeans(s: seq<Byte>, i: nat)
    ensures FindEnd(s, i) < |s| ==> i <= FindEnd(s, i) && MarkerAt(s, FindEnd(s, i))
    ensures forall k :: i <= k < FindEnd(s, i) ==> !MarkerAt(s, k)
    decreases |s| - i
  {
    if i + 6 <= |s| && !MarkerAt(s, i) { FindEndMeans(s, i + 1); }
  }

  /** A stream is the body, the marker and the rest exactly when the marker does not stand earlier. */
  lemma BodyIsBeforeFirstMarker(body: seq<Byte>, rest: seq<Byte>)
    ensures Body(body + END + rest) == body <==> forall k :: 0 <= k < |body| ==> !MarkerAt(body + END + rest, k)
    ensures Body(body + END + rest) == body ==> Used(body + END + rest) == |body| + 6
  {
    var s := body + END + rest;
    FindEndMeans(s, 0);
    assert MarkerAt(s, |body|);
    var k := FindEnd(s, 0);
    assert k <= |body|;
    assert Body(s) == s[..k];
    assert k == |body| ==> s[..k] == body;
  }

  // ----- the scanner's state: how much of the marker the bytes read so far end in -----

  /** The bytes read up to n end in a beginning of the marker that starts at k. */
  predicate Starts(s: seq<Byte>, k: nat, n: nat) {
    k <= n <= |s| && n - k <= 6 && s[k..n] == END[..n - k]
  }

  /** After n bytes: the only open match is the last m bytes, and no marker has been completed. */
  predicate Scanned(s: seq<Byte>, n: nat, m: nat) {
    && m < 6 && m <= n <= |s|
    && Starts(s, n - m, n)
    && (forall k :: 0 <= k < n && k != n - m ==> !Starts(s, k, n))
    && (forall k :: 0 <= k <= n - 6 ==> !MarkerAt(s, k))
  }

  lemma StartsShorter(s: seq<Byte>, k: nat, n: nat)
    requires k <= n && Starts(s, k, n + 1)
    ensures Starts(s, k, n) && s[n] == END[n - k]
  {
    assert s[k..n] == s[k..n + 1][..n - k];
    assert END[..n + 1 - k][..n - k] == END[..n - k];
    assert s[n] == s[k..n + 1][n - k];
  }

  lemma StartsLonger(s: seq<Byte>, k: nat, n: nat)
    requires Starts(s, k, n) && n < |s| && n - k < 6 && s[n] == END[n - k]
    ensures Starts(s, k, n + 1)
  {
    assert s[k..n + 1] == s[k..n] + [s[n]];
    assert END[..n + 1 - k] == END[..n - k] + [END[n - k]];
  }

  /** Two open matches would put ESC inside the marker. */
  lemma OneOpenMatch(s: seq<Byte>, k: nat, n: nat, m: nat)
    requires Scanned(s, n, m) && k <= n && Starts(s, k, n)
    ensures k == n || k == n - m
  {
  }

  /** Which match is open after one more byte: no failure table is needed. */
  function NextMatch(m: nat, c: Byte): (m': nat)
    requires m < 6
  {
    if c == END[m] then m + 1 else if c == ESC then 1 else 0
  }

  /** The byte after the open match decides: it completes the marker, extends the match, or restarts it. */
  lemma ScanStep(s: seq<Byte>, n: nat, m: nat)
    requires Scanned(s, n, m) && n < |s|
    ensures var m' := NextMatch(m, s[n]);
            if m' == 6 then n >= 5 && MarkerAt(s, n - 5) && (forall k :: 0 <= k < n - 5 ==> !MarkerAt(s, k))
            else Scanned(s, n + 1, m')
  {
    var m' := NextMatch(m, s[n]);
    if s[n] == END[m] { StartsLonger(s, n - m, n); }
    var n' := n + 1;
    forall k | 0 <= k <= n && Starts(s, k, n')
      ensures k == n' - m'
    {
      StartsShorter(s, k, n);
      OneOpenMatch(s, k, n, m);
    }
    NoMarkerYet(s, n, m);
    if m' != 6 { OpenMatchFits(s, n, m); }
  }

  lemma OpenMatchFits(s: seq<Byte>, n: nat, m: nat)
    requires Scanned(s, n, m) && n < |s| && NextMatch(m, s[n]) < 6
    ensures NextMatch(m, s[n]) <= n + 1 && Starts(s, n + 1 - NextMatch(m, s[n]), n + 1)
  {
    if s[n] == END[m] {
      StartsLonger(s, n - m, n);
    } else if s[n] == ESC {
      assert s[n..n + 1] == END[..1];
    }
  }

  lemma NoMarkerYet(s: seq<Byte>, n: nat, m: nat)
    requires Scanned(s, n, m) && n < |s|
    ensures NextMatch(m, s[n]) != 6 ==> n < 5 || !MarkerAt(s, n - 5)
  {
    if n >= 5 && MarkerAt(s, n - 5) {
      assert Starts(s, n - 5, n + 1);
      StartsShorter(s, n - 5, n);
      OneOpenMatch(s, n - 5, n, m);
    }
  }

  lemma {:induction false} FindEndIs(s: seq<Byte>, i: nat, k: nat)
    requires i <= k && MarkerAt(s, k) && forall j :: i <= j < k ==> !MarkerAt(s, j)
    ensures FindEnd(s, i) == k
    decreases k - i
  {
    if i < k { FindEndIs(s, i + 1, k); }
  }

  lemma {:induction false} PartialEndIs(s: seq<Byte>, m: nat, bound: nat)
    requires m <= bound <= 5 && Scanned(s, |s|, m)
    ensures PartialEnd(s, bound) == m
    decreases bound
  {
    if bound > m {
      if bound <= |s| { assert !Starts(s, |s| - bound, |s|); }
      PartialEndIs(s, m, bound - 1);
    }
  }

  lemma EndOfStream(s: seq<Byte>, m: nat)
    requires Scanned(s, |s|, m)
    ensures Body(s) == s[..|s| - m] && Used(s) == |s|
  {
    FindEndMeans(s, 0);
    PartialEndIs(s, m, 5);
  }

  lemma MarkerFound(s: seq<Byte>, k: nat)
    requires MarkerAt(s, k) && forall j :: 0 <= j < k ==> !MarkerAt(s, j)
    ensures Body(s) == s[..k] && Used(s) == k + 6
  {
    FindEndIs(s, 0, k);
  }

  lemma ScanText(s: seq<Byte>, n: nat, m: nat)
    ensures Scanned(s, 0, 0)
    ensures Scanned(s, n, m) ==> s[..n] == s[..n - m] + END[..m]
  {
    assert Starts(s, 0, 0);
  }

  // ----- line ends -----

  /** How many bytes make up the first character of a text: two for CR LF. */
  function Eaten(s: seq<Byte>): (n: nat)
    requires s != []
    ensures 0 < n <= |s|
  {
    if s[0] == CR && |s| > 1 && s[1] == LF then 2 else 1
  }

  function Normalize(s: seq<Byte>): (r: seq<Byte>)
    ensures |r| <= |s| && (s != [] ==> r != [])
  {
    if s == [] then [] else [if s[0] == CR then LF else s[0]] + Normalize(s[Eaten(s)..])
  }

  lemma {:induction false} NormalizeHasNoCr(s: seq<Byte>)
    ensures CR !in Normalize(s)
    ensures CR !in s ==> Normalize(s) == s
    decreases |s|
  {
    if s != [] { NormalizeHasNoCr(s[Eaten(s)..]); }
  }

  /** Cutting a text anywhere but inside a CR LF pair cuts its normal form. */
  lemma {:induction false} NormalizeSplits(a: seq<Byte>, b: seq<Byte>)
    requires a == [] || b == [] || !(a[|a| - 1] == CR && b[0] == LF)
    ensures Normalize(a + b) == Normalize(a) + Normalize(b)
    decreases |a|
  {
    if a == [] {
      assert a + b == b;
    } else {
      var s := a + b;
      assert s[0] == a[0] && Eaten(s) == Eaten(a);
      assert s[Eaten(a)..] == a[Eaten(a)..] + b;
      NormalizeSplits(a[Eaten(a)..], b);
    }
  }

  /** Text with LF line ends, written with another line end. */
  function WithLineEnd(text: seq<Byte>, eol: seq<Byte>): (s: seq<Byte>) {
    if text == [] then [] else (if text[0] == LF then eol else [text[0]]) + WithLineEnd(text[1..], eol)
  }

  /** The same text arrives whichever line end it was copied with. */
  lemma {:induction false} LineEndsDoNotMatter(text: seq<Byte>, eol: seq<Byte>)
    requires CR !in text && (eol == [LF] || eol == [CR] || eol == [CR, LF])
    ensures Normalize(WithLineEnd(text, eol)) == text
  {
    hide Normalize;
    if text != [] {
      var head := if text[0] == LF then eol else [text[0]];
      var rest := WithLineEnd(text[1..], eol);
      LineEndsDoNotMatter(text[1..], eol);
      assert eol == [CR] && rest != [] ==> rest[0] != LF;
      NormalizeSplits(head, rest);
      NormalizeOne(text[0], eol);
    } else {
      NormalizeNone();
    }
  }

  lemma NormalizeNone()
    ensures Normalize([]) == []
  {
  }

  lemma NormalizeOne(c: Byte, eol: seq<Byte>)
    requires c != CR && (eol == [LF] || eol == [CR] || eol == [CR, LF])
    ensures Normalize(if c == LF then eol else [c]) == [c]
  {
    var s := if c == LF then eol else [c];
    assert |s| == 1 ==> s[1..] == [];
    assert |s| == 2 ==> s[2..] == [];
  }

  lemma NormalizeAt(s: seq<Byte>, r: nat)
    requires r < |s|
    ensures var n := if s[r] == CR && r + 1 < |s| && s[r + 1] == LF then 2 else 1;
            Normalize(s[r..]) == [if s[r] == CR then LF else s[r]] + Normalize(s[r + n..])
  {
    assert s[r..][Eaten(s[r..])..] == s[r + Eaten(s[r..])..];
  }

  predicate Rewritten(was: seq<Byte>, done: seq<Byte>, r: nat) {
    r <= |was| && |done| <= r && Normalize(was) == done + Normalize(was[r..])
  }

  lemma RewrittenStep(was: seq<Byte>, done: seq<Byte>, r: nat)
    requires Rewritten(was, done, r) && r < |was|
    ensures var n := if was[r] == CR && r + 1 < |was| && was[r + 1] == LF then 2 else 1;
            Rewritten(was, done + [if was[r] == CR then LF else was[r]], r + n)
  {
    hide Normalize;
    NormalizeAt(was, r);
    var c := if was[r] == CR then LF else was[r];
    var n := if was[r] == CR && r + 1 < |was| && was[r + 1] == LF then 2 else 1;
    assert done + ([c] + Normalize(was[r + n..])) == done + [c] + Normalize(was[r + n..]);
  }

  lemma RewrittenEnds(was: seq<Byte>, done: seq<Byte>)
    ensures Rewritten(was, [], 0)
    ensures Rewritten(was, done, |was|) ==> done == Normalize(was)
  {
    assert was[0..] == was;
  }

  /** The loop that rewrites the paste buffer. */
  method NormalizeInPlace(buf: array<Byte>) returns (w: nat)
    modifies buf
    ensures w <= buf.Length && buf[..w] == Normalize(old(buf[..]))
  {
    hide Rewritten;
    hide Normalize;
    var r, n := 0, buf.Length;
    w := 0;
    ghost var was, done := buf[..], [];
    RewrittenEnds(was, []);
    while r < n
      invariant w == |done| && w <= r <= n && Rewritten(was, done, r)
      invariant forall i :: r <= i < n ==> buf[i] == was[i]
      invariant forall i :: 0 <= i < w ==> buf[i] == done[i]
    {
      RewrittenStep(was, done, r);
      var two := buf[r] == CR && r + 1 < n && buf[r + 1] == LF;
      var c := if buf[r] == CR then LF else buf[r];
      buf[w] := c;
      done := done + [c];
      w := w + 1;
      r := r + if two then 2 else 1;
    }
    RewrittenEnds(was, done);
    assert buf[..w] == done;
  }

  // ----- the whole paste -----

  function MaxPaste(l: Line, cap: nat): (n: nat) {
    if |l.folds| == MAX_FOLDS || cap < |l.text| then 0
    else if cap - |l.text| > PASTE_MAX_BYTES then PASTE_MAX_BYTES else cap - |l.text|
  }

  predicate ShouldFold(s: seq<Byte>) {
    LF in s || |s| >= FOLD_THRESHOLD
  }

  function Pasted(l: Line, s: seq<Byte>, mask: bool, cap: nat): (l': Line)
    requires LineInv(l)
  {
    var text := Normalize(Body(s));
    if |Body(s)| > MaxPaste(l, cap) then l else Do(l, PasteText(text, !mask && ShouldFold(text)), cap, mask)
  }

  /** All or nothing: the text goes in whole at the cursor exactly when the bytes received fit; otherwise the line, its
      cursor and its folds stay as they are. */
  lemma PasteIsAllOrNothing(l: Line, s: seq<Byte>, mask: bool, cap: nat)
    requires LineInv(l) && |l.text| <= cap
    ensures LineInv(Pasted(l, s, mask, cap))
    ensures var l', text := Pasted(l, s, mask, cap), Normalize(Body(s));
            if |Body(s)| <= MaxPaste(l, cap)
            then l'.text == l.text[..l.pos] + text + l.text[l.pos..] && l'.pos == l.pos + |text|
            else l' == l
  {
    hide Body;
    hide FoldsIn;
    hide ShouldFold;
    var text := Normalize(Body(s));
    var fold := !mask && ShouldFold(text);
    if |Body(s)| <= MaxPaste(l, cap) {
      DoKeepsInv(l, PasteText(text, fold), cap, mask);
      assert text == [] ==> l.text[..l.pos] + text + l.text[l.pos..] == l.text;
    }
  }

  /** What is kept of the text so far: all of it, or nothing more once it was too long. */
  predicate Collected(buf: seq<Byte>, overflowed: bool, text: seq<Byte>, maxlen: nat) {
    |buf| <= maxlen && if overflowed then |text| > maxlen else buf == text
  }

  /** The line seen from outside while its buffer may grow. */
  twostate predicate OnlyGrown(l: LineState)
    reads l, l.buf
  {
    && old(l.Valid()) && l.Valid() && l.Value() == old(l.Value()) && l.Capacity() == old(l.Capacity())
    && (l.buf == old(l.buf) || fresh(l.buf))
  }

  /** pasteBufferAppend, unless an earlier one has failed. */
  method Append(l: LineState, buf: seq<Byte>, overflowed: bool, s: seq<Byte>, maxlen: nat, ghost text: seq<Byte>)
    returns (buf': seq<Byte>, overflowed': bool)
    requires l.Valid() && l.len + maxlen <= l.Capacity() && Collected(buf, overflowed, text, maxlen)
    modifies l`buf, l`buflen
    ensures OnlyGrown(l) && Collected(buf', overflowed', text + s, maxlen)
  {
    buf', overflowed' := buf, overflowed;
    if overflowed { return; }
    if |s| > maxlen - |buf| { return buf, true; }
    var ok := l.Grow(l.len + |buf| + |s|);
    if ok { buf' := buf + s; } else { overflowed' := true; }
  }

  /** The reading loop of linenoiseEditPaste. */
  method ReadPaste(l: LineState, s: seq<Byte>, maxlen: nat) returns (buf: seq<Byte>, overflowed: bool, used: nat)
    requires l.Valid() && l.len + maxlen <= l.Capacity()
    modifies l`buf, l`buflen
    ensures OnlyGrown(l) && Collected(buf, overflowed, Body(s), maxlen) && used == Used(s)
  {
    hide Body;
    hide Starts;
    hide Used;
    hide LineState.Valid;
    hide LineState.Value;
    hide LineState.Capacity;
    var m := 0;
    buf, overflowed, used := [], false, 0;
    ScanText(s, 0, 0);
    while used < |s|
      invariant Scanned(s, used, m)
      invariant OnlyGrown(l)
      invariant Collected(buf, overflowed, s[..used - m], maxlen)
    {
      ScanStep(s, used, m);
      var c := s[used];
      used := used + 1;
      if c == END[m] {
        m := m + 1;
        if m == 6 {
          MarkerFound(s, used - 6);
          return;
        }
        continue;
      }
      ghost var text := s[..used - 1 - m];
      ScanText(s, used - 1, m);
      assert s[..used - 1] == text + END[..m] && s[..used] == s[..used - 1] + [c];
      if m > 0 {
        buf, overflowed := Append(l, buf, overflowed, END[..m], maxlen, text);
        m := 0;
        if c == ESC {
          m := 1;
          continue;
        }
      }
      buf, overflowed := Append(l, buf, overflowed, [c], maxlen, s[..used - 1]);
    }
    EndOfStream(s, m);
  }

  /** The end of linenoiseEditPaste: insert, and fold the inserted range. */
  method InsertPaste(l: LineState, text: seq<Byte>, fold: bool)
    requires l.Valid() && text != [] && |l.folds| < MAX_FOLDS && l.len + |text| <= l.Capacity()
    modifies l, l.buf
    ensures l.Valid() && l.Capacity() == old(l.Capacity())
    ensures l.Value() == Do(old(l.Value()), PasteText(text, fold), old(l.Capacity()), l.mask)
  {
    hide AdjustInsert;
    hide FoldAdd;
    hide FoldsIn;
    ghost var before := l.Value();
    PasteInv(before, text);
    var start := l.pos;
    var ok := l.InsertBytes(text);
    if fold {
      l.folds := AddFold(l.folds, Fold(start, start + |text|));
    }
  }

  /** linenoiseEditPaste */
  method EditPaste(l: LineState, s: seq<Byte>) returns (used: nat)
    requires l.Valid()
    modifies l, l.buf
    ensures l.Valid() && l.Capacity() == old(l.Capacity())
    ensures l.Value() == Pasted(old(l.Value()), s, l.mask, old(l.Capacity())) && used == Used(s)
  {
    hide Do;
    hide Body;
    hide Used;
    ghost var before, cap := l.Value(), l.Capacity();
    var maxlen := l.Capacity() - l.len;
    if maxlen > PASTE_MAX_BYTES { maxlen := PASTE_MAX_BYTES; }
    if |l.folds| == MAX_FOLDS { maxlen := 0; }
    assert maxlen == MaxPaste(before, cap);
    var buf, overflowed;
    buf, overflowed, used := ReadPaste(l, s, maxlen);
    if overflowed { return; }
    if buf == [] {
      EmptyPaste(before, cap, l.mask);
      return;
    }
    var a := new Byte[|buf|](i requires 0 <= i < |buf| => buf[i]);
    assert a[..] == buf;
    var n := NormalizeInPlace(a);
    var text := a[..n];
    InsertPaste(l, text, !l.mask && (LF in text || n >= FOLD_THRESHOLD));
  }

  lemma EmptyPaste(l: Line, cap: nat, mask: bool)
    requires LineInv(l)
    ensures Normalize([]) == [] && !ShouldFold([]) && Do(l, PasteText([], false), cap, mask) == l
  {
  }
}
