/**
 The displayed form of an edited line (src/linenoise.c:992-1113): every folded range is replaced by a marker
 and the cursor is translated into the displayed text.
 */
module Render {
  import opened Bytes
  import opened Utf8
  import opened Editor
  import opened EditBuffer

  const LINE_FEED: Byte := 10

  /** foldCountLines */
  function Lines(s: seq<Byte>): (n: nat) {
    if s == [] then 1 else Lines(s[..|s| - 1]) + if s[|s| - 1] == LINE_FEED then 1 else 0
  }

  /** %zu */
  function Decimal(n: nat): (d: seq<Byte>)
    ensures d != []
  {
    (if n < 10 then [] else Decimal(n / 10)) + [(n % 10 + 48) as Byte]
  }

  function Ascii(s: string): (b: seq<Byte>)
    ensures |b| == |s|
  {
    seq(|s|, i requires 0 <= i < |s| => (s[i] as int % 256) as Byte)
  }

  /** foldSetRenderedText */
  function Marker(hidden: seq<Byte>): (m: seq<Byte>)
    ensures m != []
  {
    if Lines(hidden) > 1 then Ascii("[... ") + Decimal(Lines(hidden)) + Ascii(" pasted lines ...]")
    else Ascii("[... ") + Decimal(|hidden|) + Ascii(" pasted chars ...]")
  }

  /** The number some decimal digits denote. */
  function FromDecimal(d: seq<Byte>): (n: int) {
    if d == [] then 0 else FromDecimal(d[..|d| - 1]) * 10 + (d[|d| - 1] as int - 48)
  }

  lemma {:induction false} DecimalReadsBack(n: nat)
    ensures FromDecimal(Decimal(n)) == n
  {
    if n < 10 {
      LastDigit([], n);
    } else {
      DecimalReadsBack(n / 10);
      LastDigit(Decimal(n / 10), n % 10);
    }
  }

  lemma LastDigit(front: seq<Byte>, digit: nat)
    requires digit < 10
    ensures FromDecimal(front + [(digit + 48) as Byte]) == FromDecimal(front) * 10 + digit
  {
    var d := front + [(digit + 48) as Byte];
    assert d[..|d| - 1] == front;
  }

  /** Lines are what line feeds separate. */
  lemma {:induction false} LinesSplit(a: seq<Byte>, b: seq<Byte>)
    ensures Lines(a + [LINE_FEED] + b) == Lines(a) + Lines(b)
    decreases |b|
  {
    var s := a + [LINE_FEED] + b;
    if b == [] {
      assert s == a + [LINE_FEED] && s[..|s| - 1] == a;
    } else {
      assert s[..|s| - 1] == a + [LINE_FEED] + b[..|b| - 1];
      LinesSplit(a, b[..|b| - 1]);
    }
  }

  lemma {:induction false} DecimalLength(n: nat, digits: nat)
    requires 0 < digits && n < Pow(10, digits)
    ensures |Decimal(n)| <= digits
  {
    if n >= 10 {
      assert digits > 1 by { assert Pow(10, 0) == 1; assert Pow(10, 1) == 10; }
      assert n / 10 < Pow(10, digits - 1);
      DecimalLength(n / 10, digits - 1);
    }
  }

  lemma {:induction false} LinesBound(s: seq<Byte>)
    ensures 1 <= Lines(s) <= |s| + 1
  {
    if s != [] { LinesBound(s[..|s| - 1]); }
  }

  /** The marker and its terminator always fit the 64-byte display field: any size below 10^20 does. */
  lemma MarkerFits(hidden: seq<Byte>)
    requires |hidden| + 1 < Pow(10, 20)
    ensures |Marker(hidden)| < 64
  {
    LinesBound(hidden);
    DecimalLength(|hidden|, 20);
    DecimalLength(Lines(hidden), 20);
  }

  // ----- what is shown, and where the cursor is shown -----

  function RenderFrom(text: seq<Byte>, src: nat, fs: seq<Fold>): (r: seq<Byte>)
    requires src <= |text| && FoldsIn(fs, src, |text|)
    decreases |fs|
  {
    if fs == [] then text[src..]
    else text[src..fs[0].start] + Marker(text[fs[0].start..fs[0].end]) + RenderFrom(text, fs[0].end, fs[1..])
  }

  /** The displayed column of byte position pos, both counted from src. */
  function CursorFrom(text: seq<Byte>, src: nat, fs: seq<Fold>, pos: nat): (c: nat)
    requires src <= pos <= |text| && FoldsIn(fs, src, |text|)
    decreases |fs|
  {
    if fs == [] || pos <= fs[0].start then pos - src
    else
      var here := fs[0].start - src + |Marker(text[fs[0].start..fs[0].end])|;
      if pos <= fs[0].end then here else here + CursorFrom(text, fs[0].end, fs[1..], pos)
  }

  /** No fold has pos strictly inside. */
  predicate Outside(fs: seq<Fold>, pos: nat) {
    fs == [] || (!(fs[0].start < pos < fs[0].end) && Outside(fs[1..], pos))
  }

  /** No fold hides the byte at i. */
  predicate Visible(fs: seq<Fold>, i: nat) {
    fs == [] || (!(fs[0].start <= i < fs[0].end) && Visible(fs[1..], i))
  }

  lemma {:induction false} CursorInRange(text: seq<Byte>, src: nat, fs: seq<Fold>, pos: nat)
    requires src <= pos <= |text| && FoldsIn(fs, src, |text|)
    ensures CursorFrom(text, src, fs, pos) <= |RenderFrom(text, src, fs)|
    decreases |fs|
  {
    if fs != [] && pos > fs[0].end { CursorInRange(text, fs[0].end, fs[1..], pos); }
  }

  lemma {:induction false} CursorMonotone(text: seq<Byte>, src: nat, fs: seq<Fold>, p: nat, q: nat)
    requires src <= p <= q <= |text| && FoldsIn(fs, src, |text|)
    ensures CursorFrom(text, src, fs, p) <= CursorFrom(text, src, fs, q)
    ensures p < q && Outside(fs, p) && Outside(fs, q) ==> CursorFrom(text, src, fs, p) < CursorFrom(text, src, fs, q)
    decreases |fs|
  {
    if fs != [] && q > fs[0].end {
      CursorMonotone(text, fs[0].end, fs[1..], if p > fs[0].end then p else fs[0].end, q);
      if p <= fs[0].end { AtEndOfFold(text, fs, src); }
    }
  }

  lemma AtEndOfFold(text: seq<Byte>, fs: seq<Fold>, src: nat)
    requires src <= |text| && FoldsIn(fs, src, |text|) && fs != []
    ensures CursorFrom(text, fs[0].end, fs[1..], fs[0].end) == 0 && Outside(fs[1..], fs[0].end)
  {
    OutsideLater(fs[1..], fs[0].end, fs[0].end, |text|);
  }

  lemma {:induction false} OutsideLater(fs: seq<Fold>, pos: nat, lo: nat, hi: nat)
    requires FoldsIn(fs, lo, hi) && pos <= lo
    ensures Outside(fs, pos)
    decreases |fs|
  {
    if fs != [] { OutsideLater(fs[1..], pos, fs[0].end, hi); }
  }

  /** The folds that end at or before pos. */
  function Before(fs: seq<Fold>, pos: nat): (r: seq<Fold>) {
    if fs == [] || fs[0].end > pos then [] else [fs[0]] + Before(fs[1..], pos)
  }

  lemma {:induction false} PrefixFrom(text: seq<Byte>, src: nat, fs: seq<Fold>, pos: nat)
    requires src <= pos <= |text| && FoldsIn(fs, src, |text|) && Outside(fs, pos)
    ensures FoldsIn(Before(fs, pos), src, pos)
    ensures CursorFrom(text, src, fs, pos) <= |RenderFrom(text, src, fs)|
    ensures RenderFrom(text, src, fs)[..CursorFrom(text, src, fs, pos)] == RenderFrom(text[..pos], src, Before(fs, pos))
    decreases |fs|
  {
    hide Marker;
    if fs != [] && pos > fs[0].start {
      hide CursorFrom;
      var f := fs[0];
      PrefixFrom(text, f.end, fs[1..], pos);
      Tail(text, src, fs, pos);
      assert Before(fs, pos)[0] == f && Before(fs, pos)[1..] == Before(fs[1..], pos);
      var gap, m := text[src..f.start], Marker(text[f.start..f.end]);
      var rest, c := RenderFrom(text, f.end, fs[1..]), CursorFrom(text, f.end, fs[1..], pos);
      assert text[..pos][src..f.start] == gap && text[..pos][f.start..f.end] == text[f.start..f.end];
      assert (gap + m + rest)[..|gap| + |m| + c] == gap + m + rest[..c];
    }
  }

  lemma {:induction false} VisibleFrom(text: seq<Byte>, src: nat, fs: seq<Fold>, i: nat)
    requires src <= i < |text| && FoldsIn(fs, src, |text|) && Visible(fs, i)
    ensures CursorFrom(text, src, fs, i) < |RenderFrom(text, src, fs)|
    ensures RenderFrom(text, src, fs)[CursorFrom(text, src, fs, i)] == text[i]
    decreases |fs|
  {
    hide Marker;
    if fs != [] && i >= fs[0].start {
      hide RenderFrom;
      hide CursorFrom;
      VisibleFrom(text, fs[0].end, fs[1..], i);
      Tail(text, src, fs, i);
    }
  }

  /** Skipping the first gap and marker. */
  lemma Tail(text: seq<Byte>, src: nat, fs: seq<Fold>, p: nat)
    requires src <= |text| && FoldsIn(fs, src, |text|) && fs != [] && fs[0].end <= p <= |text|
    ensures var skip := fs[0].start - src + |Marker(text[fs[0].start..fs[0].end])|;
            && skip <= |RenderFrom(text, src, fs)|
            && RenderFrom(text, src, fs)[skip..] == RenderFrom(text, fs[0].end, fs[1..])
            && CursorFrom(text, src, fs, p) == skip + CursorFrom(text, fs[0].end, fs[1..], p)
  {
    if p == fs[0].end { AtEndOfFold(text, fs, src); }
  }

  lemma Shifted(whole: seq<Byte>, skip: nat, a: nat, b: nat)
    requires skip <= |whole| && a <= b <= |whole| - skip
    ensures whole[skip + a..skip + b] == whole[skip..][a..b]
  {
  }

  lemma FirstMarker(text: seq<Byte>, src: nat, fs: seq<Fold>)
    requires src <= |text| && FoldsIn(fs, src, |text|) && fs != []
    ensures var a, b := CursorFrom(text, src, fs, fs[0].start), CursorFrom(text, src, fs, fs[0].end);
            a <= b <= |RenderFrom(text, src, fs)| && RenderFrom(text, src, fs)[a..b] == Marker(text[fs[0].start..fs[0].end])
  {
  }

  lemma {:induction false} MarkerFrom(text: seq<Byte>, src: nat, fs: seq<Fold>, k: nat)
    requires src <= |text| && FoldsIn(fs, src, |text|) && k < |fs|
    ensures src <= fs[k].start < fs[k].end <= |text|
    ensures var a, b := CursorFrom(text, src, fs, fs[k].start), CursorFrom(text, src, fs, fs[k].end);
            a <= b <= |RenderFrom(text, src, fs)| && RenderFrom(text, src, fs)[a..b] == Marker(text[fs[k].start..fs[k].end])
    decreases |fs|
  {
    hide Marker;
    hide RenderFrom;
    hide CursorFrom;
    FoldAt(fs, src, |text|, k);
    if k == 0 {
      FirstMarker(text, src, fs);
    } else {
      var f := fs[k];
      assert fs[1..][k - 1] == f;
      MarkerFrom(text, fs[0].end, fs[1..], k - 1);
      Tail(text, src, fs, f.start);
      Tail(text, src, fs, f.end);
      var skip := fs[0].start - src + |Marker(text[fs[0].start..fs[0].end])|;
      Shifted(RenderFrom(text, src, fs), skip,
              CursorFrom(text, fs[0].end, fs[1..], f.start), CursorFrom(text, fs[0].end, fs[1..], f.end));
    }
  }

  lemma {:induction false} InsideFrom(text: seq<Byte>, src: nat, fs: seq<Fold>, k: nat, pos: nat)
    requires src <= |text| && FoldsIn(fs, src, |text|) && k < |fs| && fs[k].start < pos <= fs[k].end
    ensures src <= pos && fs[k].end <= |text|
    ensures CursorFrom(text, src, fs, pos) == CursorFrom(text, src, fs, fs[k].end)
    decreases |fs|
  {
    FoldAt(fs, src, |text|, k);
    if k > 0 {
      FoldAt(fs[1..], fs[0].end, |text|, k - 1);
      InsideFrom(text, fs[0].end, fs[1..], k - 1, pos);
    }
  }

  // ----- whole lines -----

  function Rendered(l: Line): (r: seq<Byte>)
    requires LineInv(l)
  {
    RenderFrom(l.text, 0, l.folds)
  }

  function Column(l: Line, pos: nat): (c: nat)
    requires LineInv(l) && pos <= |l.text|
  {
    CursorFrom(l.text, 0, l.folds, pos)
  }

  /** Every byte no fold hides is shown at its column, and each fold is shown as its marker. */
  lemma RenderShows(l: Line)
    requires LineInv(l)
    ensures forall i :: 0 <= i < |l.text| && Visible(l.folds, i) ==>
              Column(l, i) < |Rendered(l)| && Rendered(l)[Column(l, i)] == l.text[i]
    ensures forall k :: 0 <= k < |l.folds| ==> ShownAsMarker(l, k)
  {
    forall i | 0 <= i < |l.text| && Visible(l.folds, i)
      ensures Column(l, i) < |Rendered(l)| && Rendered(l)[Column(l, i)] == l.text[i]
    {
      VisibleFrom(l.text, 0, l.folds, i);
    }
    forall k | 0 <= k < |l.folds| ensures ShownAsMarker(l, k) {
      MarkerFrom(l.text, 0, l.folds, k);
    }
  }

  predicate ShownAsMarker(l: Line, k: nat)
    requires LineInv(l) && k < |l.folds|
  {
    var f := l.folds[k];
    && f.start <= f.end <= |l.text|
    && Column(l, f.start) <= Column(l, f.end) <= |Rendered(l)|
    && Rendered(l)[Column(l, f.start)..Column(l, f.end)] == Marker(l.text[f.start..f.end])
  }

  /** The cursor translation is in range and monotone, and tells apart positions outside the folds; a cursor
      strictly inside a fold is shown at the end of its marker. */
  lemma ColumnsInOrder(l: Line, p: nat, q: nat)
    requires LineInv(l) && p <= q <= |l.text|
    ensures Column(l, p) <= Column(l, q) <= |Rendered(l)|
    ensures p < q && Outside(l.folds, p) && Outside(l.folds, q) ==> Column(l, p) < Column(l, q)
    ensures forall k :: 0 <= k < |l.folds| && l.folds[k].start < p < l.folds[k].end ==>
              l.folds[k].end <= |l.text| && Column(l, p) == Column(l, l.folds[k].end)
  {
    CursorMonotone(l.text, 0, l.folds, p, q);
    CursorInRange(l.text, 0, l.folds, q);
    forall k | 0 <= k < |l.folds| && l.folds[k].start < p < l.folds[k].end
      ensures l.folds[k].end <= |l.text| && Column(l, p) == Column(l, l.folds[k].end)
    {
      InsideFrom(l.text, 0, l.folds, k, p);
    }
  }

  /** For a cursor not strictly inside a fold, what is shown before it is the rendering of the text before it. */
  lemma PrefixIsRendered(l: Line)
    requires LineInv(l) && Outside(l.folds, l.pos)
    ensures var left := Line(l.text[..l.pos], l.pos, Before(l.folds, l.pos));
            && LineInv(left)
            && Column(l, l.pos) <= |Rendered(l)|
            && Rendered(l)[..Column(l, l.pos)] == Rendered(left)
  {
    PrefixFrom(l.text, 0, l.folds, l.pos);
    BeforeShorter(l.folds, l.pos);
  }

  lemma {:induction false} BeforeShorter(fs: seq<Fold>, pos: nat)
    ensures |Before(fs, pos)| <= |fs|
  {
    if fs != [] { BeforeShorter(fs[1..], pos); }
  }

  // ----- the loops -----

  method CountLines(s: seq<Byte>) returns (lines: nat)
    ensures lines == Lines(s)
  {
    lines := 1;
    var j := 0;
    while j < |s|
      invariant 0 <= j <= |s| && lines == Lines(s[..j])
    {
      assert s[..j + 1][..j] == s[..j];
      if s[j] == LINE_FEED { lines := lines + 1; }
      j := j + 1;
    }
    assert s[..j] == s;
  }

  /** linenoiseGetRenderFolds: on a valid line no fold is skipped. */
  method RenderFolds(l: LineState) returns (fs: seq<Fold>)
    requires l.Valid()
    ensures fs == if l.len == 0 || l.mask then [] else l.folds
  {
    fs := [];
    if l.len == 0 || l.mask { return; }
    var j := 0;
    while j < |l.folds|
      invariant 0 <= j <= |l.folds| && fs == l.folds[..j]
    {
      FoldAt(l.folds, 0, l.len, j);
      var f := l.folds[j];
      if f.start < f.end && f.end <= l.len { fs := fs + [f]; }
      j := j + 1;
    }
  }

  /** The first loop of linenoiseRenderBuffer. */
  method RenderLength(text: seq<Byte>, fs: seq<Fold>) returns (len: nat)
    requires FoldsIn(fs, 0, |text|)
    ensures len == |RenderFrom(text, 0, fs)|
  {
    hide Marker;
    hide RenderFrom;
    hide FoldsIn;
    var n: int := |text|;
    var j := 0;
    ghost var src, shown: int := 0, 0;
    assert fs[0..] == fs;
    while j < |fs|
      invariant 0 <= j <= |fs| && 0 <= src <= |text| && FoldsIn(fs[j..], src, |text|)
      invariant n == shown + (|text| - src)
      invariant |RenderFrom(text, 0, fs)| == shown + |RenderFrom(text, src, fs[j..])|
    {
      var f := fs[j];
      PaintStep(text, src, fs, j);
      var m := Marker(text[f.start..f.end]);
      n := n - (f.end - f.start) + |m|;
      shown := shown + (f.start - src) + |m|;
      src := f.end;
      j := j + 1;
    }
    assert fs[j..] == [];
    NothingLeft(text, src, src);
    len := n;
  }

  /** memcpy at dst. */
  method Put(r: array<Byte>, dst: nat, s: seq<Byte>)
    requires dst + |s| <= r.Length
    modifies r
    ensures r[..dst + |s|] == old(r[..dst]) + s
  {
    forall i | 0 <= i < |s| { r[dst + i] := s[i]; }
    assert r[..dst + |s|] == r[..dst] + r[dst..dst + |s|];
    assert r[dst..dst + |s|] == s;
  }

  /** One round of the copying loop, on values. */
  lemma PaintStep(text: seq<Byte>, src: nat, fs: seq<Fold>, j: nat)
    requires j < |fs| && src <= |text| && FoldsIn(fs[j..], src, |text|)
    ensures src <= fs[j].start < fs[j].end <= |text| && FoldsIn(fs[j + 1..], fs[j].end, |text|)
    ensures RenderFrom(text, src, fs[j..]) ==
            text[src..fs[j].start] + Marker(text[fs[j].start..fs[j].end]) + RenderFrom(text, fs[j].end, fs[j + 1..])
  {
    assert fs[j..][0] == fs[j] && fs[j..][1..] == fs[j + 1..];
  }

  lemma CursorStep(text: seq<Byte>, src: nat, fs: seq<Fold>, j: nat, cursor: nat)
    requires j < |fs| && src <= cursor <= |text| && FoldsIn(fs[j..], src, |text|)
    ensures FoldsIn(fs[j + 1..], fs[j].end, |text|) && src <= fs[j].start < fs[j].end <= |text|
    ensures var here := fs[j].start - src + |Marker(text[fs[j].start..fs[j].end])|;
            CursorFrom(text, src, fs[j..], cursor) ==
            if cursor <= fs[j].start then cursor - src
            else if cursor <= fs[j].end then here
            else here + CursorFrom(text, fs[j].end, fs[j + 1..], cursor)
  {
    assert fs[j..][0] == fs[j] && fs[j..][1..] == fs[j + 1..];
  }

  /** The copying loop: gaps as they are, folds as markers; never past the precomputed length. */
  method Paint(r: array<Byte>, text: seq<Byte>, fs: seq<Fold>, cursor: nat) returns (pos: nat)
    requires FoldsIn(fs, 0, |text|) && cursor <= |text|
    requires r.Length == |RenderFrom(text, 0, fs)| + 1
    modifies r
    ensures r[..r.Length - 1] == RenderFrom(text, 0, fs) && r[r.Length - 1] == 0
    ensures pos == CursorFrom(text, 0, fs, cursor)
  {
    hide Marker;
    hide RenderFrom;
    hide CursorFrom;
    hide FoldsIn;
    var src, dst, j := 0, 0, 0;
    var posSet := false;
    pos := 0;
    ghost var whole := RenderFrom(text, 0, fs);
    assert fs[0..] == fs && r[..0] == [];
    while j < |fs|
      invariant 0 <= j <= |fs| && 0 <= src <= |text| && FoldsIn(fs[j..], src, |text|)
      invariant 0 <= dst <= |whole| && whole == r[..dst] + RenderFrom(text, src, fs[j..])
      invariant posSet ==> pos == CursorFrom(text, 0, fs, cursor)
      invariant !posSet ==> src <= cursor && CursorFrom(text, 0, fs, cursor) == dst + CursorFrom(text, src, fs[j..], cursor)
    {
      var f := fs[j];
      PaintStep(text, src, fs, j);
      if !posSet { CursorStep(text, src, fs, j, cursor); }
      var m := Marker(text[f.start..f.end]);
      ghost var done, rest := r[..dst], RenderFrom(text, f.end, fs[j + 1..]);
      if !posSet && cursor <= f.start {
        pos, posSet := dst + (cursor - src), true;
      }
      Put(r, dst, text[src..f.start]);
      dst := dst + (f.start - src);
      if !posSet && cursor < f.end {
        pos, posSet := dst + |m|, true;
      }
      Put(r, dst, m);
      dst := dst + |m|;
      if !posSet && cursor == f.end {
        pos, posSet := dst, true;
      }
      assert r[..dst] == done + text[src..f.start] + m;
      src := f.end;
      j := j + 1;
    }
    assert fs[j..] == [];
    NothingLeft(text, src, cursor);
    if !posSet { pos := dst + (cursor - src); }
    Put(r, dst, text[src..]);
    r[r.Length - 1] := 0;
  }

  lemma NothingLeft(text: seq<Byte>, src: nat, cursor: nat)
    requires src <= |text| && cursor <= |text|
    ensures FoldsIn([], src, |text|) && RenderFrom(text, src, []) == text[src..]
    ensures src <= cursor ==> CursorFrom(text, src, [], cursor) == cursor - src
  {
  }

  /** linenoiseRenderBuffer */
  method RenderBuffer(l: LineState) returns (r: array<Byte>, pos: nat)
    requires l.Valid()
    ensures fresh(r) && r.Length > 0 && r[r.Length - 1] == 0
    ensures var shown := if l.mask then l.Value().(folds := []) else l.Value();
            LineInv(shown) && r[..r.Length - 1] == Rendered(shown) && pos == Column(shown, shown.pos)
  {
    hide Marker;
    var fs := RenderFolds(l);
    var text := l.buf[..l.len];
    assert l.len == 0 ==> l.folds == [];
    var len := RenderLength(text, fs);
    r := new Byte[len + 1](_ => 0);
    pos := Paint(r, text, fs, l.pos);
  }
}
