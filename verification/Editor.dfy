/**
 The edit buffer with folded ranges (src/linenoise.c:1146-1222, 1517-1571, 1651-1692, 2023-2042,
 2158-2169): the operations on values and what every sequence of them keeps.
 */
module Editor {
  import opened Bytes
  import opened Utf8

  const MAX_FOLDS: nat := 16
  const BLANK_CHAR: Byte := 32

  datatype Fold = Fold(start: nat, end: nat)

  datatype Line = Line(text: seq<Byte>, pos: nat, folds: seq<Fold>)

  // ----- folds -----

  /** linenoiseFoldAdd: insertion from the back, keeping the order of starts. */
  function InsertFold(fs: seq<Fold>, f: Fold): (r: seq<Fold>)
    ensures |r| == |fs| + 1
  {
    if fs != [] && f.start < fs[|fs| - 1].start then InsertFold(fs[..|fs| - 1], f) + [fs[|fs| - 1]] else fs + [f]
  }

  function FoldAdd(fs: seq<Fold>, f: Fold): (r: seq<Fold>) {
    if f.start >= f.end || |fs| == MAX_FOLDS then fs else InsertFold(fs, f)
  }

  predicate SurvivesInsert(f: Fold, pos: nat) {
    !(f.start < pos < f.end)
  }

  function AfterInsert(f: Fold, pos: nat, n: nat): (f': Fold) {
    if pos <= f.start then Fold(f.start + n, f.end + n) else f
  }

  /** linenoiseAdjustFoldsAfterInsert */
  function AdjustInsert(fs: seq<Fold>, pos: nat, n: nat): (r: seq<Fold>) {
    if fs == [] then []
    else (if SurvivesInsert(fs[0], pos) then [AfterInsert(fs[0], pos, n)] else []) + AdjustInsert(fs[1..], pos, n)
  }

  predicate SurvivesDelete(f: Fold, pos: nat, n: nat) {
    pos + n <= f.start || f.end <= pos
  }

  function AfterDelete(f: Fold, pos: nat, n: nat): (f': Fold) {
    if pos + n <= f.start && f.start <= f.end then Fold(f.start - n, f.end - n) else f
  }

  /** linenoiseAdjustFoldsAfterDelete */
  function AdjustDelete(fs: seq<Fold>, pos: nat, n: nat): (r: seq<Fold>) {
    if fs == [] then []
    else (if SurvivesDelete(fs[0], pos, n) then [AfterDelete(fs[0], pos, n)] else []) + AdjustDelete(fs[1..], pos, n)
  }

  /** Sorted, disjoint, non-empty, within [lo, hi). */
  ghost predicate FoldsIn(fs: seq<Fold>, lo: int, hi: int) {
    fs == [] || (lo <= fs[0].start < fs[0].end <= hi && FoldsIn(fs[1..], fs[0].end, hi))
  }

  ghost predicate LineInv(l: Line) {
    l.pos <= |l.text| && |l.folds| <= MAX_FOLDS && FoldsIn(l.folds, 0, |l.text|)
  }

  // ----- movements -----

  /** The fold that starts (or ends) here, if any. */
  function FoldStartingAt(fs: seq<Fold>, pos: nat): (n: nat) {
    if fs == [] then 0 else if fs[0].start == pos && fs[0].end > pos then fs[0].end - pos else FoldStartingAt(fs[1..], pos)
  }

  function FoldEndingAt(fs: seq<Fold>, pos: nat): (n: nat) {
    if fs == [] then 0 else if fs[0].end == pos && fs[0].start < pos then pos - fs[0].start else FoldEndingAt(fs[1..], pos)
  }

  /** linenoiseEditNextLen: a whole fold or one cluster; in mask mode folds do not count. */
  function NextLen(l: Line, mask: bool): (n: nat)
    requires l.pos <= |l.text|
  {
    var f := FoldStartingAt(l.folds, l.pos);
    if !mask && f > 0 then f else NextCharLen(l.text, l.pos)
  }

  /** linenoiseEditPrevLen */
  function PrevLen(l: Line, mask: bool): (n: nat)
    requires l.pos <= |l.text|
  {
    var f := FoldEndingAt(l.folds, l.pos);
    if !mask && f > 0 then f else PrevCharLen(l.text, l.pos)
  }

  lemma {:induction false} FoldStartBound(fs: seq<Fold>, lo: int, hi: int, pos: nat)
    requires FoldsIn(fs, lo, hi) && pos <= hi
    ensures pos + FoldStartingAt(fs, pos) <= hi
  {
    if fs != [] { FoldStartBound(fs[1..], fs[0].end, hi, pos); }
  }

  lemma {:induction false} FoldEndBound(fs: seq<Fold>, pos: nat)
    ensures FoldEndingAt(fs, pos) <= pos
  {
    if fs != [] { FoldEndBound(fs[1..], pos); }
  }

  lemma MoveBounds(l: Line, mask: bool)
    requires LineInv(l)
    ensures l.pos + NextLen(l, mask) <= |l.text| && (l.pos < |l.text| ==> NextLen(l, mask) >= 1)
    ensures PrevLen(l, mask) <= l.pos && (l.pos > 0 ==> PrevLen(l, mask) >= 1)
  {
    FoldStartBound(l.folds, 0, |l.text|, l.pos);
    FoldEndBound(l.folds, l.pos);
  }

  // ----- the operations -----

  function Insert(l: Line, c: seq<Byte>): (l': Line)
    requires l.pos <= |l.text|
  {
    Line(l.text[..l.pos] + c + l.text[l.pos..], l.pos + |c|, AdjustInsert(l.folds, l.pos, |c|))
  }

  /** Remove [at, at + n) and leave the cursor at p. */
  function Remove(l: Line, at: nat, n: nat, p: nat): (l': Line)
    requires at + n <= |l.text|
  {
    Line(l.text[..at] + l.text[at + n..], p, AdjustDelete(l.folds, at, n))
  }

  function Delete(l: Line, mask: bool): (l': Line)
    requires LineInv(l)
  {
    if l.pos < |l.text| then (MoveBounds(l, mask); Remove(l, l.pos, NextLen(l, mask), l.pos)) else l
  }

  function Backspace(l: Line, mask: bool): (l': Line)
    requires LineInv(l)
  {
    if l.pos > 0 then (MoveBounds(l, mask); Remove(l, l.pos - PrevLen(l, mask), PrevLen(l, mask), l.pos - PrevLen(l, mask))) else l
  }

  /** Back over blanks, or over what is not blank. */
  function BackOver(l: Line, blank: bool, mask: bool): (p: nat)
    requires LineInv(l)
    ensures p <= l.pos
    decreases l.pos
  {
    if l.pos > 0 && (l.text[l.pos - 1] == BLANK_CHAR) == blank then
      MoveBounds(l, mask);
      BackOver(l.(pos := l.pos - PrevLen(l, mask)), blank, mask)
    else l.pos
  }

  function WordStart(l: Line, mask: bool): (p: nat)
    requires LineInv(l)
    ensures p <= l.pos
  {
    BackOver(l.(pos := BackOver(l, true, mask)), false, mask)
  }

  function DeletePrevWord(l: Line, mask: bool): (l': Line)
    requires LineInv(l)
  {
    var p := WordStart(l, mask);
    Remove(l, p, l.pos - p, p)
  }

  function Overlaps(fs: seq<Fold>, pos: nat, n: nat): (b: bool) {
    fs != [] && ((pos + n > fs[0].start && pos < fs[0].end) || Overlaps(fs[1..], pos, n))
  }

  /** The ranges [a, m) and [m, b) trade places. */
  function Exchange(text: seq<Byte>, a: nat, m: nat, b: nat): (text': seq<Byte>)
    requires a <= m <= b <= |text|
    ensures |text'| == |text|
  {
    text[..a] + text[m..b] + text[a..m] + text[b..]
  }

  /** Ctrl-T: swap the clusters around the cursor, unless one is over 32 bytes or a fold is touched. */
  function Swap(l: Line, mask: bool): (l': Line)
    requires LineInv(l)
  {
    if 0 < l.pos < |l.text| then
      MoveBounds(l, mask);
      var p, n := PrevLen(l, mask), NextLen(l, mask);
      if p > 32 || n > 32 || Overlaps(l.folds, l.pos - p, p + n) then l
      else
        Line(Exchange(l.text, l.pos - p, l.pos, l.pos + n), l.pos + n, l.folds)
    else l
  }

  datatype Cmd =
    | Type(c: seq<Byte>)
    | PasteText(c: seq<Byte>, fold: bool)
    | DeleteKey
    | BackspaceKey
    | DeleteWord
    | SwapChars
    | KillLine
    | KillEnd
    | Left
    | Right
    | Home
    | End

  /** One command on a line of at most cap bytes; an insertion that does not fit changes nothing. */
  function Do(l: Line, cmd: Cmd, cap: nat, mask: bool): (l': Line)
    requires LineInv(l)
  {
    match cmd
    case Type(c) => if |l.text| + |c| <= cap then Insert(l, c) else l
    case PasteText(c, fold) =>
      if c == [] || |l.folds| == MAX_FOLDS || |l.text| + |c| > cap then l
      else
        var l1 := Insert(l, c);
        if fold then l1.(folds := FoldAdd(l1.folds, Fold(l.pos, l.pos + |c|))) else l1
    case DeleteKey => Delete(l, mask)
    case BackspaceKey => Backspace(l, mask)
    case DeleteWord => DeletePrevWord(l, mask)
    case SwapChars => Swap(l, mask)
    case KillLine => Line([], 0, [])
    case KillEnd => Remove(l, l.pos, |l.text| - l.pos, l.pos)
    case Left => if l.pos > 0 then (MoveBounds(l, mask); l.(pos := l.pos - PrevLen(l, mask))) else l
    case Right => if l.pos != |l.text| then (MoveBounds(l, mask); l.(pos := l.pos + NextLen(l, mask))) else l
    case Home => l.(pos := 0)
    case End => l.(pos := |l.text|)
  }

  // ----- folds stay in order -----

  lemma {:induction false} LowerBound(fs: seq<Fold>, lo: int, lo': int, hi: int)
    requires FoldsIn(fs, lo, hi) && lo' <= lo
    ensures FoldsIn(fs, lo', hi)
  {
  }

  lemma {:induction false} AdjustInsertOk(fs: seq<Fold>, lo: nat, hi: nat, pos: nat, n: nat)
    requires FoldsIn(fs, lo, hi)
    ensures FoldsIn(AdjustInsert(fs, pos, n), if pos <= lo then lo + n else lo, hi + n)
    ensures |AdjustInsert(fs, pos, n)| <= |fs|
  {
    if fs != [] {
      var f := fs[0];
      AdjustInsertOk(fs[1..], f.end, hi, pos, n);
      var rest := AdjustInsert(fs[1..], pos, n);
      if SurvivesInsert(f, pos) {
        var r := [AfterInsert(f, pos, n)] + rest;
        assert r[0] == AfterInsert(f, pos, n) && r[1..] == rest;
        LowerBound(rest, if pos <= f.end then f.end + n else f.end, AfterInsert(f, pos, n).end, hi + n);
      } else {
        assert [] + rest == rest;
        LowerBound(rest, if pos <= f.end then f.end + n else f.end, if pos <= lo then lo + n else lo, hi + n);
      }
    }
  }

  /** Where a position goes when [at, at + n) is removed. */
  function Image(x: nat, at: nat, n: nat): (y: nat) {
    if at + n <= x then x - n else if x <= at then x else at
  }

  lemma {:induction false} AdjustDeleteOk(fs: seq<Fold>, lo: nat, hi: nat, at: nat, n: nat)
    requires FoldsIn(fs, lo, hi) && at + n <= hi
    ensures FoldsIn(AdjustDelete(fs, at, n), Image(lo, at, n), hi - n)
    ensures |AdjustDelete(fs, at, n)| <= |fs|
  {
    if fs != [] {
      var f := fs[0];
      AdjustDeleteOk(fs[1..], f.end, hi, at, n);
      var rest := AdjustDelete(fs[1..], at, n);
      if SurvivesDelete(f, at, n) {
        var r := [AfterDelete(f, at, n)] + rest;
        assert r[0] == AfterDelete(f, at, n) && r[1..] == rest;
        LowerBound(rest, Image(f.end, at, n), AfterDelete(f, at, n).end, hi - n);
      } else {
        assert [] + rest == rest;
        LowerBound(rest, Image(f.end, at, n), Image(lo, at, n), hi - n);
      }
    }
  }

  lemma {:induction false} FoldsSnoc(fs: seq<Fold>, f: Fold, lo: int, hi: int)
    ensures FoldsIn(fs + [f], lo, hi) <==> FoldsIn(fs, lo, f.start) && lo <= f.start < f.end <= hi
    decreases |fs|
  {
    if fs == [] {
      assert fs + [f] == [f] && [f][1..] == [];
    } else {
      assert (fs + [f])[0] == fs[0] && (fs + [f])[1..] == fs[1..] + [f];
      FoldsSnoc(fs[1..], f, fs[0].end, hi);
    }
  }

  lemma {:induction false} UpperBound(fs: seq<Fold>, lo: int, hi: int, hi': int)
    requires FoldsIn(fs, lo, hi) && (fs == [] || fs[|fs| - 1].end <= hi')
    ensures FoldsIn(fs, lo, hi')
  {
    if fs != [] {
      if |fs| > 1 { assert fs[1..][|fs| - 2] == fs[|fs| - 1]; }
      UpperBound(fs[1..], fs[0].end, hi, hi');
    }
  }

  lemma {:induction false} FoldAt(fs: seq<Fold>, lo: int, hi: int, i: nat)
    requires FoldsIn(fs, lo, hi) && i < |fs|
    ensures lo <= fs[i].start < fs[i].end <= hi
  {
    if i > 0 { FoldAt(fs[1..], fs[0].end, hi, i - 1); }
  }

  lemma {:induction false} InsertFoldOk(fs: seq<Fold>, f: Fold, lo: int, hi: int)
    requires FoldsIn(fs, lo, hi) && lo <= f.start < f.end <= hi
    requires forall i :: 0 <= i < |fs| ==> fs[i].end <= f.start || f.end <= fs[i].start
    ensures FoldsIn(InsertFold(fs, f), lo, hi)
    decreases |fs|
  {
    if fs == [] {
      FoldsSnoc(fs, f, lo, hi);
    } else {
      var n := |fs| - 1;
      var last := fs[n];
      assert fs == fs[..n] + [last];
      FoldsSnoc(fs[..n], last, lo, hi);
      if f.start < last.start {
        InsertFoldOk(fs[..n], f, lo, last.start);
        FoldsSnoc(InsertFold(fs[..n], f), last, lo, hi);
      } else {
        UpperBound(fs, lo, hi, f.start);
        FoldsSnoc(fs, f, lo, hi);
      }
    }
  }

  /** After an insertion at pos no fold straddles the inserted range. */
  lemma {:induction false} ClearOfInserted(fs: seq<Fold>, lo: int, hi: int, pos: nat, n: nat, i: nat)
    requires FoldsIn(fs, lo, hi) && i < |AdjustInsert(fs, pos, n)|
    ensures var f := AdjustInsert(fs, pos, n)[i]; f.end <= pos || pos + n <= f.start
  {
    var rest := AdjustInsert(fs[1..], pos, n);
    if SurvivesInsert(fs[0], pos) {
      if i > 0 { ClearOfInserted(fs[1..], fs[0].end, hi, pos, n, i - 1); }
    } else {
      ClearOfInserted(fs[1..], fs[0].end, hi, pos, n, i);
    }
  }

  /** Inserting and folding the inserted range. */
  lemma PasteInv(l: Line, c: seq<Byte>)
    requires LineInv(l) && |l.folds| < MAX_FOLDS
    ensures var l1 := Insert(l, c);
            LineInv(l1.(folds := FoldAdd(l1.folds, Fold(l.pos, l.pos + |c|))))
  {
    InsertInv(l, c);
    var l1 := Insert(l, c);
    if c != [] {
      forall i | 0 <= i < |l1.folds|
        ensures l1.folds[i].end <= l.pos || l.pos + |c| <= l1.folds[i].start
      {
        ClearOfInserted(l.folds, 0, |l.text|, l.pos, |c|, i);
      }
      AdjustInsertOk(l.folds, 0, |l.text|, l.pos, |c|);
      InsertFoldOk(l1.folds, Fold(l.pos, l.pos + |c|), 0, |l1.text|);
    }
  }

  /** Every command at any cursor position keeps the cursor in the text, the text within its capacity
      and the folds sorted, disjoint, non-empty, in range and at most sixteen. */
  lemma DoKeepsInv(l: Line, cmd: Cmd, cap: nat, mask: bool)
    requires LineInv(l) && |l.text| <= cap
    ensures LineInv(Do(l, cmd, cap, mask)) && |Do(l, cmd, cap, mask).text| <= cap
  {
    hide Insert;
    hide Remove;
    hide NextLen;
    hide PrevLen;
    hide BackOver;
    hide FoldAdd;
    hide Swap;
    MoveBounds(l, mask);
    match cmd
    case SwapChars => SwapInv(l, mask);
    case Type(c) => InsertInv(l, c);
    case PasteText(c, fold) => InsertInv(l, c); if |l.folds| < MAX_FOLDS { PasteInv(l, c); }
    case DeleteKey => if l.pos < |l.text| { RemoveInv(l, l.pos, NextLen(l, mask), l.pos); }
    case BackspaceKey => if l.pos > 0 { RemoveInv(l, l.pos - PrevLen(l, mask), PrevLen(l, mask), l.pos - PrevLen(l, mask)); }
    case DeleteWord => RemoveInv(l, WordStart(l, mask), l.pos - WordStart(l, mask), WordStart(l, mask));
    case KillEnd => RemoveInv(l, l.pos, |l.text| - l.pos, l.pos);
    case _ =>
  }

  lemma SwapInv(l: Line, mask: bool)
    requires LineInv(l)
    ensures LineInv(Swap(l, mask)) && |Swap(l, mask).text| == |l.text|
  {
    hide NextLen;
    hide PrevLen;
    MoveBounds(l, mask);
  }

  lemma InsertInv(l: Line, c: seq<Byte>)
    requires LineInv(l)
    ensures LineInv(Insert(l, c)) && |Insert(l, c).text| == |l.text| + |c|
  {
    AdjustInsertOk(l.folds, 0, |l.text|, l.pos, |c|);
    LowerBound(AdjustInsert(l.folds, l.pos, |c|), if l.pos <= 0 then |c| else 0, 0, |l.text| + |c|);
  }

  lemma RemoveInv(l: Line, at: nat, n: nat, p: nat)
    requires LineInv(l) && at + n <= |l.text| && p <= |l.text| - n
    ensures LineInv(Remove(l, at, n, p)) && |Remove(l, at, n, p).text| == |l.text| - n
  {
    AdjustDeleteOk(l.folds, 0, |l.text|, at, n);
    LowerBound(AdjustDelete(l.folds, at, n), Image(0, at, n), 0, |l.text| - n);
  }

  function DoAll(l: Line, cmds: seq<Cmd>, cap: nat, mask: bool): (l': Line)
    requires LineInv(l) && |l.text| <= cap
    decreases |cmds|
  {
    if cmds == [] then l else (DoKeepsInv(l, cmds[0], cap, mask); DoAll(Do(l, cmds[0], cap, mask), cmds[1..], cap, mask))
  }

  /** The same over every sequence of commands. */
  lemma {:induction false} EditsKeepInv(l: Line, cmds: seq<Cmd>, cap: nat, mask: bool)
    requires LineInv(l) && |l.text| <= cap
    ensures LineInv(DoAll(l, cmds, cap, mask)) && |DoAll(l, cmds, cap, mask).text| <= cap
    decreases |cmds|
  {
    if cmds != [] {
      DoKeepsInv(l, cmds[0], cap, mask);
      EditsKeepInv(Do(l, cmds[0], cap, mask), cmds[1..], cap, mask);
    }
  }

  // ----- what the folds hide -----

  /** Which folds are looked at: all, those an insertion at pos leaves, those a removal leaves. */
  datatype Keep = All | NotAround(pos: nat) | OutsideOf(at: nat, n: nat)

  predicate Keeps(k: Keep, f: Fold) {
    match k
    case All => true
    case NotAround(pos) => SurvivesInsert(f, pos)
    case OutsideOf(at, n) => SurvivesDelete(f, at, n)
  }

  /** The texts under the folds that are kept. */
  function Hidden(text: seq<Byte>, fs: seq<Fold>, keep: Keep): (h: seq<seq<Byte>>)
    requires FoldsIn(fs, 0, |text|)
  {
    HiddenFrom(text, fs, 0, keep)
  }

  function HiddenFrom(text: seq<Byte>, fs: seq<Fold>, lo: nat, keep: Keep): (h: seq<seq<Byte>>)
    requires FoldsIn(fs, lo, |text|)
    decreases |fs|
  {
    if fs == [] then []
    else (if Keeps(keep, fs[0]) then [text[fs[0].start..fs[0].end]] else []) + HiddenFrom(text, fs[1..], fs[0].end, keep)
  }

  /** An insertion keeps, in order, exactly the folds it does not fall strictly inside, each with its text. */
  lemma InsertKeepsHidden(l: Line, c: seq<Byte>)
    requires LineInv(l)
    ensures LineInv(Insert(l, c))
    ensures Hidden(Insert(l, c).text, Insert(l, c).folds, All) ==
            Hidden(l.text, l.folds, NotAround(l.pos))
  {
    InsertInv(l, c);
    AdjustInsertOk(l.folds, 0, |l.text|, l.pos, |c|);
    var text' := Insert(l, c).text;
    var lo := if l.pos <= 0 then |c| else 0;
    InsertHiddenFrom(l.text, l.pos, c, l.folds, 0);
    HiddenLowerBound(text', AdjustInsert(l.folds, l.pos, |c|), lo, 0);
  }

  lemma HiddenLowerBound(text: seq<Byte>, fs: seq<Fold>, lo: nat, lo': nat)
    requires FoldsIn(fs, lo, |text|) && FoldsIn(fs, lo', |text|)
    ensures HiddenFrom(text, fs, lo, All) == HiddenFrom(text, fs, lo', All)
  {
  }

  lemma SliceAfterInsert(text: seq<Byte>, pos: nat, c: seq<Byte>, f: Fold)
    requires pos <= |text| && f.start < f.end <= |text| && SurvivesInsert(f, pos)
    ensures var f' := AfterInsert(f, pos, |c|);
            f'.start <= f'.end <= |text| + |c| && (text[..pos] + c + text[pos..])[f'.start..f'.end] == text[f.start..f.end]
  {
    var f', text' := AfterInsert(f, pos, |c|), text[..pos] + c + text[pos..];
    assert forall i :: f.start <= i < f.end ==> text'[f'.start + (i - f.start)] == text[i];
  }

  lemma SliceAfterRemove(text: seq<Byte>, at: nat, n: nat, f: Fold)
    requires at + n <= |text| && f.start < f.end <= |text| && SurvivesDelete(f, at, n)
    ensures var f' := AfterDelete(f, at, n);
            f'.start <= f'.end <= |text| - n && (text[..at] + text[at + n..])[f'.start..f'.end] == text[f.start..f.end]
  {
    var f', text' := AfterDelete(f, at, n), text[..at] + text[at + n..];
    assert forall i :: f.start <= i < f.end ==> text'[f'.start + (i - f.start)] == text[i];
  }

  lemma {:induction false} InsertHiddenFrom(text: seq<Byte>, pos: nat, c: seq<Byte>, fs: seq<Fold>, lo: nat)
    requires FoldsIn(fs, lo, |text|) && pos <= |text|
    ensures var text' := text[..pos] + c + text[pos..];
            var lo' := if pos <= lo then lo + |c| else lo;
            var fs' := AdjustInsert(fs, pos, |c|);
            && FoldsIn(fs', lo', |text'|)
            && HiddenFrom(text', fs', lo', All) == HiddenFrom(text, fs, lo, NotAround(pos))
    decreases |fs|
  {
    AdjustInsertOk(fs, lo, |text|, pos, |c|);
    if fs != [] {
      var f := fs[0];
      var text' := text[..pos] + c + text[pos..];
      InsertHiddenFrom(text, pos, c, fs[1..], f.end);
      var rest := AdjustInsert(fs[1..], pos, |c|);
      var lo1 := if pos <= f.end then f.end + |c| else f.end;
      if SurvivesInsert(f, pos) {
        var f' := AfterInsert(f, pos, |c|);
        assert ([f'] + rest)[0] == f' && ([f'] + rest)[1..] == rest;
        SliceAfterInsert(text, pos, c, f);
        HiddenLowerBound(text', rest, lo1, f'.end);
      } else {
        assert [] + rest == rest;
        HiddenLowerBound(text', rest, lo1, if pos <= lo then lo + |c| else lo);
      }
    }
  }

  lemma {:induction false} RemoveHiddenFrom(text: seq<Byte>, at: nat, n: nat, fs: seq<Fold>, lo: nat)
    requires FoldsIn(fs, lo, |text|) && at + n <= |text|
    ensures var text' := text[..at] + text[at + n..];
            var fs' := AdjustDelete(fs, at, n);
            && FoldsIn(fs', Image(lo, at, n), |text'|)
            && HiddenFrom(text', fs', Image(lo, at, n), All) == HiddenFrom(text, fs, lo, OutsideOf(at, n))
    decreases |fs|
  {
    AdjustDeleteOk(fs, lo, |text|, at, n);
    if fs != [] {
      var f := fs[0];
      var text' := text[..at] + text[at + n..];
      RemoveHiddenFrom(text, at, n, fs[1..], f.end);
      var rest := AdjustDelete(fs[1..], at, n);
      if SurvivesDelete(f, at, n) {
        var f' := AfterDelete(f, at, n);
        assert ([f'] + rest)[0] == f' && ([f'] + rest)[1..] == rest;
        SliceAfterRemove(text, at, n, f);
        HiddenLowerBound(text', rest, Image(f.end, at, n), f'.end);
      } else {
        assert [] + rest == rest;
        HiddenLowerBound(text', rest, Image(f.end, at, n), Image(lo, at, n));
      }
    }
  }

  /** A removal keeps, in order, exactly the folds it does not overlap, each with its text. */
  lemma RemoveKeepsHidden(l: Line, at: nat, n: nat, p: nat)
    requires LineInv(l) && at + n <= |l.text| && p <= |l.text| - n
    ensures LineInv(Remove(l, at, n, p))
    ensures Hidden(Remove(l, at, n, p).text, Remove(l, at, n, p).folds, All) ==
            Hidden(l.text, l.folds, OutsideOf(at, n))
  {
    RemoveInv(l, at, n, p);
    RemoveHiddenFrom(l.text, at, n, l.folds, 0);
    HiddenLowerBound(Remove(l, at, n, p).text, Remove(l, at, n, p).folds, Image(0, at, n), 0);
  }

  lemma {:induction false} ClearFolds(text: seq<Byte>, text': seq<Byte>, fs: seq<Fold>, lo: nat, a: nat, b: nat)
    requires FoldsIn(fs, lo, |text|) && |text'| == |text| && a <= b <= |text| && !Overlaps(fs, a, b - a)
    requires forall i :: (0 <= i < a || b <= i < |text|) ==> text'[i] == text[i]
    ensures HiddenFrom(text', fs, lo, All) == HiddenFrom(text, fs, lo, All)
    decreases |fs|
  {
    if fs != [] {
      var f := fs[0];
      assert text'[f.start..f.end] == text[f.start..f.end];
      ClearFolds(text, text', fs[1..], f.end, a, b);
    }
  }

  /** A swap changes no folded text. */
  lemma SwapKeepsHidden(l: Line, mask: bool)
    requires LineInv(l)
    ensures LineInv(Swap(l, mask)) && Swap(l, mask).folds == l.folds
    ensures Hidden(Swap(l, mask).text, l.folds, All) == Hidden(l.text, l.folds, All)
  {
    hide NextLen;
    hide PrevLen;
    MoveBounds(l, mask);
    var p, n := PrevLen(l, mask), NextLen(l, mask);
    if 0 < l.pos < |l.text| && p <= 32 && n <= 32 && !Overlaps(l.folds, l.pos - p, p + n) {
      Exchanged(l.text, l.pos - p, l.pos, l.pos + n);
      ClearFolds(l.text, Swap(l, mask).text, l.folds, 0, l.pos - p, l.pos + n);
    }
  }

  lemma Exchanged(text: seq<Byte>, a: nat, m: nat, b: nat)
    requires a <= m <= b <= |text|
    ensures var text' := Exchange(text, a, m, b);
            && (forall i :: (0 <= i < a || b <= i < |text|) ==> text'[i] == text[i])
            && text'[..b] == text[..a] + text[m..b] + text[a..m] && text'[b..] == text[b..]
  {
  }
}
