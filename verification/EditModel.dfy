/**
 The line editor against a model without positions (src/linenoise.c:1117-1222, 1554-1692, 1821-1904, 2023-2042,
 2158-2169): text is a row of cells before and a row of cells after the cursor, and a folded range is nothing but
 marked cells, so a fold moves, survives or breaks up with its text.
 */
module EditModel {
  import opened Bytes
  import opened Utf8
  import opened Editor

  // ----- the model -----

  /** A byte that is shown, the first byte of a fold, or a further byte of a fold. */
  datatype Mark = Shown | First | Further

  datatype Cell = Cell(b: Byte, mark: Mark)

  /** The line before and after the cursor. */
  datatype Doc = Doc(before: seq<Cell>, after: seq<Cell>)

  function Raw(cells: seq<Cell>): (bs: seq<Byte>)
    ensures |bs| == |cells|
  {
    seq(|cells|, i requires 0 <= i < |cells| => cells[i].b)
  }

  function Plain(bs: seq<Byte>): (cells: seq<Cell>)
    ensures |cells| == |bs|
  {
    seq(|bs|, i requires 0 <= i < |bs| => Cell(bs[i], Shown))
  }

  function Folded(bs: seq<Byte>): (cells: seq<Cell>)
    ensures |cells| == |bs|
  {
    seq(|bs|, i requires 0 <= i < |bs| => Cell(bs[i], if i == 0 then First else Further))
  }

  /** Cells a up to b are all further bytes of a fold. */
  predicate AllFurther(cells: seq<Cell>, a: nat, b: nat)
    requires b <= |cells|
  {
    forall m :: a <= m < b ==> cells[m].mark == Further
  }

  /** The fold that reaches the end of these cells breaks up: a cell is in it when only further bytes follow. */
  function BreakEnd(cells: seq<Cell>): (r: seq<Cell>)
    ensures |r| == |cells|
  {
    seq(|cells|, i requires 0 <= i < |cells| =>
      if AllFurther(cells, i + 1, |cells|) then cells[i].(mark := Shown) else cells[i])
  }

  /** The rest of a fold at the beginning of these cells breaks up. */
  function BreakStart(cells: seq<Cell>): (r: seq<Cell>)
    ensures |r| == |cells|
  {
    seq(|cells|, i requires 0 <= i < |cells| =>
      if AllFurther(cells, 0, i + 1) then cells[i].(mark := Shown) else cells[i])
  }

  predicate GoesOn(cells: seq<Cell>) {
    cells != [] && cells[0].mark == Further
  }

  /** x, y and z are the whole line and y goes: a fold that reaches from x into y or z breaks up, and so does the rest of a
      fold in z. With an empty y this is what breaks at a point. */
  function Without(x: seq<Cell>, y: seq<Cell>, z: seq<Cell>): (d: Doc) {
    Doc(if GoesOn(y + z) then BreakEnd(x) else x, BreakStart(z))
  }

  function FoldCount(cells: seq<Cell>): (n: nat) {
    if cells == [] then 0 else (if cells[0].mark == First then 1 else 0) + FoldCount(cells[1..])
  }

  /** The length of the fold that begins these cells. */
  function FoldAhead(cells: seq<Cell>): (n: nat)
    ensures n <= |cells|
  {
    if cells == [] || cells[0].mark != First then 0 else 1 + FurtherAhead(cells[1..])
  }

  function FurtherAhead(cells: seq<Cell>): (n: nat)
    ensures n <= |cells|
  {
    if GoesOn(cells) then 1 + FurtherAhead(cells[1..]) else 0
  }

  /** The length of the fold that ends these cells. */
  function FoldBehind(cells: seq<Cell>): (n: nat)
    ensures n <= |cells|
  {
    if cells == [] || cells[|cells| - 1].mark == Shown then 0
    else if cells[|cells| - 1].mark == First then 1
    else 1 + FoldBehind(cells[..|cells| - 1])
  }

  function Next(d: Doc, mask: bool): (n: nat)
    ensures n <= |d.after|
  {
    if !mask && FoldAhead(d.after) > 0 then FoldAhead(d.after)
    else NextCharLen(Raw(d.before + d.after), |d.before|)
  }

  function Prev(d: Doc, mask: bool): (n: nat)
    ensures n <= |d.before| && (d.before != [] ==> n > 0)
  {
    if !mask && !GoesOn(d.after) && FoldBehind(d.before) > 0 then FoldBehind(d.before)
    else PrevCharLen(Raw(d.before + d.after), |d.before|)
  }

  /** The cursor goes back n bytes. */
  function Back(d: Doc, n: nat): (d': Doc)
    requires n <= |d.before|
  {
    var k := |d.before| - n;
    Doc(d.before[..k], d.before[k..] + d.after)
  }

  /** Back over blanks, or over what is not blank. */
  function BackWhile(d: Doc, blank: bool, mask: bool): (d': Doc)
    ensures |d'.before| <= |d.before|
    decreases |d.before|
  {
    if d.before != [] && (d.before[|d.before| - 1].b == BLANK_CHAR) == blank then BackWhile(Back(d, Prev(d, mask)), blank, mask)
    else d
  }

  /** Where a word deletion starts. */
  function WordFrom(d: Doc, mask: bool): (n: nat)
    ensures n <= |d.before|
  {
    |BackWhile(BackWhile(d, true, mask), false, mask).before|
  }

  predicate NoneFolded(cells: seq<Cell>) {
    forall i :: 0 <= i < |cells| ==> cells[i].mark == Shown
  }

  function Put(d: Doc, cells: seq<Cell>): (d': Doc) {
    var w := Without(d.before, [], d.after);
    Doc(w.before + cells, w.after)
  }

  /** One command. */
  function Step(d: Doc, cmd: Cmd, cap: nat, mask: bool): (d': Doc) {
    var len := |d.before| + |d.after|;
    match cmd
    case Type(c) => if len + |c| <= cap then Put(d, Plain(c)) else d
    case PasteText(c, fold) =>
      if c == [] || FoldCount(d.before + d.after) == MAX_FOLDS || len + |c| > cap then d
      else Put(d, if fold then Folded(c) else Plain(c))
    case DeleteKey => if d.after == [] then d else Without(d.before, d.after[..Next(d, mask)], d.after[Next(d, mask)..])
    case BackspaceKey =>
      if d.before == [] then d
      else
        var k := |d.before| - Prev(d, mask);
        Without(d.before[..k], d.before[k..], d.after)
    case DeleteWord => Without(d.before[..WordFrom(d, mask)], d.before[WordFrom(d, mask)..], d.after)
    case SwapChars =>
      var p, n := Prev(d, mask), Next(d, mask);
      var k := |d.before| - p;
      if d.before == [] || d.after == [] || p > 32 || n > 32 || !NoneFolded(d.before[k..] + d.after[..n]) then d
      else Doc(d.before[..k] + d.after[..n] + d.before[k..], d.after[n..])
    case KillLine => Doc([], [])
    case KillEnd => Without(d.before, d.after, [])
    case Left => if d.before == [] then d else Back(d, Prev(d, mask))
    case Right => Doc(d.before + d.after[..Next(d, mask)], d.after[Next(d, mask)..])
    case Home => Doc([], d.before + d.after)
    case End => Doc(d.before + d.after, [])
  }

  function Steps(d: Doc, cmds: seq<Cmd>, cap: nat, mask: bool): (d': Doc)
    decreases |cmds|
  {
    if cmds == [] then d else Steps(Step(d, cmds[0], cap, mask), cmds[1..], cap, mask)
  }

  // ----- a line with fold positions as a row of cells -----

  function MarkAt(fs: seq<Fold>, i: int): (m: Mark) {
    if fs == [] then Shown
    else if i == fs[0].start then First
    else if fs[0].start < i < fs[0].end then Further
    else MarkAt(fs[1..], i)
  }

  function Cells(text: seq<Byte>, fs: seq<Fold>): (cells: seq<Cell>)
    ensures |cells| == |text|
    ensures forall i :: 0 <= i < |text| ==> cells[i] == Cell(text[i], MarkAt(fs, i))
  {
    seq(|text|, i requires 0 <= i < |text| => Cell(text[i], MarkAt(fs, i)))
  }

  function Abs(l: Line): (d: Doc)
    requires l.pos <= |l.text|
  {
    Doc(Cells(l.text, l.folds)[..l.pos], Cells(l.text, l.folds)[l.pos..])
  }

  /** A fold holds both i and k. */
  predicate Together(fs: seq<Fold>, i: int, k: int) {
    fs != [] && ((fs[0].start <= i && k < fs[0].end) || Together(fs[1..], i, k))
  }

  lemma {:induction false} MarksFrom(fs: seq<Fold>, lo: int, hi: int, i: int)
    requires FoldsIn(fs, lo, hi) && (i < lo || i >= hi)
    ensures MarkAt(fs, i) == Shown
    decreases |fs|
  {
    if fs != [] { MarksFrom(fs[1..], fs[0].end, hi, i); }
  }

  predicate GoOn(fs: seq<Fold>, i: int, k: int) {
    forall m :: i < m <= k ==> MarkAt(fs, m) == Further
  }

  /** A fold is a run of marks: two places are in one fold when the first is folded and all up to the second go on. */
  lemma {:induction false} TogetherIs(fs: seq<Fold>, lo: int, hi: int, i: int, k: int)
    requires FoldsIn(fs, lo, hi) && i <= k
    ensures Together(fs, i, k) <==> MarkAt(fs, i) != Shown && GoOn(fs, i, k)
    decreases |fs|
  {
    if fs != [] {
      var f := fs[0];
      TogetherIs(fs[1..], f.end, hi, i, k);
      if i < f.start {
        MarksFrom(fs[1..], f.end, hi, i);
        NotTogether(fs[1..], f.end, hi, i, k);
      } else if i < f.end {
        NotTogether(fs[1..], f.end, hi, i, k);
        if k >= f.end {
          EndsThere(fs[1..], f.end, hi);
          assert MarkAt(fs, f.end) == MarkAt(fs[1..], f.end);
        }
      } else {
        SameBeyond(fs, i, k);
      }
    }
  }

  lemma SameBeyond(fs: seq<Fold>, i: int, k: int)
    requires fs != [] && fs[0].start < fs[0].end <= i
    ensures GoOn(fs, i, k) <==> GoOn(fs[1..], i, k)
    ensures MarkAt(fs, i) == MarkAt(fs[1..], i)
  {
    forall m | i < m <= k ensures MarkAt(fs, m) == MarkAt(fs[1..], m) {
    }
  }

  lemma {:induction false} NotTogether(fs: seq<Fold>, lo: int, hi: int, i: int, k: int)
    requires FoldsIn(fs, lo, hi) && i < lo
    ensures !Together(fs, i, k)
    decreases |fs|
  {
    if fs != [] { NotTogether(fs[1..], fs[0].end, hi, i, k); }
  }

  lemma EndsThere(fs: seq<Fold>, lo: int, hi: int)
    requires FoldsIn(fs, lo, hi)
    ensures MarkAt(fs, lo) != Further
  {
    if fs != [] && fs[0].start != lo { MarksFrom(fs[1..], fs[0].end, hi, lo); }
  }

  // ----- folds after a removal or an insertion -----

  /** i lies in a fold that does not survive the removal of [at, at + n). */
  predicate Broken(fs: seq<Fold>, at: nat, n: nat, i: int) {
    fs != [] && ((!SurvivesDelete(fs[0], at, n) && fs[0].start <= i < fs[0].end) || Broken(fs[1..], at, n, i))
  }

  lemma {:induction false} BrokenIs(fs: seq<Fold>, lo: int, hi: int, at: nat, n: nat, i: int)
    requires FoldsIn(fs, lo, hi)
    ensures i < at ==> (Broken(fs, at, n, i) <==> Together(fs, i, at))
    ensures i >= at + n ==> (Broken(fs, at, n, i) <==> Together(fs, at + n - 1, i))
    decreases |fs|
  {
    if fs != [] { BrokenIs(fs[1..], fs[0].end, hi, at, n, i); }
  }

  lemma {:induction false} NotBrokenBelow(fs: seq<Fold>, lo: int, hi: int, at: nat, n: nat, i: int)
    requires FoldsIn(fs, lo, hi) && i < lo
    ensures !Broken(fs, at, n, i)
    decreases |fs|
  {
    if fs != [] { NotBrokenBelow(fs[1..], fs[0].end, hi, at, n, i); }
  }

  lemma {:induction false} MarksAfterDelete(fs: seq<Fold>, lo: nat, hi: nat, at: nat, n: nat, i: int)
    requires FoldsIn(fs, lo, hi) && (i < at || i >= at + n)
    ensures MarkAt(AdjustDelete(fs, at, n), if i < at then i else i - n) == if Broken(fs, at, n, i) then Shown else MarkAt(fs, i)
    decreases |fs|
  {
    if fs != [] {
      var f, rest := fs[0], AdjustDelete(fs[1..], at, n);
      MarksAfterDelete(fs[1..], f.end, hi, at, n, i);
      if i < f.end {
        NotBrokenBelow(fs[1..], f.end, hi, at, n, i);
        MarksFrom(fs[1..], f.end, hi, i);
      }
      if SurvivesDelete(f, at, n) {
        var r := [AfterDelete(f, at, n)] + rest;
        assert r[0] == AfterDelete(f, at, n) && r[1..] == rest;
      } else {
        assert [] + rest == rest;
      }
    }
  }

  lemma {:induction false} MarksAfterInsert(fs: seq<Fold>, lo: nat, hi: nat, pos: nat, n: nat, i: int)
    requires FoldsIn(fs, lo, hi)
    ensures MarkAt(AdjustInsert(fs, pos, n), if i < pos then i else i + n) == if Broken(fs, pos, 0, i) then Shown else MarkAt(fs, i)
    decreases |fs|
  {
    if fs != [] {
      var f, rest := fs[0], AdjustInsert(fs[1..], pos, n);
      MarksAfterInsert(fs[1..], f.end, hi, pos, n, i);
      if i < f.end {
        NotBrokenBelow(fs[1..], f.end, hi, pos, 0, i);
        MarksFrom(fs[1..], f.end, hi, i);
      }
      if SurvivesInsert(f, pos) {
        var r := [AfterInsert(f, pos, n)] + rest;
        assert r[0] == AfterInsert(f, pos, n) && r[1..] == rest;
      } else {
        assert [] + rest == rest;
      }
    }
  }

  lemma {:induction false} InsertedIsShown(fs: seq<Fold>, lo: nat, hi: nat, pos: nat, n: nat, i: int)
    requires FoldsIn(fs, lo, hi) && pos <= i < pos + n
    ensures MarkAt(AdjustInsert(fs, pos, n), i) == Shown
    decreases |fs|
  {
    if fs != [] {
      var f, rest := fs[0], AdjustInsert(fs[1..], pos, n);
      InsertedIsShown(fs[1..], f.end, hi, pos, n, i);
      if SurvivesInsert(f, pos) {
        var r := [AfterInsert(f, pos, n)] + rest;
        assert r[0] == AfterInsert(f, pos, n) && r[1..] == rest;
      } else {
        assert [] + rest == rest;
      }
    }
  }

  /** A further byte has a byte of the same fold before it. */
  lemma {:induction false} FurtherHasPrevious(fs: seq<Fold>, lo: int, hi: int, m: int)
    requires FoldsIn(fs, lo, hi) && MarkAt(fs, m) == Further
    ensures lo < m && MarkAt(fs, m - 1) != Shown
    decreases |fs|
  {
    if !(fs[0].start < m < fs[0].end) { FurtherHasPrevious(fs[1..], fs[0].end, hi, m); }
  }

  lemma FurtherMeans(text: seq<Byte>, fs: seq<Fold>, a: nat, b: nat)
    requires b <= |text|
    ensures AllFurther(Cells(text, fs), a, b) <==> GoOn(fs, a - 1, b - 1)
  {
    var c := Cells(text, fs);
    if AllFurther(c, a, b) {
      forall m | a - 1 < m <= b - 1 ensures MarkAt(fs, m) == Further { assert c[m].mark == Further; }
    }
  }

  /** Breaking up at the end of a prefix, told by marks. */
  lemma BreakEndAt(text: seq<Byte>, fs: seq<Fold>, at: nat, i: nat)
    requires FoldsIn(fs, 0, |text|) && i < at <= |text|
    ensures var c := Cells(text, fs);
            (if GoesOn(c[at..]) then BreakEnd(c[..at]) else c[..at])[i] ==
            if Together(fs, i, at) then Cell(text[i], Shown) else c[i]
  {
    hide FoldsIn;
    hide Together;
    hide MarkAt;
    var c := Cells(text, fs);
    assert AllFurther(c[..at], i + 1, at) <==> AllFurther(c, i + 1, at) by { PrefixFurther(c, at, i + 1); }
    FurtherMeans(text, fs, i + 1, at);
    TogetherIs(fs, 0, |text|, i, at);
    OneMore(fs, i, at);
    if at == |text| {
      MarksFrom(fs, 0, |text|, at);
    } else {
      assert c[at..][0] == c[at];
    }
  }

  lemma PrefixFurther(c: seq<Cell>, at: nat, a: nat)
    requires at <= |c|
    ensures AllFurther(c[..at], a, at) <==> AllFurther(c, a, at)
  {
    if AllFurther(c[..at], a, at) {
      forall m | a <= m < at ensures c[m].mark == Further { assert c[..at][m] == c[m]; }
    }
  }

  lemma SuffixFurther(c: seq<Cell>, at: nat, k: nat)
    requires at + k <= |c|
    ensures AllFurther(c[at..], 0, k) <==> AllFurther(c, at, at + k)
  {
    if AllFurther(c[at..], 0, k) {
      forall m | at <= m < at + k ensures c[m].mark == Further { assert c[at..][m - at] == c[m]; }
    }
  }

  lemma OneMore(fs: seq<Fold>, i: int, k: int)
    requires i < k
    ensures GoOn(fs, i, k) <==> GoOn(fs, i, k - 1) && MarkAt(fs, k) == Further
  {
  }

  /** Breaking up at the beginning of a suffix, told by marks. */
  lemma BreakStartAt(text: seq<Byte>, fs: seq<Fold>, at: nat, i: nat)
    requires FoldsIn(fs, 0, |text|) && at <= i < |text|
    ensures var c := Cells(text, fs);
            BreakStart(c[at..])[i - at] == if Together(fs, at - 1, i) then Cell(text[i], Shown) else c[i]
  {
    hide FoldsIn;
    hide Together;
    hide MarkAt;
    var c := Cells(text, fs);
    SuffixFurther(c, at, i - at + 1);
    FurtherMeans(text, fs, at, i + 1);
    TogetherIs(fs, 0, |text|, at - 1, i);
    if GoOn(fs, at - 1, i) {
      assert MarkAt(fs, at) == Further;
      FurtherHasPrevious(fs, 0, |text|, at);
    }
  }

  /** A removal, wherever it is. */
  lemma RemoveModel(l: Line, at: nat, n: nat)
    requires LineInv(l) && at + n <= |l.text|
    ensures var c := Cells(l.text, l.folds); Abs(Remove(l, at, n, at)) == Without(c[..at], c[at..at + n], c[at + n..])
  {
    hide FoldsIn;
    hide BreakEnd;
    hide BreakStart;
    hide AdjustDelete;
    hide MarkAt;
    var c := Cells(l.text, l.folds);
    var l' := Remove(l, at, n, at);
    var c', w := Cells(l'.text, l'.folds), Without(c[..at], c[at..at + n], c[at + n..]);
    assert c[at..at + n] + c[at + n..] == c[at..];
    forall i | 0 <= i < at ensures c'[i] == w.before[i] {
      RemovedBefore(l, at, n, i);
    }
    forall i | at <= i < |l'.text| ensures c'[i] == w.after[i - at] {
      RemovedAfter(l, at, n, i);
    }
    SameHalves(c', w, at);
  }

  lemma SameHalves(c: seq<Cell>, d: Doc, at: nat)
    requires |d.before| == at && |c| == at + |d.after|
    requires forall i :: 0 <= i < at ==> c[i] == d.before[i]
    requires forall i :: at <= i < |c| ==> c[i] == d.after[i - at]
    ensures c[..at] == d.before && c[at..] == d.after
  {
  }

  lemma RemovedBefore(l: Line, at: nat, n: nat, i: nat)
    requires LineInv(l) && at + n <= |l.text| && i < at
    ensures var c := Cells(l.text, l.folds);
            var l' := Remove(l, at, n, at);
            Cells(l'.text, l'.folds)[i] == (if GoesOn(c[at..]) then BreakEnd(c[..at]) else c[..at])[i]
  {
    hide FoldsIn;
    hide BreakEnd;
    hide AdjustDelete;
    hide Broken;
    hide MarkAt;
    hide Together;
    MarksAfterDelete(l.folds, 0, |l.text|, at, n, i);
    BrokenIs(l.folds, 0, |l.text|, at, n, i);
    BreakEndAt(l.text, l.folds, at, i);
  }

  lemma RemovedAfter(l: Line, at: nat, n: nat, i: nat)
    requires LineInv(l) && at + n <= |l.text| && at <= i < |l.text| - n
    ensures var c := Cells(l.text, l.folds);
            var l' := Remove(l, at, n, at);
            Cells(l'.text, l'.folds)[i] == BreakStart(c[at + n..])[i - at]
  {
    hide FoldsIn;
    hide BreakStart;
    hide AdjustDelete;
    hide Broken;
    hide MarkAt;
    hide Together;
    MarksAfterDelete(l.folds, 0, |l.text|, at, n, i + n);
    BrokenIs(l.folds, 0, |l.text|, at, n, i + n);
    BreakStartAt(l.text, l.folds, at + n, i + n);
  }

  lemma InsertModel(l: Line, t: seq<Byte>)
    requires LineInv(l)
    ensures Abs(Insert(l, t)) == Put(Abs(l), Plain(t))
  {
    hide FoldsIn;
    hide AdjustInsert;
    hide MarkAt;
    hide Put;
    hide BreakEnd;
    hide BreakStart;
    hide GoesOn;
    var n := l.pos + |t|;
    var l' := Insert(l, t);
    var c', d := Cells(l'.text, l'.folds), Put(Abs(l), Plain(t));
    PutIs(Abs(l), Plain(t));
    forall i | 0 <= i < n ensures c'[i] == d.before[i] { InsertedUpTo(l, t, i); }
    forall i | n <= i < |c'| ensures c'[i] == d.after[i - n] { InsertedAfter(l, t, i); }
    SameHalves(c', d, n);
  }

  lemma InsertedUpTo(l: Line, t: seq<Byte>, i: nat)
    requires LineInv(l) && i < l.pos + |t|
    ensures |Insert(l, t).text| == |l.text| + |t| && |Put(Abs(l), Plain(t)).before| == l.pos + |t|
    ensures Cells(Insert(l, t).text, Insert(l, t).folds)[i] == Put(Abs(l), Plain(t)).before[i]
  {
    hide FoldsIn;
    hide AdjustInsert;
    hide MarkAt;
    hide Put;
    hide BreakEnd;
    hide BreakStart;
    hide GoesOn;
    PutIs(Abs(l), Plain(t));
    if i < l.pos {
      InsertedBefore(l, t, i);
    } else {
      InsertedIsShown(l.folds, 0, |l.text|, l.pos, |t|, i);
    }
  }

  lemma PutIs(d: Doc, cells: seq<Cell>)
    ensures var w, n := Put(d, cells), |d.before|;
            && |w.before| == n + |cells| && w.after == BreakStart(d.after)
            && (forall i :: 0 <= i < n ==> w.before[i] == (if GoesOn(d.after) then BreakEnd(d.before) else d.before)[i])
            && (forall i :: n <= i < n + |cells| ==> w.before[i] == cells[i - n])
  {
    hide BreakEnd;
    hide BreakStart;
    assert [] + d.after == d.after;
  }

  lemma InsertedBefore(l: Line, t: seq<Byte>, i: nat)
    requires LineInv(l) && i < l.pos
    ensures var c := Cells(l.text, l.folds);
            Cells(Insert(l, t).text, Insert(l, t).folds)[i] == (if GoesOn(c[l.pos..]) then BreakEnd(c[..l.pos]) else c[..l.pos])[i]
  {
    hide FoldsIn;
    hide BreakEnd;
    hide AdjustInsert;
    hide Broken;
    hide MarkAt;
    hide Together;
    MarksAfterInsert(l.folds, 0, |l.text|, l.pos, |t|, i);
    BrokenIs(l.folds, 0, |l.text|, l.pos, 0, i);
    BreakEndAt(l.text, l.folds, l.pos, i);
  }

  lemma InsertedAfter(l: Line, t: seq<Byte>, i: nat)
    requires LineInv(l) && l.pos + |t| <= i < |l.text| + |t|
    ensures var c := Cells(l.text, l.folds);
            Cells(Insert(l, t).text, Insert(l, t).folds)[i] == BreakStart(c[l.pos..])[i - (l.pos + |t|)]
  {
    hide FoldsIn;
    hide BreakStart;
    hide AdjustInsert;
    hide Broken;
    hide MarkAt;
    hide Together;
    MarksAfterInsert(l.folds, 0, |l.text|, l.pos, |t|, i - |t|);
    BrokenIs(l.folds, 0, |l.text|, l.pos, 0, i - |t|);
    BreakStartAt(l.text, l.folds, l.pos, i - |t|);
  }

  // ----- a folded paste -----

  lemma {:induction false} MarkSnoc(fs: seq<Fold>, g: Fold, i: int)
    ensures MarkAt(fs + [g], i) == if MarkAt(fs, i) != Shown then MarkAt(fs, i) else MarkAt([g], i)
  {
    if fs == [] {
      assert fs + [g] == [g];
    } else {
      assert (fs + [g])[0] == fs[0] && (fs + [g])[1..] == fs[1..] + [g];
      MarkSnoc(fs[1..], g, i);
    }
  }

  predicate ClearOf(fs: seq<Fold>, f: Fold) {
    forall k :: 0 <= k < |fs| ==> fs[k].end <= f.start || f.end <= fs[k].start
  }

  lemma {:induction false} ClearIsShown(fs: seq<Fold>, f: Fold, i: int)
    requires ClearOf(fs, f) && f.start <= i < f.end && forall k :: 0 <= k < |fs| ==> fs[k].start < fs[k].end
    ensures MarkAt(fs, i) == Shown
  {
    if fs != [] {
      assert ClearOf(fs[1..], f);
      ClearIsShown(fs[1..], f, i);
    }
  }

  /** A new fold marks its own range and nothing else. */
  lemma {:induction false} MarkInsertFold(fs: seq<Fold>, f: Fold, i: int)
    requires ClearOf(fs, f) && f.start < f.end && forall k :: 0 <= k < |fs| ==> fs[k].start < fs[k].end
    ensures MarkAt(InsertFold(fs, f), i) == if f.start <= i < f.end then MarkAt([f], i) else MarkAt(fs, i)
    decreases |fs|
  {
    if fs != [] && f.start < fs[|fs| - 1].start {
      var n := |fs| - 1;
      assert fs == fs[..n] + [fs[n]];
      MarkInsertFold(fs[..n], f, i);
      MarkSnoc(InsertFold(fs[..n], f), fs[n], i);
      MarkSnoc(fs[..n], fs[n], i);
    } else {
      MarkSnoc(fs, f, i);
      if f.start <= i < f.end { ClearIsShown(fs, f, i); }
    }
  }

  lemma ClearAfterInsert(l: Line, t: seq<Byte>)
    requires LineInv(l)
    ensures var fs := AdjustInsert(l.folds, l.pos, |t|);
            ClearOf(fs, Fold(l.pos, l.pos + |t|)) && forall k :: 0 <= k < |fs| ==> fs[k].start < fs[k].end
  {
    var fs := AdjustInsert(l.folds, l.pos, |t|);
    InsertInv(l, t);
    forall k | 0 <= k < |fs|
      ensures fs[k].start < fs[k].end && (fs[k].end <= l.pos || l.pos + |t| <= fs[k].start)
    {
      ClearOfInserted(l.folds, 0, |l.text|, l.pos, |t|, k);
      FoldAt(fs, 0, |l.text| + |t|, k);
    }
  }

  lemma FoldMarks(f: Fold, i: int)
    ensures MarkAt([f], i) == if i == f.start then First else if f.start < i < f.end then Further else Shown
  {
    assert [f][1..] == [];
  }

  lemma PasteModel(l: Line, t: seq<Byte>)
    requires LineInv(l) && t != [] && |l.folds| < MAX_FOLDS
    ensures var l1 := Insert(l, t);
            l1.pos <= |l1.text| &&
            Abs(l1.(folds := FoldAdd(l1.folds, Fold(l.pos, l.pos + |t|)))) == Put(Abs(l), Folded(t))
  {
    hide FoldsIn;
    hide AdjustInsert;
    hide MarkAt;
    hide Put;
    hide InsertFold;
    hide Plain;
    hide Folded;
    hide BreakEnd;
    hide BreakStart;
    hide GoesOn;
    InsertModel(l, t);
    InsertInv(l, t);
    AdjustNotMore(l.folds, l.pos, |t|);
    PutIs(Abs(l), Plain(t));
    PutIs(Abs(l), Folded(t));
    var l1, n := Insert(l, t), l.pos + |t|;
    var c1, c2 := Cells(l1.text, l1.folds), Cells(l1.text, InsertFold(l1.folds, Fold(l.pos, n)));
    var d1, d2 := Put(Abs(l), Plain(t)), Put(Abs(l), Folded(t));
    forall i | 0 <= i < n ensures c2[i] == d2.before[i] {
      PastedCell(l, t, i);
      assert c1[..n][i] == d1.before[i];
    }
    forall i | n <= i < |c2| ensures c2[i] == d2.after[i - n] {
      PastedCell(l, t, i);
      assert c1[n..][i - n] == d1.after[i - n];
    }
    SameHalves(c2, d2, n);
  }

  lemma PastedCell(l: Line, t: seq<Byte>, i: nat)
    requires LineInv(l) && t != [] && i < |l.text| + |t|
    ensures var l1, f := Insert(l, t), Fold(l.pos, l.pos + |t|);
            && |l1.text| == |l.text| + |t|
            && Cells(l1.text, InsertFold(l1.folds, f))[i] ==
               if l.pos <= i < l.pos + |t| then Folded(t)[i - l.pos] else Cells(l1.text, l1.folds)[i]
  {
    hide FoldsIn;
    hide AdjustInsert;
    hide MarkAt;
    hide InsertFold;
    ClearAfterInsert(l, t);
    var l1, f := Insert(l, t), Fold(l.pos, l.pos + |t|);
    MarkInsertFold(l1.folds, f, i);
    FoldMarks(f, i);
  }

  lemma {:induction false} AdjustNotMore(fs: seq<Fold>, pos: nat, n: nat)
    ensures |AdjustInsert(fs, pos, n)| <= |fs|
  {
    if fs != [] { AdjustNotMore(fs[1..], pos, n); }
  }

  // ----- counting folds -----

  lemma {:induction false} SkipNotFirst(c: seq<Cell>, a: nat, b: nat)
    requires a <= b <= |c| && forall i :: a <= i < b ==> c[i].mark != First
    ensures FoldCount(c[a..]) == FoldCount(c[b..])
    decreases b - a
  {
    if a < b {
      assert c[a..][1..] == c[a + 1..];
      SkipNotFirst(c, a + 1, b);
    }
  }

  lemma {:induction false} CountIs(text: seq<Byte>, all: seq<Fold>, fs: seq<Fold>, lo: nat)
    requires FoldsIn(fs, lo, |text|) && lo <= |text| && forall i :: lo <= i < |text| ==> MarkAt(all, i) == MarkAt(fs, i)
    ensures FoldCount(Cells(text, all)[lo..]) == |fs|
    decreases |fs|
  {
    var c := Cells(text, all);
    if fs == [] {
      SkipNotFirst(c, lo, |text|);
      assert c[|text|..] == [];
    } else {
      var f := fs[0];
      forall i | lo <= i < f.start ensures c[i].mark != First { MarksFrom(fs[1..], f.end, |text|, i); }
      SkipNotFirst(c, lo, f.start);
      assert c[f.start..][0] == c[f.start] && c[f.start..][1..] == c[f.start + 1..];
      SkipNotFirst(c, f.start + 1, f.end);
      CountIs(text, all, fs[1..], f.end);
    }
  }

  lemma CountModel(l: Line)
    requires LineInv(l)
    ensures FoldCount(Abs(l).before + Abs(l).after) == |l.folds|
  {
    var c := Cells(l.text, l.folds);
    assert Abs(l).before + Abs(l).after == c == c[0..];
    CountIs(l.text, l.folds, l.folds, 0);
  }

  // ----- movements -----

  lemma {:induction false} FurtherAheadIs(c: seq<Cell>, n: nat)
    requires n <= |c| && AllFurther(c, 0, n) && (n < |c| ==> c[n].mark != Further)
    ensures FurtherAhead(c) == n
    decreases n
  {
    if n > 0 {
      SuffixFurther(c, 1, n - 1);
      forall m | 1 <= m < n ensures c[m].mark == Further { }
      assert AllFurther(c, 1, n);
      FurtherAheadIs(c[1..], n - 1);
    }
  }

  lemma {:induction false} FoldBehindIs(c: seq<Cell>, n: nat)
    requires 0 < n <= |c| && c[|c| - n].mark == First && AllFurther(c, |c| - n + 1, |c|)
    ensures FoldBehind(c) == n
    decreases n
  {
    if n > 1 {
      var k := |c| - 1;
      assert c[k].mark == Further;
      PrefixFurther(c, k, |c| - n + 1);
      FoldBehindIs(c[..k], n - 1);
    }
  }

  /** The fold that starts at pos, in marks. */
  lemma {:induction false} StartingIs(fs: seq<Fold>, lo: int, hi: int, pos: nat)
    requires FoldsIn(fs, lo, hi)
    ensures var n := FoldStartingAt(fs, pos);
            && (n > 0 <==> MarkAt(fs, pos) == First)
            && (n > 0 ==> GoOn(fs, pos, pos + n - 1) && MarkAt(fs, pos + n) != Further && pos + n <= hi)
    decreases |fs|
  {
    if fs != [] {
      var f := fs[0];
      StartingIs(fs[1..], f.end, hi, pos);
      EndsThere(fs[1..], f.end, hi);
      if f.start != pos {
        if pos < f.end {
          MarksFrom(fs[1..], f.end, hi, pos);
        } else {
          var n := FoldStartingAt(fs[1..], pos);
          SameBeyond(fs, pos, pos + n - 1);
        }
      }
    }
  }

  /** The fold that ends at pos, in marks. */
  lemma {:induction false} EndingIs(fs: seq<Fold>, lo: int, hi: int, pos: nat)
    requires FoldsIn(fs, lo, hi)
    ensures var n := FoldEndingAt(fs, pos);
            && (n > 0 <==> MarkAt(fs, pos - 1) != Shown && MarkAt(fs, pos) != Further)
            && (n > 0 ==> n <= pos && MarkAt(fs, pos - n) == First && GoOn(fs, pos - n, pos - 1))
    decreases |fs|
  {
    if fs != [] {
      var f := fs[0];
      EndingIs(fs[1..], f.end, hi, pos);
      EndsThere(fs[1..], f.end, hi);
      if pos != f.end {
        if pos - 1 < f.end {
          MarksFrom(fs[1..], f.end, hi, pos - 1);
        } else {
          var n := FoldEndingAt(fs[1..], pos);
          if n > 0 {
            EndingBeyond(fs[1..], f.end, hi, pos);
            SameBeyond(fs, pos - n, pos - 1);
          }
        }
      }
    }
  }

  lemma {:induction false} EndingBeyond(fs: seq<Fold>, lo: int, hi: int, pos: nat)
    requires FoldsIn(fs, lo, hi) && FoldEndingAt(fs, pos) > 0
    ensures lo <= pos - FoldEndingAt(fs, pos)
    decreases |fs|
  {
    if fs[0].end != pos { EndingBeyond(fs[1..], fs[0].end, hi, pos); }
  }

  lemma RawOfCells(l: Line)
    requires l.pos <= |l.text|
    ensures Raw(Abs(l).before + Abs(l).after) == l.text && Abs(l).before + Abs(l).after == Cells(l.text, l.folds)
  {
    assert Abs(l).before + Abs(l).after == Cells(l.text, l.folds);
  }

  lemma AheadModel(l: Line)
    requires LineInv(l)
    ensures FoldAhead(Cells(l.text, l.folds)[l.pos..]) == FoldStartingAt(l.folds, l.pos)
  {
    hide FoldsIn;
    hide MarkAt;
    hide FoldStartingAt;
    var c, n := Cells(l.text, l.folds), FoldStartingAt(l.folds, l.pos);
    StartingIs(l.folds, 0, |l.text|, l.pos);
    if l.pos == |l.text| { MarksFrom(l.folds, 0, |l.text|, l.pos); }
    if n > 0 {
      assert c[l.pos..][1..] == c[l.pos + 1..];
      SuffixFurther(c, l.pos + 1, n - 1);
      FurtherMeans(l.text, l.folds, l.pos + 1, l.pos + n);
      FurtherAheadIs(c[l.pos + 1..], n - 1);
    }
  }

  lemma NextModel(l: Line, mask: bool)
    requires LineInv(l)
    ensures Next(Abs(l), mask) == NextLen(l, mask)
  {
    hide FoldsIn;
    hide FoldAhead;
    hide FoldStartingAt;
    hide NextCharLen;
    RawOfCells(l);
    AheadModel(l);
  }

  lemma BehindModel(l: Line)
    requires LineInv(l)
    ensures var c := Cells(l.text, l.folds);
            FoldEndingAt(l.folds, l.pos) == if GoesOn(c[l.pos..]) then 0 else FoldBehind(c[..l.pos])
  {
    hide FoldsIn;
    hide MarkAt;
    hide FoldEndingAt;
    var c, n := Cells(l.text, l.folds), FoldEndingAt(l.folds, l.pos);
    EndingIs(l.folds, 0, |l.text|, l.pos);
    if l.pos == |l.text| { MarksFrom(l.folds, 0, |l.text|, l.pos); }
    if l.pos == 0 { MarksFrom(l.folds, 0, |l.text|, -1); }
    if n > 0 {
      PrefixFurther(c, l.pos, l.pos - n + 1);
      FurtherMeans(l.text, l.folds, l.pos - n + 1, l.pos);
      FoldBehindIs(c[..l.pos], n);
    }
  }

  lemma PrevModel(l: Line, mask: bool)
    requires LineInv(l)
    ensures Prev(Abs(l), mask) == PrevLen(l, mask)
  {
    hide FoldsIn;
    hide FoldBehind;
    hide FoldEndingAt;
    hide PrevCharLen;
    RawOfCells(l);
    BehindModel(l);
  }

  lemma BackModel(l: Line, n: nat)
    requires n <= l.pos <= |l.text|
    ensures Back(Abs(l), n) == Abs(l.(pos := l.pos - n))
  {
    var c := Cells(l.text, l.folds);
    assert c[..l.pos][..l.pos - n] == c[..l.pos - n];
    assert c[..l.pos][l.pos - n..] + c[l.pos..] == c[l.pos - n..];
  }

  lemma AbsEnds(l: Line)
    requires l.pos <= |l.text|
    ensures |Abs(l).before| == l.pos && |Abs(l).after| == |l.text| - l.pos
    ensures l.pos > 0 ==> Abs(l).before[l.pos - 1].b == l.text[l.pos - 1]
  {
  }

  lemma {:induction false} BackWhileModel(l: Line, blank: bool, mask: bool)
    requires LineInv(l)
    ensures BackWhile(Abs(l), blank, mask) == Abs(l.(pos := BackOver(l, blank, mask)))
    decreases l.pos
  {
    hide PrevLen;
    hide NextLen;
    hide Prev;
    hide FoldsIn;
    hide MarkAt;
    hide Abs;
    hide Back;
    MoveBounds(l, mask);
    PrevModel(l, mask);
    AbsEnds(l);
    if l.pos > 0 && (l.text[l.pos - 1] == BLANK_CHAR) == blank {
      BackModel(l, PrevLen(l, mask));
      BackWhileModel(l.(pos := l.pos - PrevLen(l, mask)), blank, mask);
    }
  }

  lemma WordModel(l: Line, mask: bool)
    requires LineInv(l)
    ensures WordFrom(Abs(l), mask) == WordStart(l, mask)
  {
    BackWhileModel(l, true, mask);
    BackWhileModel(l.(pos := BackOver(l, true, mask)), false, mask);
  }

  // ----- swapping -----

  /** Some byte of [a, b) is folded. */
  predicate SomeFolded(fs: seq<Fold>, a: int, b: int) {
    exists m :: a <= m < b && MarkAt(fs, m) != Shown
  }

  lemma {:induction false} OverlapIs(fs: seq<Fold>, lo: int, hi: int, a: nat, n: nat)
    requires FoldsIn(fs, lo, hi) && n > 0
    ensures Overlaps(fs, a, n) <==> SomeFolded(fs, a, a + n)
    decreases |fs|
  {
    if fs != [] {
      var f := fs[0];
      OverlapIs(fs[1..], f.end, hi, a, n);
      if a + n > f.start && a < f.end {
        var m := if a <= f.start then f.start else a;
        assert a <= m < a + n && MarkAt(fs, m) != Shown;
      } else {
        forall m | a <= m < a + n ensures MarkAt(fs, m) == MarkAt(fs[1..], m) { }
        if SomeFolded(fs[1..], a, a + n) {
          var m :| a <= m < a + n && MarkAt(fs[1..], m) != Shown;
          assert MarkAt(fs, m) != Shown;
        }
        if SomeFolded(fs, a, a + n) {
          var m :| a <= m < a + n && MarkAt(fs, m) != Shown;
          assert MarkAt(fs[1..], m) != Shown;
        }
      }
    }
  }

  lemma ShownModel(l: Line, a: nat, b: nat)
    requires LineInv(l) && a < b <= |l.text|
    ensures NoneFolded(Cells(l.text, l.folds)[a..b]) <==> !Overlaps(l.folds, a, b - a)
  {
    hide FoldsIn;
    hide MarkAt;
    hide Overlaps;
    var c := Cells(l.text, l.folds);
    OverlapIs(l.folds, 0, |l.text|, a, b - a);
    if NoneFolded(c[a..b]) {
      forall m | a <= m < b ensures MarkAt(l.folds, m) == Shown { assert c[a..b][m - a] == c[m]; }
    } else {
      var k :| 0 <= k < b - a && c[a..b][k].mark != Shown;
      var m := a + k;
      assert c[a..b][k] == c[m];
      assert a <= m < a + (b - a) && MarkAt(l.folds, m) != Shown;
    }
  }

  lemma ExchangeModel(l: Line, a: nat, m: nat, b: nat)
    requires LineInv(l) && a < m < b <= |l.text| && !Overlaps(l.folds, a, b - a)
    ensures var c := Cells(l.text, l.folds); Cells(Exchange(l.text, a, m, b), l.folds) == Exchange'(c, a, m, b)
  {
    hide FoldsIn;
    hide MarkAt;
    hide Overlaps;
    hide Exchange;
    hide Exchange';
    var c := Cells(l.text, l.folds);
    OverlapIs(l.folds, 0, |l.text|, a, b - a);
    forall i | 0 <= i < |c| ensures Cells(Exchange(l.text, a, m, b), l.folds)[i] == Exchange'(c, a, m, b)[i] {
      var k := Source(a, m, b, i);
      ExchangeAt(l.text, a, m, b, i);
      CellExchangeAt(c, a, m, b, i);
      if k != i {
        assert a <= i < a + (b - a) && a <= k < a + (b - a);
        assert MarkAt(l.folds, i) == Shown && MarkAt(l.folds, k) == Shown;
      }
    }
  }

  /** Where the byte at i comes from in an exchange. */
  function Source(a: nat, m: nat, b: nat, i: nat): (k: int) {
    if i < a || i >= b then i else if i < a + (b - m) then i + (m - a) else i - (b - m)
  }

  lemma ExchangeAt(text: seq<Byte>, a: nat, m: nat, b: nat, i: nat)
    requires a <= m <= b <= |text| && i < |text|
    ensures 0 <= Source(a, m, b, i) < |text| && Exchange(text, a, m, b)[i] == text[Source(a, m, b, i)]
  {
  }

  lemma CellExchangeAt(c: seq<Cell>, a: nat, m: nat, b: nat, i: nat)
    requires a <= m <= b <= |c| && i < |c|
    ensures 0 <= Source(a, m, b, i) < |c| && Exchange'(c, a, m, b)[i] == c[Source(a, m, b, i)]
  {
  }

  /** Two neighbouring stretches of cells trade places. */
  function Exchange'(c: seq<Cell>, a: nat, m: nat, b: nat): (c': seq<Cell>)
    requires a <= m <= b <= |c|
    ensures |c'| == |c|
  {
    c[..a] + c[m..b] + c[a..m] + c[b..]
  }

  /** The model's swap, with the two lengths given. */
  function SwapBy(d: Doc, p: nat, n: nat): (d': Doc)
    requires p <= |d.before| && n <= |d.after|
  {
    var k := |d.before| - p;
    if d.before == [] || d.after == [] || p > 32 || n > 32 || !NoneFolded(d.before[k..] + d.after[..n]) then d
    else Doc(d.before[..k] + d.after[..n] + d.before[k..], d.after[n..])
  }

  lemma StepSwaps(d: Doc, cap: nat, mask: bool)
    ensures Step(d, SwapChars, cap, mask) == SwapBy(d, Prev(d, mask), Next(d, mask))
  {
    hide Prev;
    hide Next;
  }

  lemma SwapModel(l: Line, cap: nat, mask: bool)
    requires LineInv(l)
    ensures Swap(l, mask).pos <= |Swap(l, mask).text| && Abs(Swap(l, mask)) == Step(Abs(l), SwapChars, cap, mask)
  {
    hide NextLen;
    hide PrevLen;
    hide Next;
    hide Prev;
    hide FoldsIn;
    hide Overlaps;
    hide Step;
    hide SwapBy;
    hide NoneFolded;
    hide Exchange;
    hide Exchange';
    hide MarkAt;
    hide Swap;
    hide Abs;
    StepSwaps(Abs(l), cap, mask);
    NextModel(l, mask);
    PrevModel(l, mask);
    MoveBounds(l, mask);
    SwapIs(l, mask);
    AbsEnds(l);
    var p, n := PrevLen(l, mask), NextLen(l, mask);
    SwappedDoc(l, l.pos - p, l.pos + n);
    if 0 < l.pos < |l.text| {
      ShownModel(l, l.pos - p, l.pos + n);
      if p <= 32 && n <= 32 && !Overlaps(l.folds, l.pos - p, p + n) {
        SwappedLine(l, l.pos - p, l.pos + n);
      }
    }
  }

  lemma SwapIs(l: Line, mask: bool)
    requires LineInv(l)
    ensures var p, n := PrevLen(l, mask), NextLen(l, mask);
            && p <= l.pos && l.pos + n <= |l.text|
            && Swap(l, mask) ==
               if 0 < l.pos < |l.text| && p <= 32 && n <= 32 && !Overlaps(l.folds, l.pos - p, p + n)
               then Line(Exchange(l.text, l.pos - p, l.pos, l.pos + n), l.pos + n, l.folds) else l
  {
    hide NextLen;
    hide PrevLen;
    MoveBounds(l, mask);
  }

  lemma SwappedDoc(l: Line, a: nat, b: nat)
    requires a <= l.pos <= b <= |l.text|
    ensures |Abs(l).before| == l.pos && |Abs(l).after| == |l.text| - l.pos
    ensures var c := Cells(l.text, l.folds);
            SwapBy(Abs(l), l.pos - a, b - l.pos) ==
            if l.pos == 0 || l.pos == |l.text| || l.pos - a > 32 || b - l.pos > 32 || !NoneFolded(c[a..b]) then Abs(l)
            else Doc(Exchange'(c, a, l.pos, b)[..b], Exchange'(c, a, l.pos, b)[b..])
  {
    hide SwapBy;
    hide NoneFolded;
    hide Exchange';
    SwapByIs(Cells(l.text, l.folds), a, l.pos, b);
  }

  lemma SwappedLine(l: Line, a: nat, b: nat)
    requires LineInv(l) && a < l.pos < b <= |l.text| && !Overlaps(l.folds, a, b - a)
    ensures var c := Cells(l.text, l.folds);
            Abs(Line(Exchange(l.text, a, l.pos, b), b, l.folds)) == Doc(Exchange'(c, a, l.pos, b)[..b], Exchange'(c, a, l.pos, b)[b..])
  {
    hide Exchange;
    hide Exchange';
    hide FoldsIn;
    hide Overlaps;
    hide MarkAt;
    ExchangeModel(l, a, l.pos, b);
  }

  lemma SwapByIs(c: seq<Cell>, a: nat, m: nat, b: nat)
    requires a <= m <= b <= |c|
    ensures SwapBy(Doc(c[..m], c[m..]), m - a, b - m) ==
            if m == 0 || m == |c| || m - a > 32 || b - m > 32 || !NoneFolded(c[a..b]) then Doc(c[..m], c[m..])
            else Doc(Exchange'(c, a, m, b)[..b], Exchange'(c, a, m, b)[b..])
  {
    Halves(c, a, m, b);
  }

  lemma Halves(c: seq<Cell>, a: nat, m: nat, b: nat)
    requires a <= m <= b <= |c|
    ensures Exchange'(c, a, m, b)[..b] == c[..m][..a] + c[m..][..b - m] + c[..m][a..]
    ensures Exchange'(c, a, m, b)[b..] == c[m..][b - m..] && c[..m][a..] + c[m..][..b - m] == c[a..b]
  {
  }

  // ----- every command, every run -----

  /** Removing n bytes from the cursor on. */
  lemma RemoveAhead(l: Line, n: nat)
    requires LineInv(l) && l.pos + n <= |l.text|
    ensures var l' := Remove(l, l.pos, n, l.pos);
            && l'.pos <= |l'.text| && |Abs(l).after| == |l.text| - l.pos
            && Abs(l') == Without(Abs(l).before, Abs(l).after[..n], Abs(l).after[n..])
  {
    hide Without;
    hide FoldsIn;
    hide MarkAt;
    var c := Cells(l.text, l.folds);
    RemoveModel(l, l.pos, n);
    assert c[l.pos..][..n] == c[l.pos..l.pos + n] && c[l.pos..][n..] == c[l.pos + n..];
  }

  lemma DeleteModel(l: Line, cap: nat, mask: bool)
    requires LineInv(l)
    ensures Delete(l, mask).pos <= |Delete(l, mask).text| && Abs(Delete(l, mask)) == Step(Abs(l), DeleteKey, cap, mask)
  {
    hide NextLen;
    hide PrevLen;
    hide Next;
    hide Remove;
    hide Without;
    hide FoldsIn;
    hide Abs;
    MoveBounds(l, mask);
    NextModel(l, mask);
    AbsEnds(l);
    RemoveAhead(l, NextLen(l, mask));
  }

  /** Removing from at up to the cursor. */
  lemma RemoveBack(l: Line, at: nat)
    requires LineInv(l) && at <= l.pos
    ensures var l' := Remove(l, at, l.pos - at, at);
            l'.pos <= |l'.text| && Abs(l') == Without(Abs(l).before[..at], Abs(l).before[at..], Abs(l).after)
  {
    hide Without;
    hide FoldsIn;
    hide MarkAt;
    var c := Cells(l.text, l.folds);
    RemoveModel(l, at, l.pos - at);
    assert c[..l.pos][..at] == c[..at] && c[..l.pos][at..] == c[at..l.pos];
  }

  lemma BackspaceModel(l: Line, cap: nat, mask: bool)
    requires LineInv(l)
    ensures Backspace(l, mask).pos <= |Backspace(l, mask).text| && Abs(Backspace(l, mask)) == Step(Abs(l), BackspaceKey, cap, mask)
  {
    hide NextLen;
    hide PrevLen;
    hide Prev;
    hide Remove;
    hide Without;
    hide FoldsIn;
    hide Abs;
    MoveBounds(l, mask);
    PrevModel(l, mask);
    AbsEnds(l);
    RemoveBack(l, l.pos - PrevLen(l, mask));
  }

  lemma DeleteWordModel(l: Line, cap: nat, mask: bool)
    requires LineInv(l)
    ensures var l' := DeletePrevWord(l, mask); l'.pos <= |l'.text| && Abs(l') == Step(Abs(l), DeleteWord, cap, mask)
  {
    hide WordStart;
    hide WordFrom;
    hide Remove;
    hide Without;
    hide FoldsIn;
    hide Abs;
    WordModel(l, mask);
    AbsEnds(l);
    RemoveBack(l, WordStart(l, mask));
  }

  lemma KillEndModel(l: Line, cap: nat, mask: bool)
    requires LineInv(l)
    ensures var l' := Do(l, KillEnd, cap, mask); l'.pos <= |l'.text| && Abs(l') == Step(Abs(l), KillEnd, cap, mask)
  {
    hide Without;
    hide FoldsIn;
    hide MarkAt;
    var c := Cells(l.text, l.folds);
    RemoveModel(l, l.pos, |l.text| - l.pos);
    assert c[l.pos..|l.text|] == c[l.pos..] && c[|l.text|..] == [];
  }

  lemma MoveModel(l: Line, cmd: Cmd, cap: nat, mask: bool)
    requires LineInv(l) && (cmd.Left? || cmd.Right? || cmd.Home? || cmd.End? || cmd.KillLine?)
    ensures var l' := Do(l, cmd, cap, mask); l'.pos <= |l'.text| && Abs(l') == Step(Abs(l), cmd, cap, mask)
  {
    hide NextLen;
    hide PrevLen;
    hide Next;
    hide Prev;
    hide FoldsIn;
    hide Abs;
    hide Back;
    MoveBounds(l, mask);
    AbsEnds(l);
    match cmd
    case Left =>
      PrevModel(l, mask);
      BackModel(l, PrevLen(l, mask));
    case Right => RightStep(l, cap, mask);
    case Home => Whole(l);
    case End => Whole(l);
    case KillLine => NoText();
  }

  lemma NoText()
    ensures Abs(Line([], 0, [])) == Doc([], [])
  {
    assert Cells([], []) == [];
  }

  lemma RightStep(l: Line, cap: nat, mask: bool)
    requires LineInv(l)
    ensures var l' := Do(l, Right, cap, mask); l'.pos <= |l'.text| && Abs(l') == Step(Abs(l), Right, cap, mask)
  {
    hide NextLen;
    hide PrevLen;
    hide Next;
    hide FoldsIn;
    hide Abs;
    MoveBounds(l, mask);
    AbsEnds(l);
    NextModel(l, mask);
    RightModel(l, NextLen(l, mask));
    if l.pos == |l.text| { AtEnd(l, mask); }
  }

  lemma AtEnd(l: Line, mask: bool)
    requires LineInv(l) && l.pos == |l.text|
    ensures NextLen(l, mask) == 0
  {
    MoveBounds(l, mask);
  }

  lemma RightModel(l: Line, n: nat)
    requires l.pos + n <= |l.text|
    ensures Abs(l.(pos := l.pos + n)) == Doc(Abs(l).before + Abs(l).after[..n], Abs(l).after[n..])
  {
    var c := Cells(l.text, l.folds);
    assert c[..l.pos] + c[l.pos..][..n] == c[..l.pos + n] && c[l.pos..][n..] == c[l.pos + n..];
  }

  lemma Whole(l: Line)
    requires l.pos <= |l.text|
    ensures Abs(l.(pos := 0)) == Doc([], Abs(l).before + Abs(l).after)
    ensures Abs(l.(pos := |l.text|)) == Doc(Abs(l).before + Abs(l).after, [])
  {
    var c := Cells(l.text, l.folds);
    assert c[..l.pos] + c[l.pos..] == c && c[..0] == [] && c[0..] == c && c[..|c|] == c && c[|c|..] == [];
  }

  lemma TypeModel(l: Line, t: seq<Byte>, cap: nat, mask: bool)
    requires LineInv(l)
    ensures var l' := Do(l, Type(t), cap, mask); l'.pos <= |l'.text| && Abs(l') == Step(Abs(l), Type(t), cap, mask)
  {
    hide Insert;
    hide Put;
    hide FoldsIn;
    hide Abs;
    AbsEnds(l);
    InsertModel(l, t);
    InsertInv(l, t);
  }

  lemma PasteTextModel(l: Line, t: seq<Byte>, fold: bool, cap: nat, mask: bool)
    requires LineInv(l)
    ensures var l' := Do(l, PasteText(t, fold), cap, mask);
            l'.pos <= |l'.text| && Abs(l') == Step(Abs(l), PasteText(t, fold), cap, mask)
  {
    hide Insert;
    hide Put;
    hide FoldsIn;
    hide FoldAdd;
    hide Abs;
    AbsEnds(l);
    CountModel(l);
    InsertModel(l, t);
    InsertInv(l, t);
    if t != [] && |l.folds| < MAX_FOLDS { PasteModel(l, t); }
  }

  /** Every command does to the line what the model says. */
  lemma DoRefines(l: Line, cmd: Cmd, cap: nat, mask: bool)
    requires LineInv(l) && |l.text| <= cap
    ensures LineInv(Do(l, cmd, cap, mask)) && |Do(l, cmd, cap, mask).text| <= cap
    ensures Abs(Do(l, cmd, cap, mask)) == Step(Abs(l), cmd, cap, mask)
  {
    hide Step;
    hide Abs;
    hide Delete;
    hide Backspace;
    hide DeletePrevWord;
    hide Swap;
    DoKeepsInv(l, cmd, cap, mask);
    match cmd
    case Type(t) => TypeModel(l, t, cap, mask);
    case PasteText(t, fold) => PasteTextModel(l, t, fold, cap, mask);
    case DeleteKey => DeleteModel(l, cap, mask);
    case BackspaceKey => BackspaceModel(l, cap, mask);
    case DeleteWord => DeleteWordModel(l, cap, mask);
    case SwapChars => SwapModel(l, cap, mask);
    case KillEnd => KillEndModel(l, cap, mask);
    case _ => MoveModel(l, cmd, cap, mask);
  }

  /** Refinement over every sequence of commands: the line with its positions ends where the model without positions
      does. */
  lemma {:induction false} EditsRefine(l: Line, cmds: seq<Cmd>, cap: nat, mask: bool)
    requires LineInv(l) && |l.text| <= cap
    ensures DoAll(l, cmds, cap, mask).pos <= |DoAll(l, cmds, cap, mask).text|
    ensures Abs(DoAll(l, cmds, cap, mask)) == Steps(Abs(l), cmds, cap, mask)
    decreases |cmds|
  {
    hide Do;
    hide Step;
    hide Abs;
    if cmds != [] {
      DoRefines(l, cmds[0], cap, mask);
      EditsRefine(Do(l, cmds[0], cap, mask), cmds[1..], cap, mask);
    }
  }

  // ----- what is hidden -----

  /** The texts of the folds in a row of cells. */
  function HiddenIn(c: seq<Cell>): (h: seq<seq<Byte>>) {
    if c == [] then []
    else if c[0].mark == First then [Raw(c[..FoldAhead(c)])] + HiddenIn(c[FoldAhead(c)..])
    else HiddenIn(c[1..])
  }

  lemma {:induction false} SkipHidden(c: seq<Cell>, a: nat, b: nat)
    requires a <= b <= |c| && forall i :: a <= i < b ==> c[i].mark != First
    ensures HiddenIn(c[a..]) == HiddenIn(c[b..])
    decreases b - a
  {
    if a < b {
      assert c[a..][0] == c[a] && c[a..][1..] == c[a + 1..];
      SkipHidden(c, a + 1, b);
    }
  }

  lemma FoldCells(text: seq<Byte>, all: seq<Fold>, f: Fold)
    requires f.start < f.end <= |text| && MarkAt(all, f.start) == First
    requires GoOn(all, f.start, f.end - 1) && MarkAt(all, f.end) != Further
    ensures var c := Cells(text, all)[f.start..];
            && FoldAhead(c) == f.end - f.start && Raw(c[..FoldAhead(c)]) == text[f.start..f.end]
            && c != [] && c[0].mark == First && c[FoldAhead(c)..] == Cells(text, all)[f.end..]
  {
    hide MarkAt;
    var whole := Cells(text, all);
    var c, n := whole[f.start..], f.end - f.start;
    assert c[1..] == whole[f.start + 1..];
    FurtherMeans(text, all, f.start + 1, f.end);
    SuffixFurther(whole, f.start + 1, n - 1);
    FurtherAheadIs(c[1..], n - 1);
    assert Raw(c[..n]) == text[f.start..f.end];
  }

  lemma {:induction false} HiddenIs(text: seq<Byte>, all: seq<Fold>, fs: seq<Fold>, lo: nat)
    requires FoldsIn(fs, lo, |text|) && lo <= |text| && forall i :: lo <= i <= |text| ==> MarkAt(all, i) == MarkAt(fs, i)
    ensures HiddenFrom(text, fs, lo, All) == HiddenIn(Cells(text, all)[lo..])
    decreases |fs|
  {
    var c := Cells(text, all);
    if fs == [] {
      SkipHidden(c, lo, |text|);
      assert c[|text|..] == [];
    } else {
      var f := fs[0];
      forall i | lo <= i < f.start ensures c[i].mark != First { MarksFrom(fs[1..], f.end, |text|, i); }
      SkipHidden(c, lo, f.start);
      EndsThere(fs[1..], f.end, |text|);
      assert GoOn(all, f.start, f.end - 1);
      FoldCells(text, all, f);
      HiddenIs(text, all, fs[1..], f.end);
    }
  }

  /** The hidden texts of a line are those of its cells. */
  lemma HiddenModel(l: Line)
    requires LineInv(l)
    ensures Hidden(l.text, l.folds, All) == HiddenIn(Abs(l).before + Abs(l).after)
  {
    RawOfCells(l);
    var c := Cells(l.text, l.folds);
    assert c[0..] == c;
    HiddenIs(l.text, l.folds, l.folds, 0);
  }

  /** The hidden texts after any commands are those the model ends with. */
  lemma HiddenAfterEdits(l: Line, cmds: seq<Cmd>, cap: nat, mask: bool)
    requires LineInv(l) && |l.text| <= cap
    ensures LineInv(DoAll(l, cmds, cap, mask))
    ensures var l', d := DoAll(l, cmds, cap, mask), Steps(Abs(l), cmds, cap, mask);
            Hidden(l'.text, l'.folds, All) == HiddenIn(d.before + d.after)
  {
    hide Abs;
    hide DoAll;
    hide Steps;
    hide HiddenIn;
    EditsKeepInv(l, cmds, cap, mask);
    EditsRefine(l, cmds, cap, mask);
    HiddenModel(DoAll(l, cmds, cap, mask));
  }

  lemma {:induction false} HiddenAppend(a: seq<Cell>, b: seq<Cell>)
    requires !GoesOn(b)
    ensures HiddenIn(a + b) == HiddenIn(a) + HiddenIn(b)
    decreases |a|
  {
    if a == [] {
      assert a + b == b;
    } else if a[0].mark == First {
      AheadAppend(a, b);
      var n := FoldAhead(a);
      assert (a + b)[..n] == a[..n] && (a + b)[n..] == a[n..] + b;
      HiddenAppend(a[n..], b);
    } else {
      assert (a + b)[1..] == a[1..] + b;
      HiddenAppend(a[1..], b);
    }
  }

  lemma AheadAppend(a: seq<Cell>, b: seq<Cell>)
    requires !GoesOn(b) && a != [] && a[0].mark == First
    ensures FoldAhead(a + b) == FoldAhead(a)
  {
    assert (a + b)[1..] == a[1..] + b;
    FurtherAppend(a[1..], b);
  }

  lemma {:induction false} FurtherAppend(a: seq<Cell>, b: seq<Cell>)
    requires !GoesOn(b)
    ensures FurtherAhead(a + b) == FurtherAhead(a)
  {
    if GoesOn(a) {
      assert (a + b)[1..] == a[1..] + b;
      FurtherAppend(a[1..], b);
    } else if a == [] {
      assert a + b == b;
    }
  }

  lemma FoldedIsOne(t: seq<Byte>)
    requires t != []
    ensures HiddenIn(Folded(t)) == [t] && !GoesOn(Folded(t))
  {
    var c := Folded(t);
    assert AllFurther(c[1..], 0, |t| - 1);
    FurtherAheadIs(c[1..], |t| - 1);
    assert c[..|t|] == c && c[|t|..] == [] && Raw(c) == t;
  }

  lemma {:induction false} PlainHidesNothing(t: seq<Byte>)
    ensures HiddenIn(Plain(t)) == [] && !GoesOn(Plain(t))
    decreases |t|
  {
    if t != [] {
      assert Plain(t)[1..] == Plain(t[1..]);
      PlainHidesNothing(t[1..]);
    }
  }

  lemma BrokenStarts(z: seq<Cell>)
    ensures !GoesOn(BreakStart(z))
  {
    if z != [] { assert AllFurther(z, 0, 1) <==> z[0].mark == Further; }
  }

  lemma PutHidden(d: Doc, cells: seq<Cell>)
    requires !GoesOn(cells)
    ensures var w, p := Without(d.before, [], d.after), Put(d, cells);
            HiddenIn(p.before + p.after) == HiddenIn(w.before) + HiddenIn(cells) + HiddenIn(w.after)
  {
    hide HiddenIn;
    hide BreakEnd;
    hide BreakStart;
    var w := Without(d.before, [], d.after);
    BrokenStarts(d.after);
    HiddenAppend(w.before + cells, w.after);
    HiddenAppend(w.before, cells);
  }

  /** A folded paste hides exactly the pasted text, in its place among the folds the cursor was not strictly inside. */
  lemma PasteHides(l: Line, t: seq<Byte>, cap: nat, mask: bool) returns (k: nat)
    requires LineInv(l) && t != [] && |l.folds| < MAX_FOLDS && |l.text| + |t| <= cap
    ensures LineInv(Do(l, PasteText(t, true), cap, mask))
    ensures var l', rest := Do(l, PasteText(t, true), cap, mask), Hidden(l.text, l.folds, NotAround(l.pos));
            k <= |rest| && Hidden(l'.text, l'.folds, All) == rest[..k] + [t] + rest[k..]
  {
    hide HiddenIn;
    hide Insert;
    hide Put;
    hide Abs;
    hide Hidden;
    hide FoldAdd;
    var l1 := Insert(l, t);
    InsertInv(l, t);
    PasteInv(l, t);
    InsertModel(l, t);
    PasteModel(l, t);
    var l' := l1.(folds := FoldAdd(l1.folds, Fold(l.pos, l.pos + |t|)));
    HiddenModel(l1);
    HiddenModel(l');
    InsertKeepsHidden(l, t);
    var w := Without(Abs(l).before, [], Abs(l).after);
    PlainHidesNothing(t);
    FoldedIsOne(t);
    PutHidden(Abs(l), Plain(t));
    PutHidden(Abs(l), Folded(t));
    k := |HiddenIn(w.before)|;
    var rest := Hidden(l.text, l.folds, NotAround(l.pos));
    assert rest == HiddenIn(w.before) + [] + HiddenIn(w.after);
    assert rest[..k] == HiddenIn(w.before) && rest[k..] == HiddenIn(w.after);
  }

  lemma {:induction false} FilteredIsHidden(text: seq<Byte>, fs: seq<Fold>, lo: nat, keep: Keep, h: seq<Byte>)
    requires FoldsIn(fs, lo, |text|) && h in HiddenFrom(text, fs, lo, keep)
    ensures h in HiddenFrom(text, fs, lo, All)
    decreases |fs|
  {
    if fs != [] && h in HiddenFrom(text, fs[1..], fs[0].end, keep) {
      FilteredIsHidden(text, fs[1..], fs[0].end, keep, h);
    }
  }

  /** A removal hides nothing new. */
  lemma RemoveHides(l: Line, at: nat, n: nat, h: seq<Byte>)
    requires LineInv(l) && at + n <= |l.text|
    ensures LineInv(Remove(l, at, n, at))
    ensures h in Hidden(Remove(l, at, n, at).text, Remove(l, at, n, at).folds, All) ==> h in Hidden(l.text, l.folds, All)
  {
    hide Remove;
    hide FoldsIn;
    RemoveKeepsHidden(l, at, n, at);
    if h in Hidden(l.text, l.folds, OutsideOf(at, n)) { FilteredIsHidden(l.text, l.folds, 0, OutsideOf(at, n), h); }
  }

  lemma InsertHides(l: Line, t: seq<Byte>, h: seq<Byte>)
    requires LineInv(l)
    ensures LineInv(Insert(l, t))
    ensures h in Hidden(l.text, l.folds, NotAround(l.pos)) ==> h in Hidden(l.text, l.folds, All)
    ensures h in Hidden(Insert(l, t).text, Insert(l, t).folds, All) ==> h in Hidden(l.text, l.folds, All)
  {
    hide Insert;
    hide FoldsIn;
    InsertKeepsHidden(l, t);
    if h in Hidden(l.text, l.folds, NotAround(l.pos)) { FilteredIsHidden(l.text, l.folds, 0, NotAround(l.pos), h); }
  }

  lemma PasteOrigin(l: Line, t: seq<Byte>, fold: bool, cap: nat, mask: bool, h: seq<Byte>)
    requires LineInv(l) && |l.text| <= cap
    ensures LineInv(Do(l, PasteText(t, fold), cap, mask))
    ensures var l' := Do(l, PasteText(t, fold), cap, mask);
            h in Hidden(l'.text, l'.folds, All) ==> h in Hidden(l.text, l.folds, All) || (fold && h == t)
  {
    hide Insert;
    hide FoldsIn;
    hide FoldAdd;
    hide Hidden;
    DoKeepsInv(l, PasteText(t, fold), cap, mask);
    InsertHides(l, t, h);
    if fold && t != [] && |l.folds| < MAX_FOLDS && |l.text| + |t| <= cap {
      var k := PasteHides(l, t, cap, mask);
    }
  }

  /** After any one command, what is hidden was hidden before or is the text of a folded paste. */
  lemma StepOrigin(l: Line, cmd: Cmd, cap: nat, mask: bool, h: seq<Byte>)
    requires LineInv(l) && |l.text| <= cap
    ensures LineInv(Do(l, cmd, cap, mask))
    ensures var l' := Do(l, cmd, cap, mask);
            h in Hidden(l'.text, l'.folds, All) ==> h in Hidden(l.text, l.folds, All) || cmd == PasteText(h, true)
  {
    hide Insert;
    hide Remove;
    hide Swap;
    hide FoldsIn;
    hide FoldAdd;
    hide NextLen;
    hide PrevLen;
    hide WordStart;
    DoKeepsInv(l, cmd, cap, mask);
    MoveBounds(l, mask);
    match cmd
    case Type(t) => InsertHides(l, t, h);
    case PasteText(t, fold) => PasteOrigin(l, t, fold, cap, mask, h);
    case DeleteKey => RemoveHides(l, l.pos, NextLen(l, mask), h);
    case BackspaceKey => RemoveHides(l, l.pos - PrevLen(l, mask), PrevLen(l, mask), h);
    case DeleteWord => RemoveHides(l, WordStart(l, mask), l.pos - WordStart(l, mask), h);
    case KillEnd => RemoveHides(l, l.pos, |l.text| - l.pos, h);
    case SwapChars => SwapKeepsHidden(l, mask);
    case _ =>
  }

  /** Folds never hide anything but what was hidden at the start or pasted: after every sequence of commands each hidden
      text is one that was hidden at the start, or exactly the text of one of the folded pastes. */
  lemma {:induction false} HiddenOrigin(l: Line, cmds: seq<Cmd>, cap: nat, mask: bool, h: seq<Byte>)
    requires LineInv(l) && |l.text| <= cap && LineInv(DoAll(l, cmds, cap, mask))
    requires h in Hidden(DoAll(l, cmds, cap, mask).text, DoAll(l, cmds, cap, mask).folds, All)
    ensures h in Hidden(l.text, l.folds, All) || PasteText(h, true) in cmds
    decreases |cmds|
  {
    hide Do;
    hide Hidden;
    hide LineInv;
    if cmds != [] {
      DoKeepsInv(l, cmds[0], cap, mask);
      HiddenOrigin(Do(l, cmds[0], cap, mask), cmds[1..], cap, mask, h);
      StepOrigin(l, cmds[0], cap, mask, h);
    }
  }
}
