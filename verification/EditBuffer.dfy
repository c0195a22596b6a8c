/**
 struct linenoiseState in place (src/linenoise.c:1146-1222, 1517-1571, 1651-1692, 2023-2042): the byte
 buffer with its terminator, growth, and the fold list, each operation proved against Editor.
 */
module EditBuffer {
  import opened Bytes
  import opened Utf8
  import opened Editor

  /** linenoiseFoldAdd */
  method AddFold(fs: seq<Fold>, f: Fold) returns (r: seq<Fold>)
    ensures r == FoldAdd(fs, f)
  {
    if f.start >= f.end || |fs| == MAX_FOLDS { return fs; }
    var j := |fs|;
    assert fs[..j] == fs && fs[j..] == [];
    while j > 0 && f.start < fs[j - 1].start
      invariant 0 <= j <= |fs|
      invariant InsertFold(fs, f) == InsertFold(fs[..j], f) + fs[j..]
    {
      assert fs[..j][..j - 1] == fs[..j - 1];
      assert fs[j - 1..] == [fs[j - 1]] + fs[j..];
      j := j - 1;
    }
    r := fs[..j] + [f] + fs[j..];
  }

  /** linenoiseAdjustFoldsAfterInsert */
  method FoldsAfterInsert(before: seq<Fold>, pos: nat, n: nat) returns (fs: seq<Fold>)
    ensures fs == AdjustInsert(before, pos, n)
  {
    fs := before;
    var j := 0;
    assert fs[..0] == [] && fs[0..] == before;
    while j < |fs|
      invariant 0 <= j <= |fs|
      invariant AdjustInsert(before, pos, n) == fs[..j] + AdjustInsert(fs[j..], pos, n)
      decreases |fs| - j
    {
      var f := fs[j];
      ghost var done, rest := fs[..j], fs[j + 1..];
      assert fs[j..][0] == f && fs[j..][1..] == rest;
      if SurvivesInsert(f, pos) {
        fs := fs[j := AfterInsert(f, pos, n)];
        assert fs[..j + 1] == done + [AfterInsert(f, pos, n)] && fs[j + 1..] == rest;
        j := j + 1;
      } else {
        fs := fs[..j] + fs[j + 1..];
        assert fs[..j] == done && fs[j..] == rest;
      }
    }
    assert fs[..j] == fs && fs[j..] == [];
  }

  /** linenoiseAdjustFoldsAfterDelete */
  method FoldsAfterDelete(before: seq<Fold>, pos: nat, n: nat) returns (fs: seq<Fold>)
    ensures fs == AdjustDelete(before, pos, n)
  {
    fs := before;
    var j := 0;
    assert fs[..0] == [] && fs[0..] == before;
    while j < |fs|
      invariant 0 <= j <= |fs|
      invariant AdjustDelete(before, pos, n) == fs[..j] + AdjustDelete(fs[j..], pos, n)
      decreases |fs| - j
    {
      var f := fs[j];
      ghost var done, rest := fs[..j], fs[j + 1..];
      assert fs[j..][0] == f && fs[j..][1..] == rest;
      if SurvivesDelete(f, pos, n) {
        fs := fs[j := AfterDelete(f, pos, n)];
        assert fs[..j + 1] == done + [AfterDelete(f, pos, n)] && fs[j + 1..] == rest;
        j := j + 1;
      } else {
        fs := fs[..j] + fs[j + 1..];
        assert fs[..j] == done && fs[j..] == rest;
      }
    }
    assert fs[..j] == fs && fs[j..] == [];
  }

  lemma Glue(whole: seq<Byte>, text: seq<Byte>, pos: nat, c: seq<Byte>)
    requires pos <= |text| && |whole| == |text| + |c|
    requires forall i :: 0 <= i < pos ==> whole[i] == text[i]
    requires forall i :: pos <= i < pos + |c| ==> whole[i] == c[i - pos]
    requires forall i :: pos + |c| <= i < |whole| ==> whole[i] == text[i - |c|]
    ensures whole == text[..pos] + c + text[pos..]
  {
    var r := text[..pos] + c + text[pos..];
    assert |r| == |whole| && forall i :: 0 <= i < |r| ==> r[i] == whole[i];
  }

  lemma GlueWithout(whole: seq<Byte>, text: seq<Byte>, at: nat, n: nat)
    requires at + n <= |text| && |whole| == |text| - n
    requires forall i :: 0 <= i < at ==> whole[i] == text[i]
    requires forall i :: at <= i < |whole| ==> whole[i] == text[i + n]
    ensures whole == text[..at] + text[at + n..]
  {
    var r := text[..at] + text[at + n..];
    assert |r| == |whole| && forall i :: 0 <= i < |r| ==> r[i] == whole[i];
  }

  lemma GlueExchange(whole: seq<Byte>, text: seq<Byte>, a: nat, m: nat, b: nat)
    requires a <= m <= b <= |text| == |whole|
    requires forall i :: (0 <= i < a || b <= i < |text|) ==> whole[i] == text[i]
    requires forall i :: a <= i < a + (b - m) ==> whole[i] == text[i + (m - a)]
    requires forall i :: a + (b - m) <= i < b ==> whole[i] == text[i - (b - m)]
    ensures whole == Exchange(text, a, m, b)
  {
    var r := Exchange(text, a, m, b);
    assert |r| == |whole| && forall i :: 0 <= i < |r| ==> r[i] == whole[i];
  }

  /** The size an empty buffer grows from. */
  const MIN_GROWN: nat := 16

  class LineState {
    var buf: array<Byte>
    var buflen: nat
    /** 0 when the caller's fixed buffer is used. */
    const buflenMax: nat
    var len: nat
    var pos: nat
    var folds: seq<Fold>
    /** maskmode: folds neither shown nor skipped. */
    const mask: bool

    ghost predicate Valid()
      reads this, buf
    {
      && buf.Length == buflen + 1 && len <= buflen && buf[len] == 0
      && (buflenMax == 0 || buflen <= buflenMax)
      && (buflenMax != 0 && buflen == 0 ==> MIN_GROWN <= buflenMax)
      && LineInv(Value())
    }

    ghost function Value(): (l: Line)
      requires len <= buf.Length
      reads this, buf
    {
      Line(buf[..len], pos, folds)
    }

    /** How long the line can ever become. */
    function Capacity(): (n: nat)
      reads this
    {
      if buflenMax == 0 then buflen else buflenMax
    }

    constructor (size: nat, max: nat, mask: bool)
      requires max == 0 || (size <= max && (size == 0 ==> MIN_GROWN <= max))
      ensures Valid() && Value() == Line([], 0, []) && fresh(buf) && this.mask == mask && Capacity() == if max == 0 then size else max
    {
      buf := new Byte[size + 1](_ => 0);
      buflen, buflenMax, len, pos, folds, this.mask := size, max, 0, 0, [], mask;
      new;
      assert buf[..0] == [];
    }

    /** linenoiseEditGrow: double, but never past the configured maximum. */
    method Grow(needed: nat) returns (ok: bool)
      requires Valid()
      modifies this`buf, this`buflen
      ensures Valid() && Value() == old(Value()) && (buf == old(buf) || fresh(buf)) && Capacity() == old(Capacity())
      ensures ok <==> needed <= Capacity()
      ensures ok ==> needed <= buflen
    {
      if needed <= buflen { return true; }
      if buflenMax == 0 || needed > buflenMax { return false; }
      var newlen := if buflen == 0 then MIN_GROWN else buflen;
      while newlen < needed
        invariant 0 < newlen <= buflenMax
        decreases needed - newlen
      {
        if newlen > buflenMax / 2 {
          newlen := buflenMax;
          break;
        }
        newlen := newlen * 2;
      }
      var copy := new Byte[newlen + 1](_ => 0);
      forall i | 0 <= i <= len { copy[i] := buf[i]; }
      assert copy[..len] == buf[..len];
      buf, buflen := copy, newlen;
      return true;
    }

    /** Make room for n bytes at the cursor (memmove up). */
    method OpenGap(n: nat)
      requires len + n < buf.Length && pos <= len
      modifies buf
      ensures forall i :: 0 <= i < pos ==> buf[i] == old(buf[i])
      ensures forall i :: pos + n <= i < len + n ==> buf[i] == old(buf[i - n])
    {
      var i := len;
      while i > pos
        invariant pos <= i <= len
        invariant forall k :: 0 <= k < i ==> buf[k] == old(buf[k])
        invariant forall k :: i + n <= k < len + n ==> buf[k] == old(buf[k - n])
      {
        i := i - 1;
        buf[i + n] := buf[i];
      }
    }

    method PutBytes(c: seq<Byte>)
      requires pos + |c| <= buf.Length
      modifies buf
      ensures forall i :: 0 <= i < buf.Length ==> buf[i] == if pos <= i < pos + |c| then c[i - pos] else old(buf[i])
    {
      forall i | 0 <= i < |c| { buf[pos + i] := c[i]; }
    }

    /** The bytes part of an insertion into a buffer that is large enough. */
    method Splice(c: seq<Byte>)
      requires len + |c| < buf.Length && pos <= len
      modifies buf, this`len
      ensures len == old(len) + |c| && buf[len] == 0
      ensures buf[..len] == old(buf[..pos]) + c + old(buf[pos..len])
    {
      ghost var text := buf[..len];
      OpenGap(|c|);
      PutBytes(c);
      len := len + |c|;
      buf[len] := 0;
      Glue(buf[..len], text, pos, c);
      assert text[..pos] == old(buf[..pos]) && text[pos..] == old(buf[pos..len]);
    }

    /** linenoiseEditInsertNoRefresh */
    method InsertBytes(c: seq<Byte>) returns (ok: bool)
      requires Valid()
      modifies this, buf
      ensures Valid() && (buf == old(buf) || fresh(buf)) && Capacity() == old(Capacity())
      ensures ok <==> old(len) + |c| <= Capacity()
      ensures Value() == if ok then Insert(old(Value()), c) else old(Value())
    {
      hide AdjustInsert;
      hide FoldsIn;
      ghost var before := Value();
      ok := Grow(len + |c|);
      if !ok { return; }
      InsertInv(before, c);
      var at := pos;
      var fs := FoldsAfterInsert(folds, at, |c|);
      Splice(c);
      pos := at + |c|;
      folds := fs;
      assert before.text[..at] == old(buf[..pos]) && before.text[at..] == old(buf[pos..len]);
    }

    /** The bytes part of a removal (memmove down). */
    method Cut(at: nat, n: nat)
      requires at + n <= len < buf.Length
      modifies buf, this`len
      ensures len == old(len) - n && buf[len] == 0
      ensures buf[..len] == old(buf[..at]) + old(buf[at + n..len])
    {
      ghost var text := buf[..len];
      forall i | at <= i < len - n { buf[i] := buf[i + n]; }
      len := len - n;
      buf[len] := 0;
      GlueWithout(buf[..len], text, at, n);
      assert text[..at] == old(buf[..at]) && text[at + n..] == old(buf[at + n..len]);
    }

    /** Folds, then bytes, then the cursor, as all deletions do it. */
    method RemoveRange(at: nat, n: nat)
      requires Valid() && at + n <= len && (at == pos || at + n == pos)
      modifies this, buf
      ensures Valid() && buf == old(buf) && Capacity() == old(Capacity())
      ensures Value() == Remove(old(Value()), at, n, at)
    {
      hide AdjustDelete;
      ghost var before := Value();
      RemoveInv(before, at, n, at);
      folds := FoldsAfterDelete(folds, at, n);
      Cut(at, n);
      pos := at;
      assert before.text[..at] == old(buf[..at]) && before.text[at + n..] == old(buf[at + n..len]);
    }

    method DeleteForward()
      requires Valid()
      modifies this, buf
      ensures Valid() && buf == old(buf) && Value() == Delete(old(Value()), mask)
    {
      hide NextLen;
      hide Remove;
      ghost var l := Value();
      MoveBounds(l, mask);
      if len > 0 && pos < len {
        var n := NextLen(Line(buf[..len], pos, folds), mask);
        RemoveRange(pos, n);
      }
    }

    method DeleteBackward()
      requires Valid()
      modifies this, buf
      ensures Valid() && buf == old(buf) && Value() == Backspace(old(Value()), mask)
    {
      hide PrevLen;
      hide Remove;
      ghost var l := Value();
      MoveBounds(l, mask);
      if pos > 0 && len > 0 {
        var n := PrevLen(Line(buf[..len], pos, folds), mask);
        RemoveRange(pos - n, n);
      }
    }

    /** The two loops of linenoiseEditDeletePrevWord. */
    method SkipBack(p: nat, blank: bool) returns (q: nat)
      requires Valid() && p <= len
      ensures q <= p && q == BackOver(Value().(pos := p), blank, mask)
    {
      hide PrevLen;
      q := p;
      ghost var l := Value();
      while q > 0 && (buf[q - 1] == BLANK_CHAR) == blank
        invariant 0 <= q <= p
        invariant BackOver(l.(pos := p), blank, mask) == BackOver(l.(pos := q), blank, mask)
        decreases q
      {
        MoveBounds(l.(pos := q), mask);
        assert l.text[q - 1] == buf[q - 1];
        q := q - PrevLen(Line(buf[..len], q, folds), mask);
      }
    }

    method DeleteWordBackward()
      requires Valid()
      modifies this, buf
      ensures Valid() && buf == old(buf) && Value() == DeletePrevWord(old(Value()), mask)
    {
      hide BackOver;
      hide Remove;
      var a := SkipBack(pos, true);
      var b := SkipBack(a, false);
      RemoveRange(b, pos - b);
    }

    /** linenoiseRangeOverlapsFold */
    method RangeOverlapsFold(at: nat, n: nat) returns (b: bool)
      ensures b == Overlaps(folds, at, n)
    {
      var j := 0;
      assert folds[0..] == folds;
      while j < |folds|
        invariant 0 <= j <= |folds| && Overlaps(folds, at, n) == Overlaps(folds[j..], at, n)
      {
        assert folds[j..][0] == folds[j] && folds[j..][1..] == folds[j + 1..];
        if at + n > folds[j].start && at < folds[j].end { return true; }
        j := j + 1;
      }
      return false;
    }

    /** The three copies of Ctrl-T: [a, m) and [m, b) trade places. */
    method Trade(a: nat, m: nat, b: nat)
      requires a <= m <= b <= len < buf.Length
      modifies buf
      ensures buf[..len] == Exchange(old(buf[..len]), a, m, b) && buf[len] == old(buf[len])
    {
      ghost var text := buf[..len];
      var tmp := buf[m..b];
      var mid := a + (b - m);
      forall i | mid <= i < b { buf[i] := buf[i - (b - m)]; }
      forall i | a <= i < mid { buf[i] := tmp[i - a]; }
      GlueExchange(buf[..len], text, a, m, b);
    }

    /** Ctrl-T */
    method SwapAtCursor()
      requires Valid()
      modifies this, buf
      ensures Valid() && buf == old(buf) && Value() == Do(old(Value()), SwapChars, Capacity(), mask) && Capacity() == old(Capacity())
    {
      hide NextLen;
      hide PrevLen;
      hide Exchange;
      hide Overlaps;
      ghost var l := Value();
      MoveBounds(l, mask);
      SwapInv(l, mask);
      if pos > 0 && pos < len {
        var here := Line(buf[..len], pos, folds);
        var p, n := PrevLen(here, mask), NextLen(here, mask);
        if p > 32 || n > 32 { return; }
        var clash := RangeOverlapsFold(pos - p, p + n);
        if clash { return; }
        Trade(pos - p, pos, pos + n);
        pos := pos + n;
      }
    }

    /** Ctrl-U */
    method KillWholeLine()
      requires Valid()
      modifies this, buf
      ensures Valid() && buf == old(buf) && Value() == Do(old(Value()), KillLine, Capacity(), mask) && Capacity() == old(Capacity())
    {
      buf[0] := 0;
      pos, len, folds := 0, 0, [];
      assert buf[..0] == [];
    }

    /** Ctrl-K */
    method KillToEnd()
      requires Valid()
      modifies this, buf
      ensures Valid() && buf == old(buf) && Value() == Do(old(Value()), KillEnd, Capacity(), mask) && Capacity() == old(Capacity())
    {
      RemoveRange(pos, len - pos);
    }

    method MoveLeft()
      requires Valid()
      modifies this`pos
      ensures Valid() && Value() == Do(old(Value()), Left, Capacity(), mask)
    {
      hide PrevLen;
      hide FoldsIn;
      ghost var l := Value();
      MoveBounds(l, mask);
      if pos > 0 { pos := pos - PrevLen(Line(buf[..len], pos, folds), mask); }
    }

    method MoveRight()
      requires Valid()
      modifies this`pos
      ensures Valid() && Value() == Do(old(Value()), Right, Capacity(), mask)
    {
      hide NextLen;
      hide FoldsIn;
      ghost var l := Value();
      MoveBounds(l, mask);
      if pos != len { pos := pos + NextLen(Line(buf[..len], pos, folds), mask); }
    }
  }
}
