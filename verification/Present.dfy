/**
 The front/back diff redraw of the terminal library (include/termbox2.h:2411-2482, 3782-3787,
 3967-4006, 4023-4044), checked against a model of a terminal with one- and two-column glyphs.
 Output is a sequence of commands (cursor move, attributes, one code point) rather than bytes.
 */
module Present {

  /** struct tb_cell without grapheme clusters. */
  datatype Cell = Cell(ch: nat, fg: nat, bg: nat)

  /** What fills the cells behind a double-width one: code point and attributes all ones. */
  const INVALID: Cell := Cell(0xFFFF_FFFF, 0xFFFF_FFFF, 0xFFFF_FFFF)
  const SPACE: nat := 0x20
  const REPLACEMENT: nat := 0xFFFD

  /** The width table and the printability test. */
  datatype Chars = Chars(width: nat -> int, printable: nat -> bool) {
    /** What the table guarantees. */
    ghost predicate Consistent() {
      && (forall c :: width(c) <= 2)
      && (forall c :: printable(c) ==> width(c) >= 0)
      && (forall c :: !printable(c) ==> width(c) <= 0)
      && printable(SPACE) && width(SPACE) == 1
      && printable(REPLACEMENT) && width(REPLACEMENT) == 1
    }
    /** The columns tb_present gives a code point. */
    function Columns(c: nat): (w: int) {
      if width(c) < 1 then 1 else width(c)
    }
    /** What send_cluster really sends. */
    function Sent(c: nat): (s: nat) {
      if printable(c) then c else REPLACEMENT
    }
    /** The columns the terminal gives what is sent. */
    function Advance(c: nat): (w: int) {
      width(Sent(c))
    }
    /** Not a printable code point of width zero (a lone combining mark). */
    predicate Drawable(c: nat) {
      !(printable(c) && width(c) == 0)
    }
  }

  // ----- output -----

  datatype Cmd = Move(x: int, y: int) | Attr(fg: nat, bg: nat) | Put(ch: nat)

  /** last_x, last_y, last_fg, last_bg */
  datatype Pen = Pen(x: int, y: int, fg: nat, bg: nat)

  datatype Draw = Draw(front: seq<Cell>, pen: Pen, cmds: seq<Cmd>)

  function SendAttr(pen: Pen, fg: nat, bg: nat): (r: (Pen, seq<Cmd>)) {
    if pen.fg == fg && pen.bg == bg then (pen, []) else (pen.(fg := fg, bg := bg), [Attr(fg, bg)])
  }

  function SendChar(t: Chars, pen: Pen, x: int, y: int, ch: nat): (r: (Pen, seq<Cmd>)) {
    var put := [Put(t.Sent(ch))];
    (pen.(x := x, y := y), if pen.x != x - 1 || pen.y != y then [Move(x, y)] + put else put)
  }

  /** One cell of the row loop: copy and draw it if it differs. */
  function DrawCell(t: Chars, front: seq<Cell>, back: seq<Cell>, y: int, x: nat, pen: Pen): (d: Draw)
    requires x < |front| == |back|
    ensures |d.front| == |front|
  {
    var c := back[x];
    if c == front[x] then Draw(front, pen, [])
    else
      var (p1, attr) := SendAttr(pen, c.fg, c.bg);
      if t.Columns(c.ch) == 2 && x + 1 >= |front| then
        var (p2, put) := SendChar(t, p1, x, y, SPACE);
        Draw(front[x := c], p2, attr + put)
      else
        var (p2, put) := SendChar(t, p1, x, y, c.ch);
        var copied := front[x := c];
        Draw(if t.Columns(c.ch) == 2 then copied[x + 1 := INVALID] else copied, p2, attr + put)
  }

  function DrawRow(t: Chars, front: seq<Cell>, back: seq<Cell>, y: int, x: nat, pen: Pen): (d: Draw)
    requires |front| == |back|
    ensures |d.front| == |front|
    decreases |front| - x
  {
    if x >= |front| then Draw(front, pen, [])
    else
      var d := DrawCell(t, front, back, y, x, pen);
      var w := t.Columns(back[x].ch);
      var next := if w < 1 then x + 1 else x + w;
      var rest := DrawRow(t, d.front, back, y, next, d.pen);
      Draw(rest.front, rest.pen, d.cmds + rest.cmds)
  }

  // ----- the terminal -----

  datatype Glyph = Lead(ch: nat, fg: nat, bg: nat) | Trail | Broken

  datatype Term = Term(rows: seq<seq<Glyph>>, cx: int, cy: int, fg: nat, bg: nat)

  /** Overwriting one half of a two-column glyph destroys the other half. */
  function Orphan(row: seq<Glyph>, x: nat): (r: seq<Glyph>)
    requires x < |row|
    ensures |r| == |row|
  {
    if row[x].Trail? && x > 0 then row[x - 1 := Broken]
    else if row[x].Lead? && x + 1 < |row| && row[x + 1].Trail? then row[x + 1 := Broken]
    else row
  }

  /** A glyph of a columns at column x; what does not fit is not drawn. */
  function PutGlyph(row: seq<Glyph>, x: int, a: int, g: Glyph): (r: seq<Glyph>)
    ensures |r| == |row|
  {
    if a == 1 && 0 <= x < |row| then Orphan(row, x)[x := g]
    else if a == 2 && 0 <= x && x + 1 < |row| then
      Orphan(Orphan(row, x)[x := Broken], x + 1)[x := g][x + 1 := Trail]
    else row
  }

  function Exec1(t: Chars, s: Term, cmd: Cmd): (s': Term)
    ensures |s'.rows| == |s.rows|
  {
    match cmd
    case Move(x, y) => s.(cx := x, cy := y)
    case Attr(fg, bg) => s.(fg := fg, bg := bg)
    case Put(ch) =>
      if 0 <= s.cy < |s.rows| then
        s.(rows := s.rows[s.cy := PutGlyph(s.rows[s.cy], s.cx, t.width(ch), Lead(ch, s.fg, s.bg))], cx := s.cx + t.width(ch))
      else s
  }

  function Exec(t: Chars, s: Term, cmds: seq<Cmd>): (s': Term)
    ensures |s'.rows| == |s.rows|
    decreases |cmds|
  {
    if cmds == [] then s else Exec(t, Exec1(t, s, cmds[0]), cmds[1..])
  }

  lemma {:induction false} ExecAppend(t: Chars, s: Term, a: seq<Cmd>, b: seq<Cmd>)
    ensures Exec(t, s, a + b) == Exec(t, Exec(t, s, a), b)
    decreases |a|
  {
    if a == [] {
      assert a + b == b;
    } else {
      assert (a + b)[0] == a[0] && (a + b)[1..] == a[1..] + b;
      ExecAppend(t, Exec1(t, s, a[0]), a[1..], b);
    }
  }

  // ----- what a row of cells should look like -----

  /** The glyph of the cell at x: a blank where a double-width one has no room. */
  function Shown(t: Chars, cells: seq<Cell>, x: nat): (g: Glyph)
    requires x < |cells|
  {
    var c := cells[x];
    if t.Columns(c.ch) == 2 && x + 1 >= |cells| then Lead(SPACE, c.fg, c.bg) else Lead(t.Sent(c.ch), c.fg, c.bg)
  }

  predicate Wide(t: Chars, cells: seq<Cell>, x: nat)
    requires x < |cells|
  {
    t.Columns(cells[x].ch) == 2 && x + 1 < |cells|
  }

  /** From column x on, the row shows these cells: each visited cell its glyph, a double-width one two columns. A code
      point of width zero has no glyph of its own; its column holds anything but half a glyph. */
  ghost predicate ShowsFrom(t: Chars, row: seq<Glyph>, cells: seq<Cell>, x: nat)
    requires |row| == |cells|
    decreases |cells| - x
  {
    x >= |cells| ||
    if !t.Drawable(cells[x].ch) then row[x] != Trail && ShowsFrom(t, row, cells, x + 1)
    else
      row[x] == Shown(t, cells, x) &&
      if Wide(t, cells, x) then row[x + 1] == Trail && ShowsFrom(t, row, cells, x + 2)
      else ShowsFrom(t, row, cells, x + 1)
  }

  lemma NotTrail(t: Chars, row: seq<Glyph>, cells: seq<Cell>, x: nat)
    requires |row| == |cells| && x < |row| && ShowsFrom(t, row, cells, x)
    ensures row[x] != Trail
  {
  }

  /** From column x on, every cell behind a double-width one is marked invalid. */
  ghost predicate MarkedFrom(t: Chars, cells: seq<Cell>, x: nat)
    decreases |cells| - x
  {
    x >= |cells| ||
    if Wide(t, cells, x) then cells[x + 1] == INVALID && MarkedFrom(t, cells, x + 2)
    else MarkedFrom(t, cells, x + 1)
  }

  /** From column x on, the front cells that count are the back cells. */
  ghost predicate CopiedFrom(t: Chars, front: seq<Cell>, back: seq<Cell>, x: nat)
    requires |front| == |back|
    decreases |back| - x
  {
    x >= |back| ||
    (front[x] == back[x] && CopiedFrom(t, front, back, if Wide(t, back, x) then x + 2 else x + 1))
  }

  // ----- one row -----

  ghost predicate SameFrom<A(!new)>(a: seq<A>, b: seq<A>, x: nat) {
    |a| == |b| && forall i :: x <= i < |a| ==> a[i] == b[i]
  }

  lemma {:induction false} ShowsFrame(t: Chars, row: seq<Glyph>, cells: seq<Cell>, row': seq<Glyph>, cells': seq<Cell>, x: nat)
    requires |row| == |cells| && SameFrom(row, row', x) && SameFrom(cells, cells', x)
    ensures ShowsFrom(t, row, cells, x) <==> ShowsFrom(t, row', cells', x)
    ensures MarkedFrom(t, cells, x) <==> MarkedFrom(t, cells', x)
    decreases |cells| - x
  {
    if x < |cells| {
      assert Wide(t, cells, x) <==> Wide(t, cells', x);
      ShowsFrame(t, row, cells, row', cells', if Wide(t, cells, x) then x + 2 else x + 1);
    }
  }

  /** The unvisited part of a row during the redraw: either it still shows the front cells, or its first
      column is the destroyed second half of a glyph, which the front marks invalid. */
  ghost predicate Pending(t: Chars, row: seq<Glyph>, front: seq<Cell>, x: nat)
    requires |row| == |front|
  {
    || (ShowsFrom(t, row, front, x) && MarkedFrom(t, front, x))
    || (x < |row| && front[x] == INVALID && row[x] == Broken && ShowsFrom(t, row, front, x + 1) && MarkedFrom(t, front, x + 1))
  }

  /** Drawing one column at x. */
  lemma NarrowPut(t: Chars, row: seq<Glyph>, front: seq<Cell>, x: nat, g: Glyph, c: Cell)
    requires |row| == |front| && x < |row| && Pending(t, row, front, x) && g.Lead?
    ensures var row' := PutGlyph(row, x, 1, g);
            && row'[x] == g && Pending(t, row', front[x := c], x + 1)
            && (forall i :: 0 <= i < x ==> row'[i] == row[i]) && SameFrom(row, row', x + 2)
  {
    var row', front' := PutGlyph(row, x, 1, g), front[x := c];
    if ShowsFrom(t, row, front, x) && Wide(t, front, x) {
      // the second half at x + 1 is destroyed and marked invalid
      ShowsFrame(t, row, front, row', front', x + 2);
    } else {
      if ShowsFrom(t, row, front, x) && x + 1 < |row| {
        assert ShowsFrom(t, row, front, x + 1);
        NotTrail(t, row, front, x + 1);
      }
      ShowsFrame(t, row, front, row', front', x + 1);
    }
  }

  /** Drawing two columns at x. */
  lemma WidePut(t: Chars, row: seq<Glyph>, front: seq<Cell>, x: nat, g: Glyph, c: Cell)
    requires |row| == |front| && x + 1 < |row| && Pending(t, row, front, x) && g.Lead?
    ensures var row' := PutGlyph(row, x, 2, g);
            && row'[x] == g && row'[x + 1] == Trail
            && (forall i :: 0 <= i < x ==> row'[i] == row[i]) && SameFrom(row, row', x + 3)
            && Pending(t, row', front[x := c][x + 1 := INVALID], x + 2)
  {
    var row', front' := PutGlyph(row, x, 2, g), front[x := c][x + 1 := INVALID];
    if ShowsFrom(t, row, front, x) && Wide(t, front, x) {
      assert Orphan(row, x) == row[x + 1 := Broken];
      ShowsFrame(t, row, front, row', front', x + 2);
    } else {
      assert ShowsFrom(t, row, front, x + 1) && MarkedFrom(t, front, x + 1);
      NotTrail(t, row, front, x + 1);
      assert Orphan(row, x) == row;
      var mid := row[x := Broken];
      if Wide(t, front, x + 1) {
        assert Orphan(mid, x + 1) == mid[x + 2 := Broken];
        ShowsFrame(t, row, front, row', front', x + 3);
      } else {
        if x + 2 < |row| { NotTrail(t, row, front, x + 2); }
        assert Orphan(mid, x + 1) == mid;
        ShowsFrame(t, row, front, row', front', x + 2);
      }
    }
  }

  /** The terminal agrees with what the library remembers of it; where it will not draw next, its cursor does not
      matter. */
  ghost predicate Synced(pen: Pen, s: Term, x: int, y: int, draws: bool) {
    && s.fg == pen.fg && s.bg == pen.bg
    && (pen.y == y ==> pen.x < x)
    && (pen.y == y && pen.x == x - 1 && draws ==> s.cx == x && s.cy == y)
  }

  /** The cell at x is about to be drawn. */
  predicate Changed(front: seq<Cell>, back: seq<Cell>, x: nat)
    requires |front| == |back|
  {
    x < |back| && front[x] != back[x]
  }

  /** A width-zero cell is drawn at x, and so is the cell after it. */
  predicate Clash(t: Chars, front: seq<Cell>, back: seq<Cell>, x: nat)
    requires |front| == |back|
  {
    Changed(front, back, x) && !t.Drawable(back[x].ch) && Changed(front, back, x + 1)
  }

  /** Attributes, cursor move if needed, one code point: the effect on the terminal, wherever its cursor is. */
  lemma SendAt(t: Chars, s: Term, pen: Pen, x: nat, y: nat, fg: nat, bg: nat, ch: nat)
    requires t.Consistent() && y < |s.rows| && s.fg == pen.fg && s.bg == pen.bg
    requires pen.y == y && pen.x == x - 1 ==> s.cy == y
    ensures var (p1, attr) := SendAttr(pen, fg, bg);
            var (p2, put) := SendChar(t, p1, x, y, ch);
            var s' := Exec(t, s, attr + put);
            var cx := if pen.y == y && pen.x == x - 1 then s.cx else x;
            && s' == Term(s.rows[y := PutGlyph(s.rows[y], cx, t.Advance(ch), Lead(t.Sent(ch), fg, bg))], cx + t.Advance(ch), y, fg, bg)
            && p2 == Pen(x, y, fg, bg)
  {
    var (p1, attr) := SendAttr(pen, fg, bg);
    var (p2, put) := SendChar(t, p1, x, y, ch);
    var s1 := s.(fg := fg, bg := bg);
    assert Exec(t, s, attr) == s1 by {
      if attr != [] { ExecOne(t, s, attr[0]); assert attr == [attr[0]]; }
    }
    ExecAppend(t, s, attr, put);
    var s2 := if |put| == 2 then s1.(cx := x, cy := y) else s1;
    if |put| == 2 {
      ExecOne(t, s1, Move(x, y));
      ExecAppend(t, s1, [Move(x, y)], [Put(t.Sent(ch))]);
    }
    ExecOne(t, s2, Put(t.Sent(ch)));
  }

  lemma SendOk(t: Chars, s: Term, pen: Pen, x: nat, y: nat, fg: nat, bg: nat, ch: nat)
    requires t.Consistent() && y < |s.rows| && Synced(pen, s, x, y, true)
    ensures var (p1, attr) := SendAttr(pen, fg, bg);
            var (p2, put) := SendChar(t, p1, x, y, ch);
            var s' := Exec(t, s, attr + put);
            && s' == Term(s.rows[y := PutGlyph(s.rows[y], x, t.Advance(ch), Lead(t.Sent(ch), fg, bg))], x + t.Advance(ch), y, fg, bg)
            && p2 == Pen(x, y, fg, bg)
  {
    hide Exec;
    SendAt(t, s, pen, x, y, fg, bg, ch);
  }

  lemma ExecOne(t: Chars, s: Term, cmd: Cmd)
    ensures Exec(t, s, [cmd]) == Exec1(t, s, cmd)
  {
    assert [cmd][1..] == [];
  }

  function Next(t: Chars, back: seq<Cell>, x: nat): (n: nat)
    requires x < |back|
  {
    if t.Columns(back[x].ch) == 2 then x + 2 else x + 1
  }

  /** Of the cells the row loop looks at from column x on, none is the internal marker and no two clash. */
  ghost predicate FineFrom(t: Chars, front: seq<Cell>, back: seq<Cell>, x: nat)
    requires |front| == |back|
    decreases |back| - x
  {
    x >= |back| || (back[x] != INVALID && !Clash(t, front, back, x) && FineFrom(t, front, back, Next(t, back, x)))
  }

  lemma {:induction false} FineFrame(t: Chars, front: seq<Cell>, front': seq<Cell>, back: seq<Cell>, x: nat)
    requires |front| == |back| && SameFrom(front, front', x) && FineFrom(t, front, back, x)
    ensures FineFrom(t, front', back, x)
    decreases |back| - x
  {
    if x < |back| {
      assert Clash(t, front', back, x) == Clash(t, front, back, x);
      FineFrame(t, front, front', back, Next(t, back, x));
    }
  }

  /** Only row y of the screen, and of it only columns from x on, may differ. */
  ghost predicate OnlyFrom(s: Term, s': Term, front: seq<Cell>, front': seq<Cell>, y: nat, x: nat)
    requires y < |s.rows|
  {
    && |s'.rows| == |s.rows| && |s'.rows[y]| == |s.rows[y]| && |front'| == |front|
    && (forall i :: 0 <= i < |s.rows| && i != y ==> s'.rows[i] == s.rows[i])
    && (forall i :: 0 <= i < x && i < |s.rows[y]| ==> s'.rows[y][i] == s.rows[y][i])
    && (forall i :: 0 <= i < x && i < |front| ==> front'[i] == front[i])
  }

  /** The columns of the cell at x show it and the front holds it. */
  ghost predicate CellDone(t: Chars, row: seq<Glyph>, front: seq<Cell>, back: seq<Cell>, x: nat)
    requires |row| == |front| == |back| && x < |back|
  {
    && (if t.Drawable(back[x].ch) then row[x] == Shown(t, back, x) else row[x] != Trail) && front[x] == back[x]
    && (Wide(t, back, x) ==> row[x + 1] == Trail && front[x + 1] == INVALID)
  }

  /** What one round of the loop leaves behind. */
  ghost predicate CellPost(t: Chars, s: Term, front: seq<Cell>, back: seq<Cell>, y: nat, x: nat, pen: Pen, d: Draw, s': Term)
    requires y < |s.rows| && |s.rows[y]| == |front| == |back| && x < |back|
  {
    var next := Next(t, back, x);
    && OnlyFrom(s, s', front, d.front, y, x) && CellDone(t, s'.rows[y], d.front, back, x)
    && (next <= |back| ==> Pending(t, s'.rows[y], d.front, next))
    && Synced(d.pen, s', next, y, Changed(d.front, back, next)) && (d.pen == pen || d.pen.y == y)
    && SameFrom(front, d.front, next) && SameFrom(s.rows[y], s'.rows[y], next + 1)
  }

  /** The cells one round can meet. */
  ghost predicate CellPre(t: Chars, s: Term, front: seq<Cell>, back: seq<Cell>, y: nat, x: nat, pen: Pen) {
    && t.Consistent() && y < |s.rows| && |s.rows[y]| == |front| == |back| && x < |back|
    && Pending(t, s.rows[y], front, x) && Synced(pen, s, x, y, Changed(front, back, x))
    && back[x] != INVALID && (x + 1 < |back| && Next(t, back, x) == x + 1 ==> back[x + 1] != INVALID)
    && !Clash(t, front, back, x)
  }

  lemma SameCell(t: Chars, s: Term, front: seq<Cell>, back: seq<Cell>, y: nat, x: nat, pen: Pen)
    requires CellPre(t, s, front, back, y, x, pen) && front[x] == back[x]
    ensures CellPost(t, s, front, back, y, x, pen, Draw(front, pen, []), s)
  {
    assert ShowsFrom(t, s.rows[y], front, x);
  }

  lemma ZeroPending(t: Chars, row: seq<Glyph>, front: seq<Cell>, back: seq<Cell>, x: nat)
    requires t.Consistent() && |row| == |front| == |back| && x < |back| && Pending(t, row, front, x)
    requires front[x] != back[x] && !t.Drawable(back[x].ch) && !Clash(t, front, back, x)
    requires x + 1 < |back| ==> back[x + 1] != INVALID
    ensures Pending(t, row, front[x := back[x]], x + 1) && row[x] != Trail
  {
    if ShowsFrom(t, row, front, x) && MarkedFrom(t, front, x) {
      NotTrail(t, row, front, x);
      assert !Wide(t, front, x);
      ShowsFrame(t, row, front, row, front[x := back[x]], x + 1);
    } else {
      ShowsFrame(t, row, front, row, front[x := back[x]], x + 1);
    }
  }

  lemma NarrowCell(t: Chars, s: Term, front: seq<Cell>, back: seq<Cell>, y: nat, x: nat, pen: Pen)
    requires CellPre(t, s, front, back, y, x, pen) && front[x] != back[x] && t.Drawable(back[x].ch) && !Wide(t, back, x)
    ensures var d := DrawCell(t, front, back, y, x, pen); CellPost(t, s, front, back, y, x, pen, d, Exec(t, s, d.cmds))
  {
    hide Pending;
    var c, row := back[x], s.rows[y];
    var ch := if t.Columns(c.ch) == 2 then SPACE else c.ch;
    SendOk(t, s, pen, x, y, c.fg, c.bg, ch);
    NarrowPut(t, row, front, x, Lead(t.Sent(ch), c.fg, c.bg), c);
    assert t.Advance(ch) == 1;
    hide PutGlyph;
    hide Exec;
  }

  lemma WideCell(t: Chars, s: Term, front: seq<Cell>, back: seq<Cell>, y: nat, x: nat, pen: Pen)
    requires CellPre(t, s, front, back, y, x, pen) && front[x] != back[x] && Wide(t, back, x)
    ensures var d := DrawCell(t, front, back, y, x, pen); CellPost(t, s, front, back, y, x, pen, d, Exec(t, s, d.cmds))
  {
    hide Pending;
    var c, row := back[x], s.rows[y];
    SendOk(t, s, pen, x, y, c.fg, c.bg, c.ch);
    WidePut(t, row, front, x, Lead(t.Sent(c.ch), c.fg, c.bg), c);
    assert t.Advance(c.ch) == 2;
    hide PutGlyph;
    hide Exec;
  }

  /** One cell of the loop: whatever was on screen, the columns of the cell now show it, nothing to the
      left has changed and the rest of the row is still in order. */
  lemma CellRedrawn(t: Chars, s: Term, front: seq<Cell>, back: seq<Cell>, y: nat, x: nat, pen: Pen)
    requires CellPre(t, s, front, back, y, x, pen)
    ensures var d := DrawCell(t, front, back, y, x, pen); CellPost(t, s, front, back, y, x, pen, d, Exec(t, s, d.cmds))
  {
    if back[x] == front[x] {
      ExecNone(t, s);
      SameCell(t, s, front, back, y, x, pen);
    } else if !t.Drawable(back[x].ch) {
      ZeroCell(t, s, front, back, y, x, pen);
      ZeroPending(t, s.rows[y], front, back, x);
      hide Pending;
      hide Exec;
    } else if Wide(t, back, x) {
      hide CellPost;
      WideCell(t, s, front, back, y, x, pen);
    } else {
      hide CellPost;
      NarrowCell(t, s, front, back, y, x, pen);
    }
  }

  /** A cell of width zero: the terminal shows nothing new, and its cursor stays. */
  lemma ZeroCell(t: Chars, s: Term, front: seq<Cell>, back: seq<Cell>, y: nat, x: nat, pen: Pen)
    requires t.Consistent() && y < |s.rows| && |s.rows[y]| == |front| == |back| && x < |back|
    requires Synced(pen, s, x, y, true) && front[x] != back[x] && !t.Drawable(back[x].ch)
    ensures var d := DrawCell(t, front, back, y, x, pen);
            && d.front == front[x := back[x]] && d.pen == Pen(x, y, back[x].fg, back[x].bg)
            && Exec(t, s, d.cmds) == Term(s.rows, x, y, back[x].fg, back[x].bg)
  {
    var c := back[x];
    SendOk(t, s, pen, x, y, c.fg, c.bg, c.ch);
    assert s.rows[y := s.rows[y]] == s.rows;
  }

  /** From column x on the row shows the back cells, and the front holds and marks them. */
  ghost predicate RowDone(t: Chars, row: seq<Glyph>, front: seq<Cell>, back: seq<Cell>, x: nat) {
    |row| == |front| == |back| && ShowsFrom(t, row, back, x) && CopiedFrom(t, front, back, x) && MarkedFrom(t, front, x)
  }

  lemma CellThenRow(t: Chars, s: Term, s1: Term, s2: Term, front: seq<Cell>, front1: seq<Cell>, front2: seq<Cell>, back: seq<Cell>, y: nat, x: nat)
    requires y < |s.rows| && |s.rows[y]| == |front| == |back| && x < |back|
    requires OnlyFrom(s, s1, front, front1, y, x) && CellDone(t, s1.rows[y], front1, back, x)
    requires OnlyFrom(s1, s2, front1, front2, y, Next(t, back, x)) && RowDone(t, s2.rows[y], front2, back, Next(t, back, x))
    ensures OnlyFrom(s, s2, front, front2, y, x) && RowDone(t, s2.rows[y], front2, back, x)
  {
    var row, next := s2.rows[y], Next(t, back, x);
    assert CellDone(t, row, front2, back, x);
    if !Wide(t, back, x) && next == x + 2 {
      assert x + 1 == |back|;
    }
  }

  /** A whole row from column x on. */
  lemma {:induction false} RowRedrawn(t: Chars, s: Term, front: seq<Cell>, back: seq<Cell>, y: nat, x: nat, pen: Pen)
    requires t.Consistent() && y < |s.rows| && |s.rows[y]| == |front| == |back|
    requires x <= |back| ==> Pending(t, s.rows[y], front, x)
    requires Synced(pen, s, x, y, Changed(front, back, x)) && FineFrom(t, front, back, x)
    ensures var d := DrawRow(t, front, back, y, x, pen);
            var s' := Exec(t, s, d.cmds);
            && OnlyFrom(s, s', front, d.front, y, x) && RowDone(t, s'.rows[y], d.front, back, x)
            && s'.fg == d.pen.fg && s'.bg == d.pen.bg && (d.pen == pen || d.pen.y == y)
    decreases |back| - x
  {
    hide Pending;
    hide DrawCell;
    hide Exec;
    hide CellDone;
    hide OnlyFrom;
    hide SameFrom;
    hide Clash;
    if x >= |back| {
      ExecNone(t, s);
      NothingChanged(s, front, y, x);
    } else {
      var d := DrawCell(t, front, back, y, x, pen);
      var s1 := Exec(t, s, d.cmds);
      var next := Next(t, back, x);
      CellRedrawn(t, s, front, back, y, x, pen);
      SizesKept(s, s1, front, d.front, y, x);
      FineFrame(t, front, d.front, back, next);
      RowRedrawn(t, s1, d.front, back, y, next, d.pen);
      var rest := DrawRow(t, d.front, back, y, next, d.pen);
      ExecAppend(t, s, d.cmds, rest.cmds);
      CellThenRow(t, s, s1, Exec(t, s1, rest.cmds), front, d.front, rest.front, back, y, x);
    }
  }

  lemma ExecNone(t: Chars, s: Term)
    ensures Exec(t, s, []) == s
  {
  }

  lemma NothingChanged(s: Term, front: seq<Cell>, y: nat, x: nat)
    requires y < |s.rows|
    ensures OnlyFrom(s, s, front, front, y, x)
  {
  }

  lemma SizesKept(s: Term, s': Term, front: seq<Cell>, front': seq<Cell>, y: nat, x: nat)
    requires y < |s.rows| && OnlyFrom(s, s', front, front', y, x)
    ensures |s'.rows| == |s.rows| && |s'.rows[y]| == |s.rows[y]| && |front'| == |front|
  {
  }

  // ----- the whole screen -----

  datatype Screen = Screen(front: seq<seq<Cell>>, pen: Pen, cmds: seq<Cmd>)

  ghost predicate SameShape<A(!new), B(!new)>(a: seq<seq<A>>, b: seq<seq<B>>) {
    |a| == |b| && forall y :: 0 <= y < |a| ==> |a[y]| == |b[y]|
  }

  function DrawRows(t: Chars, front: seq<seq<Cell>>, back: seq<seq<Cell>>, y: nat, pen: Pen): (r: Screen)
    requires SameShape(front, back)
    ensures SameShape(r.front, back)
    decreases |front| - y
  {
    if y >= |front| then Screen(front, pen, [])
    else
      var d := DrawRow(t, front[y], back[y], y, 0, pen);
      var rest := DrawRows(t, front[y := d.front], back, y + 1, d.pen);
      Screen(rest.front, rest.pen, d.cmds + rest.cmds)
  }

  /** tb_present, up to the final placement of the visible cursor. */
  function PresentAll(t: Chars, front: seq<seq<Cell>>, back: seq<seq<Cell>>, pen: Pen): (r: Screen)
    requires SameShape(front, back)
    ensures SameShape(r.front, back)
  {
    DrawRows(t, front, back, 0, pen.(x := -1, y := -1))
  }

  /** Rows from y on: the screen shows the front buffer, which marks its double-width cells. */
  ghost predicate InOrder(t: Chars, rows: seq<seq<Glyph>>, front: seq<seq<Cell>>, y: nat)
    requires SameShape(rows, front)
  {
    forall i :: y <= i < |rows| ==> ShowsFrom(t, rows[i], front[i], 0) && MarkedFrom(t, front[i], 0)
  }

  ghost predicate Presented(t: Chars, rows: seq<seq<Glyph>>, front: seq<seq<Cell>>, back: seq<seq<Cell>>, y: nat)
    requires SameShape(rows, front) && SameShape(front, back)
  {
    forall i :: y <= i < |rows| ==> RowDone(t, rows[i], front[i], back[i], 0)
  }

  /** From row y on, no row has a clash. */
  ghost predicate AllFine(t: Chars, front: seq<seq<Cell>>, back: seq<seq<Cell>>, y: nat)
    requires SameShape(front, back)
  {
    forall i :: y <= i < |back| ==> FineFrom(t, front[i], back[i], 0)
  }

  lemma {:induction false} RowsRedrawn(t: Chars, s: Term, front: seq<seq<Cell>>, back: seq<seq<Cell>>, y: nat, pen: Pen)
    requires t.Consistent() && SameShape(s.rows, front) && SameShape(front, back)
    requires InOrder(t, s.rows, front, y) && AllFine(t, front, back, y)
    requires s.fg == pen.fg && s.bg == pen.bg && pen.y < y
    ensures var r := DrawRows(t, front, back, y, pen);
            var s' := Exec(t, s, r.cmds);
            && SameShape(s'.rows, r.front)
            && (forall i :: 0 <= i < y && i < |s.rows| ==> s'.rows[i] == s.rows[i] && r.front[i] == front[i])
            && Presented(t, s'.rows, r.front, back, y)
            && s'.fg == r.pen.fg && s'.bg == r.pen.bg
    decreases |front| - y
  {
    hide Exec;
    hide ShowsFrom;
    hide MarkedFrom;
    hide FineFrom;
    hide RowDone;
    if y >= |front| {
      ExecNone(t, s);
    } else {
      var d := DrawRow(t, front[y], back[y], y, 0, pen);
      var s1 := Exec(t, s, d.cmds);
      RowRedrawn(t, s, front[y], back[y], y, 0, pen);
      var front1 := front[y := d.front];
      RowsRedrawn(t, s1, front1, back, y + 1, d.pen);
      var rest := DrawRows(t, front1, back, y + 1, d.pen);
      ExecAppend(t, s, d.cmds, rest.cmds);
    }
  }

  /** The diff redraw is right: if the screen shows the front buffer and no changed cell of width zero is directly
      followed by a changed cell, then after tb_present the screen shows the back buffer, the front buffer holds the back
      buffer, and both are in order for the next call, although only cells that differ were sent. */
  lemma PresentIsRight(t: Chars, s: Term, front: seq<seq<Cell>>, back: seq<seq<Cell>>, pen: Pen)
    requires t.Consistent() && SameShape(s.rows, front) && SameShape(front, back)
    requires InOrder(t, s.rows, front, 0) && AllFine(t, front, back, 0) && s.fg == pen.fg && s.bg == pen.bg
    ensures var r := PresentAll(t, front, back, pen);
            var s' := Exec(t, s, r.cmds);
            && SameShape(s'.rows, r.front) && Presented(t, s'.rows, r.front, back, 0) && InOrder(t, s'.rows, r.front, 0)
            && s'.fg == r.pen.fg && s'.bg == r.pen.bg
  {
    RowsRedrawn(t, s, front, back, 0, pen.(x := -1, y := -1));
    var r := PresentAll(t, front, back, pen);
    var s' := Exec(t, s, r.cmds);
    forall i | 0 <= i < |s'.rows|
      ensures ShowsFrom(t, s'.rows[i], r.front[i], 0)
    {
      assert RowDone(t, s'.rows[i], r.front[i], back[i], 0);
      ShowsCopied(t, s'.rows[i], r.front[i], back[i], 0);
    }
  }

  lemma {:induction false} ShowsCopied(t: Chars, row: seq<Glyph>, front: seq<Cell>, back: seq<Cell>, x: nat)
    requires |row| == |front| == |back| && CopiedFrom(t, front, back, x)
    ensures ShowsFrom(t, row, front, x) <==> ShowsFrom(t, row, back, x)
    decreases |back| - x
  {
    if x < |back| {
      ShowsCopied(t, row, front, back, if Wide(t, back, x) then x + 2 else x + 1);
    }
  }

  /** Two rows look the same wherever these cells have a glyph. */
  ghost predicate SameGlyphs(t: Chars, row: seq<Glyph>, row': seq<Glyph>, cells: seq<Cell>, x: nat)
    requires |row| == |row'| == |cells|
    decreases |cells| - x
  {
    x >= |cells| ||
    if !t.Drawable(cells[x].ch) then SameGlyphs(t, row, row', cells, x + 1)
    else
      row[x] == row'[x] &&
      if Wide(t, cells, x) then row[x + 1] == row'[x + 1] && SameGlyphs(t, row, row', cells, x + 2)
      else SameGlyphs(t, row, row', cells, x + 1)
  }

  /** What a row of cells looks like is determined by the cells. */
  lemma {:induction false} ShowsUnique(t: Chars, row: seq<Glyph>, row': seq<Glyph>, cells: seq<Cell>, x: nat)
    requires |row| == |row'| == |cells| && ShowsFrom(t, row, cells, x) && ShowsFrom(t, row', cells, x)
    ensures SameGlyphs(t, row, row', cells, x)
    decreases |cells| - x
  {
    if x < |cells| {
      ShowsUnique(t, row, row', cells, if Wide(t, cells, x) then x + 2 else x + 1);
    }
  }

  /** Nothing but glyphs: all cells have a width. */
  predicate AllDrawable(t: Chars, cells: seq<Cell>) {
    forall x :: 0 <= x < |cells| ==> t.Drawable(cells[x].ch)
  }

  lemma {:induction false} SameGlyphsAll(t: Chars, row: seq<Glyph>, row': seq<Glyph>, cells: seq<Cell>, x: nat)
    requires |row| == |row'| == |cells| && SameGlyphs(t, row, row', cells, x) && AllDrawable(t, cells)
    ensures SameFrom(row, row', x)
    decreases |cells| - x
  {
    if x < |cells| {
      SameGlyphsAll(t, row, row', cells, if Wide(t, cells, x) then x + 2 else x + 1);
    }
  }

  /** The diff redraw equals a full redraw: from any two screens in order with their front buffers, for
      instance the current one and a cleared one, the same back buffer gives the same glyphs, and without cells of width
      zero the same screen. */
  lemma DiffEqualsFull(t: Chars, s: Term, s': Term, front: seq<seq<Cell>>, front': seq<seq<Cell>>, back: seq<seq<Cell>>, pen: Pen, pen': Pen)
    requires t.Consistent() && SameShape(s.rows, front) && SameShape(s'.rows, front') && SameShape(front, back) && SameShape(front', back)
    requires InOrder(t, s.rows, front, 0) && InOrder(t, s'.rows, front', 0)
    requires AllFine(t, front, back, 0) && AllFine(t, front', back, 0)
    requires s.fg == pen.fg && s.bg == pen.bg && s'.fg == pen'.fg && s'.bg == pen'.bg
    ensures var a := Exec(t, s, PresentAll(t, front, back, pen).cmds).rows;
            var b := Exec(t, s', PresentAll(t, front', back, pen').cmds).rows;
            && SameShape(a, back) && SameShape(b, back)
            && (forall y :: 0 <= y < |back| ==> SameGlyphs(t, a[y], b[y], back[y], 0))
            && ((forall y :: 0 <= y < |back| ==> AllDrawable(t, back[y])) ==> a == b)
  {
    hide Exec;
    hide PresentAll;
    PresentIsRight(t, s, front, back, pen);
    PresentIsRight(t, s', front', back, pen');
    var a := Exec(t, s, PresentAll(t, front, back, pen).cmds).rows;
    var b := Exec(t, s', PresentAll(t, front', back, pen').cmds).rows;
    assert Presented(t, a, PresentAll(t, front, back, pen).front, back, 0);
    assert Presented(t, b, PresentAll(t, front', back, pen').front, back, 0);
    forall y | 0 <= y < |back|
      ensures SameGlyphs(t, a[y], b[y], back[y], 0) && (AllDrawable(t, back[y]) ==> a[y] == b[y])
    {
      ShowsUnique(t, a[y], b[y], back[y], 0);
      if AllDrawable(t, back[y]) { SameGlyphsAll(t, a[y], b[y], back[y], 0); }
    }
  }

  /** Nothing is sent for a row whose cells have not changed. */
  lemma {:induction false} UnchangedRowIsFree(t: Chars, front: seq<Cell>, back: seq<Cell>, y: int, x: nat, pen: Pen)
    requires t.Consistent() && |front| == |back| && CopiedFrom(t, front, back, x)
    ensures DrawRow(t, front, back, y, x, pen) == Draw(front, pen, [])
    decreases |back| - x
  {
    if x < |back| {
      UnchangedRowIsFree(t, front, back, y, Next(t, back, x), pen);
    }
  }

  // ----- when it goes wrong -----

  /** A glyph reaches at most one column to its left and one beyond its own. */
  lemma PutReach(row: seq<Glyph>, x: int, a: int, g: Glyph, k: nat)
    requires k < |row| && a <= 2 && (k < x - 1 || k > x + a)
    ensures PutGlyph(row, x, a, g)[k] == row[k]
  {
  }

  /** A column that a glyph does not cover stays as it is, unless it loses its other half. */
  predicate Spared(row: seq<Glyph>, row': seq<Glyph>, k: nat) {
    k < |row| == |row'| && (row'[k] == row[k] || row'[k] == Broken)
  }

  lemma PutSpares(row: seq<Glyph>, x: int, a: int, g: Glyph, k: nat)
    requires k < |row| && 0 <= a <= 2 && (k < x || k >= x + a)
    ensures Spared(row, PutGlyph(row, x, a, g), k)
  {
  }

  /** Every draw of the rest of the row lands at column m or later: what is further left stays, and so do other rows. */
  lemma {:induction false} WritesFrom(t: Chars, s: Term, front: seq<Cell>, back: seq<Cell>, y: nat, x: nat, pen: Pen, m: nat)
    requires t.Consistent() && y < |s.rows| && |s.rows[y]| == |front| == |back| && m <= x
    requires s.fg == pen.fg && s.bg == pen.bg && (pen.y == y ==> pen.x < x)
    requires pen.y == y && pen.x == x - 1 ==> s.cy == y && s.cx >= m
    ensures var d := DrawRow(t, front, back, y, x, pen);
            var s' := Exec(t, s, d.cmds);
            && |s'.rows| == |s.rows| && |s'.rows[y]| == |s.rows[y]|
            && (forall i :: 0 <= i < |s.rows| && i != y ==> s'.rows[i] == s.rows[i])
            && (forall k :: 0 <= k < m - 1 && k < |s.rows[y]| ==> s'.rows[y][k] == s.rows[y][k])
            && (forall k :: 0 <= k < m && k < |s.rows[y]| ==> Spared(s.rows[y], s'.rows[y], k))
            && s'.fg == d.pen.fg && s'.bg == d.pen.bg && (d.pen == pen || d.pen.y == y)
    decreases |back| - x
  {
    hide Exec;
    hide DrawCell;
    ExecNone(t, s);
    if x < |back| {
      var d, next := DrawCell(t, front, back, y, x, pen), Next(t, back, x);
      var s1 := Exec(t, s, d.cmds);
      WritesOne(t, s, front, back, y, x, pen, m);
      WritesFrom(t, s1, d.front, back, y, next, d.pen, m);
      ExecAppend(t, s, d.cmds, DrawRow(t, d.front, back, y, next, d.pen).cmds);
      forall k | 0 <= k < m && k < |s.rows[y]|
        ensures Spared(s.rows[y], Exec(t, s1, DrawRow(t, d.front, back, y, next, d.pen).cmds).rows[y], k)
      {
        assert Spared(s.rows[y], s1.rows[y], k);
        assert Spared(s1.rows[y], Exec(t, s1, DrawRow(t, d.front, back, y, next, d.pen).cmds).rows[y], k);
      }
    }
  }

  lemma WritesOne(t: Chars, s: Term, front: seq<Cell>, back: seq<Cell>, y: nat, x: nat, pen: Pen, m: nat)
    requires t.Consistent() && y < |s.rows| && |s.rows[y]| == |front| == |back| && m <= x < |back|
    requires s.fg == pen.fg && s.bg == pen.bg && (pen.y == y ==> pen.x < x)
    requires pen.y == y && pen.x == x - 1 ==> s.cy == y && s.cx >= m
    ensures var d := DrawCell(t, front, back, y, x, pen);
            var s' := Exec(t, s, d.cmds);
            && |s'.rows| == |s.rows| && |s'.rows[y]| == |s.rows[y]|
            && (forall i :: 0 <= i < |s.rows| && i != y ==> s'.rows[i] == s.rows[i])
            && (forall k :: 0 <= k < m - 1 && k < |s.rows[y]| ==> s'.rows[y][k] == s.rows[y][k])
            && (forall k :: 0 <= k < m && k < |s.rows[y]| ==> Spared(s.rows[y], s'.rows[y], k))
            && s'.fg == d.pen.fg && s'.bg == d.pen.bg
            && (if front[x] == back[x] then d.pen == pen else d.pen.y == y && d.pen.x == x && s'.cy == y && s'.cx >= m)
  {
    hide Exec;
    ExecNone(t, s);
    var c := back[x];
    if c != front[x] {
      var ch := if t.Columns(c.ch) == 2 && x + 1 >= |front| then SPACE else c.ch;
      var cx := if pen.y == y && pen.x == x - 1 then s.cx else x;
      SendAt(t, s, pen, x, y, c.fg, c.bg, ch);
      assert 0 <= t.Advance(ch) <= 2;
      forall k | 0 <= k < m - 1 && k < |s.rows[y]|
        ensures PutGlyph(s.rows[y], cx, t.Advance(ch), Lead(t.Sent(ch), c.fg, c.bg))[k] == s.rows[y][k]
      {
        PutReach(s.rows[y], cx, t.Advance(ch), Lead(t.Sent(ch), c.fg, c.bg), k);
      }
      forall k | 0 <= k < m && k < |s.rows[y]|
        ensures Spared(s.rows[y], PutGlyph(s.rows[y], cx, t.Advance(ch), Lead(t.Sent(ch), c.fg, c.bg)), k)
      {
        PutSpares(s.rows[y], cx, t.Advance(ch), Lead(t.Sent(ch), c.fg, c.bg), k);
      }
    }
  }

  /** Some cell of the run of changed cells that starts at x has a glyph. */
  predicate HasGlyph(t: Chars, front: seq<Cell>, back: seq<Cell>, x: nat)
    requires |front| == |back|
    decreases |back| - x
  {
    Changed(front, back, x) && (t.Drawable(back[x].ch) || HasGlyph(t, front, back, x + 1))
  }

  /** The last column of the run that should show a glyph. After a double-width cell the cursor is placed anew, so the run
      ends there. */
  function RunEnd(t: Chars, front: seq<Cell>, back: seq<Cell>, x: nat): (e: nat)
    requires |front| == |back| && HasGlyph(t, front, back, x)
    ensures x <= e < |back|
    decreases |back| - x
  {
    if Wide(t, back, x) then x + 1 else if HasGlyph(t, front, back, x + 1) then RunEnd(t, front, back, x + 1) else x
  }

  lemma {:induction false} RunFrame(t: Chars, front: seq<Cell>, front': seq<Cell>, back: seq<Cell>, x: nat)
    requires |front| == |back| && SameFrom(front, front', x)
    ensures HasGlyph(t, front', back, x) == HasGlyph(t, front, back, x)
    ensures HasGlyph(t, front, back, x) ==> RunEnd(t, front', back, x) == RunEnd(t, front, back, x)
    decreases |back| - x
  {
    if x < |back| { RunFrame(t, front, front', back, x + 1); }
  }

  /** Drawing a cell with the cursor at or left of where it should be. */
  lemma LagCell(t: Chars, s: Term, front: seq<Cell>, back: seq<Cell>, y: nat, x: nat, e: nat, pen: Pen)
    requires t.Consistent() && y < |s.rows| && |s.rows[y]| == |front| == |back| && x < |back| && Changed(front, back, x)
    requires s.fg == pen.fg && s.bg == pen.bg && pen.y == y && pen.x == x - 1 && s.cy == y
    requires e < |back| && (t.Drawable(back[x].ch) ==> s.cx <= x - 1 && if Wide(t, back, x) then x < e else x <= e)
    ensures var d := DrawCell(t, front, back, y, x, pen);
            var s' := Exec(t, s, d.cmds);
            && |s'.rows| == |s.rows| && Spared(s.rows[y], s'.rows[y], e)
            && s'.fg == d.pen.fg && s'.bg == d.pen.bg && d.pen.y == y && d.pen.x == x && s'.cy == y
            && (!Wide(t, back, x) ==> s'.cx <= s.cx + 1) && SameFrom(front, d.front, Next(t, back, x))
  {
    hide Exec;
    hide PutGlyph;
    var c := back[x];
    var ch := if t.Columns(c.ch) == 2 && x + 1 >= |front| then SPACE else c.ch;
    SendAt(t, s, pen, x, y, c.fg, c.bg, ch);
    assert t.Advance(ch) == if !t.Drawable(c.ch) then 0 else if Wide(t, back, x) then 2 else 1;
    if t.Drawable(c.ch) {
      PutSpares(s.rows[y], s.cx, t.Advance(ch), Lead(t.Sent(ch), c.fg, c.bg), e);
    } else {
      PutNothing(s.rows[y], s.cx, Lead(t.Sent(ch), c.fg, c.bg));
    }
  }

  lemma PutNothing(row: seq<Glyph>, x: int, g: Glyph)
    ensures PutGlyph(row, x, 0, g) == row
  {
  }

  /** Behind a cell of width zero the cursor lags: a whole run of cells lands too far left, and the last column of the run
      is not drawn at all. */
  lemma {:induction false} RunDisplaced(t: Chars, s: Term, front: seq<Cell>, back: seq<Cell>, y: nat, x: nat, pen: Pen)
    requires t.Consistent() && y < |s.rows| && |s.rows[y]| == |front| == |back| && HasGlyph(t, front, back, x)
    requires s.fg == pen.fg && s.bg == pen.bg && 0 < x && pen.y == y && pen.x == x - 1 && s.cy == y && s.cx <= x - 1
    ensures var s' := Exec(t, s, DrawRow(t, front, back, y, x, pen).cmds);
            |s'.rows| == |s.rows| && Spared(s.rows[y], s'.rows[y], RunEnd(t, front, back, x))
    decreases |back| - x
  {
    hide Exec;
    hide DrawCell;
    var e := RunEnd(t, front, back, x);
    var d, next := DrawCell(t, front, back, y, x, pen), Next(t, back, x);
    var s1 := Exec(t, s, d.cmds);
    LagCell(t, s, front, back, y, x, e, pen);
    ExecAppend(t, s, d.cmds, DrawRow(t, d.front, back, y, next, d.pen).cmds);
    if Wide(t, back, x) {
      WritesFrom(t, s1, d.front, back, y, next, d.pen, e + 1);
      assert Spared(s1.rows[y], Exec(t, s1, DrawRow(t, d.front, back, y, next, d.pen).cmds).rows[y], e);
    } else if HasGlyph(t, front, back, x + 1) {
      RunFrame(t, front, d.front, back, x + 1);
      RunDisplaced(t, s1, d.front, back, y, x + 1, d.pen);
    } else if next == x + 1 {
      RunFrame(t, front, d.front, back, x + 1);
      AfterRun(t, s1, d.front, back, y, x + 1, e, d.pen);
    } else {
      ExecNone(t, s1);
    }
  }

  /** What follows the run: perhaps cells of width zero, and then the cursor is placed anew. */
  lemma {:induction false} AfterRun(t: Chars, s: Term, front: seq<Cell>, back: seq<Cell>, y: nat, x: nat, e: nat, pen: Pen)
    requires t.Consistent() && y < |s.rows| && |s.rows[y]| == |front| == |back| && e < x && e < |back|
    requires !HasGlyph(t, front, back, x) && s.fg == pen.fg && s.bg == pen.bg && pen.y == y && pen.x == x - 1 && s.cy == y
    ensures var s' := Exec(t, s, DrawRow(t, front, back, y, x, pen).cmds);
            |s'.rows| == |s.rows| && Spared(s.rows[y], s'.rows[y], e)
    decreases |back| - x
  {
    hide Exec;
    hide DrawCell;
    ExecNone(t, s);
    if x < |back| {
      var d, next := DrawCell(t, front, back, y, x, pen), Next(t, back, x);
      var rest := DrawRow(t, d.front, back, y, next, d.pen);
      ExecAppend(t, s, d.cmds, rest.cmds);
      if Changed(front, back, x) {
        LagCell(t, s, front, back, y, x, e, pen);
        RunFrame(t, front, d.front, back, x + 1);
        AfterRun(t, Exec(t, s, d.cmds), d.front, back, y, x + 1, e, d.pen);
      } else {
        UnchangedCell(t, front, back, y, x, pen);
        WritesFrom(t, s, front, back, y, next, pen, e + 1);
      }
    }
  }

  lemma UnchangedCell(t: Chars, front: seq<Cell>, back: seq<Cell>, y: nat, x: nat, pen: Pen)
    requires |front| == |back| && x < |back| && !Changed(front, back, x)
    ensures DrawCell(t, front, back, y, x, pen) == Draw(front, pen, [])
  {
  }

  /** The first clash of a row, from column x on, has a glyph behind it. */
  predicate Displaces(t: Chars, front: seq<Cell>, back: seq<Cell>, x: nat)
    requires |front| == |back|
    decreases |back| - x
  {
    x < |back| && back[x] != INVALID &&
    if Clash(t, front, back, x) then HasGlyph(t, front, back, x + 1) else Displaces(t, front, back, Next(t, back, x))
  }

  /** The column that is then not drawn. */
  function Stale(t: Chars, front: seq<Cell>, back: seq<Cell>, x: nat): (e: nat)
    requires |front| == |back| && Displaces(t, front, back, x)
    ensures x < e < |back|
    decreases |back| - x
  {
    if Clash(t, front, back, x) then RunEnd(t, front, back, x + 1) else Stale(t, front, back, Next(t, back, x))
  }

  /** What it should show. */
  function Wanted(t: Chars, back: seq<Cell>, e: nat): (g: Glyph)
    requires 0 < e < |back|
  {
    if Wide(t, back, e - 1) then Trail else Shown(t, back, e)
  }

  lemma {:induction false} ClashFrame(t: Chars, front: seq<Cell>, front': seq<Cell>, back: seq<Cell>, x: nat)
    requires |front| == |back| && SameFrom(front, front', x) && Displaces(t, front, back, x)
    ensures Displaces(t, front', back, x) && Stale(t, front', back, x) == Stale(t, front, back, x)
    decreases |back| - x
  {
    assert Clash(t, front', back, x) == Clash(t, front, back, x);
    if Clash(t, front, back, x) {
      RunFrame(t, front, front', back, x + 1);
    } else {
      ClashFrame(t, front, front', back, Next(t, back, x));
    }
  }

  /** The row loop about to look at x. */
  ghost predicate RowPre(t: Chars, s: Term, front: seq<Cell>, back: seq<Cell>, y: nat, x: nat, pen: Pen) {
    && t.Consistent() && y < |s.rows| && |s.rows[y]| == |front| == |back| && x <= |back|
    && Pending(t, s.rows[y], front, x) && Synced(pen, s, x, y, Changed(front, back, x))
  }

  lemma CellBeforeClash(t: Chars, s: Term, front: seq<Cell>, back: seq<Cell>, y: nat, x: nat, pen: Pen)
    requires RowPre(t, s, front, back, y, x, pen) && Displaces(t, front, back, x) && !Clash(t, front, back, x)
    ensures var d, next, e := DrawCell(t, front, back, y, x, pen), Next(t, back, x), Stale(t, front, back, x);
            var s1 := Exec(t, s, d.cmds);
            && next < e && RowPre(t, s1, d.front, back, y, next, d.pen)
            && Displaces(t, d.front, back, next) && Stale(t, d.front, back, next) == e
            && |s1.rows| == |s.rows| && |s1.rows[y]| == |s.rows[y]| && s1.rows[y][e] == s.rows[y][e]
  {
    hide Exec;
    hide Pending;
    hide CellDone;
    hide DrawCell;
    CellRedrawn(t, s, front, back, y, x, pen);
    ClashFrame(t, front, DrawCell(t, front, back, y, x, pen).front, back, Next(t, back, x));
  }

  lemma ClashingCell(t: Chars, s: Term, front: seq<Cell>, back: seq<Cell>, y: nat, x: nat, pen: Pen)
    requires RowPre(t, s, front, back, y, x, pen) && Displaces(t, front, back, x) && Clash(t, front, back, x)
    ensures var d := DrawCell(t, front, back, y, x, pen);
            var s1 := Exec(t, s, d.cmds);
            var s' := Exec(t, s1, DrawRow(t, d.front, back, y, x + 1, d.pen).cmds);
            |s'.rows| == |s.rows| && Spared(s.rows[y], s'.rows[y], Stale(t, front, back, x))
  {
    hide Exec;
    hide Pending;
    var d := DrawCell(t, front, back, y, x, pen);
    ZeroCell(t, s, front, back, y, x, pen);
    RunFrame(t, front, d.front, back, x + 1);
    RunDisplaced(t, Exec(t, s, d.cmds), d.front, back, y, x + 1, d.pen);
  }

  /** A row with a clash: the last column of the run behind it keeps what it showed. */
  lemma {:induction false} RowGoesWrong(t: Chars, s: Term, front: seq<Cell>, back: seq<Cell>, y: nat, x: nat, pen: Pen)
    requires RowPre(t, s, front, back, y, x, pen) && Displaces(t, front, back, x)
    ensures var s' := Exec(t, s, DrawRow(t, front, back, y, x, pen).cmds);
            |s'.rows| == |s.rows| && Spared(s.rows[y], s'.rows[y], Stale(t, front, back, x))
    decreases |back| - x
  {
    hide Exec;
    hide Pending;
    hide HasGlyph;
    hide RunEnd;
    hide Synced;
    hide DrawCell;
    var d, next := DrawCell(t, front, back, y, x, pen), Next(t, back, x);
    ExecAppend(t, s, d.cmds, DrawRow(t, d.front, back, y, next, d.pen).cmds);
    if Clash(t, front, back, x) {
      ClashingCell(t, s, front, back, y, x, pen);
    } else {
      CellBeforeClash(t, s, front, back, y, x, pen);
      RowGoesWrong(t, Exec(t, s, d.cmds), d.front, back, y, next, d.pen);
    }
  }

  /** A right row shows the end of the run. */
  lemma {:induction false} RunIsShown(t: Chars, row: seq<Glyph>, front: seq<Cell>, back: seq<Cell>, x: nat)
    requires |row| == |front| == |back| && ShowsFrom(t, row, back, x) && HasGlyph(t, front, back, x)
    requires 0 < x && !Wide(t, back, x - 1)
    ensures var e := RunEnd(t, front, back, x); row[e] == Wanted(t, back, e)
    decreases |back| - x
  {
    if !Wide(t, back, x) && HasGlyph(t, front, back, x + 1) { RunIsShown(t, row, front, back, x + 1); }
  }

  lemma {:induction false} StaleIsShown(t: Chars, row: seq<Glyph>, front: seq<Cell>, back: seq<Cell>, x: nat)
    requires |row| == |front| == |back| && t.Consistent() && ShowsFrom(t, row, back, x) && Displaces(t, front, back, x)
    ensures var e := Stale(t, front, back, x); row[e] == Wanted(t, back, e)
    decreases |back| - x
  {
    if Clash(t, front, back, x) {
      RunIsShown(t, row, front, back, x + 1);
    } else {
      StaleIsShown(t, row, front, back, Next(t, back, x));
    }
  }

  // ----- rows are drawn independently -----

  /** The terminal and the pen when the loop comes to row y: the row is as it was. */
  lemma {:induction false} RowAlone(t: Chars, s: Term, front: seq<seq<Cell>>, back: seq<seq<Cell>>, y0: nat, pen: Pen, y: nat)
    returns (s0: Term, pen0: Pen)
    requires t.Consistent() && SameShape(s.rows, front) && SameShape(front, back) && y0 <= y < |back|
    requires s.fg == pen.fg && s.bg == pen.bg && pen.y < y0
    ensures |s0.rows| == |s.rows| && s0.rows[y] == s.rows[y] && s0.fg == pen0.fg && s0.bg == pen0.bg && pen0.y < y
    ensures var s' := Exec(t, s, DrawRows(t, front, back, y0, pen).cmds);
            |s'.rows| == |s.rows| && s'.rows[y] == Exec(t, s0, DrawRow(t, front[y], back[y], y, 0, pen0).cmds).rows[y]
    decreases |back| - y0
  {
    hide Exec;
    hide DrawRow;
    var d := DrawRow(t, front[y0], back[y0], y0, 0, pen);
    var s1 := Exec(t, s, d.cmds);
    WritesFrom(t, s, front[y0], back[y0], y0, 0, pen, 0);
    var front1 := front[y0 := d.front];
    var rest := DrawRows(t, front1, back, y0 + 1, d.pen);
    ExecAppend(t, s, d.cmds, rest.cmds);
    if y0 == y {
      s0, pen0 := s, pen;
      RowsBelow(t, s1, front1, back, y0 + 1, d.pen, y);
    } else {
      s0, pen0 := RowAlone(t, s1, front1, back, y0 + 1, d.pen, y);
    }
  }

  lemma {:induction false} RowsBelow(t: Chars, s: Term, front: seq<seq<Cell>>, back: seq<seq<Cell>>, y0: nat, pen: Pen, y: nat)
    requires t.Consistent() && SameShape(s.rows, front) && SameShape(front, back) && y < y0 && y < |back|
    requires s.fg == pen.fg && s.bg == pen.bg && pen.y < y0
    ensures var s' := Exec(t, s, DrawRows(t, front, back, y0, pen).cmds); |s'.rows| == |s.rows| && s'.rows[y] == s.rows[y]
    decreases |back| - y0
  {
    hide Exec;
    hide DrawRow;
    ExecNone(t, s);
    if y0 < |back| {
      var d := DrawRow(t, front[y0], back[y0], y0, 0, pen);
      WritesFrom(t, s, front[y0], back[y0], y0, 0, pen, 0);
      var front1 := front[y0 := d.front];
      ExecAppend(t, s, d.cmds, DrawRows(t, front1, back, y0 + 1, d.pen).cmds);
      RowsBelow(t, Exec(t, s, d.cmds), front1, back, y0 + 1, d.pen, y);
    }
  }

  /** Where the redraw goes wrong: if in some row a changed cell of width zero is directly followed by changed cells of
      which one has a glyph, then, whatever the rest of the screen, one column is not redrawn; unless it happened to show
      the right thing already, the row does not show the back buffer. */
  lemma ClashGoesWrong(t: Chars, s: Term, front: seq<seq<Cell>>, back: seq<seq<Cell>>, pen: Pen, y: nat)
    requires t.Consistent() && SameShape(s.rows, front) && SameShape(front, back)
    requires InOrder(t, s.rows, front, 0) && s.fg == pen.fg && s.bg == pen.bg
    requires y < |back| && Displaces(t, front[y], back[y], 0)
    ensures var s' := Exec(t, s, PresentAll(t, front, back, pen).cmds);
            var e := Stale(t, front[y], back[y], 0);
            && |s'.rows| == |s.rows| && Spared(s.rows[y], s'.rows[y], e)
            && (s.rows[y][e] != Wanted(t, back[y], e) ==> !ShowsFrom(t, s'.rows[y], back[y], 0))
  {
    hide Exec;
    hide DrawRows;
    hide Displaces;
    hide Stale;
    var s0, pen0 := RowAlone(t, s, front, back, 0, pen.(x := -1, y := -1), y);
    RowGoesWrong(t, s0, front[y], back[y], y, 0, pen0);
    var s' := Exec(t, s, PresentAll(t, front, back, pen).cmds);
    if ShowsFrom(t, s'.rows[y], back[y], 0) { StaleIsShown(t, s'.rows[y], front[y], back[y], 0); }
  }

  /** No clash, or one with a glyph behind it and a column that does not happen to be right. */
  ghost predicate Telling(t: Chars, row: seq<Glyph>, front: seq<Cell>, back: seq<Cell>)
    requires |row| == |front| == |back|
  {
    FineFrom(t, front, back, 0) ||
    (Displaces(t, front, back, 0) && row[Stale(t, front, back, 0)] != Wanted(t, back, Stale(t, front, back, 0)))
  }

  /** On such screens the redraw is right exactly when no changed cell of width zero is directly followed by a changed
      cell. */
  lemma RightExactly(t: Chars, s: Term, front: seq<seq<Cell>>, back: seq<seq<Cell>>, pen: Pen)
    requires t.Consistent() && SameShape(s.rows, front) && SameShape(front, back)
    requires InOrder(t, s.rows, front, 0) && s.fg == pen.fg && s.bg == pen.bg
    requires forall y :: 0 <= y < |back| ==> Telling(t, s.rows[y], front[y], back[y])
    ensures var s' := Exec(t, s, PresentAll(t, front, back, pen).cmds);
            (SameShape(s'.rows, back) && forall y :: 0 <= y < |back| ==> ShowsFrom(t, s'.rows[y], back[y], 0)) <==>
            AllFine(t, front, back, 0)
  {
    hide Exec;
    hide PresentAll;
    hide FineFrom;
    hide ShowsFrom;
    hide Displaces;
    hide Stale;
    if AllFine(t, front, back, 0) {
      PresentIsRight(t, s, front, back, pen);
      assert Presented(t, Exec(t, s, PresentAll(t, front, back, pen).cmds).rows, PresentAll(t, front, back, pen).front, back, 0);
    } else {
      var y: nat :| y < |back| && !FineFrom(t, front[y], back[y], 0);
      assert Telling(t, s.rows[y], front[y], back[y]);
      ClashGoesWrong(t, s, front, back, pen, y);
    }
  }

  /** A combining mark and then a letter over two blanks: the letter lands in the first column and the second keeps its
      blank. */
  lemma MarkThenLetter(t: Chars, mark: nat, letter: nat)
    requires t.Consistent() && t.printable(mark) && t.width(mark) == 0 && t.printable(letter) && t.width(letter) == 1
    requires letter != SPACE
    ensures var blank, g := Cell(SPACE, 0, 0), Lead(SPACE, 0, 0);
            var back := [[Cell(mark, 0, 0), Cell(letter, 0, 0)]];
            var s' := Exec(t, Term([[g, g]], 0, 0, 0, 0), PresentAll(t, [[blank, blank]], back, Pen(-1, -1, 0, 0)).cmds);
            s'.rows == [[Lead(letter, 0, 0), g]] && !ShowsFrom(t, s'.rows[0], back[0], 0)
  {
    hide Exec;
    var blank, g := Cell(SPACE, 0, 0), Lead(SPACE, 0, 0);
    var front, back := [blank, blank], [Cell(mark, 0, 0), Cell(letter, 0, 0)];
    var s, pen := Term([[g, g]], 0, 0, 0, 0), Pen(-1, -1, 0, 0);
    var d0 := DrawCell(t, front, back, 0, 0, pen);
    ZeroCell(t, s, front, back, 0, 0, pen);
    var s1 := Exec(t, s, d0.cmds);
    var d1 := DrawCell(t, d0.front, back, 0, 1, d0.pen);
    SendAt(t, s1, d0.pen, 1, 0, 0, 0, letter);
    assert DrawRow(t, d1.front, back, 0, 2, d1.pen) == Draw(d1.front, d1.pen, []);
    assert d1.cmds + [] == d1.cmds;
    assert DrawRow(t, d0.front, back, 0, 1, d0.pen).cmds == d1.cmds;
    var whole := DrawRow(t, front, back, 0, 0, pen);
    assert whole.cmds == d0.cmds + d1.cmds;
    ExecAppend(t, s, d0.cmds, d1.cmds);
    var fronts, backs := [front], [back];
    assert DrawRows(t, fronts[0 := whole.front], backs, 1, whole.pen).cmds == [];
    assert fronts[0] == front && backs[0] == back && whole.cmds + [] == whole.cmds;
    assert PresentAll(t, fronts, backs, pen).cmds == whole.cmds;
    assert PutGlyph([g, g], 0, 1, Lead(letter, 0, 0)) == [Lead(letter, 0, 0), g];
  }

  // ----- the loops as they update the buffers -----

  /** What a row loop that has sent some commands and stands at x still owes. */
  ghost function Owed(t: Chars, front: seq<Cell>, back: seq<Cell>, y: int, x: nat, pen: Pen, sent: seq<Cmd>): (d: Draw)
    requires |front| == |back|
  {
    var rest := DrawRow(t, front, back, y, x, pen);
    Draw(rest.front, rest.pen, sent + rest.cmds)
  }

  lemma OwedStep(t: Chars, front: seq<Cell>, back: seq<Cell>, y: int, x: nat, pen: Pen, sent: seq<Cmd>)
    requires |front| == |back| && x < |back| && t.Consistent()
    ensures var d := DrawCell(t, front, back, y, x, pen);
            Owed(t, front, back, y, x, pen, sent) == Owed(t, d.front, back, y, x + t.Columns(back[x].ch), d.pen, sent + d.cmds)
  {
    hide DrawCell;
    var d := DrawCell(t, front, back, y, x, pen);
    var rest := DrawRow(t, d.front, back, y, x + t.Columns(back[x].ch), d.pen);
    assert sent + (d.cmds + rest.cmds) == (sent + d.cmds) + rest.cmds;
  }

  lemma OwedEnds(t: Chars, front: seq<Cell>, back: seq<Cell>, y: int, x: nat, pen: Pen, sent: seq<Cmd>)
    requires |front| == |back|
    ensures Owed(t, front, back, y, 0, pen, []) == DrawRow(t, front, back, y, 0, pen)
    ensures x >= |back| ==> Owed(t, front, back, y, x, pen, sent) == Draw(front, pen, sent)
  {
    var d := DrawRow(t, front, back, y, 0, pen);
    assert [] + d.cmds == d.cmds && sent + [] == sent;
  }

  class Termbox {
    const chars: Chars
    var front: seq<seq<Cell>>
    var back: seq<seq<Cell>>
    var lastX: int
    var lastY: int
    var lastFg: nat
    var lastBg: nat
    var out: seq<Cmd>

    ghost predicate Valid()
      reads this
    {
      SameShape(front, back)
    }

    ghost function Last(): (p: Pen)
      reads this
    {
      Pen(lastX, lastY, lastFg, lastBg)
    }

    constructor (chars: Chars, front: seq<seq<Cell>>, back: seq<seq<Cell>>, fg: nat, bg: nat)
      requires SameShape(front, back)
      ensures Valid() && this.chars == chars && this.front == front && this.back == back && out == []
      ensures Last() == Pen(-1, -1, fg, bg)
    {
      this.chars, this.front, this.back, out := chars, front, back, [];
      lastX, lastY, lastFg, lastBg := -1, -1, fg, bg;
    }

    method EmitAttr(fg: nat, bg: nat)
      modifies this`lastFg, this`lastBg, this`out
      ensures Last() == SendAttr(old(Last()), fg, bg).0 && out == old(out) + SendAttr(old(Last()), fg, bg).1
    {
      if fg == lastFg && bg == lastBg {
        assert out + [] == out;
        return;
      }
      out := out + [Attr(fg, bg)];
      lastFg, lastBg := fg, bg;
    }

    method EmitChar(x: int, y: int, ch: nat)
      modifies this`lastX, this`lastY, this`out
      ensures Last() == SendChar(chars, old(Last()), x, y, ch).0 && out == old(out) + SendChar(chars, old(Last()), x, y, ch).1
    {
      if lastX != x - 1 || lastY != y {
        assert (out + [Move(x, y)]) + [Put(chars.Sent(ch))] == out + ([Move(x, y)] + [Put(chars.Sent(ch))]);
        out := out + [Move(x, y)];
      }
      lastX, lastY := x, y;
      out := out + [Put(chars.Sent(ch))];
    }

    method PresentCell(x: nat, y: nat)
      requires Valid() && y < |back| && x < |back[y]|
      modifies this
      ensures Valid() && back == old(back)
      ensures var d := DrawCell(chars, old(front)[y], back[y], y, x, old(Last()));
              front == old(front)[y := d.front] && Last() == d.pen && out == old(out) + d.cmds
    {
      var c := back[y][x];
      if c == front[y][x] {
        assert front == front[y := front[y]];
        return;
      }
      var w := chars.Columns(c.ch);
      front := front[y := front[y][x := c]];
      EmitAttr(c.fg, c.bg);
      if w == 2 && x + 1 >= |front[y]| {
        EmitChar(x, y, SPACE);
      } else {
        EmitChar(x, y, c.ch);
        if w == 2 { front := front[y := front[y][x + 1 := INVALID]]; }
      }
    }

    method PresentRow(y: nat)
      requires Valid() && y < |back| && chars.Consistent()
      modifies this
      ensures Valid() && back == old(back)
      ensures var d := DrawRow(chars, old(front)[y], back[y], y, 0, old(Last()));
              front == old(front)[y := d.front] && Last() == d.pen && out == old(out) + d.cmds
    {
      hide DrawCell;
      hide DrawRow;
      hide Owed;
      ghost var whole := DrawRow(chars, front[y], back[y], y, 0, Last());
      ghost var sent: seq<Cmd> := [];
      var x := 0;
      OwedEnds(chars, front[y], back[y], y, x, Last(), []);
      assert front == front[y := front[y]] && out + [] == out;
      while x < |back[y]|
        invariant Valid() && back == old(back)
        invariant front == old(front)[y := front[y]] && out == old(out) + sent
        invariant whole == Owed(chars, front[y], back[y], y, x, Last(), sent)
        decreases |back[y]| - x
      {
        ghost var d := DrawCell(chars, front[y], back[y], y, x, Last());
        OwedStep(chars, front[y], back[y], y, x, Last(), sent);
        PresentCell(x, y);
        assert old(out) + (sent + d.cmds) == (old(out) + sent) + d.cmds;
        sent := sent + d.cmds;
        x := x + chars.Columns(back[y][x].ch);
      }
      OwedEnds(chars, front[y], back[y], y, x, Last(), sent);
    }

    /** tb_present */
    method PresentFrame()
      requires Valid() && chars.Consistent()
      modifies this
      ensures Valid() && back == old(back)
      ensures var r := PresentAll(chars, old(front), back, old(Last()));
              front == r.front && Last() == r.pen && out == old(out) + r.cmds
    {
      hide DrawRow;
      lastX, lastY := -1, -1;
      ghost var whole := DrawRows(chars, front, back, 0, Last());
      ghost var sent: seq<Cmd> := [];
      var y := 0;
      while y < |back|
        invariant Valid() && back == old(back) && y <= |back|
        invariant out == old(out) + sent
        invariant var rest := DrawRows(chars, front, back, y, Last());
                  whole == Screen(rest.front, rest.pen, sent + rest.cmds)
      {
        ghost var d := DrawRow(chars, front[y], back[y], y, 0, Last());
        PresentRow(y);
        ghost var rest := DrawRows(chars, front, back, y + 1, Last());
        assert sent + (d.cmds + rest.cmds) == (sent + d.cmds) + rest.cmds;
        assert old(out) + (sent + d.cmds) == (old(out) + sent) + d.cmds;
        sent := sent + d.cmds;
        y := y + 1;
      }
    }
  }
}
