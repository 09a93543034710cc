/** The text console as a value, and the unbounded page it is a window on. */
module Console {
  import opened Bytes

  const COLS := 80
  const ROWS := 25
  const CELLS := COLS * ROWS
  const VIDEO_SIZE := 2 * CELLS
  const ATTRIB: Byte := 7

  /** Video memory, a character and an attribute byte for each cell, and the cursor. */
  datatype Screen = Screen(video: seq<Byte>, x: int, y: int)

  ghost function Char(v: seq<Byte>, k: int): Byte
    requires |v| == VIDEO_SIZE && 0 <= k < CELLS
  {
    v[2 * k]
  }

  /** The linear cell address of the cursor; `x` may be negative after a backspace across a row boundary. */
  function Pos(s: Screen): int {
    COLS * s.y + s.x
  }

  ghost predicate Fits(s: Screen) {
    |s.video| == VIDEO_SIZE && s.x < COLS && 0 <= s.y < ROWS
  }

  ghost predicate InRange(s: Screen) {
    Fits(s) && 0 <= s.x
  }

  /** Every row moves up by one; the last one keeps its attributes and is blanked. */
  ghost function Scrolled(v: seq<Byte>): (r: seq<Byte>)
    requires |v| == VIDEO_SIZE
    ensures |r| == VIDEO_SIZE
  {
    seq(VIDEO_SIZE, i requires 0 <= i < VIDEO_SIZE =>
      if i < VIDEO_SIZE - 2 * COLS then v[i + 2 * COLS] else if i % 2 == 0 then SPACE else v[i])
  }

  ghost predicate IsNewline(c: Byte) {
    c == NEWLINE || c == CARRIAGE_RETURN
  }

  ghost function ScrollUp(s: Screen): Screen
    requires |s.video| == VIDEO_SIZE
  {
    Screen(Scrolled(s.video), 0, ROWS - 1)
  }

  /** A cell outside video memory is not on the screen, which stays as it is. */
  ghost function SetCell(v: seq<Byte>, k: int, c: Byte): (r: seq<Byte>)
    requires |v| == VIDEO_SIZE
    ensures |r| == VIDEO_SIZE
  {
    if 0 <= k < CELLS then v[2 * k := c][2 * k + 1 := ATTRIB] else v
  }

  ghost function Putc(s: Screen, c: Byte): (r: Screen)
    requires |s.video| == VIDEO_SIZE
    ensures |r.video| == VIDEO_SIZE
  {
    if IsNewline(c) then
      if s.y == ROWS - 1 then ScrollUp(s) else Screen(s.video, 0, s.y + 1)
    else
      var s1 := s.(video := SetCell(s.video, Pos(s), c));
      if s.x != COLS - 1 then s1.(x := s.x + 1)
      else if s.y == ROWS - 1 then ScrollUp(s1)
      else s1.(x := 0, y := s.y + 1)
  }

  ghost function PutAll(s: Screen, cs: seq<Byte>): (r: Screen)
    requires |s.video| == VIDEO_SIZE
    ensures |r.video| == VIDEO_SIZE
  {
    if cs == [] then s else Putc(PutAll(s, cs[..|cs| - 1]), cs[|cs| - 1])
  }

  ghost function Erase(s: Screen): (r: Screen)
    requires |s.video| == VIDEO_SIZE
    ensures |r.video| == VIDEO_SIZE
  {
    var s1 := Putc(s.(x := s.x - 1), SPACE);
    s1.(x := s1.x - 1)
  }

  ghost function Cleared(): (r: Screen)
    ensures InRange(r)
  {
    Screen(seq(VIDEO_SIZE, i => if i % 2 == 0 then SPACE else ATTRIB), 0, 0)
  }

  // ----- one character, seen linearly -----

  /** Characters of the cells after an ordinary character at `p`. */
  ghost function CharAfter(v: seq<Byte>, p: int, c: Byte, k: int): Byte
    requires |v| == VIDEO_SIZE && 0 <= k < CELLS
  {
    if k == p then c else Char(v, k)
  }

  lemma SetCellChars(v: seq<Byte>, p: int, c: Byte)
    requires |v| == VIDEO_SIZE
    ensures forall k :: 0 <= k < CELLS ==> Char(SetCell(v, p, c), k) == CharAfter(v, p, c, k)
  {
  }

  lemma ScrolledChars(v: seq<Byte>)
    requires |v| == VIDEO_SIZE
    ensures forall k :: 0 <= k < CELLS ==> Char(Scrolled(v), k) == if k < CELLS - COLS then Char(v, k + COLS) else SPACE
  {
    forall k | 0 <= k < CELLS
      ensures Char(Scrolled(v), k) == if k < CELLS - COLS then Char(v, k + COLS) else SPACE
    {
      assert 2 * k + 2 * COLS == 2 * (k + COLS);
    }
  }

  /** A character moves the cursor on, or to the start of the last row; an ordinary one moves it by one cell. */
  lemma PutcMoves(s: Screen, c: Byte)
    requires Fits(s)
    ensures var r := Putc(s, c);
      && Fits(r) && (Pos(r) > Pos(s) || Pos(r) == CELLS - COLS)
      && (!IsNewline(c) && Pos(s) != CELLS - 1 ==> Pos(r) == Pos(s) + 1)
  {
  }

  /** An erasure moves the cursor back by one cell, and changes that cell only. */
  lemma EraseMoves(s: Screen)
    requires Fits(s)
    ensures Fits(Erase(s)) && Pos(Erase(s)) == Pos(s) - 1
    ensures Erase(s).video == SetCell(s.video, Pos(s) - 1, SPACE)
  {
  }

  /** An erasure in front of video memory moves the cursor only. */
  lemma EraseOutside(s: Screen)
    requires Fits(s)
    ensures Pos(s) <= 0 ==> Erase(s) == s.(x := s.x - 1)
  {
  }

  /** Whatever row the cursor counts as its own, an ordinary character is written at the linear address and advances
      it by one, and the screen scrolls exactly when the address was the last cell. */
  lemma PutcLinear(s: Screen, c: Byte)
    requires Fits(s) && 0 <= Pos(s) && !IsNewline(c)
    ensures var r := Putc(s, c); var p := Pos(s);
      && Fits(r)
      && (p < CELLS - 1 ==> Pos(r) == p + 1 && forall k :: 0 <= k < CELLS ==>
            Char(r.video, k) == CharAfter(s.video, p, c, k))
      && (p == CELLS - 1 ==> Pos(r) == CELLS - COLS && forall k :: 0 <= k < CELLS ==>
            Char(r.video, k) == if k < CELLS - COLS then CharAfter(s.video, p, c, k + COLS) else SPACE)
  {
    var v := SetCell(s.video, Pos(s), c);
    SetCellChars(s.video, Pos(s), c);
    ScrolledChars(v);
  }

  // ----- the unbounded page -----

  /** A page with 80 columns and rows without end; `pos` is row * 80 + column. */
  datatype Page = Page(cells: int -> int, pos: int)

  /** Typing on the page: a newline goes to the start of the next row, anything else fills a cell. */
  ghost function Type(p: Page, c: Byte): Page {
    if IsNewline(c) then p.(pos := (p.pos / COLS + 1) * COLS)
    else Page(k => if k == p.pos then c else p.cells(k), p.pos + 1)
  }

  ghost function TypeAll(p: Page, cs: seq<Byte>): Page {
    if cs == [] then p else Type(TypeAll(p, cs[..|cs| - 1]), cs[|cs| - 1])
  }

  /** The page a screen stands on: its cells, and blank rows below. */
  ghost function PageOf(s: Screen): Page
    requires InRange(s)
  {
    Page(k => if 0 <= k < CELLS then Char(s.video, k) else SPACE, Pos(s))
  }

  /** The first row of the 25 that end with the cursor's row, once the page is that long. */
  ghost function TopRow(p: Page): int {
    if p.pos < CELLS then 0 else p.pos / COLS - (ROWS - 1)
  }

  ghost predicate IsWindow(s: Screen, p: Page) {
    && InRange(s)
    && p.pos == Pos(s) + COLS * TopRow(p)
    && (forall k :: 0 <= k < CELLS ==> Char(s.video, k) == p.cells(k + COLS * TopRow(p)))
    && (forall k :: k >= CELLS + COLS * TopRow(p) ==> p.cells(k) == SPACE)
  }

  lemma PutcIsTyping(s: Screen, p: Page, c: Byte)
    requires IsWindow(s, p)
    ensures IsWindow(Putc(s, c), Type(p, c))
  {
    var r, q, t := Putc(s, c), Type(p, c), TopRow(p);
    ScrolledChars(s.video);
    if IsNewline(c) {
      assert p.pos / COLS == s.y + t;
    } else {
      PutcLinear(s, c);
      assert q.pos / COLS == if s.x == COLS - 1 then s.y + t + 1 else s.y + t;
    }
    assert TopRow(q) == if s.y == ROWS - 1 && (IsNewline(c) || s.x == COLS - 1) then t + 1 else t;
  }

  /** The screen is the window of an unbounded page that ends at the row of the cursor, for every text written to it
      from an in-range cursor; the cursor stays in range. */
  lemma {:induction false} ScreenIsPage(s: Screen, cs: seq<Byte>)
    requires InRange(s)
    ensures IsWindow(PutAll(s, cs), TypeAll(PageOf(s), cs))
  {
    if cs != [] {
      var n := |cs| - 1;
      ScreenIsPage(s, cs[..n]);
      PutcIsTyping(PutAll(s, cs[..n]), TypeAll(PageOf(s), cs[..n]), cs[n]);
    }
  }

  // ----- what a page shows -----

  lemma {:induction false} TypeAllSplit(p: Page, a: seq<Byte>, b: seq<Byte>)
    ensures TypeAll(p, a + b) == TypeAll(TypeAll(p, a), b)
  {
    if b == [] {
      assert a + b == a;
    } else {
      var n := |b| - 1;
      TypeAllSplit(p, a, b[..n]);
      assert (a + b)[..|a| + n] == a + b[..n];
    }
  }

  ghost predicate OneLine(line: seq<Byte>) {
    forall j :: 0 <= j < |line| ==> !IsNewline(line[j])
  }

  /** A line fills the cells from the position on, however many rows it takes. */
  lemma {:induction false} LineTypedOnPage(p: Page, line: seq<Byte>)
    requires OneLine(line)
    ensures var r := TypeAll(p, line);
      && r.pos == p.pos + |line|
      && (forall k :: p.pos <= k < p.pos + |line| ==> r.cells(k) == line[k - p.pos])
      && (forall k :: k < p.pos || k >= p.pos + |line| ==> r.cells(k) == p.cells(k))
  {
    if line != [] {
      LineTypedOnPage(p, line[..|line| - 1]);
    }
  }

  ghost function TextOf(lines: seq<seq<Byte>>): seq<Byte> {
    if lines == [] then [] else TextOf(lines[..|lines| - 1]) + lines[|lines| - 1] + [NEWLINE]
  }

  /** How many rows the lines take. */
  ghost function Rows(lines: seq<seq<Byte>>): nat {
    if lines == [] then 0 else Rows(lines[..|lines| - 1]) + |lines[|lines| - 1]| / COLS + 1
  }

  ghost predicate ShowsLine(r: Page, start: int, line: seq<Byte>) {
    forall j :: 0 <= j < |line| ==> r.cells(start + j) == line[j]
  }

  ghost predicate SameOutside(p: Page, r: Page) {
    forall k :: k < p.pos || k >= r.pos ==> r.cells(k) == p.cells(k)
  }

  lemma RowAddress(row: nat, length: nat)
    ensures (COLS * row + length) / COLS == row + length / COLS
  {
  }

  lemma LineEnds(p: Page, row: nat, line: seq<Byte>)
    requires p.pos == COLS * row && OneLine(line)
    ensures var r := TypeAll(p, line + [NEWLINE]);
      && r.pos == COLS * (row + |line| / COLS + 1) && SameOutside(p, r) && ShowsLine(r, p.pos, line)
  {
    var q := TypeAll(p, line);
    LineTypedOnPage(p, line);
    TypeAllSplit(p, line, [NEWLINE]);
    assert TypeAll(q, [NEWLINE]) == Type(q, NEWLINE) by {
      assert [NEWLINE][..0] == [];
    }
    hide TypeAll;
    NewlineMoves(q, row, |line|);
  }

  lemma NewlineMoves(q: Page, row: nat, length: nat)
    requires q.pos == COLS * row + length
    ensures var r := Type(q, NEWLINE); r.cells == q.cells && r.pos == COLS * (row + length / COLS + 1) >= q.pos
    ensures Type(q, CARRIAGE_RETURN) == Type(q, NEWLINE)
  {
    RowAddress(row, length);
  }

  /** Line `i` of a text that starts at a row shows at the start of a row, below the rows of the lines before it. */
  ghost predicate LineAt(r: Page, row: nat, lines: seq<seq<Byte>>, i: int)
    requires 0 <= i < |lines|
  {
    ShowsLine(r, COLS * (row + Rows(lines[..i])), lines[i])
  }

  lemma LineStays(q: Page, r: Page, row: nat, lines: seq<seq<Byte>>, i: nat)
    requires i < |lines| - 1 && q.pos == COLS * (row + Rows(lines[..|lines| - 1])) && SameOutside(q, r)
    requires LineAt(q, row, lines[..|lines| - 1], i)
    ensures LineAt(r, row, lines, i)
  {
    hide ShowsLine, SameOutside, Rows;
    var n := |lines| - 1;
    RowsBelow(lines, i);
    assert lines[..n][i] == lines[i] && lines[..n][..i] == lines[..i];
    StillShows(q, r, COLS * (row + Rows(lines[..i])), lines[i]);
  }

  /** The lines show on page `r` from a row on, and the rest of the page is as on `p`. */
  ghost predicate ShowsLines(p: Page, r: Page, row: nat, lines: seq<seq<Byte>>) {
    && r.pos == COLS * (row + Rows(lines)) && SameOutside(p, r)
    && forall i :: 0 <= i < |lines| ==> LineAt(r, row, lines, i)
  }

  lemma OneMoreLine(p: Page, q: Page, r: Page, row: nat, lines: seq<seq<Byte>>)
    requires lines != [] && p.pos == COLS * row && ShowsLines(p, q, row, lines[..|lines| - 1])
    requires r.pos == COLS * (row + Rows(lines)) && SameOutside(q, r) && ShowsLine(r, q.pos, lines[|lines| - 1])
    ensures ShowsLines(p, r, row, lines)
  {
    hide ShowsLine, SameOutside, Rows;
    var n := |lines| - 1;
    RowsSnoc(lines);
    Further(p, q, r);
    assert LineAt(r, row, lines, n);
    forall i | 0 <= i < n ensures LineAt(r, row, lines, i) {
      LineStays(q, r, row, lines, i);
    }
  }

  /** A text of lines shows on the page line by line, and the rest of the page stays as it was. */
  lemma {:induction false} PageShowsLines(p: Page, row: nat, lines: seq<seq<Byte>>)
    requires p.pos == COLS * row && forall i :: 0 <= i < |lines| ==> OneLine(lines[i])
    ensures ShowsLines(p, TypeAll(p, TextOf(lines)), row, lines)
  {
    if lines == [] {
      assert TypeAll(p, []) == p;
    } else {
      hide Rows, OneLine, Type, TypeAll, ShowsLine, SameOutside, LineAt;
      var n := |lines| - 1;
      var q := TypeAll(p, TextOf(lines[..n]));
      PageShowsLines(p, row, lines[..n]);
      LineEnds(q, row + Rows(lines[..n]), lines[n]);
      TypeAllSplit(p, TextOf(lines[..n]), lines[n] + [NEWLINE]);
      assert TextOf(lines) == TextOf(lines[..n]) + (lines[n] + [NEWLINE]);
      hide TextOf;
      RowsSnoc(lines);
      OneMoreLine(p, q, TypeAll(p, TextOf(lines)), row, lines);
    }
  }

  lemma Further(p: Page, q: Page, r: Page)
    requires p.pos <= q.pos <= r.pos && SameOutside(p, q) && SameOutside(q, r)
    ensures SameOutside(p, r)
  {
  }

  lemma StillShows(q: Page, r: Page, start: int, line: seq<Byte>)
    requires ShowsLine(q, start, line) && SameOutside(q, r) && start + |line| <= q.pos
    ensures ShowsLine(r, start, line)
  {
  }

  lemma RowsSnoc(lines: seq<seq<Byte>>)
    requires lines != []
    ensures Rows(lines) == Rows(lines[..|lines| - 1]) + |lines[|lines| - 1]| / COLS + 1
  {
  }

  /** A line ends above the rows of the lines behind it. */
  lemma {:induction false} RowsBelow(lines: seq<seq<Byte>>, i: nat)
    requires i < |lines| - 1
    ensures COLS * Rows(lines[..i]) + |lines[i]| < COLS * Rows(lines[..|lines| - 1])
  {
    var n := |lines| - 1;
    if i < n - 1 {
      RowsBelow(lines[..n], i);
      assert lines[..n][..i] == lines[..i] && lines[..n][..n - 1] == lines[..n - 1];
      RowsSnoc(lines[..n]);
    } else {
      RowsSnoc(lines[..n]);
      assert lines[..n][..n - 1] == lines[..i];
    }
  }

  // ----- attributes and the blank screen -----

  ghost function Attribute(v: seq<Byte>, k: int): Byte
    requires |v| == VIDEO_SIZE && 0 <= k < CELLS
  {
    v[2 * k + 1]
  }

  /** A character gets the standard attribute; the others move with their cells, and a row that is blanked keeps its
      own. */
  lemma PutcAttributes(s: Screen, c: Byte)
    requires Fits(s) && 0 <= Pos(s) && !IsNewline(c)
    ensures var r := Putc(s, c); var p := Pos(s);
      forall k :: 0 <= k < CELLS ==>
        var from := if p == CELLS - 1 && k < CELLS - COLS then k + COLS else k;
        Attribute(r.video, k) == if from == p then ATTRIB else Attribute(s.video, from)
  {
    var v := SetCell(s.video, Pos(s), c);
    forall k | 0 <= k < CELLS - COLS ensures Attribute(Scrolled(v), k) == Attribute(v, k + COLS) {
      assert 2 * k + 1 + 2 * COLS == 2 * (k + COLS) + 1;
    }
    forall k | CELLS - COLS <= k < CELLS ensures Attribute(Scrolled(v), k) == Attribute(v, k) {
      assert (2 * k + 1) % 2 == 1;
    }
  }

  lemma ClearedIsBlank()
    ensures Pos(Cleared()) == 0
    ensures forall k :: 0 <= k < CELLS ==> Char(Cleared().video, k) == SPACE && Attribute(Cleared().video, k) == ATTRIB
  {
    forall k | 0 <= k < CELLS ensures Char(Cleared().video, k) == SPACE && Attribute(Cleared().video, k) == ATTRIB {
      assert (2 * k) % 2 == 0 && (2 * k + 1) % 2 == 1;
    }
  }
}
