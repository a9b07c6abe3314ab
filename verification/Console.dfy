/**
 The 80 by 25 text console as a window onto an unbounded paper on which characters are
 printed and never scroll.
 */
module Console {

  import opened Bytes

  const ROWS: nat := 25
  const COLS: nat := 80

  /** A screen cell: the character in the low byte, the attribute in the high byte. */
  function Cell(c: byte, attr: byte): nat
  {
    var ch: int, at: int := c, attr;
    ch + 256 * at
  }

  function Blank(attr: byte): nat { Cell(0x20, attr) }

  function BlankLine(attr: byte): (l: seq<nat>)
    ensures |l| == COLS && forall c :: 0 <= c < COLS ==> l[c] == Blank(attr)
  {
    seq(COLS, c => Blank(attr))
  }

  // ----- the paper -----

  /** Lines of 80 cells, at least 25 of them, and the place where the next character goes. */
  datatype Paper = Paper(lines: seq<seq<nat>>, row: nat, col: nat)

  /** The pen is on the paper, within its last 25 lines. */
  ghost predicate PaperOk(p: Paper)
  {
    && |p.lines| >= ROWS && (forall i :: 0 <= i < |p.lines| ==> |p.lines[i]| == COLS)
    && |p.lines| - ROWS <= p.row < |p.lines| && p.col < COLS
  }

  function Fresh(attr: byte): (p: Paper)
    ensures PaperOk(p)
  {
    Paper(seq(ROWS, i => BlankLine(attr)), 0, 0)
  }

  /** Move the pen; a line below the last one is added blank. */
  function MoveTo(p: Paper, row: nat, col: nat, attr: byte): Paper
  {
    if row >= |p.lines| then Paper(p.lines + [BlankLine(attr)], row, col) else Paper(p.lines, row, col)
  }

  function Write(p: Paper, col: nat, cell: nat): Paper
    requires p.row < |p.lines| && col < |p.lines[p.row]|
  {
    var line: seq<nat> := p.lines[p.row][col := cell];
    p.(lines := p.lines[p.row := line])
  }

  /** Column after a step, and whether it runs over the right edge. */
  function Advance(p: Paper, col: nat, attr: byte): Paper
  {
    if col >= COLS then MoveTo(p, p.row + 1, 0, attr) else MoveTo(p, p.row, col, attr)
  }

  /** Print one character: newline, return, backspace, tab or a glyph. */
  function Print(p: Paper, c: byte, attr: byte): (r: Paper)
    requires PaperOk(p)
    ensures PaperOk(r) && |r.lines| >= |p.lines|
    ensures forall i :: 0 <= i < p.row ==> r.lines[i] == p.lines[i]
  {
    if c == 10 then MoveTo(p, p.row + 1, 0, attr)
    else if c == 13 then MoveTo(p, p.row, 0, attr)
    else if c == 8 then
      if p.col > 0 then Write(p, p.col - 1, Blank(attr)).(col := p.col - 1) else p
    else if c == 9 then Advance(p, (p.col + 8) / 8 * 8, attr)
    else Advance(Write(p, p.col, Cell(c, attr)), p.col + 1, attr)
  }

  datatype Op = Put(c: byte) | Colour(attr: byte)

  /** The paper after a sequence of characters and colour changes, and the colour then. */
  function PrintAll(p: Paper, attr: byte, ops: seq<Op>): (r: (Paper, byte))
    requires PaperOk(p)
    ensures PaperOk(r.0)
  {
    if ops == [] then (p, attr)
    else
      var (q, a) := PrintAll(p, attr, ops[..|ops| - 1]);
      match ops[|ops| - 1]
      case Put(c) => (Print(q, c, a), a)
      case Colour(b) => (q, b)
  }

  /** Lines above the pen are final: no later printing changes them. */
  lemma {:induction false} LinesAreFinal(p: Paper, attr: byte, ops: seq<Op>, i: nat)
    requires PaperOk(p) && i < p.row
    ensures var q := PrintAll(p, attr, ops).0;
            q.row >= p.row && |q.lines| >= |p.lines| && q.lines[i] == p.lines[i]
  {
    if ops != [] { LinesAreFinal(p, attr, ops[..|ops| - 1], i); }
  }

  // ----- where characters stand -----

  predicate Plain(c: byte) { c != 8 && c != 9 && c != 10 && c != 13 }

  function Puts(s: seq<byte>): (ops: seq<Op>)
    ensures |ops| == |s| && forall i :: 0 <= i < |s| ==> ops[i] == Put(s[i])
  {
    seq(|s|, i requires 0 <= i < |s| => Put(s[i]))
  }

  /** The cell for character k of a text in one colour, or a blank behind its end. */
  function TextCell(s: seq<byte>, attr: byte, k: nat): nat
  {
    var ch: int, at: int := if k < |s| then s[k] else 0x20, attr;
    ch + 256 * at
  }

  /** The paper holds the text and nothing else. */
  ghost predicate Holds(p: Paper, s: seq<byte>, attr: byte)
  {
    forall i: nat, j: nat :: i < |p.lines| && j < 80 ==> |p.lines[i]| == 80 && p.lines[i][j] == TextCell(s, attr, 80 * i + j)
  }

  /**
   A text of plain characters, printed on a cleared screen, stands from the top left corner on, 80
   characters to a line, character and colour in their bytes of each cell, with blanks behind it,
   and the pen is right behind it.
   */
  lemma {:induction false} TextStands(s: seq<byte>, attr: byte)
    requires forall i :: 0 <= i < |s| ==> Plain(s[i])
    ensures var (p, a) := PrintAll(Fresh(attr), attr, Puts(s));
            && a == attr && Holds(p, s, attr) && 80 * p.row + p.col == |s| && p.col < 80
            && |p.lines| == (if p.row < 25 then 25 else p.row + 1)
    decreases |s|
  {
    hide Print;
    if s != [] {
      var front, c := s[..|s| - 1], s[|s| - 1];
      TextStands(front, attr);
      assert Puts(s)[..|s| - 1] == Puts(front);
      PlainStep(PrintAll(Fresh(attr), attr, Puts(front)).0, front, c, attr);
      assert front + [c] == s;
    }
  }

  lemma PlainStep(p: Paper, s: seq<byte>, c: byte, attr: byte)
    requires PaperOk(p) && Plain(c) && Holds(p, s, attr) && 80 * p.row + p.col == |s|
    requires |p.lines| == (if p.row < 25 then 25 else p.row + 1)
    ensures var r := Print(p, c, attr);
            && Holds(r, s + [c], attr) && 80 * r.row + r.col == |s| + 1 && r.col < 80
            && |r.lines| == (if r.row < 25 then 25 else r.row + 1)
  {
    var w, r := Write(p, p.col, Cell(c, attr)), Print(p, c, attr);
    WriteHolds(p, s, c, attr);
    assert r == Advance(w, p.col + 1, attr);
    forall i: nat, j: nat | i < |r.lines| && j < 80
      ensures |r.lines[i]| == 80 && r.lines[i][j] == TextCell(s + [c], attr, 80 * i + j)
    {
      if i < |w.lines| { assert r.lines[i] == w.lines[i]; }
    }
  }

  lemma WriteHolds(p: Paper, s: seq<byte>, c: byte, attr: byte)
    requires PaperOk(p) && Holds(p, s, attr) && 80 * p.row + p.col == |s|
    ensures Holds(Write(p, p.col, Cell(c, attr)), s + [c], attr)
  {
    var w := Write(p, p.col, Cell(c, attr));
    forall i: nat, j: nat | i < |w.lines| && j < 80
      ensures |w.lines[i]| == 80 && w.lines[i][j] == TextCell(s + [c], attr, 80 * i + j)
    {
      assert |p.lines[i]| == 80 && p.lines[i][j] == TextCell(s, attr, 80 * i + j);
    }
  }

  /** Newline and return move the pen, a tab moves it to the next multiple of 8, a backspace blanks the cell before it. */
  lemma ControlsMove(p: Paper, attr: byte)
    requires PaperOk(p)
    ensures Print(p, 10, attr).row == p.row + 1 && Print(p, 10, attr).col == 0
    ensures Print(p, 13, attr) == p.(col := 0)
    ensures var r := Print(p, 9, attr);
            if p.col < 72 then r.row == p.row && p.col < r.col <= p.col + 8 && r.col % 8 == 0 && r.lines == p.lines
            else r.row == p.row + 1 && r.col == 0
    ensures p.col == 0 ==> Print(p, 8, attr) == p
    ensures p.col > 0 ==>
              var r, at: int := Print(p, 8, attr), attr;
              && r.row == p.row && r.col == p.col - 1 && |r.lines| == |p.lines|
              && r.lines[p.row] == p.lines[p.row][p.col - 1 := 0x20 + 256 * at]
              && forall i :: 0 <= i < |p.lines| && i != p.row ==> r.lines[i] == p.lines[i]
  {
  }

  // ----- the screen -----

  class Screen {
    const cells: array<nat>
    var row: nat
    var col: nat
    var attr: byte

    ghost predicate Valid()
      reads this
    {
      cells.Length == ROWS * COLS && row < ROWS && col < COLS
    }

    /** Line r of the screen. */
    ghost function Line(r: nat): (l: seq<nat>)
      requires cells.Length == ROWS * COLS && r < ROWS
      reads cells
      ensures |l| == COLS
    {
      cells[r * COLS..r * COLS + COLS]
    }

    /** All lines of the screen. */
    ghost function Lines(): (ls: seq<seq<nat>>)
      requires cells.Length == ROWS * COLS
      reads cells
      ensures |ls| == ROWS && forall r :: 0 <= r < ROWS ==> ls[r] == Line(r)
    {
      seq(ROWS, r requires 0 <= r < ROWS && cells.Length == ROWS * COLS reads cells => Line(r))
    }

    /** The screen is the last 25 lines of the paper, with the cursor at the pen. */
    ghost predicate Shows(p: Paper)
      reads this, cells
    {
      && Valid() && PaperOk(p)
      && Lines() == p.lines[|p.lines| - ROWS..]
      && row == p.row - (|p.lines| - ROWS) && col == p.col
    }

    constructor (cells: array<nat>, attr: byte)
      requires cells.Length == ROWS * COLS
      ensures this.cells == cells && this.attr == attr && Valid()
    {
      this.cells, this.attr := cells, attr;
      row, col := 0, 0;
    }

    /** vga_clear. */
    method Clear()
      requires cells.Length == ROWS * COLS
      modifies cells, this`row, this`col
      ensures Shows(Fresh(attr))
    {
      for i := 0 to COLS * ROWS
        invariant forall j :: 0 <= j < i ==> cells[j] == Blank(attr)
      {
        cells[i] := Blank(attr);
      }
      row, col := 0, 0;
      forall r | 0 <= r < ROWS ensures Lines()[r] == Fresh(attr).lines[r] {
        assert forall c :: 0 <= c < COLS ==> Line(r)[c] == cells[r * COLS + c];
      }
    }

    /** The inner loop of scroll: the line below the one at offset to moves up. */
    method ShiftLine(to: nat)
      requires to + 2 * COLS <= cells.Length
      modifies cells
      ensures forall j :: to <= j < to + COLS ==> cells[j] == old(cells[j + COLS])
      ensures forall j :: 0 <= j < cells.Length && !(to <= j < to + COLS) ==> cells[j] == old(cells[j])
    {
      for c := 0 to COLS
        invariant forall j :: to <= j < to + c ==> cells[j] == old(cells[j + COLS])
        invariant forall j :: 0 <= j < cells.Length && !(to <= j < to + c) ==> cells[j] == old(cells[j])
      {
        cells[to + c] := cells[to + COLS + c];
      }
    }

    /** The outer loop of scroll. */
    method ShiftCells()
      requires cells.Length == ROWS * COLS
      modifies cells
      ensures forall j :: 0 <= j < (ROWS - 1) * COLS ==> cells[j] == old(cells[j + COLS])
    {
      for r := 1 to ROWS
        invariant forall j :: 0 <= j < (r - 1) * COLS ==> cells[j] == old(cells[j + COLS])
        invariant forall j :: (r - 1) * COLS <= j < ROWS * COLS ==> cells[j] == old(cells[j])
      {
        ShiftLine((r - 1) * COLS);
      }
    }

    /** scroll: every line moves up by one and the last becomes blank. */
    method Scroll()
      requires cells.Length == ROWS * COLS
      modifies cells
      ensures Lines() == old(Lines())[1..] + [BlankLine(attr)]
    {
      hide Blank;
      var blank := Blank(attr);
      ShiftCells();
      for c := 0 to COLS
        invariant forall j :: 0 <= j < (ROWS - 1) * COLS ==> cells[j] == old(cells[j + COLS])
        invariant forall j :: (ROWS - 1) * COLS <= j < (ROWS - 1) * COLS + c ==> cells[j] == blank
      {
        cells[(ROWS - 1) * COLS + c] := blank;
      }
      forall r: nat | r < ROWS - 1 ensures Line(r) == old(Line(r + 1)) {
        assert forall c :: 0 <= c < COLS ==> Line(r)[c] == cells[r * COLS + c];
      }
      assert Line(ROWS - 1) == BlankLine(attr);
    }

    /** The write of one cell of the cursor's line. */
    method SetCell(c: nat, cell: nat)
      requires Valid() && c < COLS
      modifies cells
      ensures Lines() == old(Lines())[row := old(Line(row))[c := cell]]
    {
      cells[row * COLS + c] := cell;
    }

    /** The end of vga_putc: the cursor goes to a line and column, and a line below the screen scrolls. */
    method Settle(newRow: nat, newCol: nat, ghost p: Paper)
      requires Shows(p) && row <= newRow <= row + 1 && newCol < COLS
      modifies this`row, this`col, cells
      ensures Shows(MoveTo(p, p.row + (newRow - old(row)), newCol, attr))
    {
      hide Lines, Line;
      ghost var q := MoveTo(p, p.row + (newRow - row), newCol, attr);
      row, col := newRow, newCol;
      if row >= ROWS {
        Scroll();
        row := ROWS - 1;
        assert q.lines[|q.lines| - ROWS..] == p.lines[|p.lines| - ROWS..][1..] + [BlankLine(attr)];
      }
    }

    /** A cell written on the screen is the cell written on the paper. */
    lemma WriteShown(p: Paper, ls: seq<seq<nat>>, c: nat, cell: nat)
      requires PaperOk(p) && c < COLS && ls == p.lines[|p.lines| - ROWS..]
      ensures var r := p.row - (|p.lines| - ROWS);
              var line: seq<nat> := ls[r][c := cell];
              var q := Write(p, c, cell);
              PaperOk(q) && |q.lines| == |p.lines| && q.lines[|q.lines| - ROWS..] == ls[r := line]
    {
      hide Lines, Line;
    }

    /** vga_putc: the screen shows the paper with the character printed. */
    method Putc(c: byte, ghost p: Paper)
      requires Shows(p)
      modifies this`row, this`col, cells
      ensures Shows(Print(p, c, attr))
    {
      hide Cell, Blank, Lines, Line, MoveTo, Write;
      if c == 10 {
        Settle(row + 1, 0, p);
      } else if c == 13 {
        Settle(row, 0, p);
      } else if c == 8 {
        Backspace(p);
      } else if c == 9 {
        var to := (col + 8) / 8 * 8;
        if to >= COLS { Settle(row + 1, 0, p); } else { Settle(row, to, p); }
      } else {
        Glyph(c, p);
        ghost var q := Write(p, p.col, Cell(c, attr));
        if col + 1 >= COLS { Settle(row + 1, 0, q); } else { Settle(row, col + 1, q); }
      }
    }

    method Backspace(ghost p: Paper)
      requires Shows(p)
      modifies this`col, cells
      ensures Shows(Print(p, 8, attr))
    {
      hide Cell, Blank;
      if col > 0 {
        WriteShown(p, Lines(), col - 1, Blank(attr));
        assert Lines()[row] == Line(row);
        SetCell(col - 1, Blank(attr));
        col := col - 1;
      }
    }

    method Glyph(c: byte, ghost p: Paper)
      requires Shows(p)
      modifies cells
      ensures Shows(Write(p, p.col, Cell(c, attr)))
    {
      hide Cell, Blank;
      WriteShown(p, Lines(), col, Cell(c, attr));
      assert Lines()[row] == Line(row);
      SetCell(col, Cell(c, attr));
    }

    /** vga_clear, then any characters and colour changes. */
    method ClearAndPrint(ops: seq<Op>)
      requires cells.Length == ROWS * COLS
      modifies this, cells
      ensures var (p, a) := PrintAll(Fresh(old(attr)), old(attr), ops); Shows(p) && attr == a
    {
      hide Print, Shows;
      Clear();
      ghost var p, a := Fresh(attr), attr;
      for i := 0 to |ops|
        invariant PrintAll(Fresh(old(attr)), old(attr), ops[..i]) == (p, attr)
        invariant PaperOk(p) && Shows(p)
      {
        assert ops[..i + 1][..i] == ops[..i];
        match ops[i] {
          case Put(c) =>
            Putc(c, p);
            p := Print(p, c, attr);
          case Colour(b) =>
            SetColour(b, p);
        }
      }
      assert ops[..|ops|] == ops;
    }

    /** vga_set_color: the screen itself does not change. */
    method SetColour(b: byte, ghost p: Paper)
      requires Shows(p)
      modifies this`attr
      ensures attr == b && Shows(p)
    {
      attr := b;
    }
  }
}
