/** What the log of a run holds; `Terminal.Valid` shows as much of it as fits the window. */
module ScreenTheorems {
  import opened KernelTypes
  import opened Screen

  datatype Op = Print(c: Char) | Color(value: u8) | Clear

  datatype Session = Session(log: Log, color: u8) {
    function Step(op: Op): Session {
      match op
      case Print(c) => Session(log.Printed(c, color), color)
      case Color(value) => Session(log, value)
      case Clear => Session(Log(map[], 0, 0), color)
    }

    function Run(ops: seq<Op>): Session
      decreases |ops|
    {
      if ops == [] then this else Step(ops[0]).Run(ops[1..])
    }
  }

  /** Neither a line feed nor a carriage return. */
  predicate Visible(c: Char) {
    c as int != 10 && c as int != 13
  }

  /** Operation i of a run from `start` puts a glyph into `cell`. */
  predicate Draws(start: Session, ops: seq<Op>, i: nat, cell: Cell)
    requires i < |ops|
  {
    ops[i].Print? && Visible(ops[i].c) && start.Run(ops[..i]).log.Cursor() == cell
  }

  lemma {:induction false} RunPrefix(start: Session, ops: seq<Op>, i: nat)
    requires 0 < i <= |ops|
    ensures start.Run(ops[..i]) == start.Step(ops[0]).Run(ops[1..][..i - 1])
  {
    assert ops[..i][1..] == ops[1..][..i - 1];
  }

  lemma DrawsLater(start: Session, ops: seq<Op>, i: nat, cell: Cell)
    requires 0 < i < |ops|
    ensures Draws(start, ops, i, cell) <==> Draws(start.Step(ops[0]), ops[1..], i - 1, cell)
  {
    RunPrefix(start, ops, i);
  }

  /**
   After any run, a cell holds what the last operation that drew there drew, in the
   colour of that moment, provided the log was not cleared since.
   */
  lemma {:induction false} LastGlyphWins(start: Session, ops: seq<Op>, cell: Cell, last: nat)
    requires last < |ops| && Draws(start, ops, last, cell)
    requires forall i :: last < i < |ops| ==> ops[i] != Clear && !Draws(start, ops, i, cell)
    ensures cell in start.Run(ops).log.cells
    ensures start.Run(ops).log.cells[cell] == Glyph(ops[last].c as int, start.Run(ops[..last]).color)
    decreases |ops|
  {
    var next := start.Step(ops[0]);
    if last > 0 {
      DrawsLater(start, ops, last, cell);
      forall i | last - 1 < i < |ops[1..]|
        ensures ops[1..][i] != Clear && !Draws(next, ops[1..], i, cell)
      {
        DrawsLater(start, ops, i + 1, cell);
      }
      LastGlyphWins(next, ops[1..], cell, last - 1);
      RunPrefix(start, ops, last);
    } else {
      assert start.Run(ops[..0]) == start;
      forall i | 0 <= i < |ops[1..]|
        ensures ops[1..][i] != Clear && !Draws(next, ops[1..], i, cell)
      {
        DrawsLater(start, ops, i + 1, cell);
      }
      Undisturbed(next, ops[1..], cell);
    }
  }

  /** A glyph stays until something else is drawn over it or the log is cleared. */
  lemma {:induction false} Undisturbed(start: Session, ops: seq<Op>, cell: Cell)
    requires cell in start.log.cells
    requires forall i :: 0 <= i < |ops| ==> ops[i] != Clear && !Draws(start, ops, i, cell)
    ensures cell in start.Run(ops).log.cells
    ensures start.Run(ops).log.cells[cell] == start.log.cells[cell]
    decreases |ops|
  {
    if ops != [] {
      assert start.Run(ops[..0]) == start;
      assert !Draws(start, ops, 0, cell);
      forall i | 0 <= i < |ops[1..]|
        ensures ops[1..][i] != Clear && !Draws(start.Step(ops[0]), ops[1..], i, cell)
      {
        DrawsLater(start, ops, i + 1, cell);
      }
      Undisturbed(start.Step(ops[0]), ops[1..], cell);
    }
  }

  /** A run on the terminal itself: log and colour are those of the pure run. */
  method RunOps(terminal: Terminal, ops: seq<Op>)
    requires terminal.Valid()
    modifies terminal, terminal.video
    ensures terminal.Valid()
    ensures Session(terminal.log, terminal.color) == Session(old(terminal.log), old(terminal.color)).Run(ops)
    ensures Clear !in ops ==> terminal.base == old(terminal.base)
  {
    hide Terminal.Valid;
    ghost var start := Session(terminal.log, terminal.color);
    var i := 0;
    assert ops[0..] == ops;
    while i < |ops|
      invariant 0 <= i <= |ops| && terminal.Valid()
      invariant start.Run(ops) == Session(terminal.log, terminal.color).Run(ops[i..])
      invariant Clear !in ops ==> terminal.base == old(terminal.base)
    {
      assert ops[i..][1..] == ops[i + 1..];
      match ops[i] {
        case Print(c) => terminal.ScPrintChar(c);
        case Color(value) => terminal.SetColor(value);
        case Clear => terminal.ScClear();
      }
      i := i + 1;
    }
  }

  /** On the screen: that glyph stands where the cell's row is now, as long as the row has not scrolled away. */
  lemma WindowHolds(terminal: Terminal, start: Session, ops: seq<Op>, cell: Cell, last: nat)
    requires terminal.Valid() && terminal.log == start.Run(ops).log
    requires last < |ops| && Draws(start, ops, last, cell)
    requires forall i :: last < i < |ops| ==> ops[i] != Clear && !Draws(start, ops, i, cell)
    requires cell.row + 25 >= terminal.log.row
    ensures var line := cell.row - (if terminal.log.row > 25 then terminal.log.row - 25 else 0);
            && 0 <= line <= 25 && cell.col < 80
            && terminal.video[(cell.col + line * 80) * 2] == ops[last].c as int
            && terminal.video[(cell.col + line * 80) * 2 + 1] == start.Run(ops[..last]).color
  {
    LastGlyphWins(start, ops, cell, last);
    var top, cells := Scrolled(terminal.log.row), terminal.log.cells;
    var line := cell.row - top;
    SeenPrinted(cells, terminal.base, cell);
    assert ShownAt(terminal.video[..], Offset(line, cell.col), Seen(cells, terminal.base, top + line, cell.col));
  }

  // ---------------------------------------------------------------- what was never printed

  /** Line `line` of the window shows, in column `col`, this glyph. */
  ghost predicate Displays(terminal: Terminal, line: nat, col: nat, glyph: Glyph)
    requires terminal.video.Length == 0x8000 && line <= 25 && col < 80
    reads terminal.video
  {
    ShownAt(terminal.video[..], Offset(line, col), glyph)
  }

  /** The character that is left over in a cell of a row that has come into the window: nothing clears it. */
  function Leftover(cells: map<Cell, Glyph>, base: seq<u8>, row: nat, col: nat): u8
    requires |base| == 0x8000 && col < 80
    decreases row
  {
    if row <= 25 then base[Offset(row, col)]
    else if col == 0 then base[Offset(26, 0)]
    else if Cell(row - 1, col) in cells then cells[Cell(row - 1, col)].character
    else Leftover(cells, base, row - 1, col)
  }

  lemma {:induction false} LeftoverIsSeen(cells: map<Cell, Glyph>, base: seq<u8>, row: nat, col: nat)
    requires |base| == 0x8000 && col < 80 && Cell(row, col) !in cells
    ensures Seen(cells, base, row, col).character == Leftover(cells, base, row, col)
    decreases row
  {
    if row > 25 && Cell(row - 1, col) !in cells {
      LeftoverIsSeen(cells, base, row - 1, col);
    }
  }

  /** The character that a blank page would show in a cell. */
  function CharOrBlank(cells: map<Cell, Glyph>, row: nat, col: nat): u8 {
    if Cell(row, col) in cells then cells[Cell(row, col)].character else 0x20
  }

  predicate PrintedOrBlank(cells: map<Cell, Glyph>, base: seq<u8>, row: nat, col: nat)
    requires |base| == 0x8000 && col < 80
  {
    Cell(row, col) in cells || Leftover(cells, base, row, col) == 0x20
  }

  /** The characters in the window are those of the log, and blanks everywhere else. */
  ghost predicate WindowIsLog(terminal: Terminal)
    requires terminal.video.Length == 0x8000
    reads terminal, terminal.video
  {
    forall line, col :: 0 <= line <= 25 && 0 <= col < 80 ==>
      terminal.video[Offset(line, col)] == CharOrBlank(terminal.log.cells, Scrolled(terminal.log.row) + line, col)
  }

  /** The window is the log on a blank page exactly if what is left over in the cells never printed is blank. */
  lemma WindowIsLogIff(terminal: Terminal)
    requires terminal.Valid()
    ensures var cells, top := terminal.log.cells, Scrolled(terminal.log.row);
            WindowIsLog(terminal)
            <==> forall row, col :: top <= row <= top + 25 && 0 <= col < 80 ==>
                   PrintedOrBlank(cells, terminal.base, row, col)
  {
    var cells, base, top := terminal.log.cells, terminal.base, Scrolled(terminal.log.row);
    hide Leftover, Seen;
    forall line, col | 0 <= line <= 25 && 0 <= col < 80
      ensures terminal.video[Offset(line, col)]
           == if Cell(top + line, col) in cells then cells[Cell(top + line, col)].character
              else Leftover(cells, base, top + line, col)
    {
      assert ShownAt(terminal.video[..], Offset(line, col), Seen(cells, base, top + line, col));
      if Cell(top + line, col) in cells {
        SeenPrinted(cells, base, Cell(top + line, col));
      } else {
        LeftoverIsSeen(cells, base, top + line, col);
      }
    }
    if WindowIsLog(terminal) {
      forall row, col | top <= row <= top + 25 && 0 <= col < 80
        ensures PrintedOrBlank(cells, base, row, col)
      {
        assert terminal.video[Offset(row - top, col)] == CharOrBlank(cells, top + (row - top), col);
      }
    } else {
      var line, col :| 0 <= line <= 25 && 0 <= col < 80
                       && terminal.video[Offset(line, col)] != CharOrBlank(cells, top + line, col);
      assert !PrintedOrBlank(cells, base, top + line, col);
    }
  }

  /**
   Once the terminal has scrolled, the last line shows the line above it a second time,
   in every column but the first where nothing has been printed yet.
   */
  lemma LastLineEchoes(terminal: Terminal, col: nat, glyph: Glyph)
    requires terminal.Valid() && terminal.log.row > 25
    requires 0 < col < 80 && Cell(terminal.log.row, col) !in terminal.log.cells
    ensures Displays(terminal, 24, col, glyph) <==> Displays(terminal, 25, col, glyph)
    ensures Displays(terminal, 25, col, glyph) && glyph.character != 0x20 ==> !WindowIsLog(terminal)
  {
    hide Seen;
    var cells, base, row := terminal.log.cells, terminal.base, terminal.log.row;
    var top := Scrolled(row);
    SeenBelow(cells, base, row, col);
    assert ShownAt(terminal.video[..], Offset(24, col), Seen(cells, base, top + 24, col));
    assert ShownAt(terminal.video[..], Offset(25, col), Seen(cells, base, top + 25, col));
  }

  lemma {:induction false} RunConcat(start: Session, a: seq<Op>, b: seq<Op>)
    ensures start.Run(a + b) == start.Run(a).Run(b)
    decreases |a|
  {
    if a == [] {
      assert a + b == b;
    } else {
      assert (a + b)[0] == a[0] && (a + b)[1..] == a[1..] + b;
      RunConcat(start.Step(a[0]), a[1..], b);
    }
  }

  function LineFeeds(n: nat): (ops: seq<Op>)
    ensures |ops| == n
  {
    if n == 0 then [] else [Print(LF)] + LineFeeds(n - 1)
  }

  lemma {:induction false} RunLineFeeds(start: Session, n: nat)
    ensures start.Run(LineFeeds(n + 1)) == start.(log := Log(start.log.cells, start.log.row + n + 1, 0))
    decreases n
  {
    assert LineFeeds(n + 1)[1..] == LineFeeds(n);
    if n == 0 {
      assert start.Step(Print(LF)).Run([]) == start.Step(Print(LF));
    } else {
      RunLineFeeds(start.Step(Print(LF)), n - 1);
    }
  }

  /** From the first line to the last, two letters and one more line feed. */
  function EchoingRun(): seq<Op> {
    LineFeeds(24) + [Print('A'), Print('A'), Print(LF)]
  }

  /** A run from the kernel's start behind which the second letter stands in the window twice. */
  lemma WindowIsNotLog(terminal: Terminal, color: u8)
    requires terminal.Valid() && terminal.log == Session(Log(map[], 1, 1), color).Run(EchoingRun()).log
    ensures terminal.log.row == 26 && terminal.log.cells.Keys == {Cell(25, 0), Cell(25, 1)}
    ensures Displays(terminal, 24, 1, Glyph(0x41, color)) && Displays(terminal, 25, 1, Glyph(0x41, color))
    ensures !WindowIsLog(terminal)
  {
    var glyph := Glyph(0x41, color);
    EchoingLog(color);
    hide EchoingRun, Seen, WindowIsLog;
    SeenPrinted(terminal.log.cells, terminal.base, Cell(25, 1));
    assert ShownAt(terminal.video[..], Offset(24, 1), Seen(terminal.log.cells, terminal.base, 1 + 24, 1));
    LastLineEchoes(terminal, 1, glyph);
  }

  lemma EchoingLog(color: u8)
    ensures var glyph := Glyph(0x41, color);
            Session(Log(map[], 1, 1), color).Run(EchoingRun())
            == Session(Log(map[Cell(25, 0) := glyph, Cell(25, 1) := glyph], 26, 0), color)
  {
    var start, last := Session(Log(map[], 1, 1), color), Session(Log(map[], 25, 0), color);
    RunConcat(start, LineFeeds(24), [Print('A'), Print('A'), Print(LF)]);
    RunLineFeeds(start, 23);
    ThreeSteps(last, Print('A'), Print('A'), Print(LF));
  }

  lemma ThreeSteps(start: Session, a: Op, b: Op, c: Op)
    ensures start.Run([a, b, c]) == start.Step(a).Step(b).Step(c)
  {
    assert [a, b, c][1..] == [b, c] && [b, c][1..] == [c] && [c][1..] == [];
    assert start.Step(a).Step(b).Run([c]) == start.Step(a).Step(b).Step(c).Run([]);
    assert start.Step(a).Run([b, c]) == start.Step(a).Step(b).Run([c]);
  }

  // ---------------------------------------------------------------- text

  /** The log after printing a text in one colour. */
  function PrintAll(log: Log, text: seq<Char>, color: u8): Log
    decreases |text|
  {
    if text == [] then log else PrintAll(log.Printed(text[0], color), text[1..], color)
  }

  lemma {:induction false} PrintAllConcat(log: Log, a: seq<Char>, b: seq<Char>, color: u8)
    ensures PrintAll(log, a + b, color) == PrintAll(PrintAll(log, a, color), b, color)
    decreases |a|
  {
    if a == [] {
      assert a + b == b;
    } else {
      assert (a + b)[1..] == a[1..] + b;
      PrintAllConcat(log.Printed(a[0], color), a[1..], b, color);
    }
  }

  function Position(cell: Cell): nat {
    cell.row * 80 + cell.col
  }

  function CellAt(position: nat): (cell: Cell)
    ensures Position(cell) == position && cell.col < 80
  {
    Cell(position / 80, position % 80)
  }

  lemma PositionInjective(a: Cell, b: Cell)
    requires a.col < 80 && b.col < 80 && Position(a) == Position(b)
    ensures a == b
  {
  }

  lemma VisibleStep(log: Log, c: Char, color: u8)
    requires log.col < 80 && Visible(c)
    ensures var next := log.Printed(c, color);
            && next.col < 80 && Position(next.Cursor()) == Position(log.Cursor()) + 1
            && next.cells == log.cells[log.Cursor() := Glyph(Code(c), color)]
  {
  }

  /**
   A text without line feeds or carriage returns moves the cursor on by one cell a
   character, wrapping at column 80, and touches nothing before where it began.
   */
  lemma {:induction false} TextAdvances(log: Log, text: seq<Char>, color: u8)
    requires log.col < 80 && forall c <- text :: c as int != 10 && c as int != 13
    ensures var after := PrintAll(log, text, color);
            && after.col < 80 && Position(after.Cursor()) == Position(log.Cursor()) + |text|
            && (forall cell <- log.cells | cell.col < 80 && Position(cell) < Position(log.Cursor()) ::
                  cell in after.cells && after.cells[cell] == log.cells[cell])
    decreases |text|
  {
    if text != [] {
      assert text[0] in text && forall c <- text[1..] :: c in text;
      VisibleStep(log, text[0], color);
      TextAdvances(log.Printed(text[0], color), text[1..], color);
    }
  }

  /** Character i of such a text is i cells behind where it began, in reading order. */
  lemma {:induction false} TextFillsCells(log: Log, text: seq<Char>, color: u8, i: nat)
    requires log.col < 80 && i < |text| && forall c <- text :: c as int != 10 && c as int != 13
    ensures var cell := CellAt(Position(log.Cursor()) + i);
            var after := PrintAll(log, text, color);
            cell in after.cells && after.cells[cell] == Glyph(text[i] as int, color)
    decreases i
  {
    hide CellAt;
    assert text[0] in text && forall c <- text[1..] :: c in text;
    VisibleStep(log, text[0], color);
    var next := log.Printed(text[0], color);
    if i > 0 {
      TextFillsCells(next, text[1..], color, i - 1);
    } else {
      PositionInjective(CellAt(Position(log.Cursor())), log.Cursor());
      TextAdvances(next, text[1..], color);
    }
  }

  /** A line feed goes to the start of the next row, a carriage return to the start of the same; neither draws. */
  lemma ControlCharacters(log: Log, color: u8)
    ensures log.Printed('\n', color) == Log(log.cells, log.row + 1, 0)
    ensures log.Printed('\r', color) == Log(log.cells, log.row, 0)
    ensures '\n' as int == 10 && '\r' as int == 13
  {
  }

  lemma AfterReturn(log: Log, a: seq<Char>, b: seq<Char>, color: u8)
    ensures var mid := PrintAll(log, a, color);
            PrintAll(log, a + "\r" + b, color) == PrintAll(Log(mid.cells, mid.row, 0), b, color)
  {
    var mid, r: seq<Char> := PrintAll(log, a, color), "\r";
    PrintAllConcat(log, a + r, b, color);
    PrintAllConcat(log, a, r, color);
    assert r[1..] == [];
    assert PrintAll(mid, r, color) == PrintAll(mid.Printed('\r', color), [], color) == Log(mid.cells, mid.row, 0);
  }

  /**
   Behind a carriage return a text is drawn over the row that the text before it ended
   on: its character number 80 * line + at lands `line` rows further down, in column `at`.
   */
  lemma ReturnOverdraws(log: Log, a: seq<Char>, b: seq<Char>, color: u8, row: nat, col: nat, line: nat, at: nat)
    requires log.col < 80 && col < 80 && at < 80 && log.row * 80 + log.col + |a| == row * 80 + col
    requires 80 * line + at < |b|
    requires (forall c <- a :: c as int != 10 && c as int != 13) && forall c <- b :: c as int != 10 && c as int != 13
    ensures var after := PrintAll(log, a + "\r" + b, color);
            && Cell(row + line, at) in after.cells
            && after.cells[Cell(row + line, at)] == Glyph(b[80 * line + at] as int, color)
            && after.row * 80 + after.col == row * 80 + |b|
  {
    hide PrintAll;
    EndOfText(log, a, color, row, col);
    AfterReturn(log, a, b, color);
    var home := Log(PrintAll(log, a, color).cells, row, 0);
    TextFromHome(home, b, color, line, at);
    TextEndsAt(home, b, color);
  }

  lemma TextEndsAt(log: Log, text: seq<Char>, color: u8)
    requires log.col < 80 && forall c <- text :: c as int != 10 && c as int != 13
    ensures var after := PrintAll(log, text, color);
            after.col < 80 && after.row * 80 + after.col == log.row * 80 + log.col + |text|
  {
    hide PrintAll;
    TextAdvances(log, text, color);
  }

  lemma EndOfText(log: Log, a: seq<Char>, color: u8, row: nat, col: nat)
    requires log.col < 80 && col < 80 && log.row * 80 + log.col + |a| == row * 80 + col
    requires forall c <- a :: c as int != 10 && c as int != 13
    ensures PrintAll(log, a, color).row == row && PrintAll(log, a, color).col == col
  {
    hide PrintAll;
    TextEndsAt(log, a, color);
  }

  /** A text from the start of a row on. */
  lemma TextFromHome(log: Log, b: seq<Char>, color: u8, line: nat, at: nat)
    requires log.col == 0 && at < 80 && 80 * line + at < |b|
    requires forall c <- b :: c as int != 10 && c as int != 13
    ensures var after := PrintAll(log, b, color);
            && Cell(log.row + line, at) in after.cells
            && after.cells[Cell(log.row + line, at)] == Glyph(b[80 * line + at] as int, color)
  {
    hide PrintAll, CellAt, Position;
    var i := 80 * line + at;
    assert log.Cursor() == Cell(log.row, 0);
    SameCell(log.row, line, at);
    TextFillsCells(log, b, color, i);
  }

  lemma SameCell(row: nat, line: nat, at: nat)
    requires at < 80
    ensures CellAt(Position(Cell(row, 0)) + (80 * line + at)) == Cell(row + line, at)
  {
    hide CellAt;
    PositionInjective(CellAt(row * 80 + (80 * line + at)), Cell(row + line, at));
  }
}
