/**
 The text terminal: a cursor and a window of 26 rows of 80 cells in video memory,
 refining an endless log of rows that is never scrolled.  What the window shows is
 determined for every cell, those never printed included.
 */
module Screen {
  import opened KernelTypes

  const LF: Char := '\n'
  const CR: Char := '\r'

  // ---------------------------------------------------------------- the log

  datatype Cell = Cell(row: nat, col: nat)
  datatype Glyph = Glyph(character: u8, color: u8)

  /** All that was printed, row by row, and where the next character goes. */
  datatype Log = Log(cells: map<Cell, Glyph>, row: nat, col: nat) {
    function Cursor(): Cell {
      Cell(row, col)
    }

    function Printed(c: Char, color: u8): Log {
      if c == LF then this.(row := row + 1, col := 0)
      else if c == CR then this.(col := 0)
      else
        var written := cells[Cursor() := Glyph(Code(c), color)];
        if col + 1 < 80 then Log(written, row, col + 1) else Log(written, row + 1, 0)
    }
  }

  /** How many rows of the log have left the window when the cursor is on `row`. */
  function Scrolled(row: nat): nat {
    if row > 25 then row - 25 else 0
  }

  /** Where the window keeps a cell, as an offset into video memory. */
  function Offset(line: nat, col: nat): nat {
    (col + line * 80) * 2
  }

  /**
   What stands in a cell of the log.  Where nothing was printed, the first 26 rows show
   what `base`, video memory before the log began, holds there.  A later row shows what
   the row above it shows, since scrolling leaves the last line as it was; only its
   first character is fetched from behind the window.
   */
  function Seen(cells: map<Cell, Glyph>, base: seq<u8>, row: nat, col: nat): Glyph
    requires |base| == 0x8000 && col < 80
    decreases row
  {
    if Cell(row, col) in cells then cells[Cell(row, col)]
    else if row <= 25 then Glyph(base[Offset(row, col)], base[Offset(row, col) + 1])
    else
      var above := Seen(cells, base, row - 1, col);
      if col == 0 then above.(character := base[Offset(26, 0)]) else above
  }

  /** A window whose first line is row `top` of the log. */
  ghost predicate Shows(video: seq<u8>, cells: map<Cell, Glyph>, base: seq<u8>, top: nat) {
    && |video| == |base| == 0x8000 && video[Offset(26, 0)] == base[Offset(26, 0)]
    && forall line, col :: 0 <= line <= 25 && 0 <= col < 80 ==>
         ShownAt(video, Offset(line, col), Seen(cells, base, top + line, col))
  }

  /** Nothing is printed below `row`. */
  ghost predicate Within(cells: map<Cell, Glyph>, row: nat) {
    forall cell <- cells :: cell.row <= row && cell.col < 80
  }

  predicate ShownAt(video: seq<u8>, at: nat, glyph: Glyph) {
    at + 1 < |video| && video[at] == glyph.character && video[at + 1] == glyph.color
  }

  function WithGlyph(video: seq<u8>, at: nat, glyph: Glyph): (v: seq<u8>)
    requires at + 1 < |video|
    ensures |v| == |video|
    ensures forall o :: 0 <= o < |video| ==>
              v[o] == if o == at then glyph.character else if o == at + 1 then glyph.color else video[o]
  {
    video[..at] + [glyph.character, glyph.color] + video[at + 2..]
  }

  lemma OffsetInjective(line: nat, col: nat, line': nat, col': nat)
    requires col < 80 && col' < 80
    ensures Offset(line, col) == Offset(line', col') ==> line == line' && col == col'
    ensures Offset(line, col) % 2 == 0
  {
  }

  /** What is printed in a cell concerns no other one, unless that lies further down in its column, behind row 25. */
  lemma {:induction false} SeenElsewhere(cells: map<Cell, Glyph>, base: seq<u8>, row: nat, col: nat,
                                         at: Cell, glyph: Glyph)
    requires |base| == 0x8000 && col < 80 && at != Cell(row, col) && (at.row > row || row <= 25 || at.col != col)
    ensures Seen(cells[at := glyph], base, row, col) == Seen(cells, base, row, col)
    decreases row
  {
    if row > 25 && Cell(row, col) !in cells {
      SeenElsewhere(cells, base, row - 1, col, at, glyph);
    }
  }

  /** Writing one glyph shows it and changes no other cell. */
  lemma ShowsWrite(video: seq<u8>, cells: map<Cell, Glyph>, base: seq<u8>, top: nat, line: nat, col: nat, glyph: Glyph)
    requires Shows(video, cells, base, top) && line <= 25 && col < 80 && (top == 0 || line == 25)
    ensures Shows(WithGlyph(video, Offset(line, col), glyph), cells[Cell(top + line, col) := glyph], base, top)
  {
    hide Seen;
    var at := Cell(top + line, col);
    var after := WithGlyph(video, Offset(line, col), glyph);
    forall l, c | 0 <= l <= 25 && 0 <= c < 80
      ensures ShownAt(after, Offset(l, c), Seen(cells[at := glyph], base, top + l, c))
    {
      OffsetInjective(l, c, line, col);
      if l == line && c == col {
        SeenPrinted(cells[at := glyph], base, at);
      } else {
        SeenElsewhere(cells, base, top + l, c, at, glyph);
        assert ShownAt(video, Offset(l, c), Seen(cells, base, top + l, c));
      }
    }
  }

  lemma SeenPrinted(cells: map<Cell, Glyph>, base: seq<u8>, cell: Cell)
    requires |base| == 0x8000 && cell in cells && cell.col < 80
    ensures Seen(cells, base, cell.row, cell.col) == cells[cell]
  {
  }

  /** Shifting the window's bytes up by one line moves its top down by one row. */
  lemma ShowsScroll(video: seq<u8>, after: seq<u8>, cells: map<Cell, Glyph>, base: seq<u8>, top: nat)
    requires Shows(video, cells, base, top) && Within(cells, top + 25) && |after| == 0x8000
    requires forall o :: 0 <= o <= 4000 ==> after[o] == video[o + 160]
    requires forall o :: 4000 < o < 0x8000 ==> after[o] == video[o]
    ensures Shows(after, cells, base, top + 1)
  {
    hide Seen;
    forall line, col | 0 <= line <= 25 && 0 <= col < 80
      ensures ShownAt(after, Offset(line, col), Seen(cells, base, top + 1 + line, col))
    {
      var at := Offset(line, col);
      assert after[at] == if at <= 4000 then video[at + 160] else video[at];
      assert after[at + 1] == if at + 1 <= 4000 then video[at + 1 + 160] else video[at + 1];
      if line < 25 {
        assert Offset(line + 1, col) == at + 160;
        assert ShownAt(video, Offset(line + 1, col), Seen(cells, base, top + (line + 1), col));
        assert top + (line + 1) == top + 1 + line;
      } else {
        assert ShownAt(video, Offset(25, col), Seen(cells, base, top + 25, col));
        assert Cell(top + 26, col) !in cells;
        SeenBelow(cells, base, top + 26, col);
      }
    }
  }

  lemma SeenBelow(cells: map<Cell, Glyph>, base: seq<u8>, row: nat, col: nat)
    requires |base| == 0x8000 && col < 80 && row > 25 && Cell(row, col) !in cells
    ensures var above := Seen(cells, base, row - 1, col);
            Seen(cells, base, row, col) == if col == 0 then above.(character := base[Offset(26, 0)]) else above
  {
  }

  lemma ShowsLength(video: seq<u8>, cells: map<Cell, Glyph>, base: seq<u8>, top: nat)
    requires Shows(video, cells, base, top)
    ensures |video| == |base| == 0x8000
  {
  }

  lemma ShowsBase(video: seq<u8>)
    requires |video| == 0x8000
    ensures Shows(video, map[], video, 0)
  {
  }

  // ---------------------------------------------------------------- the driver

  class Terminal {
    var line: int
    var column: int
    var color: u8
    const video: array<u8>
    ghost var log: Log
    /** Video memory as it was before the log began. */
    ghost var base: seq<u8>

    ghost predicate Valid()
      reads this, video
    {
      && video.Length == 0x8000
      && 0 <= line <= 25 && 0 <= column < 80
      && log.col == column && log.row == line + Scrolled(log.row)
      && Within(log.cells, log.row) && Shows(video[..], log.cells, base, Scrolled(log.row))
    }

    constructor (video: array<u8>)
      requires video.Length == 0x8000
      ensures Valid() && this.video == video && log == Log(map[], 1, 1) && color == 0x0F
      ensures base == video[..]
    {
      this.video := video;
      line, column, color := 1, 1, 0x0F;
      log, base := Log(map[], 1, 1), video[..];
      new;
      ShowsBase(video[..]);
    }

    /** The attribute byte of what is printed from now on. */
    method SetColor(value: u8)
      requires Valid()
      modifies this`color
      ensures Valid() && color == value
    {
      color := value;
    }

    /** Moves the window down by one row: an ascending copy of video memory onto itself. */
    method ScScrollUp()
      requires video.Length == 0x8000
      modifies video
      ensures forall o :: 0 <= o <= 4000 ==> video[o] == old(video[o + 160])
      ensures forall o :: 4000 < o < 0x8000 ==> video[o] == old(video[o])
    {
      var ptr := 0;
      var lastLine := (1 + 25 * 80) * 2;
      while ptr <= 0xFA0
        invariant 0 <= ptr <= 4001
        invariant forall o :: 0 <= o < ptr ==> video[o] == old(video[o + 160])
        invariant forall o :: ptr <= o < 0x8000 ==> video[o] == old(video[o])
      {
        if ptr < lastLine {
          video[ptr] := video[ptr + 80 * 2];
        } else {
          assert false;  // the branch that zeroes is never taken
        }
        ptr := ptr + 1;
      }
    }

    /** Stores a glyph under the cursor. */
    method PutGlyph(c: Char, ghost top: nat, ghost cells: map<Cell, Glyph>)
      requires video.Length == 0x8000 && 0 <= line <= 25 && 0 <= column < 80 && (top == 0 || line == 25)
      requires Shows(video[..], cells, base, top)
      modifies video
      ensures Shows(video[..], cells[Cell(top + line, column) := Glyph(Code(c), color)], base, top)
    {
      hide Shows;
      ghost var was := video[..];
      var at := (column + line * 80) * 2;
      video[at] := Code(c);
      video[at + 1] := color;
      ShowsLength(was, cells, base, top);
      ShowsWrite(was, cells, base, top, line, column, Glyph(Code(c), color));
      assert video[..] == WithGlyph(was, at, Glyph(Code(c), color));
    }

    method ScPrintChar(c: Char)
      requires Valid()
      modifies this`line, this`column, this`log, video
      ensures Valid() && log == old(log).Printed(c, color)
      ensures c as int == 10 ==> log == Log(old(log.cells), old(log.row) + 1, 0)
      ensures c as int == 13 ==> log == Log(old(log.cells), old(log.row), 0)
      ensures c as int != 10 && c as int != 13 ==>
                && log.cells == old(log.cells)[Cell(old(log.row), old(log.col)) := Glyph(c as int, color)]
                && log.row == old(log.row) + (if old(log.col) == 79 then 1 else 0)
                && log.col == if old(log.col) == 79 then 0 else old(log.col) + 1
    {
      hide Shows;
      ghost var top := Scrolled(log.row);
      if c == LF {
        line := line + 1;
        column := 0;
      } else if c == CR {
        column := 0;
      } else {
        if column > 79 {
          assert false;  // wrapping has been done when the last column was filled
        }
        if line > 25 {
          assert false;  // and so has scrolling
        }
        PutGlyph(c, top, log.cells);
        column := column + 1;
      }
      log := log.Printed(c, color);
      if column > 79 {
        column := 0;
        line := line + 1;
      }
      if line > 25 {
        ghost var unscrolled := video[..];
        ScScrollUp();
        ShowsScroll(unscrolled, video[..], log.cells, base, top);
        line := line - 1;
      }
    }

    /** Blanks the characters of 25 rows, not their colours and not row 25. */
    method ScClear()
      requires Valid()
      modifies this`line, this`column, this`log, this`base, video
      ensures Valid() && log == Log(map[], 0, 0) && base == video[..]
      ensures forall o :: 0 <= o < 0x8000 ==>
                video[o] == if o < 4000 && o % 2 == 0 then 0x20 else old(video[o])
    {
      var i := 0;
      while i < (25 * 80) * 2
        invariant 0 <= i <= 4000 && i % 2 == 0
        invariant forall o :: 0 <= o < 0x8000 ==>
                    video[o] == if o < i && o % 2 == 0 then Code(' ') else old(video[o])
      {
        video[i] := Code(' ');
        i := i + 2;
      }
      line := 0;
      column := 0;
      log, base := Log(map[], 0, 0), video[..];
      ShowsBase(video[..]);
    }
  }
}
