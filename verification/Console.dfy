/**
  The text console.  It keeps the same text three times: as the bytes printed so far, as a
  grid of cells, and as pixels.  `Paper` is the first made precise - an endless sheet of
  lines - and the class keeps the grid equal to its last rows and the pixels equal to a
  rendering of the grid, through wrapping, newlines and scrolling.
 */
module Console {
  import opened Common
  import opened FrameBuffer

  const CHAR_W: nat := 8
  const CHAR_H: nat := 16
  const NEWLINE: Byte := 10

  // ---------------------------------------------------------------- the paper

  type Line = seq<Byte>

  /** Prints one byte.  A newline starts a line and is itself the first byte of it. */
  ghost function Printed(paper: seq<Line>, c: Byte, cols: nat): (p: seq<Line>)
    requires |paper| >= 1
    ensures |p| >= 1
  {
    var p1 := if c == NEWLINE then paper + [[]] else paper;
    var last := p1[|p1| - 1] + [c];
    var p2 := p1[|p1| - 1 := last];
    if |last| == cols then p2 + [[]] else p2
  }

  ghost function PrintedAll(paper: seq<Line>, s: seq<Byte>, cols: nat): (p: seq<Line>)
    requires |paper| >= 1
    ensures |p| >= 1
  {
    if s == [] then paper else Printed(PrintedAll(paper, s[..|s| - 1], cols), s[|s| - 1], cols)
  }

  /** The lines one after the other. */
  ghost function Joined(paper: seq<Line>): seq<Byte> {
    if paper == [] then [] else Joined(paper[..|paper| - 1]) + paper[|paper| - 1]
  }

  ghost predicate EndsWell(paper: seq<Line>, cols: nat, i: nat)
    requires i < |paper| - 1
  {
    if |paper[i]| == cols then |paper[i + 1]| > 0 ==> paper[i + 1][0] != NEWLINE
    else |paper[i]| < cols && |paper[i + 1]| > 0 && paper[i + 1][0] == NEWLINE
  }

  /**
    A line ends because it is full or because the next begins with a newline, not both, and
    newlines stand nowhere else.
   */
  ghost predicate WellWrapped(paper: seq<Line>, cols: nat) {
    && |paper| >= 1 && |paper[|paper| - 1]| < cols
    && (forall i {:trigger EndsWell(paper, cols, i)} :: 0 <= i < |paper| - 1 ==> EndsWell(paper, cols, i))
    && (forall i, k :: 0 <= i < |paper| && 0 <= k < |paper[i]| && paper[i][k] == NEWLINE ==> i > 0 && k == 0)
  }

  lemma JoinedAppend(paper: seq<Line>, c: Byte)
    requires |paper| >= 1
    ensures Joined(paper[|paper| - 1 := paper[|paper| - 1] + [c]]) == Joined(paper) + [c]
  {
    var n := |paper|;
    assert paper[n - 1 := paper[n - 1] + [c]][..n - 1] == paper[..n - 1];
  }

  lemma JoinedBlank(paper: seq<Line>)
    ensures Joined(paper + [[]]) == Joined(paper)
  {
    assert (paper + [[]])[..|paper|] == paper;
  }

  /** Printing loses no byte, repeats none and keeps their order. */
  lemma {:induction false} PaperKeepsEveryByte(paper: seq<Line>, s: seq<Byte>, cols: nat)
    requires |paper| >= 1
    ensures Joined(PrintedAll(paper, s, cols)) == Joined(paper) + s
  {
    if s != [] {
      var s0, c := s[..|s| - 1], s[|s| - 1];
      PaperKeepsEveryByte(paper, s0, cols);
      assert s == s0 + [c];
      PrintedAddsOneByte(PrintedAll(paper, s0, cols), c, cols);
    }
  }

  lemma PrintedAddsOneByte(paper: seq<Line>, c: Byte, cols: nat)
    requires |paper| >= 1
    ensures Joined(Printed(paper, c, cols)) == Joined(paper) + [c]
  {
    var p1 := if c == NEWLINE then paper + [[]] else paper;
    assert Joined(p1) == Joined(paper) by { JoinedBlank(paper); }
    JoinedAppend(p1, c);
    JoinedBlank(p1[|p1| - 1 := p1[|p1| - 1] + [c]]);
  }

  lemma PrintedIsWellWrapped(paper: seq<Line>, c: Byte, cols: nat)
    requires WellWrapped(paper, cols)
    ensures WellWrapped(Printed(paper, c, cols), cols)
  {
    var n := |paper|;
    var p2 := if c == NEWLINE then paper + [[c]] else paper[n - 1 := paper[n - 1] + [c]];
    var blank: Line := [];
    assert blank + [c] == [c];
    assert c == NEWLINE ==> (paper + [blank])[n := blank + [c]] == p2;
    var m := |p2|;
    assert Printed(paper, c, cols) == if |p2[m - 1]| == cols then p2 + [[]] else p2;
    forall i | 0 <= i < m - 1
      ensures EndsWell(p2, cols, i)
    {
      assert p2[i] == paper[i];
      if i < n - 1 {
        assert EndsWell(paper, cols, i);
        assert |paper[i + 1]| > 0 ==> |p2[i + 1]| > 0 && p2[i + 1][0] == paper[i + 1][0];
      }
    }
    var p3 := Printed(paper, c, cols);
    forall i | 0 <= i < |p3| - 1
      ensures EndsWell(p3, cols, i)
    {
      assert i < m - 1 ==> EndsWell(p2, cols, i);
    }
  }

  lemma {:induction false} PaperIsWellWrapped(s: seq<Byte>, cols: nat)
    requires cols >= 1
    ensures WellWrapped(PrintedAll([[]], s, cols), cols)
  {
    if s != [] {
      PaperIsWellWrapped(s[..|s| - 1], cols);
      PrintedIsWellWrapped(PrintedAll([[]], s[..|s| - 1], cols), s[|s| - 1], cols);
    }
  }

  /** A sheet without the blank line that a full line leaves behind. */
  ghost function Unwrapped(paper: seq<Line>): seq<Line>
    requires |paper| >= 1
  {
    if paper[|paper| - 1] == [] then paper[..|paper| - 1] else paper
  }

  /** And without its last byte, which may have started its line. */
  ghost function Unprinted(paper: seq<Line>): seq<Line>
    requires |paper| >= 1 && |Unwrapped(paper)| >= 1 && Unwrapped(paper)[|Unwrapped(paper)| - 1] != []
  {
    var p := Unwrapped(paper);
    var last := p[|p| - 1];
    if last[|last| - 1] == NEWLINE then p[..|p| - 1] else p[|p| - 1 := last[..|last| - 1]]
  }

  lemma LastByte(paper: seq<Line>, cols: nat) returns (c: Byte)
    requires WellWrapped(paper, cols) && paper != [[]]
    ensures var p := Unwrapped(paper); |p| >= 1 && p[|p| - 1] != [] && c == p[|p| - 1][|p[|p| - 1]| - 1]
    ensures var p := Unwrapped(paper); c == NEWLINE ==> |p| >= 2 && p[|p| - 1] == [c] && |p[|p| - 2]| < cols
    ensures var p := Unwrapped(paper); p == paper <==> |p[|p| - 1]| < cols
    ensures var p := Unwrapped(paper); |p[|p| - 1]| <= cols
  {
    var n := |paper|;
    var p := Unwrapped(paper);
    if paper[n - 1] == [] { assert EndsWell(paper, cols, n - 2); }
    var last := p[|p| - 1];
    c := last[|last| - 1];
    if c == NEWLINE { assert EndsWell(paper, cols, |p| - 2); }
  }

  lemma UnprintedIsWellWrapped(paper: seq<Line>, cols: nat)
    requires WellWrapped(paper, cols) && paper != [[]]
    requires |Unwrapped(paper)| >= 1 && Unwrapped(paper)[|Unwrapped(paper)| - 1] != []
    ensures WellWrapped(Unprinted(paper), cols)
  {
    var c := LastByte(paper, cols);
    var before := Unprinted(paper);
    forall i | 0 <= i < |before| - 1
      ensures EndsWell(before, cols, i)
    {
      assert EndsWell(paper, cols, i);
      assert before[i] == paper[i];
    }
  }

  /** Every well-wrapped sheet but the blank one is what printing its last byte leaves. */
  lemma PrintedAgain(paper: seq<Line>, cols: nat) returns (c: Byte)
    requires WellWrapped(paper, cols) && paper != [[]]
    ensures |Unwrapped(paper)| >= 1 && Unwrapped(paper)[|Unwrapped(paper)| - 1] != []
    ensures |Unprinted(paper)| >= 1 && Printed(Unprinted(paper), c, cols) == paper
  {
    c := LastByte(paper, cols);
    var p, before := Unwrapped(paper), Unprinted(paper);
    var m := |p|;
    var p1 := if c == NEWLINE then before + [[]] else before;
    assert p1[m - 1] + [c] == p[m - 1];
    assert p1[m - 1 := p[m - 1]] == p;
    assert p != paper ==> paper == p + [[]];
  }

  /** The printed sheet is the only well-wrapped layout of the bytes printed. */
  lemma {:induction false} LayoutIsUnique(paper: seq<Line>, cols: nat)
    requires WellWrapped(paper, cols)
    ensures paper == PrintedAll([[]], Joined(paper), cols)
    decreases |Joined(paper)|
  {
    if paper != [[]] {
      var c := PrintedAgain(paper, cols);
      var before := Unprinted(paper);
      UnprintedIsWellWrapped(paper, cols);
      PrintedAddsOneByte(before, c, cols);
      LayoutIsUnique(before, cols);
      assert Joined(paper)[..|Joined(paper)| - 1] == Joined(before);
    }
  }

  /** Printing in pieces, as the formatting machinery does, is printing at once. */
  lemma {:induction false} PrintedInPieces(paper: seq<Line>, s: seq<Byte>, t: seq<Byte>, cols: nat)
    requires |paper| >= 1
    ensures PrintedAll(paper, s + t, cols) == PrintedAll(PrintedAll(paper, s, cols), t, cols)
  {
    if t == [] {
      assert s + t == s;
    } else {
      PrintedInPieces(paper, s, t[..|t| - 1], cols);
      assert (s + t)[..|s + t| - 1] == s + t[..|t| - 1];
    }
  }

  ghost predicate PaperOk(paper: seq<Line>, cols: nat) {
    |paper| >= 1 && forall i :: 0 <= i < |paper| ==> |paper[i]| <= cols
  }

  ghost function Zeros(n: nat): (z: seq<Byte>)
    ensures |z| == n && forall i :: 0 <= i < n ==> z[i] == 0
  {
    seq(n, _ => 0 as Byte)
  }

  ghost function Padded(line: Line, cols: nat): (r: seq<Byte>)
    requires |line| <= cols
    ensures |r| == cols
  {
    line + Zeros(cols - |line|)
  }

  /** The number of lines that have scrolled off. */
  ghost function Gone(paper: seq<Line>, rows: nat): nat {
    if |paper| > rows then |paper| - rows else 0
  }

  /** Row r of the screen. */
  ghost function RowOf(paper: seq<Line>, rows: nat, cols: nat, r: nat): (row: seq<Byte>)
    requires PaperOk(paper, cols)
    ensures |row| == cols
  {
    var i := Gone(paper, rows) + r;
    if i < |paper| then Padded(paper[i], cols) else Zeros(cols)
  }

  // ---------------------------------------------------------------- glyphs

  /** 16 bytes per character, most significant bit to the left. */
  type Font = seq<seq<bv8>>

  /** The bit of a glyph's row for each column, from the left. */
  ghost function ColumnBit(dx: nat): bv8
    requires dx < CHAR_W
  {
    if dx == 0 then 0x80 else if dx == 1 then 0x40 else if dx == 2 then 0x20 else if dx == 3 then 0x10
    else if dx == 4 then 0x08 else if dx == 5 then 0x04 else if dx == 6 then 0x02 else 0x01
  }

  ghost predicate GlyphBit(font: Font, c: Byte, dx: nat, dy: nat)
    requires dx < CHAR_W && dy < CHAR_H
  {
    && c as int < |font|
    && dy < |font[c as int]|
    && font[c as int][dy] & ColumnBit(dx) != 0
  }

  /** Shifting a row to the left brings the bit of a column to the front. */
  lemma ShiftedToFront(row: bv8, dx: nat)
    requires dx < CHAR_W
    ensures (row << dx) & 0x80 != 0 <==> row & ColumnBit(dx) != 0
  {
  }

  /** The test that the drawing loop makes. */
  method IsInked(font: Font, c: Byte, dx: nat, dy: nat) returns (ink: bool)
    requires dx < CHAR_W && dy < CHAR_H && c as int < |font|
    ensures ink <==> GlyphBit(font, c, dx, dy)
  {
    if dy >= |font[c as int]| {
      return false;
    }
    var row := font[c as int][dy];
    ShiftedToFront(row, dx);
    ink := (row << dx) & 0x80 != 0;
  }

  ghost predicate BlankZero(font: Font) {
    forall dx: nat, dy: nat :: dx < CHAR_W && dy < CHAR_H ==> !GlyphBit(font, 0, dx, dy)
  }

  /** `write_ascii`: sets the glyph's pixels and leaves the others alone. */
  method WriteAscii(font: Font, fb: FrameBuffer, x0: nat, y0: nat, c: Byte, color: Color)
    requires fb.Valid() && x0 + CHAR_W <= fb.stride && y0 + CHAR_H <= fb.height
    modifies fb.data
    ensures forall x, y :: 0 <= x < fb.stride && 0 <= y < fb.height ==>
              fb.ColorAt(x, y) == if x0 <= x < x0 + CHAR_W && y0 <= y < y0 + CHAR_H && GlyphBit(font, c, x - x0, y - y0)
                                  then color else old(fb.ColorAt(x, y))
  {
    if c as int >= |font| {
      return;
    }
    for dy := 0 to CHAR_H
      invariant forall x, y :: 0 <= x < fb.stride && 0 <= y < fb.height ==>
                  fb.ColorAt(x, y) == if x0 <= x < x0 + CHAR_W && y0 <= y < y0 + dy && GlyphBit(font, c, x - x0, y - y0)
                                      then color else old(fb.ColorAt(x, y))
    {
      for dx := 0 to CHAR_W
        invariant forall x, y :: 0 <= x < fb.stride && 0 <= y < fb.height ==>
                    fb.ColorAt(x, y) == if x0 <= x < x0 + CHAR_W && y0 <= y < y0 + CHAR_H
                                           && (y < y0 + dy || (y == y0 + dy && x < x0 + dx))
                                           && GlyphBit(font, c, x - x0, y - y0)
                                        then color else old(fb.ColorAt(x, y))
      {
        var ink := IsInked(font, c, dx, dy);
        if ink {
          fb.Write(Vec2(x0 + dx, y0 + dy), color);
        }
      }
    }
  }

  /** Fills whole rows of the text area with the background. */
  method ClearRows(fb: FrameBuffer, width: nat, from: nat, to: nat, bg: Color)
    requires fb.Valid() && width <= fb.stride && from <= to <= fb.height
    modifies fb.data
    ensures forall x, y :: 0 <= x < fb.stride && 0 <= y < fb.height ==>
              fb.ColorAt(x, y) == if x < width && from <= y < to then bg else old(fb.ColorAt(x, y))
  {
    for y0 := from to to
      invariant forall x, y :: 0 <= x < fb.stride && 0 <= y < fb.height ==>
                  fb.ColorAt(x, y) == if x < width && from <= y < y0 then bg else old(fb.ColorAt(x, y))
    {
      for x0 := 0 to width
        invariant forall x, y :: 0 <= x < fb.stride && 0 <= y < fb.height ==>
                    fb.ColorAt(x, y) == if x < width && from <= y && (y < y0 || (y == y0 && x < x0)) then bg
                                        else old(fb.ColorAt(x, y))
      {
        fb.Write(Vec2(x0, y0), bg);
      }
    }
  }

  // ---------------------------------------------------------------- the console

  class Console {
    // the two halves of the window's canvas: drawn to, and shown
    const back: FrameBuffer
    const fore: FrameBuffer
    const font: Font
    const fg: Color
    const bg: Color
    const rows: nat
    const cols: nat
    var buffer: seq<seq<Byte>>
    var cursorRow: nat
    var cursorCol: nat
    // everything printed so far, as lines
    ghost var paper: seq<Line>

    ghost predicate Shape() {
      && back.Valid() && rows >= 1 && cols >= 1
      && CHAR_W * cols <= back.width && CHAR_H * rows <= back.height
      && BlankZero(font)
      && fore.Valid() && fore.data != back.data && fore.format == back.format
      && fore.width == back.width && fore.height == back.height
    }

    ghost predicate GridOk()
      reads this
    {
      |buffer| == rows && forall r :: 0 <= r < rows ==> |buffer[r]| == cols
    }

    /** The pixel (x, y) of the text area, as the grid says it should be. */
    ghost function CellColor(grid: seq<seq<Byte>>, x: int, y: int): Color
      requires 0 <= x < CHAR_W * cols && 0 <= y < CHAR_H * rows
      requires |grid| == rows && forall r :: 0 <= r < rows ==> |grid[r]| == cols
    {
      if GlyphBit(font, grid[y / CHAR_H][x / CHAR_W], x % CHAR_W, y % CHAR_H) then fg else bg
    }

    ghost predicate Rendered()
      requires Shape() && GridOk()
      reads this, back.data
    {
      forall x, y :: 0 <= x < CHAR_W * cols && 0 <= y < CHAR_H * rows ==> back.ColorAt(x, y) == CellColor(buffer, x, y)
    }

    /** The grid shows the end of the paper, and the cursor is where the next byte goes. */
    ghost predicate ShowsPaper()
      reads this
    {
      && Shows(paper, rows, cols, buffer)
      && cursorRow + Gone(paper, rows) == |paper| - 1
      && cursorCol == |paper[|paper| - 1]|
    }

    ghost predicate Valid()
      reads this, back.data
    {
      Shape() && ShowsPaper() && GridOk() && Rendered()
    }

    /** Between two bytes the line being printed always has room for one more. */
    ghost predicate Ready()
      reads this, back.data
    {
      Valid() && cursorCol < cols
    }

    constructor (back: FrameBuffer, fore: FrameBuffer, font: Font, fg: Color, bg: Color)
      requires fore.Valid() && fore.data != back.data && fore.format == back.format
      requires fore.width == back.width && fore.height == back.height
      requires back.Valid() && BlankZero(font)
      modifies back.data
      ensures paper == [[]] && this.back == back && this.fore == fore
      ensures rows == back.height / CHAR_H && cols == back.width / CHAR_W
      ensures forall x, y :: 0 <= x < CHAR_W * cols && 0 <= y < CHAR_H * rows ==> back.ColorAt(x, y) == bg
      // a window without room for one character cannot be printed to
      ensures Ready() <==> rows >= 1 && cols >= 1
    {
      var nCols, nRows := back.width / CHAR_W, back.height / CHAR_H;
      this.back, this.fore, this.font, this.fg, this.bg := back, fore, font, fg, bg;
      rows, cols := nRows, nCols;
      buffer := seq(nRows, _ => seq(nCols, _ => 0 as Byte));
      cursorRow, cursorCol := 0, 0;
      paper := [[]];
      new;
      ClearRows(back, CHAR_W * cols, 0, CHAR_H * rows, bg);
    }

    /** Swaps every row with the next and clears the last: the grid moves up by one row. */
    method RotateRows()
      requires Shape() && GridOk()
      modifies this`buffer
      ensures buffer == old(buffer)[1..] + [Zeros(cols)]
    {
      ghost var grid := buffer;
      var row := 0;
      while row < rows - 1
        invariant 0 <= row <= rows - 1 && |buffer| == rows
        invariant forall r :: 0 <= r < row ==> buffer[r] == grid[r + 1]
        invariant buffer[row] == grid[0]
        invariant forall r :: row < r < rows ==> buffer[r] == grid[r]
      {
        buffer := buffer[row := buffer[row + 1]][row + 1 := buffer[row]];
        row := row + 1;
      }
      buffer := buffer[rows - 1 := seq(cols, _ => 0 as Byte)];
      assert buffer[rows - 1] == Zeros(cols);
    }

    method MovePixelsUp()
      requires Shape()
      modifies back.data
      ensures forall x, y :: 0 <= x < CHAR_W * cols && 0 <= y < CHAR_H * (rows - 1) ==>
                back.ColorAt(x, y) == old(back.ColorAt(x, y + CHAR_H))
    {
      var rect := Rect(0, 16, 8 * cols, 16 * rows);
      assert rect.ContainedBy(back.Screen());
      back.MoveRect(Vec2(0, 0), rect);
    }

    method ScrollUp()
      requires Shape() && GridOk()
      modifies this`buffer, back.data
      ensures buffer == old(buffer)[1..] + [Zeros(cols)]
      ensures forall x, y :: 0 <= x < CHAR_W * cols && 0 <= y < CHAR_H * rows ==>
                back.ColorAt(x, y) == if y < CHAR_H * (rows - 1) then old(back.ColorAt(x, y + CHAR_H)) else bg
    {
      MovePixelsUp();
      ClearRows(back, CHAR_W * cols, 16 * (rows - 1), 16 * rows, bg);
      RotateRows();
    }

    method NewLine()
      requires Valid()
      modifies this`buffer, this`cursorRow, this`cursorCol, this`paper, back.data
      ensures Ready() && paper == old(paper) + [[]]
    {
      NewLineShows(paper, rows, cols, buffer);
      cursorCol := 0;
      paper := paper + [[]];
      if cursorRow < rows - 1 {
        cursorRow := cursorRow + 1;
      } else {
        ScrollUp();
        forall x, y | 0 <= x < CHAR_W * cols && 0 <= y < CHAR_H * rows
          ensures back.ColorAt(x, y) == CellColor(buffer, x, y)
        {
          assert (y + CHAR_H) / CHAR_H == y / CHAR_H + 1 && (y + CHAR_H) % CHAR_H == y % CHAR_H;
        }
      }
    }

    /** Draws one byte over the blank cell at the cursor and stores it there. */
    method DrawCell(c: Byte)
      requires Shape() && GridOk() && Rendered()
      requires cursorRow < rows && cursorCol < cols && buffer[cursorRow][cursorCol] == 0
      modifies this`buffer, back.data
      ensures buffer == old(buffer)[cursorRow := old(buffer)[cursorRow][cursorCol := c]]
      ensures GridOk() && Rendered()
    {
      var grid := buffer;
      WriteAscii(font, back, 8 * cursorCol, 16 * cursorRow, c, fg);
      buffer := grid[cursorRow := grid[cursorRow][cursorCol := c]];
      forall x, y | 0 <= x < CHAR_W * cols && 0 <= y < CHAR_H * rows
        ensures back.ColorAt(x, y) == CellColor(buffer, x, y)
      {
        CellOfPixel(x, y, cursorCol, cursorRow);
      }
    }

    /** The byte joins the last line of the paper. */
    method PutCell(c: Byte)
      requires Ready()
      modifies this`buffer, this`cursorCol, this`paper, back.data
      ensures Valid() && paper == old(paper)[|old(paper)| - 1 := old(paper)[|old(paper)| - 1] + [c]]
    {
      CellShows(paper, rows, cols, c, buffer, cursorRow, cursorCol);
      DrawCell(c);
      paper := paper[|paper| - 1 := paper[|paper| - 1] + [c]];
      cursorCol := cursorCol + 1;
    }

    method PutByte(c: Byte)
      requires Ready()
      modifies this`buffer, this`cursorRow, this`cursorCol, this`paper, back.data
      ensures Ready() && paper == Printed(old(paper), c, cols)
    {
      if c == NEWLINE {
        NewLine();
      }
      PutCell(c);
      if cursorCol == cols {
        NewLine();
      }
    }

    /** Afterwards the shown half of the canvas is the rendering of the grid too. */
    method PutString(str: seq<Byte>)
      requires Ready()
      modifies this`buffer, this`cursorRow, this`cursorCol, this`paper, back.data, fore.data
      ensures Ready() && paper == PrintedAll(old(paper), str, cols)
      ensures forall x, y :: 0 <= x < CHAR_W * cols && 0 <= y < CHAR_H * rows ==>
        fore.ColorAt(x, y) == CellColor(buffer, x, y)
    {
      for i := 0 to |str|
        invariant Ready() && paper == PrintedAll(old(paper), str[..i], cols)
      {
        assert str[..i + 1][..i] == str[..i];
        PutByte(str[i]);
      }
      assert str[..|str|] == str;
      fore.Copy(Vec2(0, 0), back);
    }
  }

  /** A pixel lies in the cell at (col, row) exactly when its cell coordinates say so. */
  lemma CellOfPixel(x: nat, y: nat, col: nat, row: nat)
    ensures CHAR_W * col <= x < CHAR_W * col + CHAR_W <==> x / CHAR_W == col
    ensures CHAR_H * row <= y < CHAR_H * row + CHAR_H <==> y / CHAR_H == row
    ensures x / CHAR_W == col ==> x % CHAR_W == x - CHAR_W * col
    ensures y / CHAR_H == row ==> y % CHAR_H == y - CHAR_H * row
  {
  }

  ghost predicate Shows(paper: seq<Line>, rows: nat, cols: nat, grid: seq<seq<Byte>>) {
    && PaperOk(paper, cols) && |grid| == rows
    && forall r {:trigger grid[r]} :: 0 <= r < rows ==> grid[r] == RowOf(paper, rows, cols, r)
  }

  /** A new line shows below the others, or pushes the first one off a full screen. */
  lemma NewLineShows(paper: seq<Line>, rows: nat, cols: nat, grid: seq<seq<Byte>>)
    requires rows >= 1 && Shows(paper, rows, cols, grid)
    ensures |paper| < rows ==> Shows(paper + [[]], rows, cols, grid)
    ensures |paper| >= rows ==> Shows(paper + [[]], rows, cols, grid[1..] + [Zeros(cols)])
  {
    var paper' := paper + [[]];
    var grid' := if |paper| < rows then grid else grid[1..] + [Zeros(cols)];
    forall r | 0 <= r < rows
      ensures grid'[r] == RowOf(paper', rows, cols, r)
    {
      RowOfLonger(paper, rows, cols, r);
      if |paper| >= rows && r < rows - 1 { assert grid'[r] == grid[r + 1]; }
    }
  }

  /** A row of the screen before and after a blank line is added. */
  lemma RowOfLonger(paper: seq<Line>, rows: nat, cols: nat, r: nat)
    requires PaperOk(paper, cols) && r < rows
    ensures PaperOk(paper + [[]], cols)
    ensures RowOf(paper + [[]], rows, cols, r) ==
      if |paper| < rows then RowOf(paper, rows, cols, r)
      else if r < rows - 1 then RowOf(paper, rows, cols, r + 1) else Zeros(cols)
  {
    assert Padded([], cols) == Zeros(cols);
  }

  lemma PaddedOneMore(line: Line, c: Byte, cols: nat)
    requires |line| < cols
    ensures Padded(line, cols)[|line|] == 0 && Padded(line + [c], cols) == Padded(line, cols)[|line| := c]
  {
  }

  /** The row of the last line is the row of the cursor. */
  lemma LastRow(paper: seq<Line>, rows: nat, cols: nat, row: nat)
    requires rows >= 1 && PaperOk(paper, cols) && row + Gone(paper, rows) == |paper| - 1
    ensures row < rows && RowOf(paper, rows, cols, row) == Padded(paper[|paper| - 1], cols)
  {
  }

  /** A byte added to the last line shows as one changed cell, which was blank. */
  lemma CellShows(paper: seq<Line>, rows: nat, cols: nat, c: Byte, grid: seq<seq<Byte>>, row: nat, col: nat)
    requires rows >= 1 && Shows(paper, rows, cols, grid)
    requires row + Gone(paper, rows) == |paper| - 1 && col == |paper[|paper| - 1]| < cols
    ensures row < rows && grid[row][col] == 0
    ensures Shows(paper[|paper| - 1 := paper[|paper| - 1] + [c]], rows, cols, grid[row := grid[row][col := c]])
  {
    var n := |paper|;
    var paper' := paper[n - 1 := paper[n - 1] + [c]];
    PaddedOneMore(paper[n - 1], c, cols);
    LastRow(paper, rows, cols, row);
    LastRow(paper', rows, cols, row);
    var grid' := grid[row := grid[row][col := c]];
    forall r | 0 <= r < rows
      ensures grid'[r] == RowOf(paper', rows, cols, r)
    {
      if r != row { OtherRow(paper, rows, cols, c, r); }
    }
  }

  lemma OtherRow(paper: seq<Line>, rows: nat, cols: nat, c: Byte, r: nat)
    requires PaperOk(paper, cols) && |paper[|paper| - 1]| < cols && r + Gone(paper, rows) != |paper| - 1
    ensures PaperOk(paper[|paper| - 1 := paper[|paper| - 1] + [c]], cols)
    ensures RowOf(paper[|paper| - 1 := paper[|paper| - 1] + [c]], rows, cols, r) == RowOf(paper, rows, cols, r)
  {
  }
}
