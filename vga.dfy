/**
 * The text-mode writer of src/vga.rs: an 80 x 25 grid of (character byte,
 * colour attribute) cells and a column cursor. `write_byte` and
 * `write_string` write only the bottom row; `write_at` writes any cell.
 *
 * The pure part states the meaning: a Grid value, what `new_line`,
 * `write_at`, `write_byte` and `write_string` make of it (Scroll, PutChar,
 * WriteByteSpec, WriteStringSpec) and the lemmas about those. The class
 * Writer updates a two-dimensional array in place and is proved against them.
 */
module Vga {
  const BufferHeight: nat := 25
  const BufferWidth: nat := 80
  /** The row that is written: the bottom one. */
  const LastRow: nat := BufferHeight - 1

  newtype byte = x: int | 0 <= x < 256

  const Newline: byte := 10         // b'\n'
  const CarriageReturn: byte := 13  // b'\r'
  const Space: byte := 32           // b' '

  /** `Color`, whose discriminants are 0 to 15 in this order. */
  datatype Color =
    | Black | Blue | Green | Cyan | Red | Magenta | Brown | LightGray
    | DarkGray | LightBlue | LightGreen | LightCyan | LightRed | Pink | Yellow | White

  /** `color as u8`. */
  function ColorValue(c: Color): (v: bv8)
    ensures v < 16
  {
    match c
    case Black => 0      case Blue => 1        case Green => 2       case Cyan => 3
    case Red => 4        case Magenta => 5     case Brown => 6       case LightGray => 7
    case DarkGray => 8   case LightBlue => 9   case LightGreen => 10 case LightCyan => 11
    case LightRed => 12  case Pink => 13       case Yellow => 14     case White => 15
  }

  /** The colour whose discriminant is the nibble `v`, as the display
      hardware reads it. */
  function ColorOf(v: bv8): (c: Color)
    requires v < 16
    ensures ColorValue(c) == v
  {
    match v
    case 0 => Black      case 1 => Blue        case 2 => Green       case 3 => Cyan
    case 4 => Red        case 5 => Magenta     case 6 => Brown       case 7 => LightGray
    case 8 => DarkGray   case 9 => LightBlue   case 10 => LightGreen case 11 => LightCyan
    case 12 => LightRed  case 13 => Pink       case 14 => Yellow     case _ => White
  }

  /** Distinct colours have distinct discriminants. */
  lemma ColorOfValue(c: Color)
    ensures ColorOf(ColorValue(c)) == c
  {
  }

  /** `ColorCode`: an attribute byte. */
  datatype ColorCode = ColorCode(bits: bv8)

  /** `ColorCode::new`: `(background as u8) << 4 | (foreground as u8)`. The
      background occupies the high nibble and the foreground the low one. */
  function NewColorCode(foreground: Color, background: Color): (code: ColorCode)
    ensures code.bits >> 4 == ColorValue(background)
    ensures code.bits & 0xF == ColorValue(foreground)
  {
    ColorCode((ColorValue(background) << 4) | ColorValue(foreground))
  }

  /** The foreground colour the hardware reads from the low nibble. */
  function Foreground(code: ColorCode): Color {
    ColorOf(code.bits & 0xF)
  }

  /** The background colour the hardware reads from the high nibble. */
  function Background(code: ColorCode): Color {
    ColorOf(code.bits >> 4)
  }

  /** Both colours survive the packing. */
  lemma ColorCodeRoundTrip(foreground: Color, background: Color)
    ensures Foreground(NewColorCode(foreground, background)) == foreground
    ensures Background(NewColorCode(foreground, background)) == background
  {
    ColorOfValue(foreground);
    ColorOfValue(background);
  }

  /** `ScreenChar`. */
  datatype ScreenChar = ScreenChar(asciiCharacter: byte, colorCode: ColorCode)

  /** The contents of the text buffer, row by row. */
  type Grid = seq<seq<ScreenChar>>

  predicate WellShaped(g: Grid) {
    |g| == BufferHeight && forall r :: 0 <= r < |g| ==> |g[r]| == BufferWidth
  }

  /** Two grids with the same cells are the same grid. */
  lemma GridExtensional(a: Grid, b: Grid)
    requires WellShaped(a) && WellShaped(b)
    requires forall r, c :: 0 <= r < BufferHeight && 0 <= c < BufferWidth ==> a[r][c] == b[r][c]
    ensures a == b
  {
    forall r | 0 <= r < BufferHeight
      ensures a[r] == b[r]
    {
      assert |a[r]| == |b[r]|;
    }
  }

  /** The row of blanks `new_line` puts at the bottom. */
  function BlankRow(color: ColorCode): (row: seq<ScreenChar>)
    ensures |row| == BufferWidth
    ensures forall c :: 0 <= c < BufferWidth ==> row[c] == ScreenChar(Space, color)
  {
    seq(BufferWidth, _ => ScreenChar(Space, color))
  }

  /** `new_line` on the grid: every row moves up by one, the top row is
      lost and the bottom row is blank. */
  function Scroll(g: Grid, color: ColorCode): (r: Grid)
    requires WellShaped(g)
    ensures WellShaped(r)
  {
    g[1..] + [BlankRow(color)]
  }

  /** Scroll, cell by cell. */
  lemma ScrollCells(g: Grid, color: ColorCode)
    requires WellShaped(g)
    ensures forall r, c :: 0 <= r < LastRow && 0 <= c < BufferWidth ==>
      Scroll(g, color)[r][c] == g[r + 1][c]
    ensures forall c :: 0 <= c < BufferWidth ==>
      Scroll(g, color)[LastRow][c] == ScreenChar(Space, color)
  {
  }

  /** `write_at` on the grid: one cell replaced. */
  function PutChar(g: Grid, row: nat, column: nat, ch: ScreenChar): (r: Grid)
    requires WellShaped(g) && row < BufferHeight && column < BufferWidth
    ensures WellShaped(r)
    ensures r[row][column] == ch
    ensures forall i, j :: 0 <= i < BufferHeight && 0 <= j < BufferWidth && (i != row || j != column) ==>
      r[i][j] == g[i][j]
  {
    g[row := g[row][column := ch]]
  }

  /** The writer's state: the grid and `column_position`. */
  datatype WriterState = WriterState(grid: Grid, column: nat)

  /** `write_byte`: a newline scrolls and rewinds; any other byte goes to
      the bottom row at the cursor, after scrolling first when the row is
      full, and the cursor moves one to the right. */
  function WriteByteSpec(w: WriterState, color: ColorCode, b: byte): (r: WriterState)
    requires WellShaped(w.grid)
    ensures WellShaped(r.grid) && r.column <= BufferWidth
  {
    if b == Newline then
      WriterState(Scroll(w.grid, color), 0)
    else
      var start := if w.column >= BufferWidth then WriterState(Scroll(w.grid, color), 0) else w;
      WriterState(PutChar(start.grid, LastRow, start.column, ScreenChar(b, color)),
                  start.column + 1)
  }

  /** `write_string`: a carriage return only rewinds the cursor; every other
      byte, newline included, is written with `write_byte`. */
  function WriteStringSpec(w: WriterState, color: ColorCode, s: seq<byte>): (r: WriterState)
    requires WellShaped(w.grid)
    ensures WellShaped(r.grid)
    ensures w.column <= BufferWidth || s != [] ==> r.column <= BufferWidth
  {
    if s == [] then w
    else
      var before := WriteStringSpec(w, color, s[..|s| - 1]);
      var b := s[|s| - 1];
      if b == CarriageReturn then before.(column := 0) else WriteByteSpec(before, color, b)
  }

  /** A byte other than newline lands in the bottom row, at the cursor or,
      when the row is full, at column 0 of a freshly scrolled grid; the
      cursor ends one past it and no other cell changes. */
  lemma WriteBytePlacesCharacter(w: WriterState, color: ColorCode, b: byte)
    requires WellShaped(w.grid) && b != Newline
    ensures var r := WriteByteSpec(w, color, b);
      var column := if w.column >= BufferWidth then 0 else w.column;
      && r.column == column + 1
      && r.grid[LastRow][column] == ScreenChar(b, color)
      && (w.column < BufferWidth ==>
            forall i, j :: 0 <= i < BufferHeight && 0 <= j < BufferWidth && (i, j) != (LastRow, column) ==>
              r.grid[i][j] == w.grid[i][j])
      && (w.column >= BufferWidth ==>
            && (forall i, j :: 0 <= i < LastRow && 0 <= j < BufferWidth ==> r.grid[i][j] == w.grid[i + 1][j])
            && (forall j :: 0 < j < BufferWidth ==> r.grid[LastRow][j] == ScreenChar(Space, color)))
  {
    ScrollCells(w.grid, color);
  }

  /** A newline moves every row up, blanks the bottom row and rewinds. */
  lemma WriteNewlineScrolls(w: WriterState, color: ColorCode)
    requires WellShaped(w.grid)
    ensures var r := WriteByteSpec(w, color, Newline);
      && r.column == 0
      && (forall i, j :: 0 <= i < LastRow && 0 <= j < BufferWidth ==> r.grid[i][j] == w.grid[i + 1][j])
      && (forall j :: 0 <= j < BufferWidth ==> r.grid[LastRow][j] == ScreenChar(Space, color))
  {
    ScrollCells(w.grid, color);
  }

  /** A carriage return writes no cell and puts the cursor at column 0. */
  lemma CarriageReturnOnlyRewinds(w: WriterState, color: ColorCode, s: seq<byte>)
    requires WellShaped(w.grid)
    ensures WriteStringSpec(w, color, s + [CarriageReturn])
         == WriterState(WriteStringSpec(w, color, s).grid, 0)
  {
    assert (s + [CarriageReturn])[..|s|] == s;
  }

  /** Writing two strings one after the other is writing their concatenation:
      `write_fmt` may hand the text to `write_str` in any number of pieces. */
  lemma {:induction false} WriteStringConcat(w: WriterState, color: ColorCode, s: seq<byte>, t: seq<byte>)
    requires WellShaped(w.grid)
    ensures WriteStringSpec(w, color, s + t) == WriteStringSpec(WriteStringSpec(w, color, s), color, t)
    decreases |t|
  {
    if t == [] {
      assert s + t == s;
    } else {
      var t' := t[..|t| - 1];
      assert (s + t)[..|s + t| - 1] == s + t';
      assert (s + t)[|s + t| - 1] == t[|t| - 1];
      WriteStringConcat(w, color, s, t');
    }
  }

  /** Printable text (no newline, no carriage return) that fits in the rest
      of the bottom row appears there, byte k at column `column + k`, the
      cursor ends right after it, and no other cell changes. */
  lemma {:induction false} WriteStringPlacesText(w: WriterState, color: ColorCode, s: seq<byte>)
    requires WellShaped(w.grid)
    requires w.column + |s| <= BufferWidth
    requires forall k :: 0 <= k < |s| ==> s[k] != Newline && s[k] != CarriageReturn
    ensures var r := WriteStringSpec(w, color, s);
      && r.column == w.column + |s|
      && (forall k :: 0 <= k < |s| ==> r.grid[LastRow][w.column + k] == ScreenChar(s[k], color))
      && (forall i, j ::
            0 <= i < BufferHeight && 0 <= j < BufferWidth && (i != LastRow || j < w.column || w.column + |s| <= j)
            ==> r.grid[i][j] == w.grid[i][j])
    decreases |s|
  {
    if s != [] {
      var prefix := s[..|s| - 1];
      WriteStringPlacesText(w, color, prefix);
      var before := WriteStringSpec(w, color, prefix);
      WriteBytePlacesCharacter(before, color, s[|s| - 1]);
    }
  }

  /** `fmt::Result`. */
  datatype FmtResult = Ok | Err

  class Writer {
    var columnPosition: nat
    var colorCode: ColorCode
    /** The memory-mapped text buffer, as a plain array. */
    const buffer: array2<ScreenChar>

    ghost predicate Valid()
      reads this
    {
      buffer.Length0 == BufferHeight && buffer.Length1 == BufferWidth && columnPosition <= BufferWidth
    }

    ghost function Grid(): (g: Grid)
      reads buffer
      requires buffer.Length0 == BufferHeight && buffer.Length1 == BufferWidth
      ensures WellShaped(g)
      ensures forall r, c :: 0 <= r < BufferHeight && 0 <= c < BufferWidth ==> g[r][c] == buffer[r, c]
    {
      seq(BufferHeight, r requires 0 <= r < BufferHeight reads buffer =>
        seq(BufferWidth, c requires 0 <= c < BufferWidth reads buffer => buffer[r, c]))
    }

    ghost function State(): WriterState
      reads this, buffer
      requires buffer.Length0 == BufferHeight && buffer.Length1 == BufferWidth
    {
      WriterState(Grid(), columnPosition)
    }

    /** The `WRITER` static: column 0, green on black, over the given buffer. */
    constructor (buffer: array2<ScreenChar>)
      requires buffer.Length0 == BufferHeight && buffer.Length1 == BufferWidth
      ensures Valid() && this.buffer == buffer
      ensures columnPosition == 0 && colorCode == NewColorCode(Green, Black)
    {
      columnPosition := 0;
      colorCode := NewColorCode(Green, Black);
      this.buffer := buffer;
    }

    /** `write_byte`. */
    method WriteByte(b: byte)
      requires Valid()
      modifies this`columnPosition, buffer
      ensures Valid()
      ensures State() == WriteByteSpec(old(State()), colorCode, b)
    {
      var row := LastRow;
      if b == Newline {
        NewLine();
      } else {
        if columnPosition >= BufferWidth {
          NewLine();
        }
        var col := columnPosition;
        WriteAt(b, row, col);
        columnPosition := columnPosition + 1;
      }
      var high, low := SetCursor();
    }

    /** `write_at`: exactly the cell (row, column) changes. */
    method WriteAt(b: byte, row: nat, column: nat)
      requires buffer.Length0 == BufferHeight && buffer.Length1 == BufferWidth
      requires row < BufferHeight && column < BufferWidth
      modifies buffer
      ensures Grid() == PutChar(old(Grid()), row, column, ScreenChar(b, colorCode))
    {
      buffer[row, column] := ScreenChar(b, colorCode);
      GridExtensional(Grid(), PutChar(old(Grid()), row, column, ScreenChar(b, colorCode)));
    }

    /** `new_line`: copy every row onto the one above, blank the bottom row
        in the current colour and rewind the cursor. */
    method NewLine()
      requires buffer.Length0 == BufferHeight && buffer.Length1 == BufferWidth
      modifies this`columnPosition, buffer
      ensures columnPosition == 0
      ensures Grid() == Scroll(old(Grid()), colorCode)
    {
      for row := 1 to BufferHeight
        invariant forall i, j :: 0 <= i < row - 1 && 0 <= j < BufferWidth ==> buffer[i, j] == old(buffer[i + 1, j])
        invariant forall i, j :: row - 1 <= i < BufferHeight && 0 <= j < BufferWidth ==> buffer[i, j] == old(buffer[i, j])
      {
        for col := 0 to BufferWidth
          invariant forall i, j :: 0 <= i < row - 1 && 0 <= j < BufferWidth ==> buffer[i, j] == old(buffer[i + 1, j])
          invariant forall i, j :: i == row - 1 && 0 <= j < col ==> buffer[i, j] == old(buffer[i + 1, j])
          invariant forall i, j :: i == row - 1 && col <= j < BufferWidth ==> buffer[i, j] == old(buffer[i, j])
          invariant forall i, j :: row <= i < BufferHeight && 0 <= j < BufferWidth ==> buffer[i, j] == old(buffer[i, j])
        {
          var character := buffer[row, col];
          buffer[row - 1, col] := character;
        }
      }
      var blank := ScreenChar(Space, colorCode);
      for col := 0 to BufferWidth
        invariant forall i, j :: 0 <= i < LastRow && 0 <= j < BufferWidth ==> buffer[i, j] == old(buffer[i + 1, j])
        invariant forall j :: 0 <= j < col ==> buffer[LastRow, j] == blank
      {
        buffer[LastRow, col] := blank;
      }
      columnPosition := 0;
      ScrollCells(old(Grid()), colorCode);
      GridExtensional(Grid(), Scroll(old(Grid()), colorCode));
    }

    /** `set_cursor` without its port writes: the cursor position (bottom row,
        current column) split into the high and the low byte sent to the
        cursor registers; the conversions to `u8` panic unless the position
        is below 2^16. */
    method SetCursor() returns (high: byte, low: byte)
      requires LastRow * BufferWidth + columnPosition < 0x1_0000
      ensures high as int * 256 + low as int == LastRow * BufferWidth + columnPosition
    {
      var row := LastRow;
      var pos := row * BufferWidth + columnPosition;
      low := (pos % 256) as byte;   // pos & 0xff
      high := (pos / 256) as byte;  // pos >> 8
    }

    /** `write_string`. */
    method WriteString(s: seq<byte>)
      requires Valid()
      modifies this`columnPosition, buffer
      ensures Valid()
      ensures State() == WriteStringSpec(old(State()), colorCode, s)
    {
      for i := 0 to |s|
        invariant Valid()
        invariant State() == WriteStringSpec(old(State()), colorCode, s[..i])
      {
        assert s[..i + 1][..i] == s[..i];
        if s[i] == CarriageReturn {
          columnPosition := 0;
        } else {
          WriteByte(s[i]);
        }
      }
      assert s[..|s|] == s;
    }

    /** `fmt::Write::write_str`: never fails. */
    method WriteStr(s: seq<byte>) returns (result: FmtResult)
      requires Valid()
      modifies this`columnPosition, buffer
      ensures Valid() && result == Ok
      ensures State() == WriteStringSpec(old(State()), colorCode, s)
    {
      WriteString(s);
      return Ok;
    }
  }
}
