/** The VGA text-mode writer: a 25 x 80 screen of (byte, style) cells
    that is always written on its bottom row and scrolls up by one row on
    each new line. The screen is a value here instead of memory at 0xB8000. */
module Vga {
  import opened Common

  const BUFFER_HEIGHT: nat := 25
  const BUFFER_WIDTH: nat := 80
  /** The row every byte is written to. */
  const LAST_ROW: nat := BUFFER_HEIGHT - 1

  datatype Color =
    | Black | Blue | Green | Cyan | Red | Magenta | Brown | LightGrey
    | DarkGrey | LightBlue | LightGreen | LightCyan | LightRed | LightMagenta | LightBrown | White

  /** The `repr(u8)` discriminant of a colour. */
  function ColorCode(c: Color): (code: bv8)
    ensures code < 16
  {
    match c
    case Black => 0 case Blue => 1 case Green => 2 case Cyan => 3
    case Red => 4 case Magenta => 5 case Brown => 6 case LightGrey => 7
    case DarkGrey => 8 case LightBlue => 9 case LightGreen => 10 case LightCyan => 11
    case LightRed => 12 case LightMagenta => 13 case LightBrown => 14 case White => 15
  }

  /** `CharStyle::new`: background in the high nibble, foreground in the
      low nibble. */
  function StyleNew(background: Color, foreground: Color): (style: bv8)
    ensures style >> 4 == ColorCode(background)
    ensures style & 0xF == ColorCode(foreground)
  {
    (ColorCode(background) << 4) | ColorCode(foreground)
  }

  /** Distinct colour pairs give distinct styles. */
  lemma StyleInjective(b1: Color, f1: Color, b2: Color, f2: Color)
    requires StyleNew(b1, f1) == StyleNew(b2, f2)
    ensures b1 == b2 && f1 == f2
  {
    ColorCodeInjective(b1, b2);
    ColorCodeInjective(f1, f2);
  }

  lemma ColorCodeInjective(c: Color, d: Color)
    requires ColorCode(c) == ColorCode(d)
    ensures c == d
  {}

  /** The style every writer starts with: white on black. */
  const DEFAULT_STYLE: bv8 := 0x0F

  lemma DefaultStyle()
    ensures StyleNew(Black, White) == DEFAULT_STYLE
  {}

  /** One screen cell. */
  datatype Char = Char(ch: U8, style: bv8)

  /** `Char::from(char)`: the code point truncated to its low byte, white
      on black. */
  function CharFrom(c: char): (r: Char)
    ensures r.ch == (c as int) % 256 && r.style == StyleNew(Black, White)
  {
    DefaultStyle();
    Char((c as int) % 256, DEFAULT_STYLE)
  }

  /** `Char::new`: the code point truncated to its low byte, the given
      style. */
  function CharNew(c: char, style: bv8): (r: Char)
    ensures r.ch == (c as int) % 256 && r.style == style
  {
    Char((c as int) % 256, style)
  }

  type Row = r: seq<Char> | |r| == BUFFER_WIDTH
    witness seq(BUFFER_WIDTH, _ => Char(0, 0))

  type Screen = b: seq<Row> | |b| == BUFFER_HEIGHT
    witness seq(BUFFER_HEIGHT, _ => seq(BUFFER_WIDTH, _ => Char(0, 0)))

  /** `Buffer::write`: the one cell at column `x` of row `y` becomes `c`;
      an index outside the screen panics. */
  function BufferWrite(b: Screen, c: Char, x: nat, y: nat): (r: Outcome<Screen>)
    ensures r.Value? <==> y < BUFFER_HEIGHT && x < BUFFER_WIDTH
    ensures r.Value? ==> r.value[y][x] == c
    ensures r.Value? ==> forall i, j :: 0 <= i < BUFFER_HEIGHT && 0 <= j < BUFFER_WIDTH && (i, j) != (y, x)
                                      ==> r.value[i][j] == b[i][j]
  {
    if y < BUFFER_HEIGHT && x < BUFFER_WIDTH then Value(b[y := b[y][x := c]])
    else Panic("index out of bounds")
  }

  /** `Writer`: the screen, the column the next byte goes to on the bottom
      row, and the current style. */
  datatype Writer = Writer(buffer: Screen, column: nat, style: bv8)

  /** `Writer::new`: column 0, white on black. */
  function WriterNew(b: Screen): (w: Writer)
    ensures w.buffer == b && w.column == 0 && w.style == StyleNew(Black, White)
  {
    DefaultStyle();
    Writer(b, 0, DEFAULT_STYLE)
  }

  /** A row of spaces in `style`. */
  function BlankRow(style: bv8): (r: Row)
    ensures forall j :: 0 <= j < BUFFER_WIDTH ==> r[j] == Char(0x20, style)
  {
    seq(BUFFER_WIDTH, _ => Char(0x20, style))
  }

  /** `clear_row`: every cell of row `row` becomes a space in the current
      style; the other rows, the column and the style are kept. Its one
      caller passes the bottom row. */
  function ClearRow(w: Writer, row: nat): (r: Writer)
    requires row < BUFFER_HEIGHT
    ensures forall j :: 0 <= j < BUFFER_WIDTH ==> r.buffer[row][j] == Char(0x20, w.style)
    ensures forall i :: 0 <= i < BUFFER_HEIGHT && i != row ==> r.buffer[i] == w.buffer[i]
    ensures r.column == w.column && r.style == w.style
  {
    w.(buffer := w.buffer[row := BlankRow(w.style)])
  }

  /** `new_line`: every row moves up by one (the top row is lost), the
      bottom row is blanked in the current style, and the column returns
      to 0. */
  function NewLine(w: Writer): (r: Writer)
    ensures forall i :: 0 <= i < LAST_ROW ==> r.buffer[i] == w.buffer[i + 1]
    ensures forall j :: 0 <= j < BUFFER_WIDTH ==> r.buffer[LAST_ROW][j] == Char(0x20, w.style)
    ensures r.column == 0 && r.style == w.style
  {
    var shifted: Screen := w.buffer[1..] + [w.buffer[LAST_ROW]];
    ClearRow(w.(buffer := shifted, column := 0), LAST_ROW)
  }

  /** `new_line` as the code runs it: cell by cell, each row copied onto
      the one above, then the bottom row cleared. */
  method NewLineInPlace(w: Writer) returns (r: Writer)
    ensures r == NewLine(w)
  {
    var b := w.buffer;
    var row := 1;
    while row < BUFFER_HEIGHT
      invariant 1 <= row <= BUFFER_HEIGHT
      invariant forall i :: 0 <= i < row - 1 ==> b[i] == w.buffer[i + 1]
      invariant forall i :: row - 1 <= i < BUFFER_HEIGHT ==> b[i] == w.buffer[i]
    {
      var col := 0;
      var above := b[row - 1];
      while col < BUFFER_WIDTH
        invariant 0 <= col <= BUFFER_WIDTH && |above| == BUFFER_WIDTH
        invariant forall j :: 0 <= j < col ==> above[j] == b[row][j]
        invariant forall j :: col <= j < BUFFER_WIDTH ==> above[j] == b[row - 1][j]
      {
        above := above[col := b[row][col]];
        col := col + 1;
      }
      assert above == b[row];
      b := b[row - 1 := above];
      row := row + 1;
    }
    var cleared := ClearRowInPlace(b, LAST_ROW, w.style);
    r := Writer(cleared, 0, w.style);
    assert r.buffer == NewLine(w).buffer;
  }

  /** `clear_row` as the code runs it, one cell at a time. */
  method ClearRowInPlace(b: Screen, row: nat, style: bv8) returns (b': Screen)
    requires row < BUFFER_HEIGHT
    ensures b' == b[row := BlankRow(style)]
  {
    var line := b[row];
    var col := 0;
    while col < BUFFER_WIDTH
      invariant 0 <= col <= BUFFER_WIDTH && |line| == BUFFER_WIDTH
      invariant forall j :: 0 <= j < col ==> line[j] == Char(0x20, style)
    {
      line := line[col := Char(0x20, style)];
      col := col + 1;
    }
    assert line == BlankRow(style);
    b' := b[row := line];
  }

  /** `write_byte`: a newline is exactly `new_line`. Any other byte first
      starts a new line if the bottom row is full, then lands in the bottom
      row at the column, which then advances. The column stays at most 80,
      and a byte that does not start a new line changes only its cell. */
  function WriteByte(w: Writer, byte: U8): (r: Writer)
    ensures byte == 0x0A ==> r == NewLine(w)
    ensures byte != 0x0A ==>
              var base := if w.column >= BUFFER_WIDTH then NewLine(w) else w;
              base.column < BUFFER_WIDTH
              && r.buffer == base.buffer[LAST_ROW := base.buffer[LAST_ROW][base.column := Char(byte, w.style)]]
              && r.column == base.column + 1 && r.style == w.style
    ensures r.column <= BUFFER_WIDTH
  {
    if byte == 0x0A then NewLine(w)
    else
      var w := if w.column >= BUFFER_WIDTH then NewLine(w) else w;
      var row := LAST_ROW;
      var col := w.column;
      var b := BufferWrite(w.buffer, Char(byte, w.style), col, row).value;
      w.(buffer := b, column := col + 1)
  }

  /** `write_string`'s byte filter: printable ASCII and newline pass,
      anything else is shown as 0xFE (a filled square). */
  function Sanitize(byte: U8): (r: U8)
    ensures (0x20 <= byte <= 0x7E || byte == 0x0A) ==> r == byte
    ensures !(0x20 <= byte <= 0x7E || byte == 0x0A) ==> r == 0xFE
  {
    if 0x20 <= byte <= 0x7E || byte == 0x0A then byte else 0xFE
  }

  /** `write_string`: each byte of the string through the filter, then
      `write_byte`. */
  function WriteString(w: Writer, s: seq<U8>): (r: Writer)
    ensures r.style == w.style
    ensures w.column <= BUFFER_WIDTH ==> r.column <= BUFFER_WIDTH
    ensures (forall i :: 0 <= i < |s| ==> s[i] != 0x0A) && w.column + |s| <= BUFFER_WIDTH ==>
              r.column == w.column + |s|
    decreases |s|
  {
    if |s| == 0 then w else WriteString(WriteByte(w, Sanitize(s[0])), s[1..])
  }

  /** Bytes written one after the other, with no filter. */
  function WriteBytes(w: Writer, s: seq<U8>): Writer
    decreases |s|
  {
    if |s| == 0 then w else WriteBytes(WriteByte(w, s[0]), s[1..])
  }

  function SanitizeAll(s: seq<U8>): (r: seq<U8>)
    ensures |r| == |s|
    ensures forall i :: 0 <= i < |s| ==> r[i] == Sanitize(s[i])
    ensures forall i :: 0 <= i < |r| ==> 0x20 <= r[i] <= 0x7E || r[i] == 0x0A || r[i] == 0xFE
  {
    if |s| == 0 then [] else [Sanitize(s[0])] + SanitizeAll(s[1..])
  }

  /** `write_string` writes one byte per input byte, each printable or a
      newline or 0xFE: it is the filtered string written byte by byte. */
  lemma {:induction false} WriteStringFilters(w: Writer, s: seq<U8>)
    ensures WriteString(w, s) == WriteBytes(w, SanitizeAll(s))
    decreases |s|
  {
    if |s| > 0 {
      WriteStringFilters(WriteByte(w, Sanitize(s[0])), s[1..]);
      assert SanitizeAll(s)[1..] == SanitizeAll(s[1..]);
    }
  }

  /** Writing two strings one after the other is writing their
      concatenation. */
  lemma {:induction false} WriteStringAppend(w: Writer, s: seq<U8>, t: seq<U8>)
    ensures WriteString(w, s + t) == WriteString(WriteString(w, s), t)
    decreases |s|
  {
    if |s| == 0 {
      assert s + t == t;
    } else {
      assert (s + t)[1..] == s[1..] + t;
      WriteStringAppend(WriteByte(w, Sanitize(s[0])), s[1..], t);
    }
  }

  /** A string with no newline, written from column 0, fills the bottom
      row from the left: byte i of the filtered string sits in cell i. */
  lemma {:induction false} WriteLineFromStart(w: Writer, s: seq<U8>)
    requires w.column == 0 && |s| <= BUFFER_WIDTH
    requires forall i :: 0 <= i < |s| ==> s[i] != 0x0A
    ensures var r := WriteString(w, s);
            r.column == |s|
            && (forall j :: 0 <= j < |s| ==> r.buffer[LAST_ROW][j] == Char(Sanitize(s[j]), w.style))
            && (forall i :: 0 <= i < LAST_ROW ==> r.buffer[i] == w.buffer[i])
  {
    WriteLineFrom(w, s, 0);
  }

  lemma {:induction false} WriteLineFrom(w: Writer, s: seq<U8>, k: nat)
    requires w.column == k && k + |s| <= BUFFER_WIDTH
    requires forall i :: 0 <= i < |s| ==> s[i] != 0x0A
    ensures var r := WriteString(w, s);
            r.column == k + |s| && r.style == w.style
            && (forall j :: 0 <= j < |s| ==> r.buffer[LAST_ROW][k + j] == Char(Sanitize(s[j]), w.style))
            && (forall j :: 0 <= j < k ==> r.buffer[LAST_ROW][j] == w.buffer[LAST_ROW][j])
            && (forall i :: 0 <= i < LAST_ROW ==> r.buffer[i] == w.buffer[i])
    decreases |s|
  {
    if |s| > 0 {
      var w1 := WriteByte(w, Sanitize(s[0]));
      WriteLineFrom(w1, s[1..], k + 1);
      var r := WriteString(w, s);
      forall j | 0 <= j < |s|
        ensures r.buffer[LAST_ROW][k + j] == Char(Sanitize(s[j]), w.style)
      {
        if j > 0 {
          assert s[1..][j - 1] == s[j];
        }
      }
    }
  }
}
