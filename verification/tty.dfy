/** The kernel's text terminal: a cursor (row, column) and a style, and the
    screen cells each operation writes.

    The cell store itself sits behind two calls whose definitions are not
    part of this model, `vga::write(char, a, b)` and `vga::read(a, b)`. Every
    operation here therefore yields, besides the new cursor, the list of
    those calls in the order it makes them, with their two position
    arguments exactly as passed. Cursor fields are `usize`, and an
    arithmetic overflow on them panics. */
module Tty {
  import opened Common
  import opened Vga

  /** `vga::write(c, first, second)`, or `vga::write(vga::read(fromFirst,
      fromSecond), toFirst, toSecond)`: a cell copied without being looked at. */
  datatype CellOp =
    | Put(c: Char, first: nat, second: nat)
    | Copy(fromFirst: nat, fromSecond: nat, toFirst: nat, toSecond: nat)

  datatype Tty = Tty(row: U64, column: U64, style: bv8)

  /** The cursor after an operation, and the cell calls it made. */
  datatype Step = Step(tty: Tty, ops: seq<CellOp>)

  const NEWLINE: U8 := 0x0A
  const SPACE: U8 := 0x20

  /** `Tty::default()`: every field at its default. */
  function TtyDefault(): (t: Tty)
    ensures t.row == 0 && t.column == 0
  {
    Tty(0, 0, 0)
  }

  /** `set_style`. */
  function SetStyle(t: Tty, background: Color, foreground: Color): (t': Tty)
    ensures t'.row == t.row && t'.column == t.column
    ensures t'.style >> 4 == ColorCode(background) && t'.style & 0xF == ColorCode(foreground)
  {
    t.(style := StyleNew(background, foreground))
  }

  /** The cell a blank in style `style` puts. */
  function Blank(style: bv8): (c: Char)
    ensures c == CharNew(' ', style)
  {
    Char(SPACE, style)
  }

  /** `new_line`: column 0, next row, no cell written; the increment panics
      on the last `usize`. */
  function NewLine(t: Tty): (r: Outcome<Tty>)
    ensures r.Value? <==> t.row < TWO_64 - 1
    ensures r.Value? ==> r.value.row == t.row + 1 && r.value.column == 0 && r.value.style == t.style
  {
    if t.row + 1 < TWO_64 then Value(t.(row := t.row + 1, column := 0))
    else Panic("attempt to add with overflow")
  }

  /** `write_byte`: a newline is exactly `new_line`; any other byte first
      wraps to the next row when the column is past the last one, then is
      written at the cursor, and the column advances. */
  function WriteByte(t: Tty, byte: U8): (r: Outcome<Step>)
    ensures byte == NEWLINE ==>
      (r.Value? <==> NewLine(t).Value?) && (r.Value? ==> r.value == Step(NewLine(t).value, []))
    ensures byte != NEWLINE && t.column < BUFFER_WIDTH ==>
      r == Value(Step(t.(column := t.column + 1), [Put(Char(byte, t.style), t.row, t.column)]))
    ensures byte != NEWLINE && t.column >= BUFFER_WIDTH ==>
      (r.Value? <==> t.row < TWO_64 - 1) &&
      (r.Value? ==> r.value == Step(Tty(t.row + 1, 1, t.style), [Put(Char(byte, t.style), t.row + 1, 0)]))
    ensures r.Value? ==> r.value.tty.column <= BUFFER_WIDTH && r.value.tty.style == t.style
  {
    if byte == NEWLINE then
      match NewLine(t)
      case Panic(why) => Panic(why)
      case Value(t') => Value(Step(t', []))
    else
      var wrapped := if t.column >= BUFFER_WIDTH then NewLine(t) else Value(t);
      match wrapped
      case Panic(why) => Panic(why)
      case Value(t') =>
        Value(Step(t'.(column := t'.column + 1), [Put(Char(byte, t'.style), t'.row, t'.column)]))
  }

  /** `write_char`: the character's code point cut to its low byte. */
  function CharByte(c: char): (b: U8)
    ensures CharNew(c, 0).ch == b
  {
    (c as int) % 256
  }

  /** `write_str`: `write_char` of every character in turn; the cell calls
      of all steps, in order. */
  function WriteStr(t: Tty, s: string): (r: Outcome<Step>)
    ensures r.Value? ==> r.value.tty.style == t.style
    ensures r.Value? ==> t.row <= r.value.tty.row <= t.row + |s|
    ensures |s| == 0 ==> r == Value(Step(t, []))
    decreases |s|
  {
    if |s| == 0 then Value(Step(t, []))
    else
      match WriteByte(t, CharByte(s[0]))
      case Panic(why) => Panic(why)
      case Value(first) =>
        match WriteStr(first.tty, s[1..])
        case Panic(why) => Panic(why)
        case Value(rest) => Value(Step(rest.tty, first.ops + rest.ops))
  }

  /** `clear_char`: blanks the cell left of the cursor and moves onto it;
      `column - 1` is evaluated first, so at column 0 nothing is written. */
  function ClearChar(t: Tty): (r: Outcome<Step>)
    ensures r.Panic? <==> t.column == 0
    ensures r.Value? ==> r.value.tty == t.(column := t.column - 1)
    ensures r.Value? ==> r.value.ops == [Put(Blank(t.style), t.row, t.column - 1)]
  {
    if t.column == 0 then Panic("attempt to subtract with overflow")
    else Value(Step(t.(column := t.column - 1), [Put(Blank(t.style), t.row, t.column - 1)]))
  }

  /** `clear_row(row)`: a blank in the current style at `(row, col)` for
      each column, left to right; the cursor does not move. */
  function ClearRow(t: Tty, row: U64): (ops: seq<CellOp>)
    ensures |ops| == BUFFER_WIDTH
    ensures forall col :: 0 <= col < BUFFER_WIDTH ==> ops[col] == Put(Blank(t.style), row, col)
  {
    seq(BUFFER_WIDTH, col requires 0 <= col => Put(Blank(t.style), row, col))
  }

  /** `clear_last_line`: a white-on-black blank at `(x, BUFFER_HEIGHT - 1)`
      for each column `x`. */
  function ClearLastLine(): (ops: seq<CellOp>)
    ensures |ops| == BUFFER_WIDTH
    ensures forall x :: 0 <= x < BUFFER_WIDTH ==> ops[x] == Put(CharNew(' ', StyleNew(Black, White)), x, LAST_ROW)
  {
    DefaultStyle();
    assert Blank(DEFAULT_STYLE) == CharNew(' ', StyleNew(Black, White));
    seq(BUFFER_WIDTH, x requires 0 <= x => Put(Blank(DEFAULT_STYLE), x, LAST_ROW))
  }

  /** `clear_last_line` and `clear_row(BUFFER_HEIGHT - 1)` pass the position
      in opposite orders: the two calls for the same column agree on their
      arguments only at column 24, where both read (24, 24), so at most one
      of them blanks the last screen row. */
  lemma ClearLastLineArgumentOrder(t: Tty, x: nat)
    requires x < BUFFER_WIDTH
    ensures ClearLastLine()[x].first == x && ClearLastLine()[x].second == LAST_ROW
    ensures ClearRow(t, LAST_ROW)[x].first == LAST_ROW && ClearRow(t, LAST_ROW)[x].second == x
    ensures (ClearLastLine()[x].first == ClearRow(t, LAST_ROW)[x].first) <==> x == LAST_ROW
    ensures ClearLastLine() != ClearRow(t, LAST_ROW)
  {
    var a, b := ClearLastLine(), ClearRow(t, LAST_ROW);
    assert a[0].first != b[0].first;
  }

  /** Where a copy of `scroll` lands: the cell of row `row`, column `col`,
      counted row by row. */
  function Offset(row: nat, col: nat): nat {
    row * BUFFER_WIDTH + col
  }

  /** `scroll`: each cell of rows 1 to 24 is read and written one row up,
      row by row and left to right; then the last row is cleared and the
      column goes back to 0. The row stays where it was. */
  method Scroll(t: Tty) returns (r: Step)
    ensures r.tty == t.(column := 0)
    ensures |r.ops| == BUFFER_HEIGHT * BUFFER_WIDTH
    ensures forall row, col :: 0 <= row < LAST_ROW && 0 <= col < BUFFER_WIDTH ==>
      r.ops[Offset(row, col)] == Copy(row + 1, col, row, col)
    ensures r.ops[Offset(LAST_ROW, 0)..] == ClearRow(t, LAST_ROW)
  {
    var ops: seq<CellOp> := [];
    // `dest` is the source's `row - 1`: the row being written.
    var dest := 0;
    while dest < LAST_ROW
      invariant 0 <= dest <= LAST_ROW
      invariant |ops| == Offset(dest, 0)
      invariant forall r', c :: 0 <= r' < dest && 0 <= c < BUFFER_WIDTH ==>
        ops[Offset(r', c)] == Copy(r' + 1, c, r', c)
    {
      var col := 0;
      while col < BUFFER_WIDTH
        invariant 0 <= col <= BUFFER_WIDTH
        invariant |ops| == Offset(dest, col)
        invariant forall r', c :: 0 <= r' < dest && 0 <= c < BUFFER_WIDTH ==>
          ops[Offset(r', c)] == Copy(r' + 1, c, r', c)
        invariant forall c :: 0 <= c < col ==> ops[Offset(dest, c)] == Copy(dest + 1, c, dest, c)
      {
        ops := ops + [Copy(dest + 1, col, dest, col)];
        col := col + 1;
      }
      dest := dest + 1;
    }
    var prefix := ops;
    ops := ops + ClearRow(t, LAST_ROW);
    assert ops[Offset(LAST_ROW, 0)..] == ClearRow(t, LAST_ROW);
    assert forall row, col :: 0 <= row < LAST_ROW && 0 <= col < BUFFER_WIDTH ==>
      ops[Offset(row, col)] == prefix[Offset(row, col)];
    r := Step(t.(column := 0), ops);
  }

  /** `write_row(s, row)`: clears `row`, moves the cursor to its start and
      writes `s` from there. */
  function WriteRow(t: Tty, s: string, row: U64): (r: Outcome<Step>)
    ensures r.Value? <==> WriteStr(t.(row := row, column := 0), s).Value?
    ensures r.Value? ==> |r.value.ops| >= BUFFER_WIDTH && r.value.ops[..BUFFER_WIDTH] == ClearRow(t, row)
  {
    match WriteStr(t.(row := row, column := 0), s)
    case Panic(why) => Panic(why)
    case Value(w) =>
      var ops := ClearRow(t, row) + w.ops;
      assert ops[..BUFFER_WIDTH] == ClearRow(t, row);
      Value(Step(w.tty, ops))
  }

  // ----- Properties -----

  /** No character of `s` is cut down to the newline byte. */
  predicate NoNewline(s: string) {
    forall i :: 0 <= i < |s| ==> CharByte(s[i]) != NEWLINE
  }

  /** The cells `s` occupies written left to right from `(row, column)`. */
  function Cells(s: string, style: bv8, row: nat, column: nat): (ops: seq<CellOp>)
    ensures |ops| == |s|
    ensures forall i :: 0 <= i < |s| ==> ops[i] == Put(Char(CharByte(s[i]), style), row, column + i)
  {
    seq(|s|, i requires 0 <= i < |s| => Put(Char(CharByte(s[i]), style), row, column + i))
  }

  /** Writing is sequential: the text `s + u` is written as `s`, then `u`
      from wherever `s` left the cursor, with the cell calls joined. */
  lemma {:induction false} WriteStrAppend(t: Tty, s: string, u: string)
    ensures WriteStr(t, s).Panic? ==> WriteStr(t, s + u).Panic?
    ensures WriteStr(t, s).Value? ==>
      var first := WriteStr(t, s).value;
      (WriteStr(t, s + u).Value? <==> WriteStr(first.tty, u).Value?) &&
      (WriteStr(t, s + u).Value? ==>
         WriteStr(t, s + u).value == Step(WriteStr(first.tty, u).value.tty, first.ops + WriteStr(first.tty, u).value.ops))
    decreases |s|
  {
    if |s| == 0 {
      assert s + u == u;
    } else {
      assert (s + u)[0] == s[0];
      assert (s + u)[1..] == s[1..] + u;
      match WriteByte(t, CharByte(s[0]))
      case Panic(_) =>
      case Value(head) =>
        WriteStrAppend(head.tty, s[1..], u);
        if WriteStr(t, s).Value? {
          var tail := WriteStr(head.tty, s[1..]).value;
          var after := WriteStr(tail.tty, u);
          if after.Value? {
            assert head.ops + (tail.ops + after.value.ops) == (head.ops + tail.ops) + after.value.ops;
          }
        }
    }
  }

  /** A text without newlines that fits on the rest of the row is written
      into the cells right of the cursor, one per character, and the
      column ends just past it. */
  lemma {:induction false} WriteStrFits(t: Tty, s: string)
    requires NoNewline(s) && t.column + |s| <= BUFFER_WIDTH
    ensures WriteStr(t, s) == Value(Step(t.(column := t.column + |s|), Cells(s, t.style, t.row, t.column)))
    decreases |s|
  {
    if |s| == 0 {
      assert Cells(s, t.style, t.row, t.column) == [];
    } else {
      assert CharByte(s[0]) != NEWLINE;
      var head := WriteByte(t, CharByte(s[0])).value;
      assert head.tty == t.(column := t.column + 1);
      NoNewlineTail(s);
      WriteStrFits(head.tty, s[1..]);
      CellsCons(s, t.style, t.row, t.column);
    }
  }

  lemma NoNewlineTail(s: string)
    requires NoNewline(s) && |s| > 0
    ensures NoNewline(s[1..])
  {
    forall i | 0 <= i < |s[1..]| ensures CharByte(s[1..][i]) != NEWLINE {
      assert s[1..][i] == s[i + 1];
    }
  }

  /** The first cell of a text, then the cells of the rest one column on. */
  lemma CellsCons(s: string, style: bv8, row: nat, column: nat)
    requires |s| > 0
    ensures Cells(s, style, row, column)
            == [Put(Char(CharByte(s[0]), style), row, column)] + Cells(s[1..], style, row, column + 1)
  {
    var cells := Cells(s, style, row, column);
    var rest := [Put(Char(CharByte(s[0]), style), row, column)] + Cells(s[1..], style, row, column + 1);
    forall i | 0 <= i < |s| ensures rest[i] == cells[i] {
      if i > 0 {
        assert s[1..][i - 1] == s[i];
      }
    }
  }

  /** Writing a one-character string is writing that character's byte. */
  lemma WriteStrSingle(t: Tty, c: char)
    ensures WriteByte(t, CharByte(c)).Panic? ==> WriteStr(t, [c]).Panic?
    ensures WriteByte(t, CharByte(c)).Value? ==> WriteStr(t, [c]) == WriteByte(t, CharByte(c))
  {
    assert [c][0] == c && [c][1..] == [];
    var first := WriteByte(t, CharByte(c));
    if first.Value? {
      assert first.value.ops + [] == first.value.ops;
    }
  }

  /** A lone newline only moves the cursor to the start of the next row. */
  lemma WriteNewline(t: Tty)
    requires t.row + 1 < TWO_64
    ensures WriteStr(t, "\n") == Value(Step(Tty(t.row + 1, 0, t.style), []))
  {
    assert "\n" == ['\n'];
    assert CharByte('\n') == NEWLINE;
    assert NewLine(t) == Value(Tty(t.row + 1, 0, t.style));
    WriteStrSingle(t, '\n');
  }

  /** A newline and then a text that fits: the text fills the next row
      from its first column. */
  lemma NewlineThenText(t: Tty, text: string)
    requires NoNewline(text) && |text| <= BUFFER_WIDTH && t.row + 1 < TWO_64
    ensures WriteStr(t, "\n" + text) ==
      Value(Step(Tty(t.row + 1, |text|, t.style), Cells(text, t.style, t.row + 1, 0)))
  {
    var s := "\n" + text;
    assert s[0] == '\n' && s[1..] == text;
    NewlineFirst(t, s);
  }

  lemma NewlineFirst(t: Tty, s: string)
    requires |s| > 0 && s[0] == '\n'
    requires NoNewline(s[1..]) && |s| - 1 <= BUFFER_WIDTH && t.row + 1 < TWO_64
    ensures WriteStr(t, s) ==
      Value(Step(Tty(t.row + 1, |s| - 1, t.style), Cells(s[1..], t.style, t.row + 1, 0)))
  {
    var down := Tty(t.row + 1, 0, t.style);
    assert CharByte(s[0]) == NEWLINE;
    assert NewLine(t) == Value(down);
    assert WriteByte(t, CharByte(s[0])) == Value(Step(down, []));
    WriteStrUnfold(t, s);
    WriteStrFits(down, s[1..]);
    var cells: seq<CellOp> := Cells(s[1..], t.style, t.row + 1, 0);
    assert [] + cells == cells;
  }

  /** One step of `write_str` when the first character is written. */
  lemma WriteStrUnfold(t: Tty, s: string)
    requires |s| > 0 && WriteByte(t, CharByte(s[0])).Value?
    ensures var head := WriteByte(t, CharByte(s[0])).value;
            var rest := WriteStr(head.tty, s[1..]);
            WriteStr(t, s) == (if rest.Panic? then rest else Value(Step(rest.value.tty, head.ops + rest.value.ops)))
  {}

  /** A line printed between two newlines fills the next row from its
      first column and leaves the cursor at the start of the row after. */
  lemma PrintLine(t: Tty, text: string)
    requires NoNewline(text) && |text| <= BUFFER_WIDTH && t.row + 2 < TWO_64
    ensures WriteStr(t, "\n" + text + "\n") ==
      Value(Step(Tty(t.row + 2, 0, t.style), Cells(text, t.style, t.row + 1, 0)))
  {
    NewlineThenText(t, text);
    WriteNewline(Tty(t.row + 1, |text|, t.style));
    WriteStrAppend(t, "\n" + text, "\n");
    var cells := Cells(text, t.style, t.row + 1, 0);
    assert cells + [] == cells;
  }

  /** A byte written past the last column goes to column 0 of the next row
      and leaves the cursor at column 1 there. */
  lemma WrapsPastWidth(t: Tty, byte: U8)
    requires byte != NEWLINE && t.column >= BUFFER_WIDTH && t.row < TWO_64 - 1
    ensures WriteByte(t, byte) == Value(Step(Tty(t.row + 1, 1, t.style), [Put(Char(byte, t.style), t.row + 1, 0)]))
  {}

  /** `clear_char` undoes the cursor move of a written byte and blanks the
      very cell the byte went into. */
  lemma ClearCharAfterWrite(t: Tty, byte: U8)
    requires byte != NEWLINE && t.column < BUFFER_WIDTH
    ensures var w := WriteByte(t, byte).value;
      ClearChar(w.tty).Value? &&
      ClearChar(w.tty).value.tty == t &&
      ClearChar(w.tty).value.ops[0].first == w.ops[0].first &&
      ClearChar(w.tty).value.ops[0].second == w.ops[0].second
  {}

  /** Characters with the same low byte write the same cells: `write_char`
      sees only `char as u8`. */
  lemma {:induction false} WriteStrTruncates(t: Tty, s: string, u: string)
    requires |s| == |u|
    requires forall i :: 0 <= i < |s| ==> CharByte(s[i]) == CharByte(u[i])
    ensures WriteStr(t, s) == WriteStr(t, u)
    decreases |s|
  {
    if |s| > 0 {
      assert CharByte(s[0]) == CharByte(u[0]);
      match WriteByte(t, CharByte(s[0]))
      case Panic(_) =>
      case Value(head) =>
        forall i | 0 <= i < |s[1..]| ensures CharByte(s[1..][i]) == CharByte(u[1..][i]) {
          assert s[1..][i] == s[i + 1] && u[1..][i] == u[i + 1];
        }
        WriteStrTruncates(head.tty, s[1..], u[1..]);
    }
  }

  /** A row written with a text that fits: the row is blanked, then the
      text's cells follow from its first column, and the cursor ends on
      that row just past the text. */
  lemma WriteRowFits(t: Tty, s: string, row: U64)
    requires NoNewline(s) && |s| <= BUFFER_WIDTH
    ensures WriteRow(t, s, row) ==
      Value(Step(Tty(row, |s|, t.style), ClearRow(t, row) + Cells(s, t.style, row, 0)))
  {
    WriteStrFits(t.(row := row, column := 0), s);
  }

  /** From the default cursor a short line lands on row 0. */
  lemma DefaultWriteFits(s: string)
    requires NoNewline(s) && |s| <= BUFFER_WIDTH
    ensures WriteStr(TtyDefault(), s) == Value(Step(Tty(0, |s|, 0), Cells(s, 0, 0, 0)))
  {
    WriteStrFits(TtyDefault(), s);
  }
}
