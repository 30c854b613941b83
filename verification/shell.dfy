/** The interactive shell: a command line being typed, drawn as a prompt
    on the terminal's current row, and run when Enter is pressed.

    The terminal is the `Tty` model; the key stream and its decoding are
    not part of this model, so each operation takes the decoded character. */
module Shell {
  import opened Common
  import Vga
  import opened Tty
  import opened Commands

  datatype Shell = Shell(cmd: string)

  /** What handling a key leads to: the shell goes on with the terminal's
      new cursor and the cell calls made, or the kernel has exited, or the
      terminal code panicked. */
  datatype KeyResult =
    | Continue(shell: Shell, step: Step)
    | Halted(code: ExitCode)
    | Crashed(reason: string)

  const BACKSPACE: U8 := 0x08
  const PROMPT: string := "> "

  /** `Shell::new`. */
  function ShellNew(): (sh: Shell)
    ensures |sh.cmd| == 0
  {
    Shell("")
  }

  /** `render`: the prompt and the command line written over the
      terminal's current row. */
  function Render(sh: Shell, t: Tty): (r: Outcome<Step>)
    ensures r.Value? ==> |r.value.ops| >= Vga.BUFFER_WIDTH && r.value.ops[..Vga.BUFFER_WIDTH] == ClearRow(t, t.row)
  {
    WriteRow(t, PROMPT + sh.cmd, t.row)
  }

  /** Goes on with `sh` after rendering it, or stops at a panic. */
  function Rendered(sh: Shell, t: Tty): (r: KeyResult)
    ensures r.Continue? <==> Render(sh, t).Value?
    ensures r.Continue? ==> r.shell == sh && r.step == Render(sh, t).value
  {
    match Render(sh, t)
    case Panic(why) => Crashed(why)
    case Value(step) => Continue(sh, step)
  }

  /** `enter`: runs the command line; a reply is printed on a line of its
      own, then the command line is emptied and the prompt drawn again. */
  function Enter(sh: Shell, t: Tty): (r: KeyResult)
    ensures r.Halted? <==> Run(sh.cmd).Exit?
    ensures r.Continue? ==> r.shell == ShellNew()
  {
    match Run(sh.cmd)
    case Exit(code) => Halted(code)
    case Reply(text) =>
      match WriteStr(t, "\n" + text + "\n")
      case Panic(why) => Crashed(why)
      case Value(printed) =>
        match Rendered(ShellNew(), printed.tty)
        case Continue(sh', drawn) => Continue(sh', Step(drawn.tty, printed.ops + drawn.ops))
        case other => other
  }

  /** `String::pop`: the last character goes, if there is one. */
  function Pop(s: string): (r: string)
    ensures |s| == 0 ==> r == s
    ensures |s| > 0 ==> r + [s[|s| - 1]] == s
  {
    if |s| == 0 then s else s[..|s| - 1]
  }

  /** `handle_keypress`: the key is classified by its low byte only; a
      newline runs the command line, a backspace removes its last
      character, and anything else is appended whole. */
  function HandleKeypress(sh: Shell, t: Tty, c: char): (r: KeyResult)
    ensures CharByte(c) == NEWLINE ==> r == Enter(sh, t)
    ensures CharByte(c) == BACKSPACE ==> r == Rendered(Shell(Pop(sh.cmd)), t)
    ensures CharByte(c) != NEWLINE && CharByte(c) != BACKSPACE ==> r == Rendered(Shell(sh.cmd + [c]), t)
    ensures r.Halted? ==> CharByte(c) == NEWLINE && sh.cmd == "shutdown"
  {
    var byte := CharByte(c);
    if byte == NEWLINE then Enter(sh, t)
    else if byte == BACKSPACE then Rendered(Shell(Pop(sh.cmd)), t)
    else Rendered(Shell(sh.cmd + [c]), t)
  }

  // ----- Properties -----

  /** Two characters with the same low byte are the same key: U+010A runs
      the command line like a newline does, and U+0108 deletes like a
      backspace. */
  lemma KeysByLowByte(sh: Shell, t: Tty)
    ensures HandleKeypress(sh, t, '\U{10A}') == HandleKeypress(sh, t, '\n')
    ensures HandleKeypress(sh, t, '\U{108}') == HandleKeypress(sh, t, '\U{8}')
  {
    assert CharByte('\U{10A}') == NEWLINE;
    assert CharByte('\U{108}') == BACKSPACE;
  }

  /** A character typed and then deleted leaves the command line as it
      was, whatever happened on screen in between. */
  lemma TypeThenDelete(sh: Shell, t: Tty, t': Tty, c: char)
    requires CharByte(c) != NEWLINE && CharByte(c) != BACKSPACE
    requires HandleKeypress(sh, t, c).Continue?
    ensures HandleKeypress(HandleKeypress(sh, t, c).shell, t', '\U{8}').Continue? ==>
      HandleKeypress(HandleKeypress(sh, t, c).shell, t', '\U{8}').shell == sh
  {
    assert CharByte('\U{8}') == BACKSPACE;
    var typed := sh.cmd + [c];
    assert typed[..|typed| - 1] == sh.cmd;
  }

  /** A command line that fits on the row is drawn as the row blanked,
      then the prompt and the command from its first column, with the
      cursor left just past them. */
  lemma RenderFits(sh: Shell, t: Tty)
    requires NoNewline(sh.cmd) && |PROMPT| + |sh.cmd| <= Vga.BUFFER_WIDTH
    ensures Render(sh, t) ==
      Value(Step(Tty(t.row, |PROMPT| + |sh.cmd|, t.style),
                 ClearRow(t, t.row) + Cells(PROMPT + sh.cmd, t.style, t.row, 0)))
  {
    var line := PROMPT + sh.cmd;
    assert NoNewline(line) by {
      forall i | 0 <= i < |line| ensures CharByte(line[i]) != NEWLINE {
        if i >= |PROMPT| {
          assert line[i] == sh.cmd[i - |PROMPT|];
        }
      }
    }
    WriteRowFits(t, line, t.row);
  }

  /** Enter on a command that replies: the reply goes on the next row from
      its first column, and the empty prompt on the row after that. */
  lemma EnterReplies(sh: Shell, t: Tty)
    requires Run(sh.cmd).Reply? && t.row + 2 < TWO_64
    ensures var text := Run(sh.cmd).text;
      Enter(sh, t) ==
        Continue(ShellNew(),
          Step(Tty(t.row + 2, |PROMPT|, t.style),
               Cells(text, t.style, t.row + 1, 0)
               + ClearRow(t, t.row + 2) + Cells(PROMPT, t.style, t.row + 2, 0)))
  {
    var text := Run(sh.cmd).text;
    RepliesFitOneRow(sh.cmd);
    var next := Tty(t.row + 2, 0, t.style);
    PrintLine(t, text);
    RenderFits(ShellNew(), next);
    assert PROMPT + ShellNew().cmd == PROMPT;
    assert ClearRow(next, next.row) == ClearRow(t, t.row + 2);
  }

  /** Enter on `shutdown` exits with success and draws nothing. */
  lemma EnterShutdown(t: Tty)
    ensures HandleKeypress(Shell("shutdown"), t, '\n') == Halted(Success)
  {}
}
