/** The simpler line terminal: it collects typed characters into a command
    and echoes each one; pressing Enter does nothing yet. The echo is kept
    as the text handed to the screen writer. */
module Terminal {
  /** A decoded key: a character, or a key with no character, identified
      by its key code. */
  datatype DecodedKey = Unicode(c: char) | RawKey(code: nat)

  datatype Terminal = Terminal(command: string)

  /** `Terminal::new`. */
  function TerminalNew(): (t: Terminal)
    ensures |t.command| == 0
  {
    Terminal("")
  }

  /** `enter_cmd`: its body is empty. */
  function EnterCmd(t: Terminal): (t': Terminal)
    ensures t' == t
  {
    t
  }

  /** `key_press`: the new state and the text echoed. A newline goes to
      `enter_cmd` and echoes nothing; any other character is appended to
      the command and echoed; a key without a character is ignored. */
  function KeyPress(t: Terminal, key: DecodedKey): (r: (Terminal, string))
    ensures key == Unicode('\n') ==> r == (t, "")
    ensures key.Unicode? && key.c != '\n' ==> r == (Terminal(t.command + [key.c]), [key.c])
    ensures key.RawKey? ==> r == (t, "")
    ensures r.0.command == t.command + Chars(key) && r.1 == Chars(key)
  {
    match key
    case Unicode(c) =>
      if c == '\n' then (EnterCmd(t), "")
      else (Terminal(t.command + [c]), [c])
    case RawKey(_) => (t, "")
  }

  /** The keys pressed one after the other: the final state and all the
      echoed text. */
  function KeyPresses(t: Terminal, keys: seq<DecodedKey>): (r: (Terminal, string))
    decreases |keys|
  {
    if |keys| == 0 then (t, "")
    else
      var first := KeyPress(t, keys[0]);
      var rest := KeyPresses(first.0, keys[1..]);
      (rest.0, first.1 + rest.1)
  }

  /** The character a key types, if it types one other than newline. */
  function Chars(key: DecodedKey): (s: string)
    ensures |s| <= 1
  {
    if key.Unicode? && key.c != '\n' then [key.c] else ""
  }

  /** The characters of `keys` other than newline, in order. */
  function Typed(keys: seq<DecodedKey>): (s: string)
    ensures |s| <= |keys|
    ensures forall i :: 0 <= i < |s| ==> s[i] != '\n'
    decreases |keys|
  {
    if |keys| == 0 then ""
    else Chars(keys[0]) + Typed(keys[1..])
  }

  /** Typing extends the command by exactly the characters typed, and the
      screen is shown exactly those characters: the echo always matches
      what was added to the command. */
  lemma {:induction false} KeyPressesTyped(t: Terminal, keys: seq<DecodedKey>)
    ensures KeyPresses(t, keys).0.command == t.command + Typed(keys)
    ensures KeyPresses(t, keys).1 == Typed(keys)
    decreases |keys|
  {
    if |keys| == 0 {
      assert t.command + "" == t.command;
    } else {
      var first := KeyPress(t, keys[0]);
      KeyPressesTyped(first.0, keys[1..]);
      var head, later := Chars(keys[0]), Typed(keys[1..]);
      assert t.command + head + later == t.command + (head + later);
    }
  }

  /** From a fresh terminal the command is what was typed, and Enter never
      clears it. */
  lemma FreshTerminalCollects(keys: seq<DecodedKey>)
    ensures KeyPresses(TerminalNew(), keys).0.command == Typed(keys)
    ensures KeyPresses(TerminalNew(), keys + [Unicode('\n')]).0.command == Typed(keys)
  {
    KeyPressesTyped(TerminalNew(), keys);
    KeyPressesTyped(TerminalNew(), keys + [Unicode('\n')]);
    TypedAppendNewline(keys);
    assert "" + Typed(keys) == Typed(keys);
  }

  lemma {:induction false} TypedAppendNewline(keys: seq<DecodedKey>)
    ensures Typed(keys + [Unicode('\n')]) == Typed(keys)
    decreases |keys|
  {
    if |keys| == 0 {
      assert keys + [Unicode('\n')] == [Unicode('\n')];
      assert [Unicode('\n')][1..] == [];
    } else {
      assert (keys + [Unicode('\n')])[0] == keys[0];
      assert (keys + [Unicode('\n')])[1..] == keys[1..] + [Unicode('\n')];
      TypedAppendNewline(keys[1..]);
    }
  }
}
