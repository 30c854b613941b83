/** The shell's command table: a command line is matched exactly against
    the known command names. */
module Commands {
  /** The status `kernel::exit` reports. */
  datatype ExitCode = Success | Failed

  /** What running a command line gives: a reply to print, or the kernel
      leaving with an exit status, after which nothing else happens. */
  datatype Reply = Reply(text: string) | Exit(code: ExitCode)

  const HELLO_REPLY: string := "Hello world"
  const NOT_FOUND_REPLY: string := "Command not found"

  /** `commands::run`. */
  function Run(cmd: string): (r: Reply)
    ensures r.Exit? <==> cmd == "shutdown"
    ensures r.Exit? ==> r.code == Success
    ensures r.Reply? ==> r.text == (if cmd == "hello" then HELLO_REPLY else NOT_FOUND_REPLY)
  {
    if cmd == "hello" then Reply(HELLO_REPLY)
    else if cmd == "shutdown" then Exit(Success)
    else Reply(NOT_FOUND_REPLY)
  }

  /** The match is exact: a command line that differs from a command name
      by a trailing space, or by the case of one letter, is not found. */
  lemma RunIsExact()
    ensures Run("hello ") == Reply(NOT_FOUND_REPLY)
    ensures Run("Hello") == Reply(NOT_FOUND_REPLY)
    ensures Run(" shutdown") == Reply(NOT_FOUND_REPLY)
    ensures Run("") == Reply(NOT_FOUND_REPLY)
  {
    assert "hello " != "hello" by { assert |"hello "| != |"hello"|; }
    assert "Hello"[0] != "hello"[0];
    assert " shutdown" != "shutdown" by { assert |" shutdown"| != |"shutdown"|; }
  }

  /** Every reply is a single line short enough for one screen row. */
  lemma RepliesFitOneRow(cmd: string)
    requires Run(cmd).Reply?
    ensures 0 < |Run(cmd).text| <= 80
    ensures forall i :: 0 <= i < |Run(cmd).text| ==> (Run(cmd).text[i] as int) % 256 != 0x0A
  {}
}
