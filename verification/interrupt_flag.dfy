/** Enabling and disabling maskable interrupts. The interrupt flag is
    explicit state: `cli` clears it, `sti` sets it, and RFLAGS is read as a
    value. */
module InterruptFlag {

  /** RFLAGS bits declared by `RFlags`. Bit 9 is declared twice, as
      INTERRUPT_FLAG and as TRAP_FLAG, and bit 4 twice, as
      AUXILIARY_CARRY_FLAG and as PARITY_FLAG. */
  const RFLAGS_DECLARED: bv64 := (1 << 21) | (1 << 20) | (1 << 19) | (1 << 18) | (1 << 17) | (1 << 16)
                                 | (1 << 14) | (1 << 13) | (1 << 10) | (1 << 9) | (1 << 7) | (1 << 6)
                                 | (1 << 4) | 1
  const INTERRUPT_FLAG: bv64 := 1 << 9

  /** `are_enabled`: `RFlags::from_bits_truncate(rflags)` contains
      INTERRUPT_FLAG, that is, bit 9 of RFLAGS is set. */
  function AreEnabled(rflags: bv64): (enabled: bool)
    ensures enabled <==> (rflags >> 9) & 1 == 1
  {
    (rflags & RFLAGS_DECLARED) & INTERRUPT_FLAG == INTERRUPT_FLAG
  }

  datatype FlagEvent = Cli | Sti

  /** What `without_interrupts(f)` did: the instructions it issued, the
      interrupt flag when `f` was called, the flag on return, and the value
      `f` returned. */
  datatype Run<R> = Run(issued: seq<FlagEvent>, flagDuringF: bool, flagAfter: bool, out: R)

  /** `without_interrupts(f)` entered with interrupt flag `enabled`. The
      closure is a function from the flag it is called with to the flag it
      leaves and its result. */
  function WithoutInterrupts<R>(enabled: bool, f: bool -> (bool, R)): (r: Run<R>)
    ensures !r.flagDuringF
    ensures r.out == f(false).1
    ensures enabled ==> r.issued == [Cli, Sti] && r.flagAfter
    ensures !enabled ==> r.issued == [] && r.flagAfter == f(false).0
  {
    var during := if enabled then false else enabled;
    var (after, out) := f(during);
    if enabled then Run([Cli, Sti], during, true, out)
    else Run([], during, after, out)
  }

  /** When the closure leaves the interrupt flag as it found it, the flag
      after `without_interrupts` is the flag before it. */
  lemma WithoutInterruptsRestores<R>(enabled: bool, f: bool -> (bool, R))
    requires f(false).0 == false
    ensures WithoutInterrupts(enabled, f).flagAfter == enabled
  {}
}
