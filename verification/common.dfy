/** Shared vocabulary of the kernel model: fixed-width integer ranges, the
    Option and Result types the Rust code returns, and the Outcome type that
    stands for a computation which may panic.

    Arithmetic follows a debug build of the kernel: an integer overflow or
    underflow panics instead of wrapping, so every operation that the Rust
    code performs with `+`, `-` or `*` on fixed-width integers returns an
    Outcome here. */
module Common {

  const TWO_8: int := 0x100
  const TWO_16: int := 0x1_0000
  const TWO_32: int := 0x1_0000_0000
  const TWO_64: int := 0x1_0000_0000_0000_0000

  /** Values of Rust's unsigned integer types. */
  type U8 = x: int | 0 <= x < TWO_8
  type U16 = x: int | 0 <= x < TWO_16
  type U32 = x: int | 0 <= x < TWO_32
  type U64 = x: int | 0 <= x < TWO_64

  /** Rust's `Option`. */
  datatype Option<+T> = None | Some(value: T)

  /** Rust's `Result`. */
  datatype Result<+T, +E> = Ok(value: T) | Err(error: E)

  /** The result of code that either returns a value or panics. */
  datatype Outcome<+T> = Value(value: T) | Panic(reason: string)

  /** Width of an x86 port access (`in`/`out` with 8, 16 or 32 bits). */
  datatype PortWidth = Byte | Word | Dword

  /** One access to an x86 I/O port. Port I/O is the only way the modelled
      drivers touch hardware, so each driver operation is described by the
      sequence of these events it performs. */
  datatype PortEvent =
    | Out(port: U16, width: PortWidth, value: int)
    | In(port: U16, width: PortWidth)
}
