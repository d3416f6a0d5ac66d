/** Machine-level value types shared by the kernel's text output path. */
module Primitives {

  /** An unsigned 8-bit byte (Rust `u8`). */
  type byte = x: int | 0 <= x < 0x100

  /** An unsigned 32-bit value (Rust `u32`): a framebuffer cell or a colour. */
  type u32 = x: int | 0 <= x < 0x1_0000_0000

  /** The newline byte `b'\n'`. */
  const NEWLINE: byte := 0x0A

  /** `2^n`: the value of bit `n`. */
  function Pow2(n: nat): (r: nat)
    ensures r > 0
  {
    if n == 0 then 1 else 2 * Pow2(n - 1)
  }

  /** Whether bit `n` of `v` is set, i.e. `v & (1 << n) != 0`. */
  predicate TestBit(v: nat, n: nat) {
    (v / Pow2(n)) % 2 == 1
  }

  /** True when every character of `s` is in the 7-bit ASCII range. */
  predicate IsAscii(s: string) {
    forall i :: 0 <= i < |s| ==> s[i] as int < 0x80
  }

  /** The bytes of an ASCII string literal, as Rust stores a `&'static str`. */
  function AsciiBytes(s: string): (r: seq<byte>)
    requires IsAscii(s)
    ensures |r| == |s|
    ensures forall i :: 0 <= i < |s| ==> r[i] == s[i] as int
  {
    seq(|s|, i requires 0 <= i < |s| => s[i] as int)
  }
}

/** The optional-value wrapper used for Rust's `Option`. */
module Wrappers {

  datatype Option<+T> = None | Some(value: T)
}
