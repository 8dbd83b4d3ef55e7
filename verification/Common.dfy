/** Machine words: sums wrap at a power of two. */
module Machine {
  import Bits

  const TWO_32: int := 0x1_0000_0000
  const TWO_63: int := 0x8000_0000_0000_0000
  const TWO_64: int := 0x1_0000_0000_0000_0000

  type Byte = b: int | 0 <= b < 256

  lemma ModShift(x: int, m: int, q: int)
    requires m > 0
    ensures (x + m * q) % m == x % m
  {
    assert x + m * q == m * (x / m + q) + x % m;
    Bits.DivUnique(x + m * q, m, x / m + q, x % m);
  }

  /** Wrapping early or late makes no difference. */
  lemma ModAdd(x: int, y: int, m: int)
    requires m > 0
    ensures (x % m + y) % m == (x + y) % m
  {
    assert x + y == x % m + y + m * (x / m);
    ModShift(x % m + y, m, x / m);
  }
}

/** A value that may be missing. */
module Wrappers {
  datatype Option<T> = None | Some(value: T)
}

/** Strings as the C code walks them. */
module CString {
  const NUL: char := '\0'

  /** The characters of a string, its closing NUL included. */
  function CharAt(s: string, i: nat): char {
    if i < |s| then s[i] else NUL
  }
}
