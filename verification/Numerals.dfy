/** Printing numbers (`_vprintf`, `%u` and `%x`) and reading them back (`simple_strtoul`), with 32-bit `long`. */
module Numerals {
  import opened Machine
  import opened CString
  import Bits

  // ---------------------------------------------------------------- numerals

  /** The value of a digit of either case; not below any base for other characters. */
  function DigitOf(c: char): nat {
    if '0' <= c <= '9' then c as int - '0' as int
    else if 'a' <= c <= 'f' then c as int - 'a' as int + 10
    else if 'A' <= c <= 'F' then c as int - 'A' as int + 10
    else 255
  }

  /** The number a text of digits stands for. */
  function Value(s: string, base: nat): nat {
    if s == [] then 0 else Value(s[..|s| - 1], base) * base + DigitOf(s[|s| - 1])
  }

  ghost predicate AllDigits(s: string, base: nat) {
    forall c :: c in s ==> DigitOf(c) < base
  }

  /** The text is the numeral of n: its digits make up n, and it has no leading zero unless it is just "0". */
  ghost predicate IsNumeral(s: string, n: nat, base: nat) {
    s != [] && AllDigits(s, base) && Value(s, base) == n && (s[0] == '0' ==> s == "0")
  }

  lemma ValueAppend(s: string, c: char, base: nat)
    ensures Value(s + [c], base) == Value(s, base) * base + DigitOf(c)
  {
    assert (s + [c])[..|s|] == s;
  }

  ghost predicate AllZeros(z: string) {
    forall i :: 0 <= i < |z| ==> z[i] == '0'
  }

  lemma {:induction false} ZerosAreZero(z: string, base: nat)
    requires AllZeros(z)
    ensures Value(z, base) == 0
  {
    if z != [] { ZerosAreZero(z[..|z| - 1], base); }
  }

  lemma {:induction false} LeadingZeros(z: string, s: string, base: nat)
    requires AllZeros(z)
    ensures Value(z + s, base) == Value(s, base)
    decreases |s|
  {
    if s == [] {
      assert z + s == z;
      ZerosAreZero(z, base);
    } else {
      assert (z + s)[..|z + s| - 1] == z + s[..|s| - 1];
      LeadingZeros(z, s[..|s| - 1], base);
    }
  }

  // ---------------------------------------------------------------- printing

  /** `struct printf_info` with its digit buffer. */
  class PrintInfo {
    const buf: array<char>
    var bf: nat
    var zs: bool

    constructor ()
      ensures fresh(buf) && buf.Length == 12 && bf == 0 && !zs
    {
      buf := new char[12];
      bf, zs := 0, false;
    }

    /** What has been written. */
    function Text(): string
      reads this, buf
      requires bf <= buf.Length
    {
      buf[..bf]
    }

    method Out(c: char)
      requires bf < buf.Length
      modifies this, buf
      ensures bf == old(bf) + 1 && zs == old(zs) && Text() == old(Text()) + [c]
    {
      buf[bf] := c;
      bf := bf + 1;
    }

    method OutDgt(dgt: nat)
      requires bf < buf.Length && dgt < 16
      modifies this, buf
      ensures bf == old(bf) + 1 && zs && |Text()| == |old(Text())| + 1
      ensures Text()[..old(bf)] == old(Text()) && DigitOf(Text()[old(bf)]) == dgt
      ensures Text()[old(bf)] == '0' <==> dgt == 0
    {
      var c := (dgt + if dgt < 10 then '0' as int else 'a' as int - 10) as char;
      Out(c);
      zs := true;
    }
  }

  /** Repeated subtraction: a digit and what is left. */
  method Divide(num: nat, div: nat, base: nat) returns (rest: nat, dgt: nat)
    requires div > 0 && num < div * base
    ensures num == dgt * div + rest && rest < div && dgt < base
  {
    rest, dgt := num, 0;
    while rest >= div
      invariant num == dgt * div + rest
    {
      rest, dgt := rest - div, dgt + 1;
      assert dgt * div == (dgt - 1) * div + div;
    }
    FactorBelow(dgt, base, div);
  }

  lemma FactorBelow(a: nat, b: nat, m: nat)
    requires a * m < m * b
    ensures a < b
  {
  }

  /** Part of n has been written as digits, and `num` below `unit` is left. */
  ghost predicate Partly(s: string, zs: bool, n: nat, num: nat, unit: nat, base: nat) {
    && AllDigits(s, base) && n == Value(s, base) * unit + num && num < unit
    && zs == (s != []) && (s != [] ==> s[0] != '0' && Value(s, base) > 0)
  }

  lemma Regroup(v: nat, base: nat, dgt: nat, div: nat, rest: nat)
    ensures v * (div * base) + (dgt * div + rest) == (v * base + dgt) * div + rest
  {
  }

  lemma AppendDigit(s: string, zs: bool, c: char, n: nat, num: nat, div: nat, base: nat, dgt: nat, rest: nat)
    requires base > 1 && Partly(s, zs, n, num, div * base, base) && num == dgt * div + rest && rest < div && dgt < base
    requires DigitOf(c) == dgt && (c == '0' <==> dgt == 0) && (zs || dgt > 0)
    ensures Partly(s + [c], true, n, rest, div, base)
  {
    ValueAppend(s, c, base);
    Regroup(Value(s, base), base, dgt, div, rest);
    if s != [] { Bits.MulMonotone(base, Value(s, base)); }
  }

  lemma SkipDigit(s: string, n: nat, num: nat, div: nat, base: nat)
    requires Partly(s, false, n, num, div * base, base) && num < div
    ensures Partly(s, false, n, num, div, base)
  {
  }

  /** `div_out`: one digit, unless it would be a leading zero. */
  method DivOut(info: PrintInfo, num: nat, div: nat, base: nat, ghost n: nat) returns (rest: nat)
    requires 1 < base <= 16 && div > 0 && info.bf < info.buf.Length
    requires Partly(info.Text(), info.zs, n, num, div * base, base)
    modifies info, info.buf
    ensures info.bf <= old(info.bf) + 1 && info.bf <= info.buf.Length
    ensures Partly(info.Text(), info.zs, n, rest, div, base)
  {
    var dgt;
    rest, dgt := Divide(num, div, base);
    ghost var s, zs := info.Text(), info.zs;
    if info.zs || dgt > 0 {
      info.OutDgt(dgt);
      ghost var t := info.Text();
      assert t == s + [t[|s|]];
      AppendDigit(s, zs, t[|s|], n, num, div, base, dgt, rest);
    } else {
      assert num == rest;
      SkipDigit(s, n, num, div, base);
    }
  }

  /** 1, base, base squared and so on. */
  predicate Power(d: nat, base: nat)
    requires base > 1
  {
    d == 1 || (d > 1 && d % base == 0 && d / base < d && Power(d / base, base))
  }

  /** How often d can be divided before it is 0. */
  function Steps(d: nat, base: nat): nat
    requires base > 1
  {
    if d == 0 || d / base >= d then 0 else 1 + Steps(d / base, base)
  }

  lemma FirstDivisors()
    ensures Power(1_000_000_000, 10) && Steps(1_000_000_000, 10) == 10
    ensures Power(0x1000_0000, 16) && Steps(0x1000_0000, 16) == 8
  {
    assert Power(1_000, 10) && Steps(1_000, 10) == 4;
    assert Power(1_000_000, 10) && Steps(1_000_000, 10) == 7;
    assert Power(0x1_0000, 16) && Steps(0x1_0000, 16) == 5;
  }

  /** What the loop keeps: the digits still to come fit, and n is what is written and what is left. */
  ghost predicate Printing(info: PrintInfo, n: nat, num: nat, div: nat, unit: nat, base: nat)
    requires base > 1
    reads info, info.buf
  {
    && info.buf.Length == 12 && info.bf + Steps(div, base) <= 10 && Unit(unit, div, base)
    && Partly(info.Text(), info.zs, n, num, unit, base)
  }

  method NextDigit(info: PrintInfo, n: nat, num: nat, div: nat, ghost unit: nat, base: nat)
    returns (num': nat, div': nat)
    requires (base == 10 || base == 16) && div > 0 && Printing(info, n, num, div, unit, base)
    modifies info, info.buf
    ensures div' < div && Printing(info, n, num', div', div, base)
  {
    DivStep(div, base);
    num' := DivOut(info, num, div, base, n);
    div' := div / base;
  }

  lemma Printed(s: string, zs: bool, n: nat, num: nat, base: nat)
    requires Partly(s, zs, n, num, 1, base) && n > 0
    ensures IsNumeral(s, n, base)
  {
  }

  /** The digits from the highest power down. */
  method Loop(info: PrintInfo, n: nat, first: nat, base: nat)
    requires (base == 10 || base == 16) && Power(first, base) && Steps(first, base) <= 10 && 0 < n < first * base
    requires info.buf.Length == 12 && info.bf == 0 && !info.zs
    modifies info, info.buf
    ensures info.bf <= 10 && IsNumeral(info.Text(), n, base)
  {
    var num: nat, div: nat := n, first;
    ghost var unit: nat := first * base;
    assert info.Text() == [];
    while div > 0
      invariant Printing(info, n, num, div, unit, base)
      decreases div
    {
      ghost var last := div;
      num, div := NextDigit(info, n, num, div, unit, base);
      unit := last;
    }
    Printed(info.Text(), info.zs, n, num, base);
  }

  ghost predicate Unit(unit: nat, div: nat, base: nat)
    requires base > 1
  {
    if div == 0 then unit == 1 else Power(div, base) && unit == div * base
  }

  lemma DivStep(div: nat, base: nat)
    requires (base == 10 || base == 16) && Power(div, base)
    ensures div / base < div && Steps(div, base) == 1 + Steps(div / base, base)
    ensures if div == 1 then div / base == 0 else Power(div / base, base) && div / base > 0 && div == div / base * base
  {
    if base == 10 {
      assert div / 10 < div;
    } else {
      assert div / 16 < div;
    }
  }

  /** `%u` and `%x`: the numeral of n fits the 12-byte buffer with its closing NUL. */
  method Format(info: PrintInfo, n: nat, base: nat)
    requires n < TWO_32 && (base == 10 || base == 16)
    requires info.buf.Length == 12 && info.bf == 0 && !info.zs
    modifies info, info.buf
    ensures info.bf <= 10 && IsNumeral(info.Text(), n, base) && info.buf[info.bf] == NUL
  {
    if n == 0 {
      info.OutDgt(0);
      assert info.Text() == "0";
    } else {
      FirstDivisors();
      Loop(info, n, if base == 10 then 1_000_000_000 else 0x1000_0000, base);
    }
    ghost var s := info.Text();
    info.buf[info.bf] := NUL;
    assert info.Text() == s;
  }

  // ---------------------------------------------------------------- padding

  function Fill(c: char, k: nat): (s: string)
    ensures |s| == k && forall i :: 0 <= i < k ==> s[i] == c
  {
    seq(k, _ => c)
  }

  /** The field: padded on the left to the width. */
  method Pad(buf: array<char>, len: nat, width: nat, lz: bool) returns (out: string)
    requires len < buf.Length && buf[len] == NUL && NUL !in buf[..len]
    ensures out == Fill(if lz then '0' else ' ', if width > len then width - len else 0) + buf[..len]
  {
    assert forall k :: 0 <= k < len ==> buf[k] == buf[..len][k] && buf[k] != NUL;
    var left: nat, i: nat := width, 0;
    while buf[i] != NUL && left > 0
      invariant i <= len && left + i == width
      decreases left
    {
      left, i := left - 1, i + 1;
    }
    out := "";
    ghost var pad := left;
    ghost var c := if lz then '0' else ' ';
    while left > 0
      invariant left <= pad && out == Fill(c, pad - left)
    {
      out, left := out + [if lz then '0' else ' '], left - 1;
    }
    ghost var field := out;
    i := 0;
    while buf[i] != NUL
      invariant i <= len && out == field + buf[..i]
      decreases len - i
    {
      assert buf[..i + 1] == buf[..i] + [buf[i]];
      out, i := out + [buf[i]], i + 1;
    }
  }

  lemma DigitsNoNul(s: string, base: nat)
    requires AllDigits(s, base) && base <= 16
    ensures NUL !in s
  {
  }

  /** A number in a field: its numeral, padded with zeros or blanks. */
  method PrintNumber(n: nat, base: nat, width: nat, lz: bool) returns (out: string, text: string)
    requires n < TWO_32 && (base == 10 || base == 16)
    ensures IsNumeral(text, n, base)
    ensures out == Fill(if lz then '0' else ' ', if width > |text| then width - |text| else 0) + text
  {
    var info := new PrintInfo();
    Format(info, n, base);
    text := info.Text();
    DigitsNoNul(text, base);
    out := Pad(info.buf, info.bf, width, lz);
  }

  // ---------------------------------------------------------------- reading

  predicate IsX(c: char) {
    c == 'x' || c == 'X'
  }

  /** `_parse_integer_fixup_radix`: the base to use, and how many characters of prefix to skip. */
  function Radix(s: string, base: nat): (nat, nat) {
    var b :=
      if base != 0 then base
      else if CharAt(s, 0) != '0' then 10
      else if IsX(CharAt(s, 1)) && DigitOf(CharAt(s, 2)) < 16 then 16
      else 8;
    (b, if b == 16 && CharAt(s, 0) == '0' && IsX(CharAt(s, 1)) then 2 else 0)
  }

  /** The digits from the prefix on, as far as they go, and their value in 32 bits. */
  ghost predicate Parsed(s: string, base: nat, result: nat, end: nat) {
    var (b, skip) := Radix(s, base);
    && skip <= end <= |s| && AllDigits(s[skip..end], b) && DigitOf(CharAt(s, end)) >= b
    && result == Value(s[skip..end], b) % TWO_32
  }

  lemma ModStep(v: nat, base: nat, d: nat)
    ensures (v % TWO_32 * base + d) % TWO_32 == (v * base + d) % TWO_32
  {
    var q, r := v / TWO_32, v % TWO_32;
    assert v == TWO_32 * q + r;
    assert v * base == TWO_32 * (q * base) + r * base;
    ModShift(r * base + d, TWO_32, q * base);
  }

  lemma NextDigitValue(s: string, skip: nat, end: nat, b: nat, result: nat)
    requires skip <= end < |s| && AllDigits(s[skip..end], b) && DigitOf(s[end]) < b
    requires result == Value(s[skip..end], b) % TWO_32
    ensures AllDigits(s[skip..end + 1], b)
    ensures (result * b + DigitOf(s[end])) % TWO_32 == Value(s[skip..end + 1], b) % TWO_32
  {
    assert s[skip..end + 1] == s[skip..end] + [s[end]];
    ValueAppend(s[skip..end], s[end], b);
    ModStep(Value(s[skip..end], b), b, DigitOf(s[end]));
  }

  method StrtoulDigits(s: string, skip: nat, b: nat) returns (result: nat, end: nat)
    requires skip <= |s| && b <= 36
    ensures skip <= end <= |s| && AllDigits(s[skip..end], b) && DigitOf(CharAt(s, end)) >= b
    ensures result == Value(s[skip..end], b) % TWO_32
  {
    result, end := 0, skip;
    while DigitOf(CharAt(s, end)) < b
      invariant skip <= end <= |s| && AllDigits(s[skip..end], b)
      invariant result == Value(s[skip..end], b) % TWO_32
      decreases |s| - end
    {
      NextDigitValue(s, skip, end, b, result);
      result := (result * b + DigitOf(s[end])) % TWO_32;
      end := end + 1;
    }
  }

  /** `simple_strtoul`. */
  method Strtoul(s: string, base: nat) returns (result: nat, end: nat)
    requires base <= 36
    ensures Parsed(s, base, result, end)
  {
    var (b, skip) := Radix(s, base);
    result, end := StrtoulDigits(s, skip, b);
  }

  /** Reading a zero-padded numeral of a 32-bit number in its own base gives the number back and stops behind it. */
  lemma RoundTrip(z: string, text: string, rest: string, n: nat, base: nat, result: nat, end: nat)
    requires n < TWO_32 && (base == 10 || base == 16) && AllZeros(z) && IsNumeral(text, n, base)
    requires DigitOf(CharAt(rest, 0)) >= base && !IsX(CharAt(rest, 0))
    requires Parsed(z + text + rest, base, result, end)
    ensures result == n && end == |z + text|
  {
    var s := z + text + rest;
    var k: nat := |z + text|;
    NoPrefix(z, text, rest, n, base);
    assert CharAt(s, k) == CharAt(rest, 0);
    DigitAt(s, end, base, k);
    if end < k { assert CharAt(s, end) == (z + text)[end]; DigitsHere(z, text, n, base, end); }
    assert s[0..k] == z + text;
    LeadingZeros(z, text, base);
  }

  lemma DigitAt(s: string, end: nat, b: nat, k: nat)
    requires end <= |s| && AllDigits(s[0..end], b)
    ensures k < end ==> DigitOf(s[k]) < b
  {
    if k < end { assert s[0..end][k] in s[0..end]; }
  }

  lemma DigitsHere(z: string, text: string, n: nat, base: nat, i: nat)
    requires base >= 10 && AllZeros(z) && IsNumeral(text, n, base) && i < |z + text|
    ensures DigitOf((z + text)[i]) < base
  {
    if i >= |z| { assert text[i - |z|] in text; }
  }

  lemma NoPrefix(z: string, text: string, rest: string, n: nat, base: nat)
    requires (base == 10 || base == 16) && AllZeros(z) && IsNumeral(text, n, base) && !IsX(CharAt(rest, 0))
    ensures Radix(z + text + rest, base) == (base, 0)
  {
    var s := z + text + rest;
    if |z + text| > 1 {
      DigitsHere(z, text, n, base, 1);
      assert CharAt(s, 1) == (z + text)[1];
    } else {
      assert CharAt(s, 1) == CharAt(rest, 0);
    }
  }

  lemma BlankStops(out: string, base: nat, result: nat, end: nat)
    requires (base == 10 || base == 16) && out != [] && out[0] == ' ' && Parsed(out, base, result, end)
    ensures end == 0
  {
    DigitAt(out, end, base, 0);
  }

  /** A printed field is read back whole exactly when it is not padded with blanks. */
  lemma FieldReadsBackIff(n: nat, base: nat, width: nat, lz: bool, text: string, out: string, result: nat, end: nat)
    requires n < TWO_32 && (base == 10 || base == 16) && IsNumeral(text, n, base)
    requires out == Fill(if lz then '0' else ' ', if width > |text| then width - |text| else 0) + text
    requires Parsed(out, base, result, end)
    ensures result == n && end == |out| <==> lz || width <= |text|
  {
    if lz || width <= |text| {
      var z := Fill('0', if width > |text| then width - |text| else 0);
      assert out == z + text + [];
      RoundTrip(z, text, [], n, base, result, end);
    } else {
      BlankStops(out, base, result, end);
    }
  }

  // ---------------------------------------------------------------- prefixes

  /** The digits in both cases; no other character is a digit of any base. */
  lemma DigitTable(d: nat, c: char)
    requires d < 16
    ensures DigitOf("0123456789abcdef"[d]) == d && DigitOf("0123456789ABCDEF"[d]) == d
    ensures c !in "0123456789abcdef" && c !in "0123456789ABCDEF" ==> DigitOf(c) >= 36
  {
    if DigitOf(c) < 36 { NotADigit(c); }
  }

  lemma NotADigit(c: char)
    requires DigitOf(c) < 36
    ensures c in "0123456789abcdef" || c in "0123456789ABCDEF"
  {
    if '0' <= c <= '9' {
      assert "0123456789abcdef"[c as int - '0' as int] == c;
    } else if 'a' <= c <= 'f' {
      assert "0123456789abcdef"[c as int - 'a' as int + 10] == c;
    } else {
      assert "0123456789ABCDEF"[c as int - 'A' as int + 10] == c;
    }
  }

  /** Digits from `skip` up to a character that is none are read to their end. */
  lemma ReadsDigits(s: string, skip: nat, k: nat, base: nat, b: nat, result: nat, end: nat)
    requires Radix(s, base) == (b, skip) && skip <= k <= |s| && AllDigits(s[skip..k], b) && DigitOf(CharAt(s, k)) >= b
    requires Parsed(s, base, result, end)
    ensures end == k && result == Value(s[skip..k], b) % TWO_32
  {
    DigitIn(s, skip, end, b, k);
    DigitIn(s, skip, k, b, end);
  }

  lemma DigitIn(s: string, skip: nat, end: nat, b: nat, k: nat)
    requires skip <= end <= |s| && AllDigits(s[skip..end], b)
    ensures skip <= k < end ==> DigitOf(CharAt(s, k)) < b
  {
    if skip <= k < end { assert s[skip..end][k - skip] in s[skip..end]; }
  }

  /** Hexadecimal digits behind 0x or 0X, read in base 16 or with the base left open. */
  lemma HexPrefix(s: string, digits: string, rest: string, base: nat, result: nat, end: nat)
    requires s == "0x" + digits + rest || s == "0X" + digits + rest
    requires (base == 0 || base == 16) && digits != [] && AllDigits(digits, 16)
    requires DigitOf(CharAt(rest, 0)) >= 16 && Parsed(s, base, result, end)
    ensures end == 2 + |digits| && result == Value(digits, 16) % TWO_32
  {
    var k := 2 + |digits|;
    assert digits[0] in digits;
    assert CharAt(s, 0) == '0' && IsX(CharAt(s, 1)) && CharAt(s, 2) == digits[0];
    assert s[2..k] == digits && CharAt(s, k) == CharAt(rest, 0);
    ReadsDigits(s, 2, k, base, 16, result, end);
  }

  /** 0x without a hexadecimal digit behind it: with the base left open the 0 alone is read, in base 16 the prefix is
      passed over and nothing is read. */
  lemma BarePrefix(s: string, rest: string, base: nat, result: nat, end: nat)
    requires (s == "0x" + rest || s == "0X" + rest) && (base == 0 || base == 16)
    requires DigitOf(CharAt(rest, 0)) >= 16 && Parsed(s, base, result, end)
    ensures result == 0 && end == if base == 0 then 1 else 2
  {
    assert CharAt(s, 0) == '0' && IsX(CharAt(s, 1)) && CharAt(s, 2) == CharAt(rest, 0);
    if base == 0 {
      assert s[0..1] == "0";
      ZerosAreZero("0", 8);
      ReadsDigits(s, 0, 1, 0, 8, result, end);
    } else {
      assert s[2..2] == [];
      ReadsDigits(s, 2, 2, 16, 16, result, end);
    }
  }

  /** Octal digits behind a 0, with the base left open. */
  lemma OctalPrefix(s: string, digits: string, rest: string, result: nat, end: nat)
    requires s == "0" + digits + rest && digits != [] && AllDigits(digits, 8)
    requires DigitOf(CharAt(rest, 0)) >= 8 && Parsed(s, 0, result, end)
    ensures end == 1 + |digits| && result == Value(digits, 8) % TWO_32
  {
    var k := 1 + |digits|;
    assert digits[0] in digits;
    assert CharAt(s, 0) == '0' && CharAt(s, 1) == digits[0] && CharAt(s, k) == CharAt(rest, 0);
    assert s[0..k] == "0" + digits;
    OctalDigits(digits);
    ReadsDigits(s, 0, k, 0, 8, result, end);
  }

  lemma OctalDigits(digits: string)
    requires AllDigits(digits, 8)
    ensures AllDigits("0" + digits, 8) && Value("0" + digits, 8) == Value(digits, 8)
  {
    LeadingZeros("0", digits, 8);
  }

  /** Decimal digits without a leading 0, with the base left open. */
  lemma NoPrefixDecimal(s: string, digits: string, rest: string, result: nat, end: nat)
    requires s == digits + rest && digits != [] && digits[0] != '0' && AllDigits(digits, 10)
    requires DigitOf(CharAt(rest, 0)) >= 10 && Parsed(s, 0, result, end)
    ensures end == |digits| && result == Value(digits, 10) % TWO_32
  {
    var k := |digits|;
    assert CharAt(s, 0) == digits[0] && s[0..k] == digits && CharAt(s, k) == CharAt(rest, 0);
    ReadsDigits(s, 0, k, 0, 10, result, end);
  }
}
