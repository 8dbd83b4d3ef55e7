/** `gzip_parse_header`: where the compressed data of a gzip member starts (section 2.3 of RFC 1952). */
module Gzip {
  import opened Machine
  import opened Wrappers

  const DEFLATED: Byte := 8

  /** A member header; the identification bytes, time, extra flags and system are not looked at. */
  datatype Header = Header(
    id1: Byte, id2: Byte, text: bool, mtime: seq<Byte>, xfl: Byte, os: Byte,
    extra: Option<seq<Byte>>, name: Option<seq<Byte>>, comment: Option<seq<Byte>>, crc16: Option<seq<Byte>>)

  predicate WellFormed(h: Header) {
    && |h.mtime| == 4
    && (h.extra.Some? ==> |h.extra.value| < 0x1_0000)
    && (h.name.Some? ==> 0 !in h.name.value)
    && (h.comment.Some? ==> 0 !in h.comment.value)
    && (h.crc16.Some? ==> |h.crc16.value| == 2)
  }

  function Bit(b: bool, weight: nat): nat {
    if b then weight else 0
  }

  function Flags(h: Header): Byte {
    Bit(h.text, 1) + Bit(h.crc16.Some?, 2) + Bit(h.extra.Some?, 4) + Bit(h.name.Some?, 8) + Bit(h.comment.Some?, 16)
  }

  function Fixed(h: Header): seq<Byte> {
    [h.id1, h.id2, DEFLATED, Flags(h)] + h.mtime + [h.xfl, h.os]
  }

  function Extra(h: Header): seq<Byte>
    requires WellFormed(h)
  {
    match h.extra
    case None => []
    case Some(x) => [|x| % 256, |x| / 256] + x
  }

  function Closed(s: Option<seq<Byte>>): seq<Byte> {
    match s
    case None => []
    case Some(x) => x + [0]
  }

  function Crc16(h: Header): seq<Byte> {
    match h.crc16
    case None => []
    case Some(x) => x
  }

  /** The bytes of a header. */
  function Encode(h: Header): seq<Byte>
    requires WellFormed(h)
  {
    Fixed(h) + Extra(h) + Closed(h.name) + Closed(h.comment) + Crc16(h)
  }

  // ---------------------------------------------------------------- parsing

  /** Whether the bit of the given weight is set. */
  predicate Has(flags: nat, weight: nat)
    requires weight > 0
  {
    flags / weight % 2 == 1
  }

  /** The position behind the next zero. */
  function Skip(src: seq<Byte>, i: nat): Option<nat>
    decreases |src| - i
  {
    if i >= |src| then None else if src[i] == 0 then Some(i + 1) else Skip(src, i + 1)
  }

  method SkipString(src: seq<Byte>, i: nat) returns (j: nat)
    requires Skip(src, i).Some?
    ensures Some(j) == Skip(src, i)
  {
    j := i;
    while src[j] != 0
      invariant j < |src| && Skip(src, j) == Skip(src, i)
      decreases |src| - j
    {
      j := j + 1;
    }
    j := j + 1;
  }

  /** The method and the flags can be read, and the length of an extra field. */
  predicate Started(src: seq<Byte>) {
    |src| >= 4 && (Has(src[3], 4) ==> |src| >= 12)
  }

  /** The method is deflate and no reserved flag is set. */
  predicate Known(src: seq<Byte>)
    requires |src| >= 4
  {
    src[2] == DEFLATED && src[3] < 0x20
  }

  function AfterExtra(src: seq<Byte>): nat
    requires Started(src)
  {
    if Has(src[3], 4) then 12 + (src[10] as int) + (src[11] as int) * 256 else 10
  }

  function AfterString(src: seq<Byte>, present: bool, i: Option<nat>): Option<nat> {
    if present && i.Some? then Skip(src, i.value) else i
  }

  /** The end of the header, if its strings are closed. */
  function HeaderEnd(src: seq<Byte>): Option<nat>
    requires Started(src)
  {
    var named := AfterString(src, Has(src[3], 8), Some(AfterExtra(src)));
    var commented := AfterString(src, Has(src[3], 16), named);
    if commented.None? then None else Some(commented.value + if Has(src[3], 2) then 2 else 0)
  }

  /** `gzip_parse_header` of `len` bytes. */
  method ParseHeader(src: seq<Byte>, len: nat) returns (r: int)
    requires |src| >= 4 && (Known(src) ==> Started(src) && HeaderEnd(src).Some?)
    ensures r == if !Known(src) || HeaderEnd(src).value >= len then -1 else HeaderEnd(src).value
    ensures src[2] != 8 || src[3] / 32 != 0 ==> r == -1
    ensures r == -1 || r < len
  {
    var i: nat, flags := 10, src[3];
    if src[2] != DEFLATED || flags / 0x20 != 0 {
      return -1;
    }
    if Has(flags, 4) {
      i := 12 + (src[10] as int) + (src[11] as int) * 256;
    }
    if Has(flags, 8) {
      i := SkipString(src, i);
    }
    if Has(flags, 16) {
      i := SkipString(src, i);
    }
    if Has(flags, 2) {
      i := i + 2;
    }
    if i >= len {
      return -1;
    }
    return i;
  }

  // ---------------------------------------------------------------- every well-formed header

  lemma FlagBits(h: Header)
    ensures Flags(h) < 0x20
    ensures Has(Flags(h), 2) == h.crc16.Some? && Has(Flags(h), 4) == h.extra.Some?
    ensures Has(Flags(h), 8) == h.name.Some? && Has(Flags(h), 16) == h.comment.Some?
  {
  }

  /** `s` stands at position i. */
  predicate At(src: seq<Byte>, i: nat, s: seq<Byte>) {
    i + |s| <= |src| && src[i..i + |s|] == s
  }

  lemma AtConcat(src: seq<Byte>, i: nat, a: seq<Byte>, b: seq<Byte>)
    requires At(src, i, a + b)
    ensures At(src, i, a) && At(src, i + |a|, b)
  {
    assert src[i..i + |a|] == src[i..i + |a + b|][..|a|];
    assert src[i + |a|..i + |a + b|] == src[i..i + |a + b|][|a|..];
  }

  lemma {:induction false} SkipFinds(src: seq<Byte>, i: nat, e: nat)
    requires i <= e < |src| && src[e] == 0 && forall k :: i <= k < e ==> src[k] != 0
    ensures Skip(src, i) == Some(e + 1)
    decreases e - i
  {
    if i < e { SkipFinds(src, i + 1, e); }
  }

  lemma StringEnds(src: seq<Byte>, i: nat, s: Option<seq<Byte>>)
    requires (s.Some? ==> 0 !in s.value) && At(src, i, Closed(s))
    ensures AfterString(src, s.Some?, Some(i)) == Some(i + |Closed(s)|)
  {
    if s.Some? {
      var x := s.value;
      AtConcat(src, i, x, [0]);
      forall k | i <= k < i + |x|
        ensures src[k] != 0
      {
        assert src[k] == src[i..i + |x|][k - i] == x[k - i];
      }
      assert src[i + |x|] == src[i + |x|..i + |x| + 1][0];
      SkipFinds(src, i, i + |x|);
    }
  }

  lemma FixedAt(src: seq<Byte>, h: Header)
    requires WellFormed(h) && At(src, 0, Fixed(h))
    ensures |Fixed(h)| == 10 && src[2] == DEFLATED && src[3] == Flags(h)
  {
    assert src[0..10][2] == src[2] && src[0..10][3] == src[3];
  }

  lemma ExtraEnds(src: seq<Byte>, h: Header)
    requires WellFormed(h) && |src| >= 4 && src[3] == Flags(h) && At(src, 10, Extra(h))
    ensures Started(src) && AfterExtra(src) == 10 + |Extra(h)|
  {
    FlagBits(h);
    if h.extra.Some? {
      var x := h.extra.value;
      AtConcat(src, 10, [|x| % 256, |x| / 256], x);
      assert src[10..12][0] == src[10] && src[10..12][1] == src[11];
    }
  }

  lemma PartsAt(src: seq<Byte>, h: Header)
    requires WellFormed(h) && At(src, 0, Encode(h))
    ensures At(src, 0, Fixed(h)) && At(src, |Fixed(h)|, Extra(h))
    ensures At(src, |Fixed(h)| + |Extra(h)|, Closed(h.name))
    ensures At(src, |Fixed(h)| + |Extra(h)| + |Closed(h.name)|, Closed(h.comment))
  {
    var a, b, c, d := Fixed(h), Extra(h), Closed(h.name), Closed(h.comment);
    AtConcat(src, 0, a + b + c + d, Crc16(h));
    AtConcat(src, 0, a + b + c, d);
    AtConcat(src, 0, a + b, c);
    AtConcat(src, 0, a, b);
  }

  lemma CommentEnds(src: seq<Byte>, h: Header, i: nat, e: nat)
    requires |src| >= 4 && src[3] == Flags(h) && (h.comment.Some? ==> 0 !in h.comment.value)
    requires At(src, i, Closed(h.comment)) && e == i + |Closed(h.comment)|
    ensures AfterString(src, Has(src[3], 16), Some(i)) == Some(e)
  {
    FlagBits(h);
    StringEnds(src, i, h.comment);
  }

  lemma NameEnds(src: seq<Byte>, h: Header, i: nat, e: nat)
    requires |src| >= 4 && src[3] == Flags(h) && (h.name.Some? ==> 0 !in h.name.value)
    requires At(src, i, Closed(h.name)) && e == i + |Closed(h.name)|
    ensures AfterString(src, Has(src[3], 8), Some(i)) == Some(e)
  {
    FlagBits(h);
    StringEnds(src, i, h.name);
  }

  lemma CrcEnds(src: seq<Byte>, h: Header)
    requires |src| >= 4 && src[3] == Flags(h) && WellFormed(h)
    ensures (if Has(src[3], 2) then 2 else 0) == |Crc16(h)|
  {
    FlagBits(h);
  }

  lemma EndAt(src: seq<Byte>, a: nat, b: nat, c: nat, e: nat)
    requires Started(src) && AfterExtra(src) == a
    requires AfterString(src, Has(src[3], 8), Some(a)) == Some(b)
    requires AfterString(src, Has(src[3], 16), Some(b)) == Some(c) && e == c + if Has(src[3], 2) then 2 else 0
    ensures HeaderEnd(src) == Some(e)
  {
  }

  lemma Starts(h: Header, rest: seq<Byte>, src: seq<Byte>)
    requires WellFormed(h) && src == Encode(h) + rest
    ensures At(src, 0, Encode(h))
  {
  }

  /** For every well-formed header, whatever its parts and their lengths, the parse ends exactly behind it. */
  lemma EndOfHeader(h: Header, rest: seq<Byte>, src: seq<Byte>)
    requires WellFormed(h) && src == Encode(h) + rest
    ensures Started(src) && Known(src) && HeaderEnd(src) == Some(|Encode(h)|)
  {
    Starts(h, rest, src);
    PartsAt(src, h);
    FixedAt(src, h);
    FlagsKnown(h);
    ExtraEnds(src, h);
    var a := 10 + |Extra(h)|;
    var b := a + |Closed(h.name)|;
    var c := b + |Closed(h.comment)|;
    NameEnds(src, h, a, b);
    CommentEnds(src, h, b, c);
    CrcEnds(src, h);
    EndAt(src, a, b, c, c + |Crc16(h)|);
  }

  lemma FlagsKnown(h: Header)
    ensures Flags(h) < 0x20
  {
  }
}
