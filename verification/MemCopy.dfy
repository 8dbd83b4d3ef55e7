/** `memcpy` and `memmove` on one memory, with 32-bit words; an address is an index into the memory. */
module MemCopy {
  import opened Machine

  const WORD_SIZE: nat := 4
  const BLOCK_SIZE: nat := 16

  /** Both areas lie in the memory. */
  predicate Inside(size: nat, dst: nat, src: nat, len: nat) {
    dst + len <= size && src + len <= size
  }

  /** Copying one byte at a time, upwards. */
  function Forward(m: seq<Byte>, dst: nat, src: nat, len: nat): (r: seq<Byte>)
    requires Inside(|m|, dst, src, len)
    ensures |r| == |m|
  {
    if len == 0 then m
    else
      var before := Forward(m, dst, src, len - 1);
      before[dst + len - 1 := before[src + len - 1]]
  }

  /** What address p should hold after a copy. */
  function CopyAt(m: seq<Byte>, dst: nat, src: nat, len: nat, p: nat): Byte
    requires Inside(|m|, dst, src, len) && p < |m|
  {
    if dst <= p < dst + len then m[src + (p - dst)] else m[p]
  }

  /** `now` is `before` with the source bytes in the destination and nothing else changed. */
  ghost predicate IsCopy(before: seq<Byte>, now: seq<Byte>, dst: nat, src: nat, len: nat)
    requires Inside(|before|, dst, src, len)
  {
    |now| == |before| && forall p :: 0 <= p < |now| ==> now[p] == CopyAt(before, dst, src, len, p)
  }

  // ---------------------------------------------------------------- memcpy

  /** A word is read whole before it is written. */
  method CopyWord(mem: array<Byte>, dst: nat, src: nat)
    requires Inside(mem.Length, dst, src, WORD_SIZE)
    modifies mem
    ensures IsCopy(old(mem[..]), mem[..], dst, src, WORD_SIZE)
  {
    var a, b, c, d := mem[src], mem[src + 1], mem[src + 2], mem[src + 3];
    mem[dst], mem[dst + 1], mem[dst + 2], mem[dst + 3] := a, b, c, d;
  }

  lemma ForwardNext(m: seq<Byte>, dst: nat, src: nat, len: nat)
    requires Inside(|m|, dst, src, len + 1)
    ensures var f := Forward(m, dst, src, len); Forward(m, dst, src, len + 1) == f[dst + len := f[src + len]]
  {
  }

  /** Between aligned addresses one word is four bytes. */
  lemma WordIsFourBytes(m: seq<Byte>, dst: nat, src: nat, len: nat, f: seq<Byte>, now: seq<Byte>)
    requires Inside(|m|, dst, src, len + WORD_SIZE) && (dst + len) % WORD_SIZE == 0 && (src + len) % WORD_SIZE == 0
    requires f == Forward(m, dst, src, len) && IsCopy(f, now, dst + len, src + len, WORD_SIZE)
    ensures now == Forward(m, dst, src, len + WORD_SIZE)
  {
    ForwardNext(m, dst, src, len);
    ForwardNext(m, dst, src, len + 1);
    ForwardNext(m, dst, src, len + 2);
    ForwardNext(m, dst, src, len + 3);
    FourSteps(f, dst + len, src + len, now);
  }

  lemma FourSteps(f: seq<Byte>, d: nat, s: nat, now: seq<Byte>)
    requires Inside(|f|, d, s, WORD_SIZE) && d % WORD_SIZE == 0 && s % WORD_SIZE == 0
    requires IsCopy(f, now, d, s, WORD_SIZE)
    ensures
      var f1 := f[d := f[s]];
      var f2 := f1[d + 1 := f1[s + 1]];
      var f3 := f2[d + 2 := f2[s + 2]];
      now == f3[d + 3 := f3[s + 3]]
  {
    assert d == s || d + 4 <= s || s + 4 <= d;
    var f1 := f[d := f[s]];
    assert f1[s + 1] == f[s + 1];
    var f2 := f1[d + 1 := f1[s + 1]];
    assert f2[s + 2] == f[s + 2];
    var f3 := f2[d + 2 := f2[s + 2]];
    assert f3[s + 3] == f[s + 3];
    var f4 := f3[d + 3 := f3[s + 3]];
    forall p | 0 <= p < |f|
      ensures now[p] == f4[p]
    {
      assert now[p] == CopyAt(f, d, s, WORD_SIZE, p);
    }
  }

  /** One word of the copy. */
  method NextWord(mem: array<Byte>, dst: nat, src: nat, i: nat, ghost m: seq<Byte>)
    requires |m| == mem.Length && Inside(mem.Length, dst, src, i + WORD_SIZE)
    requires dst % WORD_SIZE == 0 && src % WORD_SIZE == 0 && i % WORD_SIZE == 0
    requires mem[..] == Forward(m, dst, src, i)
    modifies mem
    ensures mem[..] == Forward(m, dst, src, i + WORD_SIZE)
  {
    ghost var f := mem[..];
    CopyWord(mem, dst + i, src + i);
    WordIsFourBytes(m, dst, src, i, f, mem[..]);
  }

  /** One block of four words. */
  method NextBlock(mem: array<Byte>, dst: nat, src: nat, i: nat, ghost m: seq<Byte>)
    requires |m| == mem.Length && Inside(mem.Length, dst, src, i + BLOCK_SIZE)
    requires dst % WORD_SIZE == 0 && src % WORD_SIZE == 0 && i % WORD_SIZE == 0
    requires mem[..] == Forward(m, dst, src, i)
    modifies mem
    ensures mem[..] == Forward(m, dst, src, i + BLOCK_SIZE)
  {
    NextWord(mem, dst, src, i, m);
    NextWord(mem, dst, src, i + 4, m);
    NextWord(mem, dst, src, i + 8, m);
    NextWord(mem, dst, src, i + 12, m);
  }

  /** The words of the copy: blocks while a block is left, then single words. */
  method CopyWords(mem: array<Byte>, dst: nat, src: nat, len: nat) returns (i: nat)
    requires Inside(mem.Length, dst, src, len) && dst % WORD_SIZE == 0 && src % WORD_SIZE == 0
    modifies mem
    ensures i <= len < i + WORD_SIZE && mem[..] == Forward(old(mem[..]), dst, src, i)
  {
    ghost var m := mem[..];
    i := 0;
    while len - i >= BLOCK_SIZE
      invariant i <= len && i % WORD_SIZE == 0
      invariant mem[..] == Forward(m, dst, src, i)
    {
      NextBlock(mem, dst, src, i, m);
      i := i + BLOCK_SIZE;
    }
    while len - i >= WORD_SIZE
      invariant i <= len && i % WORD_SIZE == 0
      invariant mem[..] == Forward(m, dst, src, i)
    {
      NextWord(mem, dst, src, i, m);
      i := i + WORD_SIZE;
    }
  }

  /** One byte of the copy. */
  method NextByte(mem: array<Byte>, dst: nat, src: nat, i: nat, ghost m: seq<Byte>)
    requires |m| == mem.Length && Inside(mem.Length, dst, src, i + 1)
    requires mem[..] == Forward(m, dst, src, i)
    modifies mem
    ensures mem[..] == Forward(m, dst, src, i + 1)
  {
    ForwardNext(m, dst, src, i);
    mem[dst + i] := mem[src + i];
  }

  /** `memcpy`: blocks of four words, then words, then bytes, is the byte copy upwards. */
  method MemCpy(mem: array<Byte>, dst: nat, src: nat, len: nat)
    requires Inside(mem.Length, dst, src, len)
    modifies mem
    ensures mem[..] == Forward(old(mem[..]), dst, src, len)
  {
    ghost var m := mem[..];
    var i: nat := 0;
    if len >= BLOCK_SIZE && dst % WORD_SIZE == 0 && src % WORD_SIZE == 0 {
      i := CopyWords(mem, dst, src, len);
    }
    while i < len
      invariant i <= len && mem[..] == Forward(m, dst, src, i)
    {
      NextByte(mem, dst, src, i, m);
      i := i + 1;
    }
  }

  // ---------------------------------------------------------------- when memcpy copies

  /** The remainder of i divided by k. */
  function Phase(i: nat, k: nat): (r: nat)
    requires k > 0
    ensures r <= i && r < k
  {
    if i < k then i else Phase(i - k, k)
  }

  /** What an upward copy leaves at address p: with the destination above the source, the first dst - src
      bytes of the source over and over. */
  function ForwardValue(m: seq<Byte>, dst: nat, src: nat, len: nat, p: nat): Byte
    requires Inside(|m|, dst, src, len) && p < |m|
  {
    if !(dst <= p < dst + len) then m[p]
    else if src < dst then m[src + Phase(p - dst, dst - src)]
    else m[src + (p - dst)]
  }

  lemma {:induction false} ForwardAt(m: seq<Byte>, dst: nat, src: nat, len: nat, p: nat)
    requires Inside(|m|, dst, src, len) && p < |m|
    ensures Forward(m, dst, src, len)[p] == ForwardValue(m, dst, src, len, p)
  {
    if len > 0 {
      var k := len - 1;
      if p == dst + k {
        ForwardAt(m, dst, src, k, src + k);
        assert src < dst <= src + k ==> Phase(k, dst - src) == Phase(src + k - dst, dst - src);
      } else {
        ForwardAt(m, dst, src, k, p);
      }
    }
  }

  /** The area repeats its first k bytes. */
  ghost predicate Repeats(m: seq<Byte>, src: nat, len: nat, k: nat)
    requires src + len <= |m| && k > 0
  {
    forall p :: src <= p < src + len ==> m[p] == m[src + Phase(p - src, k)]
  }

  lemma CopyRepeats(m: seq<Byte>, r: seq<Byte>, dst: nat, src: nat, len: nat, p: nat)
    requires Inside(|m|, dst, src, len) && src < dst && src <= p < src + len
    requires r == Forward(m, dst, src, len) && IsCopy(m, r, dst, src, len)
    ensures m[p] == m[src + Phase(p - src, dst - src)]
  {
    ForwardAt(m, dst, src, len, p - src + dst);
    assert r[p - src + dst] == CopyAt(m, dst, src, len, p - src + dst);
  }

  lemma RepeatIsCopy(m: seq<Byte>, dst: nat, src: nat, len: nat, p: nat)
    requires Inside(|m|, dst, src, len) && p < |m|
    requires src < dst ==> Repeats(m, src, len, dst - src)
    ensures Forward(m, dst, src, len)[p] == CopyAt(m, dst, src, len, p)
  {
    ForwardAt(m, dst, src, len, p);
    if src < dst && dst <= p < dst + len {
      assert m[src + (p - dst)] == m[src + Phase(p - dst, dst - src)];
    }
  }

  /** `memcpy` leaves a copy exactly when the source, if it starts below the destination, repeats with their
      distance. */
  lemma MemCpyIsCopyIff(m: seq<Byte>, dst: nat, src: nat, len: nat)
    requires Inside(|m|, dst, src, len)
    ensures IsCopy(m, Forward(m, dst, src, len), dst, src, len) <==> (src < dst ==> Repeats(m, src, len, dst - src))
  {
    var r := Forward(m, dst, src, len);
    if src < dst && IsCopy(m, r, dst, src, len) {
      forall p | src <= p < src + len
        ensures m[p] == m[src + Phase(p - src, dst - src)]
      {
        CopyRepeats(m, r, dst, src, len, p);
      }
    }
    if src < dst ==> Repeats(m, src, len, dst - src) {
      forall p | 0 <= p < |m|
        ensures r[p] == CopyAt(m, dst, src, len, p)
      {
        RepeatIsCopy(m, dst, src, len, p);
      }
    }
  }

  lemma FarIsRepeat(m: seq<Byte>, dst: nat, src: nat, len: nat)
    requires Inside(|m|, dst, src, len) && dst >= src + len && src < dst
    ensures Repeats(m, src, len, dst - src)
  {
  }

  /** `memcpy` is a copy for every content of the memory exactly when the destination does not start inside the
      source. */
  lemma MemCpySafeIff(size: nat, dst: nat, src: nat, len: nat)
    requires Inside(size, dst, src, len)
    ensures (forall m: seq<Byte> | |m| == size :: IsCopy(m, Forward(m, dst, src, len), dst, src, len))
      <==> dst <= src || dst >= src + len
  {
    if dst <= src || dst >= src + len {
      forall m: seq<Byte> | |m| == size
        ensures IsCopy(m, Forward(m, dst, src, len), dst, src, len)
      {
        MemCpyIsCopyIff(m, dst, src, len);
        if src < dst { FarIsRepeat(m, dst, src, len); }
      }
    } else {
      var m := OneByte(size, src);
      MemCpyIsCopyIff(m, dst, src, len);
      assert Phase(dst - src, dst - src) == 0;
      assert m[dst] != m[src];
    }
  }

  function OneByte(size: nat, at: nat): (m: seq<Byte>)
    ensures |m| == size && forall p :: 0 <= p < size ==> m[p] == if p == at then 1 else 0
  {
    seq(size, i => if i == at then 1 else 0)
  }

  // ---------------------------------------------------------------- memmove

  /** `memmove` copies for every overlap, length and alignment. */
  method MemMove(mem: array<Byte>, dst: nat, src: nat, len: nat)
    requires Inside(mem.Length, dst, src, len)
    modifies mem
    ensures IsCopy(old(mem[..]), mem[..], dst, src, len)
  {
    if dst == src {
    } else if dst < src {
      MemCpyIsCopyIff(mem[..], dst, src, len);
      MemCpy(mem, dst, src, len);
    } else {
      MoveDown(mem, dst, src, len);
    }
  }

  method MoveDown(mem: array<Byte>, dst: nat, src: nat, len: nat)
    requires Inside(mem.Length, dst, src, len) && src < dst
    modifies mem
    ensures IsCopy(old(mem[..]), mem[..], dst, src, len)
  {
    ghost var m := mem[..];
    var n: nat := len;
    while n > 0
      invariant n <= len
      invariant forall p :: dst + n <= p < mem.Length ==> mem[p] == CopyAt(m, dst, src, len, p)
      invariant forall p :: 0 <= p < dst + n && p < mem.Length ==> mem[p] == m[p]
    {
      n := n - 1;
      mem[dst + n] := mem[src + n];
    }
  }
}
