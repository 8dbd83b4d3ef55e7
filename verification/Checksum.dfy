/** The additive checksums of boot images and boot parameters: words added in 32 bits, the checksum word
    itself counted as a fixed stamp. */
module Checksum {
  import opened Machine

  const STAMP: Word := 0x5F0A_6C39

  type Word = w: int | 0 <= w < TWO_32

  /** 32-bit wrap-around. */
  function Wrap(x: int): Word {
    x % TWO_32
  }

  function Total(s: seq<Word>): nat {
    if s == [] then 0 else Total(s[..|s| - 1]) + s[|s| - 1]
  }

  /** Wrapping early or late makes no difference. */
  lemma WrapAdd(x: int, y: int)
    ensures Wrap(Wrap(x) + y) == Wrap(x + y)
  {
    ModAdd(x, y, TWO_32);
  }

  lemma TotalNext(a: seq<Word>, i: nat)
    requires i < |a|
    ensures Total(a[..i + 1]) == Total(a[..i]) + a[i]
  {
    assert a[..i + 1][..i] == a[..i];
  }

  /** One addition of a summing loop. */
  method AddWord(a: array<Word>, i: nat, sum: Word) returns (sum': Word)
    requires i < a.Length && sum == Wrap(Total(a[..i]))
    ensures sum' == Wrap(Total(a[..i + 1]))
  {
    TotalNext(a[..], i);
    assert a[..][..i] == a[..i] && a[..][..i + 1] == a[..i + 1];
    WrapAdd(Total(a[..i]), a[i]);
    sum' := (sum + a[i]) % TWO_32;
  }

  /** The scalar loop, four words a turn and then one; it needs four words to start with. */
  method SumScalar(a: array<Word>, count: nat) returns (sum: Word)
    requires 4 <= count <= a.Length
    ensures sum == Wrap(Total(a[..count]))
  {
    sum := 0;
    var i: nat, left: nat := 0, count;
    while true
      invariant i + left == count && left >= 4 && sum == Wrap(Total(a[..i]))
      decreases left
    {
      sum := AddWord(a, i, sum);
      sum := AddWord(a, i + 1, sum);
      sum := AddWord(a, i + 2, sum);
      sum := AddWord(a, i + 3, sum);
      i, left := i + 4, left - 4;
      if left <= 3 {
        break;
      }
    }
    while left > 0
      invariant i + left == count && sum == Wrap(Total(a[..i]))
    {
      sum := AddWord(a, i, sum);
      i, left := i + 1, left - 1;
    }
  }

  /** Two wrapped sums add up to the wrapped total. */
  lemma WrapBoth(x: int, y: int)
    ensures Wrap(Wrap(x) + Wrap(y)) == Wrap(x + y)
  {
    WrapAdd(x, Wrap(y));
    WrapAdd(y, x);
  }

  lemma FourLanes(a: int, b: int, c: int, d: int)
    ensures Wrap(Wrap(a) + Wrap(b) + Wrap(c) + Wrap(d)) == Wrap(a + b + c + d)
  {
    WrapBoth(a, b);
    WrapBoth(c, d);
    WrapPairs(Wrap(a) + Wrap(b), a + b, Wrap(c) + Wrap(d), c + d);
  }

  lemma WrapPairs(x: int, x': int, y: int, y': int)
    requires Wrap(x) == Wrap(x') && Wrap(y) == Wrap(y')
    ensures Wrap(x + y) == Wrap(x' + y')
  {
    WrapBoth(x, y);
    WrapBoth(x', y');
  }

  lemma Lanes(x: int, l0: Word, l1: Word, l2: Word, l3: Word, w0: Word, w1: Word, w2: Word, w3: Word)
    requires Wrap(l0 + l1 + l2 + l3) == Wrap(x)
    ensures Wrap(Wrap(l0 + w0) + Wrap(l1 + w1) + Wrap(l2 + w2) + Wrap(l3 + w3)) == Wrap(x + w0 + w1 + w2 + w3)
  {
    FourLanes(l0 + w0, l1 + w1, l2 + w2, l3 + w3);
    WrapPairs(l0 + l1 + l2 + l3, x, w0 + w1 + w2 + w3, w0 + w1 + w2 + w3);
  }

  /** The vector loop: four sums side by side, added up at the end, then the rest one by one. */
  method SumLanes(a: array<Word>, count: nat) returns (sum: Word)
    requires count <= a.Length
    ensures sum == Wrap(Total(a[..count]))
  {
    var l0: Word, l1: Word, l2: Word, l3: Word := 0, 0, 0, 0;
    var i: nat, left: nat := 0, count;
    while left >= 4
      invariant i + left == count && Wrap(l0 + l1 + l2 + l3) == Wrap(Total(a[..i]))
    {
      Lanes(Total(a[..i]), l0, l1, l2, l3, a[i], a[i + 1], a[i + 2], a[i + 3]);
      FourMore(a[..], i);
      l0, l1 := (l0 + a[i]) % TWO_32, (l1 + a[i + 1]) % TWO_32;
      l2, l3 := (l2 + a[i + 2]) % TWO_32, (l3 + a[i + 3]) % TWO_32;
      i, left := i + 4, left - 4;
    }
    sum := AddLanes(l0, l1, l2, l3);
    while left > 0
      invariant i + left == count && sum == Wrap(Total(a[..i]))
    {
      sum := AddWord(a, i, sum);
      i, left := i + 1, left - 1;
    }
  }

  method AddLanes(l0: Word, l1: Word, l2: Word, l3: Word) returns (sum: Word)
    ensures sum == Wrap(l0 + l1 + l2 + l3)
  {
    sum := (((l0 + l1) % TWO_32 + l2) % TWO_32 + l3) % TWO_32;
    WrapAdd(l0 + l1, l2);
    WrapAdd(l0 + l1 + l2, l3);
  }

  lemma FourMore(s: seq<Word>, i: nat)
    requires i + 4 <= |s|
    ensures Total(s[..i + 4]) == Total(s[..i]) + s[i] + s[i + 1] + s[i + 2] + s[i + 3]
  {
    TotalNext(s, i);
    TotalNext(s, i + 1);
    TotalNext(s, i + 2);
    TotalNext(s, i + 3);
  }

  // ---------------------------------------------------------------- checksums

  /** The sum of a buffer with the stamp in place of word k. */
  function Stamped(s: seq<Word>, k: nat): Word
    requires k < |s|
  {
    Wrap(Total(s[k := STAMP]))
  }

  lemma {:induction false} TotalUpdate(s: seq<Word>, k: nat, w: Word)
    requires k < |s|
    ensures Total(s[k := w]) == Total(s) - s[k] + w
  {
    var n := |s| - 1;
    if k == n {
      assert s[k := w][..n] == s[..n];
    } else {
      assert s[k := w][..n] == s[..n][k := w];
      TotalUpdate(s[..n], k, w);
    }
  }

  /** `sunxi_generate_checksum` with divisor 1: subtracting the old checksum and adding the stamp
      is summing with the stamp in its place. */
  method GenerateChecksum(a: array<Word>, count: nat, src: Word, ghost k: nat) returns (sum: Word)
    requires 4 <= count <= a.Length && k < count && src == a[k]
    ensures sum == Stamped(a[..count], k)
  {
    sum := SumScalar(a, count);
    TotalUpdate(a[..count], k, STAMP);
    WrapAdd(Total(a[..count]), STAMP - src);
    sum := (sum - src + STAMP) % TWO_32;
  }

  /** Cutting off the words behind the count and putting the stamp in commute. */
  lemma StampedPrefix(s: seq<Word>, k: nat, count: nat)
    requires k < count <= |s|
    ensures Wrap(Total(s[k := STAMP][..count])) == Stamped(s[..count], k)
  {
    assert s[k := STAMP][..count] == s[..count][k := STAMP];
  }

  const ADD_SUM: nat := 5

  /** `verify_addsum`, scalar or vector: the checksum word is overwritten for the sum and put back. */
  method VerifyAddsum(a: array<Word>, count: nat, vector: bool) returns (ret: int)
    requires ADD_SUM < a.Length && count <= a.Length && (count >= 4 || vector)
    modifies a
    ensures a[..] == old(a[..])
    ensures ret == if Wrap(Total(old(a[..])[ADD_SUM := STAMP][..count])) == old(a[ADD_SUM]) then 0 else -1
    ensures count > ADD_SUM ==> ret == if Stamped(old(a[..count]), ADD_SUM) == old(a[ADD_SUM]) then 0 else -1
  {
    ghost var was := a[..];
    var src := a[ADD_SUM];
    a[ADD_SUM] := STAMP;
    assert a[..count] == was[ADD_SUM := STAMP][..count];
    var sum;
    if vector {
      sum := SumLanes(a, count);
    } else {
      sum := SumScalar(a, count);
    }
    a[ADD_SUM] := src;
    assert a[..] == was;
    ret := if sum == src then 0 else -1;
    if count > ADD_SUM {
      StampedPrefix(was, ADD_SUM, count);
      assert was[..count] == old(a[..count]);
    }
  }

  /** `sunxi_verify_checksum` accepts exactly what `verify_addsum` would with the same checksum word. */
  method VerifyChecksum(a: array<Word>, count: nat, src: Word, ghost k: nat) returns (ret: int)
    requires 4 <= count <= a.Length && k < count && src == a[k]
    ensures ret == if Stamped(a[..count], k) == src then 0 else -1
  {
    var sum := GenerateChecksum(a, count, src, k);
    ret := if sum == src then 0 else -1;
  }

  /** Storing the checksum makes the buffer valid. */
  lemma SealIsValid(s: seq<Word>, k: nat)
    requires k < |s|
    ensures Stamped(s[k := Stamped(s, k)], k) == Stamped(s, k)
  {
    assert s[k := Stamped(s, k)][k := STAMP] == s[k := STAMP];
  }

  lemma WrapDiffers(x: int, a: Word, b: Word)
    requires Wrap(x + a) == Wrap(x + b)
    ensures a == b
  {
    WrapAdd(x + a, -x);
    WrapAdd(x + b, -x);
  }

  /** A valid buffer in which one word is changed, the checksum word included, is no longer valid. */
  lemma DetectsWord(s: seq<Word>, k: nat, j: nat, w: Word)
    requires k < |s| && j < |s| && Stamped(s, k) == s[k] && w != s[j]
    ensures Stamped(s[j := w], k) != s[j := w][k]
  {
    if j == k {
      assert s[j := w][k := STAMP] == s[k := STAMP];
    } else {
      assert s[j := w][k := STAMP] == s[k := STAMP][j := w];
      TotalUpdate(s[k := STAMP], j, w);
      var x := Total(s[k := STAMP]) - s[j];
      if Wrap(x + w) == Wrap(x + s[j]) { WrapDiffers(x, w, s[j]); }
    }
  }
}

/** The boot parameters: loaded from flash if legal, else made up from the defaults in boot0's own head, and
    sealed with a checksum when they are handed on. */
module BootParam {
  import opened Checksum

  const WORDS: nat := 512
  const MAGIC_0: Word := 0x746F_6F62
  const MAGIC_1: Word := 0x6172_6170
  const CHECK_SUM: nat := 3
  const BOOT0_SUM: nat := 5
  const TRANSFER_FLAG: nat := 6
  const DDR_INFO: nat := 256
  const DDR_WORDS: nat := 128

  type Block = s: seq<Word> | |s| == WORDS witness seq(WORDS, _ => 0)

  /** The first two words are the text "bootpara", low byte first. */
  lemma MagicSpells(i: nat)
    requires i < 4
    ensures var w := if i == 0 then 1 else if i == 1 then 0x100 else if i == 2 then 0x1_0000 else 0x100_0000;
      MAGIC_0 / w % 256 == "bootpara"[i] as int && MAGIC_1 / w % 256 == "bootpara"[4 + i] as int
  {
  }

  /** `sunxi_bootparam_check_legality` for a boot0 with checksum `boot0`. */
  predicate Legal(b: Block, boot0: Word) {
    b[0] == MAGIC_0 && b[1] == MAGIC_1 && b[BOOT0_SUM] == boot0 && Stamped(b, CHECK_SUM) == b[CHECK_SUM]
  }

  /** The defaults: everything zero but the DRAM parameters, the download flag, the magic and boot0's checksum. */
  function Defaults(boot0: Word, dram: seq<Word>): Block
    requires |dram| <= DDR_WORDS
  {
    seq(WORDS, i =>
      if i == 0 then MAGIC_0 else if i == 1 then MAGIC_1
      else if i == BOOT0_SUM then boot0 else if i == TRANSFER_FLAG then 1
      else if DDR_INFO <= i < DDR_INFO + |dram| then dram[i - DDR_INFO] else 0)
  }

  function Loaded(flash: Block, boot0: Word, dram: seq<Word>): Block
    requires |dram| <= DDR_WORDS
  {
    if Legal(flash, boot0) then flash else Defaults(boot0, dram)
  }

  function Sealed(b: Block): Block {
    b[CHECK_SUM := Stamped(b, CHECK_SUM)]
  }

  class Param {
    const region: array<Word>

    constructor ()
      ensures fresh(region) && region.Length == WORDS
    {
      region := new Word[WORDS];
    }

    method CheckLegality(boot0: Word) returns (ret: int)
      requires region.Length == WORDS
      ensures ret == if Legal(region[..], boot0) then 0 else -1
    {
      if region[0] != MAGIC_0 || region[1] != MAGIC_1 {
        return -1;
      }
      if region[BOOT0_SUM] != boot0 {
        return -1;
      }
      assert region[..WORDS] == region[..];
      ret := VerifyChecksum(region, WORDS, region[CHECK_SUM], CHECK_SUM);
    }

    /** `sunxi_bootparam_load`. */
    method Load(flash: Block, boot0: Word, dram: seq<Word>)
      requires region.Length == WORDS && |dram| <= DDR_WORDS
      modifies region
      ensures region[..] == Loaded(flash, boot0, dram)
      ensures Legal(flash, boot0) ==> region[..] == flash
      ensures !Legal(flash, boot0) ==>
        && region[0] == MAGIC_0 && region[1] == MAGIC_1 && region[BOOT0_SUM] == boot0 && region[TRANSFER_FLAG] == 1
        && (forall i :: DDR_INFO <= i < DDR_INFO + |dram| ==> region[i] == dram[i - DDR_INFO])
      ensures !Legal(flash, boot0) ==>
        forall i :: 1 < i < WORDS && i != BOOT0_SUM && i != TRANSFER_FLAG && !(DDR_INFO <= i < DDR_INFO + |dram|) ==>
          region[i] == 0
    {
      forall i | 0 <= i < WORDS { region[i] := flash[i]; }
      assert region[..] == flash;
      var ret := CheckLegality(boot0);
      if ret < 0 {
        forall i | 0 <= i < WORDS { region[i] := 0; }
        forall i | 0 <= i < |dram| { region[DDR_INFO + i] := dram[i]; }
        region[TRANSFER_FLAG] := 1;
        region[0], region[1] := MAGIC_0, MAGIC_1;
        region[BOOT0_SUM] := boot0;
        assert region[..] == Defaults(boot0, dram);
      }
    }

    /** `sunxi_bootparam_format_and_transfer`. */
    method FormatAndTransfer() returns (dest: seq<Word>)
      requires region.Length == WORDS
      modifies region
      ensures dest == region[..] && region[..] == Sealed(old(region[..]))
      ensures forall i :: 0 <= i < WORDS && i != CHECK_SUM ==> region[i] == old(region[i])
    {
      assert region[..WORDS] == region[..];
      region[CHECK_SUM] := GenerateChecksum(region, WORDS, region[CHECK_SUM], CHECK_SUM);
      dest := region[..];
    }
  }

  /** Sealed parameters are legal exactly when they have the right magic and boot0 checksum, and sealing again
      changes nothing. */
  lemma SealedIsLegalIff(b: Block, boot0: Word)
    ensures Legal(Sealed(b), boot0) <==> b[0] == MAGIC_0 && b[1] == MAGIC_1 && b[BOOT0_SUM] == boot0
    ensures Sealed(Sealed(b)) == Sealed(b)
  {
    SealIsValid(b, CHECK_SUM);
  }

  /** Whatever is on flash: what is loaded, sealed and written back is loaded unchanged the next time, DRAM
      data included, by the same boot0 with any other defaults. */
  lemma NextBootKeeps(flash: Block, boot0: Word, dram: seq<Word>, others: seq<Word>)
    requires |dram| <= DDR_WORDS && |others| <= DDR_WORDS
    ensures var handed := Sealed(Loaded(flash, boot0, dram));
      && Loaded(handed, boot0, others) == handed
      && handed[DDR_INFO..DDR_INFO + DDR_WORDS] == Loaded(flash, boot0, dram)[DDR_INFO..DDR_INFO + DDR_WORDS]
  {
    var b := Loaded(flash, boot0, dram);
    SealedIsLegalIff(b, boot0);
  }

  /** One changed word anywhere makes the next boot fall back to the defaults. */
  lemma DamageFallsBack(flash: Block, boot0: Word, dram: seq<Word>, j: nat, w: Word)
    requires |dram| <= DDR_WORDS && Legal(flash, boot0) && j < WORDS && w != flash[j]
    ensures Loaded(flash[j := w], boot0, dram) == Defaults(boot0, dram)
  {
    DetectsWord(flash, CHECK_SUM, j, w);
  }
}
