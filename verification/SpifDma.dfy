/** The descriptor chain of the SPI flash controller: `spif_mem_exec_op_v1` cuts one transfer
    into descriptors of at most `MaxTrans` bytes and links them for the DMA engine. */
module SpifChain {
  import opened Machine
  import opened Bits

  /** Size of a descriptor in memory. */
  const DESC: nat := 32

  /** The two builds of the driver. */
  datatype Soc = Sun8iw21 | OtherSoc

  function MaxTrans(s: Soc): nat {
    match s case Sun8iw21 => 4096 case OtherSoc => 65536
  }

  /** DMA_DATA_LEN is this many ones. */
  function LenBits(s: Soc): nat {
    match s case Sun8iw21 => 16 case OtherSoc => 17
  }

  /** DMA_BLK_LEN_64B. */
  function Block64(s: Soc): nat {
    match s case Sun8iw21 => 0x3_0000 case OtherSoc => 0x300_0000
  }

  const NORMAL_EN: nat := 0x1000_0000
  const COUNT_FULL: nat := 0x8000_0000   // DMA_TRANS_NUM_16BIT
  const COUNT_MASK: nat := 0xFFFF        // DMA_TRANS_NUM
  const BURST_INCR16: nat := 0x70
  const TO_MEMORY: nat := 2              // DMA_RW_PROCESS
  const FINISH: nat := 1                 // DMA_FINISH_FLASG

  /** struct spif_descriptor_op: eight words. */
  datatype Desc = Desc(burst: nat, block: nat, data: nat, next: nat, phase: nat, flash: nat, width: nat, count: nat)

  // ---------------------------------------------------------------- length fields

  /** The value put into the count field for a piece of len bytes. */
  function Encode(s: Soc, len: nat): nat {
    if len == MaxTrans(s) then COUNT_FULL else len
  }

  /** How the engine reads the two length fields. */
  function BlockLength(s: Soc, w: nat): nat {
    match s case Sun8iw21 => w % 0x1_0000 case OtherSoc => w % 0x2_0000
  }

  function CountLength(s: Soc, w: nat): nat {
    if w >= COUNT_FULL then MaxTrans(s) else w % 0x1_0000
  }

  /** A count word without a length: only bits 16 to 30. */
  predicate CountBase(b: nat) {
    b % 0x1_0000 == 0 && b < COUNT_FULL
  }

  /** 2 to the k, for the field boundaries of the descriptor words. */
  function Modulus(k: nat): nat
    requires k == 16 || k == 17 || k == 24 || k == 28 || k == 31
  {
    if k == 16 then 0x1_0000 else if k == 17 then 0x2_0000 else if k == 24 then 0x100_0000
    else if k == 28 then 0x1000_0000 else 0x8000_0000
  }

  lemma LowMod(a: nat, k: nat)
    requires k == 16 || k == 17 || k == 24 || k == 28 || k == 31
    ensures Low(a, k) == a % Modulus(k)
  {
    LowIsMod(a, k);
    PowValues();
  }

  lemma ClearLow(a: nat, k: nat)
    requires k == 16 || k == 17
    ensures AndNot(a, Ones(k)) == a - a % (if k == 16 then 0x1_0000 else 0x2_0000)
  {
    ClearOnes(a, k);
    LowMod(a, k);
  }

  lemma JoinLow(a: nat, b: nat, k: nat)
    requires k == 16 || k == 17 || k == 24 || k == 28 || k == 31
    requires a % Modulus(k) == 0 && b < Modulus(k)
    ensures Or(a, b) == a + b
  {
    LowMod(a, k);
    PowValues();
    OrLow(a, b, k);
  }

  /** Where the length sits beside the block mode. */
  lemma BlockArith(s: Soc, len: nat)
    requires len <= MaxTrans(s)
    ensures var m := if LenBits(s) == 16 then 0x1_0000 else 0x2_0000;
            Block64(s) % m == 0 && (Block64(s) + len) % m == len < m
  {
  }

  /** The engine reads back the length in a block word. */
  lemma ReadBlock(s: Soc, len: nat)
    requires len <= MaxTrans(s)
    ensures BlockLength(s, Block64(s) + len) == len
  {
    BlockArith(s, len);
  }

  lemma MaskIsOnes()
    ensures COUNT_MASK == Ones(16) && COUNT_FULL == Pow2(31)
  {
    OnesValue(16);
    PowValues();
  }

  /** w without bit 31 and without the low 16 bits. */
  function Stripped(w: nat): nat {
    w % 0x8000_0000 - w % 0x8000_0000 % 0x1_0000
  }

  lemma CountArith(base: nat, e: nat)
    requires CountBase(base) && (e < 0x1_0000 || e == COUNT_FULL)
    ensures base + e < TWO_32 && Stripped(base + e) == base
    ensures e < 0x1_0000 ==> (base + e) % 0x1_0000 == e && base + e < COUNT_FULL
    ensures e == COUNT_FULL ==> COUNT_FULL <= base + e
  {
  }

  lemma ClearTwo(w: nat)
    requires w < TWO_32
    ensures AndNot(w, Or(COUNT_FULL, COUNT_MASK)) == Stripped(w)
  {
    ClearBoth(w, COUNT_FULL, COUNT_MASK);
    ClearTopCount(w);
    MaskIsOnes();
    ClearLow(w % 0x8000_0000, 16);
  }

  lemma ClearTopCount(w: nat)
    requires w < TWO_32
    ensures AndNot(w, COUNT_FULL) == w % 0x8000_0000
  {
    MaskIsOnes();
    PowValues();
    ClearTop(w, 31);
    LowMod(w, 31);
  }

  lemma AddCount(s: Soc, base: nat, len: nat)
    requires CountBase(base) && 0 < len <= MaxTrans(s)
    ensures Or(base, Encode(s, len)) == base + Encode(s, len)
  {
    if len == MaxTrans(s) {
      OrCommutes(base, COUNT_FULL);
      JoinLow(COUNT_FULL, base, 31);
    } else {
      JoinLow(base, len, 16);
    }
  }

  /** The engine reads back the length in a count word. */
  lemma ReadCount(s: Soc, base: nat, len: nat)
    requires CountBase(base) && 0 < len <= MaxTrans(s)
    ensures CountLength(s, base + Encode(s, len)) == len
  {
    CountArith(base, Encode(s, len));
  }

  // ---------------------------------------------------------------- pieces of a transfer

  /** Offset of piece k. */
  function Offset(s: Soc, k: nat): nat {
    if k == 0 then 0 else Offset(s, k - 1) + MaxTrans(s)
  }

  /** Number of pieces of a transfer of n bytes. */
  function Pieces(s: Soc, n: nat): (c: nat)
    requires 0 < n
    ensures c > 0 && Offset(s, c - 1) < n <= Offset(s, c)
    decreases n
  {
    if n <= MaxTrans(s) then 1
    else
      var c := Pieces(s, n - MaxTrans(s)) + 1;
      OffsetShift(s, c - 1);
      OffsetShift(s, c - 2);
      c
  }

  lemma {:induction false} OffsetShift(s: Soc, k: nat)
    ensures Offset(s, k + 1) == Offset(s, k) + MaxTrans(s)
    ensures k > 0 ==> Offset(s, k) == Offset(s, k - 1) + MaxTrans(s)
  {
  }

  lemma {:induction false} OffsetMonotone(s: Soc, j: nat, k: nat)
    requires j <= k
    ensures Offset(s, j) <= Offset(s, k)
    decreases k
  {
    if j < k { OffsetMonotone(s, j, k - 1); }
  }

  lemma {:induction false} OffsetValue(s: Soc, k: nat)
    ensures Offset(s, k) == k * MaxTrans(s)
  {
    if k > 0 { OffsetValue(s, k - 1); }
  }

  /** The driver's own count of descriptors is one more than the number of pieces, for every
      length whose sum does not wrap. */
  lemma PiecesIsCeiling(s: Soc, n: nat)
    requires 0 < n && n + MaxTrans(s) - 1 < TWO_32
    ensures (n + MaxTrans(s) - 1) % TWO_32 / MaxTrans(s) == Pieces(s, n)
  {
    var c := Pieces(s, n);
    OffsetValue(s, c);
    OffsetValue(s, c - 1);
    match s
    case Sun8iw21 => assert (c - 1) * 4096 < n <= c * 4096;
    case OtherSoc => assert (c - 1) * 65536 < n <= c * 65536;
  }

  /** Length of piece k. */
  function PieceLength(s: Soc, n: nat, k: nat): nat {
    var off := Offset(s, k);
    if n <= off then 0 else if n - off < MaxTrans(s) then n - off else MaxTrans(s)
  }

  // ---------------------------------------------------------------- the chain

  /** What the driver has put into the first descriptor before the length loop. */
  datatype Head = Head(toMemory: bool, phase: nat, width: nat, countBase: nat, flash: nat, data: nat)

  function BurstWord(toMemory: bool): nat {
    if toMemory then BURST_INCR16 + TO_MEMORY else BURST_INCR16
  }

  /** Descriptor k before it is linked. */
  function OpenDesc(s: Soc, h: Head, n: nat, k: nat): Desc {
    var len := PieceLength(s, n, k);
    Desc(BurstWord(h.toMemory), Block64(s) + len, StepBy(MaxTrans(s) / 4, h.data, k), 0, h.phase,
         StepBy(MaxTrans(s), h.flash, k), h.width, h.countBase + Encode(s, len))
  }

  /** A 32-bit address after k steps. */
  function StepBy(step: nat, a: nat, k: nat): nat {
    if k == 0 then a else (StepBy(step, a, k - 1) + step) % TWO_32
  }

  lemma {:induction false} FlashStep(s: Soc, a: nat, k: nat)
    requires a < TWO_32
    ensures StepBy(MaxTrans(s), a, k) == (a + Offset(s, k)) % TWO_32
  {
    if k > 0 {
      FlashStep(s, a, k - 1);
      ModAdd(a + Offset(s, k - 1), MaxTrans(s), TWO_32);
    }
  }

  lemma QuarterStep(s: Soc, off: nat)
    ensures (off + MaxTrans(s)) / 4 == off / 4 + MaxTrans(s) / 4
  {
  }

  lemma {:induction false} DataStep(s: Soc, a: nat, k: nat)
    requires a < TWO_32
    ensures StepBy(MaxTrans(s) / 4, a, k) == (a + Offset(s, k) / 4) % TWO_32
  {
    if k > 0 {
      DataStep(s, a, k - 1);
      QuarterStep(s, Offset(s, k - 1));
      ModAdd(a + Offset(s, k - 1) / 4, MaxTrans(s) / 4, TWO_32);
    }
  }

  /** Descriptor k of a finished chain of c descriptors, stored from address `base`. */
  function ChainDesc(s: Soc, h: Head, base: nat, n: nat, c: nat, k: nat): Desc {
    var d := OpenDesc(s, h, n, k);
    if k + 1 < c then d.(next := Link(base, k + 1)) else d.(burst := d.burst + FINISH)
  }

  /** The link to descriptor k: its word address. */
  function Link(base: nat, k: nat): nat {
    (base + DESC * k) / 4
  }

  // ---------------------------------------------------------------- the code

  /** Lines 297 to 299 and 380 or 396: the burst word of the first descriptor. */
  method FirstBurst(toMemory: bool) returns (w: nat)
    ensures w == BurstWord(toMemory)
  {
    w := Or(AndNot(0, BURST_INCR16), BURST_INCR16);
    w := if toMemory then Or(w, TO_MEMORY) else AndNot(w, TO_MEMORY);
    assert Or(0x70, 2) == 0x72 && AndNot(0x70, 2) == 0x70;
  }

  /** Line 446: mark the last descriptor. */
  method MarkLast(w: nat) returns (r: nat)
    requires exists toMemory :: w == BurstWord(toMemory)
    ensures r == w + FINISH
  {
    assert Or(0x70, 1) == 0x71 && Or(0x72, 1) == 0x73;
    r := Or(w, FINISH);
  }

  /** Lines 424 and 428: replace the length in a block word. */
  method PutBlock(s: Soc, w: nat, len: nat) returns (r: nat)
    requires Block64(s) <= w <= Block64(s) + MaxTrans(s) && len <= MaxTrans(s)
    ensures r == Block64(s) + len
  {
    BlockArith(s, w - Block64(s));
    ClearLow(w, LenBits(s));
    r := AndNot(w, Ones(LenBits(s)));
    r := JoinBlock(s, r, len);
  }

  method JoinBlock(s: Soc, w: nat, len: nat) returns (r: nat)
    requires w == Block64(s) && len <= MaxTrans(s)
    ensures r == Block64(s) + len
  {
    BlockArith(s, len);
    JoinLow(w, len, LenBits(s));
    r := Or(w, len);
  }

  /** Lines 425 and 430: replace the length in a count word. */
  method PutCount(s: Soc, w: nat, ghost base: nat, ghost prior: nat, len: nat) returns (r: nat)
    requires CountBase(base) && 0 < prior <= MaxTrans(s) && 0 < len <= MaxTrans(s)
    requires w == base + Encode(s, prior)
    ensures r == base + Encode(s, len)
  {
    CountArith(base, Encode(s, prior));
    r := ClearCount(w);
    r := JoinCount(s, r, len);
  }

  method ClearCount(w: nat) returns (r: nat)
    requires w < TWO_32
    ensures r == Stripped(w)
  {
    ClearTwo(w);
    r := AndNot(w, Or(COUNT_FULL, COUNT_MASK));
  }

  method JoinCount(s: Soc, w: nat, len: nat) returns (r: nat)
    requires CountBase(w) && 0 < len <= MaxTrans(s)
    ensures r == w + Encode(s, len)
  {
    AddCount(s, w, len);
    r := Or(w, if len == MaxTrans(s) then COUNT_FULL else len);
  }

  /** Lines 297 to 305 and 399 to 411: the first descriptor, for its first piece. */
  method FirstDesc(s: Soc, h: Head, len: nat) returns (d: Desc)
    requires CountBase(h.countBase) && 0 < len <= MaxTrans(s)
    ensures d == Desc(BurstWord(h.toMemory), Block64(s) + len, h.data, 0, h.phase, h.flash, h.width,
                      h.countBase + Encode(s, len))
  {
    var burst := FirstBurst(h.toMemory);
    var block := JoinBlock(s, Block64(s), len);
    var count := JoinCount(s, h.countBase, len);
    d := Desc(burst, block, h.data, 0, h.phase, h.flash, h.width, count);
  }

  /** Lines 415 to 432: the descriptor of the next piece, copied from the current one. */
  method NextDesc(s: Soc, h: Head, n: nat, cur: Desc, ghost k: nat, len: nat) returns (d: Desc)
    requires CountBase(h.countBase) && 0 < n && Offset(s, k + 1) < n && cur == OpenDesc(s, h, n, k)
    requires len == PieceLength(s, n, k + 1)
    ensures d == OpenDesc(s, h, n, k + 1)
  {
    assert PieceLength(s, n, k) == MaxTrans(s);
    var block := PutBlock(s, cur.block, len);
    var count := PutCount(s, cur.count, h.countBase, MaxTrans(s), len);
    d := cur.(flash := (cur.flash + MaxTrans(s)) % TWO_32, data := (cur.data + MaxTrans(s) / 4) % TWO_32,
              block := block, count := count);
  }

  /** Lines 399 to 446: fill and link the descriptors of a transfer of n bytes. */
  method BuildChain(s: Soc, h: Head, base: nat, n: nat, descs: array<Desc>)
    requires CountBase(h.countBase) && 0 < n && h.flash < TWO_32 && h.data < TWO_32
    requires Pieces(s, n) <= descs.Length
    modifies descs
    ensures forall k :: 0 <= k < Pieces(s, n) ==> descs[k] == ChainDesc(s, h, base, n, Pieces(s, n), k)
    ensures forall k :: Pieces(s, n) <= k < descs.Length ==> descs[k] == old(descs[k])
  {
    var len := if n < MaxTrans(s) then n else MaxTrans(s);
    descs[0] := FirstDesc(s, h, len);
    var last := FillRest(s, h, base, n, n - len, descs);
    var burst := MarkLast(descs[last].burst);
    descs[last] := descs[last].(next := 0, burst := burst);
  }

  /** Lines 414 to 444: the loop over the remaining length. */
  method FillRest(s: Soc, h: Head, base: nat, n: nat, len: nat, descs: array<Desc>) returns (cur: nat)
    requires CountBase(h.countBase) && 0 < n && Pieces(s, n) <= descs.Length
    requires len == n - PieceLength(s, n, 0) && descs[0] == OpenDesc(s, h, n, 0)
    modifies descs
    ensures cur + 1 == Pieces(s, n) && descs[cur] == OpenDesc(s, h, n, cur)
    ensures forall k :: 0 <= k < cur ==> descs[k] == ChainDesc(s, h, base, n, Pieces(s, n), k)
    ensures forall k :: cur < k < descs.Length ==> descs[k] == old(descs[k])
  {
    ghost var c := Pieces(s, n);
    var remain := len;
    cur := 0;
    while remain > 0
      invariant cur < c && Offset(s, cur) < n
      invariant remain == n - Offset(s, cur) - PieceLength(s, n, cur)
      invariant descs[cur] == OpenDesc(s, h, n, cur)
      invariant forall k :: 0 <= k < cur ==> descs[k] == ChainDesc(s, h, base, n, c, k)
      invariant forall k :: cur < k < descs.Length ==> descs[k] == old(descs[k])
      decreases remain
    {
      MorePieces(s, n, cur);
      var handle := if remain < MaxTrans(s) then remain else MaxTrans(s);
      descs[cur + 1] := NextDesc(s, h, n, descs[cur], cur, handle);
      descs[cur] := descs[cur].(next := Link(base, cur + 1));
      remain := remain - handle;
      cur := cur + 1;
    }
    LastPiece(s, n, cur);
  }

  lemma MorePieces(s: Soc, n: nat, k: nat)
    requires 0 < n && k < Pieces(s, n) && Offset(s, k) < n && n - Offset(s, k) > PieceLength(s, n, k)
    ensures k + 1 < Pieces(s, n) && Offset(s, k + 1) == Offset(s, k) + MaxTrans(s) < n
  {
    assert Offset(s, k + 1) == Offset(s, k) + MaxTrans(s);
  }

  lemma LastPiece(s: Soc, n: nat, k: nat)
    requires 0 < n && k < Pieces(s, n) && Offset(s, k) < n && n - Offset(s, k) == PieceLength(s, n, k)
    ensures k + 1 == Pieces(s, n)
  {
    if k + 1 < Pieces(s, n) { OffsetMonotone(s, k + 1, Pieces(s, n) - 1); }
  }
}
