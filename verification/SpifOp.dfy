/** `spif_mem_exec_op_v1` as a whole: descriptor buffer, bounce buffer, chain, engine. */
module SpifOp {
  import opened Machine
  import opened Bits
  import opened SpifChain
  import opened SpifEngine

  /** CONFIG_SYS_CACHELINE_SIZE. */
  const LINE: nat := 64

  /** A data operation.  `phase` and `width` stand for the command, mode and bus-width words,
      which every descriptor repeats. */
  datatype Op = Op(read: bool, addrBytes: nat, addr: nat, cycle: nat, nbytes: nat, buf: nat,
                   v2: bool, phase: nat, width: nat)

  predicate ValidOp(op: Op) {
    op.addrBytes < 256 && op.cycle < 256 && op.nbytes < TWO_32 && op.buf < TWO_32
  }

  /** The flash address word: the 64-bit address cut to 32 bits, 0 when there is none. */
  function FlashWord(op: Op): nat {
    if op.addrBytes == 0 then 0 else op.addr % TWO_32
  }

  /** Address-size code in bits 24 and 25 of the count word. */
  function SizeCode(op: Op): nat {
    if op.addrBytes == 0 then 0
    else if op.addrBytes == 4 then (if op.v2 then 3 else 1)
    else if op.v2 then 2 else 0
  }

  function CountWord(op: Op): nat {
    NORMAL_EN + SizeCode(op) * 0x100_0000 + op.cycle * 0x1_0000
  }

  lemma CountWordIsBase(op: Op)
    requires ValidOp(op)
    ensures CountBase(CountWord(op))
  {
  }

  /** Lines 305 to 363: the count word of the first descriptor, before a length is put in. */
  method FirstCount(op: Op) returns (w: nat)
    requires ValidOp(op)
    ensures w == CountWord(op)
  {
    w := Or(0, NORMAL_EN);
    if op.addrBytes != 0 {
      if op.addrBytes == 4 {
        if op.v2 { w := PutSize(w, 3, 3); } else { w := PutSize(w, 1, 1); }
      } else {
        if op.v2 { w := PutSize(w, 3, 2); } else { w := PutSize(w, 1, 0); }
      }
    }
    if op.cycle != 0 {
      w := JoinDummy(w, op.cycle);
    }
  }

  /** Replace the address-size field under a mask. */
  method PutSize(w: nat, mask: nat, code: nat) returns (r: nat)
    requires w == NORMAL_EN && mask < 4 && code < 4
    ensures r == w + code * 0x100_0000
  {
    LowMod(w, 28);
    PowValues();
    ClearAbsent(w, mask * 0x100_0000, 28);
    JoinLow(w, code * 0x100_0000, 28);
    r := Or(AndNot(w, mask * 0x100_0000), code * 0x100_0000);
  }

  method JoinDummy(w: nat, cycle: nat) returns (r: nat)
    requires w % 0x100_0000 == 0 && cycle < 256
    ensures r == w + cycle * 0x1_0000
  {
    JoinLow(w, cycle * 0x1_0000, 24);
    r := Or(w, cycle * 0x1_0000);
  }

  // ---------------------------------------------------------------- buffers

  /** DEFAULT_SPIF_OP_BUFFER_SZ. */
  function DefaultSize(s: Soc): nat {
    match s case Sun8iw21 => 16 * 1024 * 1024 / 4096 * DESC case OtherSoc => 16 * 1024 * 1024 / 65536 * DESC
  }

  /** The driver's size of the descriptor buffer for n bytes; the sum wraps. */
  function DescBytes(s: Soc, n: nat): nat {
    ((n + MaxTrans(s) - 1) % TWO_32 / MaxTrans(s) + 1) * DESC
  }

  /** The descriptors of a transfer fit a buffer of the size asked for exactly when the sum that
      counts them does not wrap. */
  lemma ChainFitsIff(s: Soc, n: nat)
    requires 0 < n < TWO_32
    ensures var size := if DescBytes(s, n) > DefaultSize(s) then DescBytes(s, n) else DefaultSize(s);
            Pieces(s, n) * DESC <= size <==> n + MaxTrans(s) - 1 < TWO_32
  {
    if n + MaxTrans(s) - 1 < TWO_32 {
      PiecesIsCeiling(s, n);
    } else {
      ManyPieces(s, n);
    }
  }

  lemma ManyPieces(s: Soc, n: nat)
    requires n < TWO_32 <= n + MaxTrans(s) - 1
    ensures Pieces(s, n) * DESC > DefaultSize(s) && DescBytes(s, n) == DESC
  {
    OffsetValue(s, Pieces(s, n));
    match s
    case Sun8iw21 => assert n <= Pieces(s, n) * 4096;
    case OtherSoc => assert n <= Pieces(s, n) * 65536;
  }

  /** First multiple of the line size at or above p. */
  function AlignUp(p: nat): nat {
    p + LINE - 1 - (p + LINE - 1) % LINE
  }

  lemma ClearLine(x: nat)
    ensures AndNot(x, LINE - 1) == x - x % LINE
  {
    assert Ones(6) == 63 && Pow2(6) == 64;
    ClearOnes(x, 6);
    LowIsMod(x, 6);
  }

  /** `malloc_align`, given what `malloc` returned for len + 63 bytes. */
  method MallocAlign(p: nat, len: nat) returns (a: nat)
    ensures p == 0 ==> a == 0
    ensures p != 0 ==> a == AlignUp(p) && a % LINE == 0 && p <= a && a + len <= p + (len + LINE - 1)
  {
    if p == 0 { return 0; }
    ClearLine(p + LINE - 1);
    a := AndNot(p + LINE - 1, LINE - 1);
  }

  // ---------------------------------------------------------------- the operation

  /** The operation stays inside memory and flash. */
  predicate OpInRange(op: Op, w: World) {
    && FlashWord(op) + op.nbytes <= |w.flash| <= TWO_32
    && op.buf + op.nbytes <= |w.mem| <= TWO_32
  }

  predicate Aligned(op: Op) {
    op.buf % LINE == 0
  }

  /** Memory and flash after the operation; b is the aligned bounce buffer of a misaligned one. */
  function OpEffect(op: Op, b: nat, w: World): World {
    if op.nbytes == 0 then w
    else if Aligned(op) then Transfer(op.read, FlashWord(op), op.buf, op.nbytes, w)
    else if op.read then
      var w' := Transfer(true, FlashWord(op), b, op.nbytes, w);
      w'.(mem := Put(w'.mem, op.buf, Get(w'.mem, b, op.nbytes)))
    else Transfer(false, FlashWord(op), b, op.nbytes, w.(mem := Put(w.mem, b, Get(w.mem, op.buf, op.nbytes))))
  }

  /** What a descriptor tells the controller besides the piece it moves: the words of the operation, an address of
      4 bytes exactly when it asks for 4, its dummy cycles, bursts of 16 and blocks of 64 bytes. */
  ghost predicate Carries(s: Soc, op: Op, d: Desc) {
    && d.phase == op.phase && d.width == op.width
    && (op.addrBytes != 0 ==> AddressBytes(op.v2, d.count) == if op.addrBytes == 4 then 4 else 3)
    && DummyCycles(d.count) == op.cycle && IsNormal(d.count)
    && BurstType(d.burst) == 7 && BlockUnit(s, d.block) == 3
  }

  lemma CountCarries(op: Op, e: nat)
    requires ValidOp(op) && (e < 0x1_0000 || e == COUNT_FULL)
    ensures var w := CountWord(op) + e;
      && (op.addrBytes != 0 ==> AddressBytes(op.v2, w) == if op.addrBytes == 4 then 4 else 3)
      && DummyCycles(w) == op.cycle && IsNormal(w)
  {
  }

  lemma DescCarries(s: Soc, op: Op, h: Head, base: nat, c: nat, k: nat)
    requires ValidOp(op) && h.phase == op.phase && h.width == op.width && h.countBase == CountWord(op)
    ensures Carries(s, op, ChainDesc(s, h, base, op.nbytes, c, k))
  {
    var len := PieceLength(s, op.nbytes, k);
    CountCarries(op, Encode(s, len));
  }

  lemma ChainCarries(s: Soc, op: Op, h: Head, base: nat, descs: seq<Desc>)
    requires ValidOp(op) && h.phase == op.phase && h.width == op.width && h.countBase == CountWord(op)
    requires 0 < op.nbytes && Pieces(s, op.nbytes) <= |descs|
    requires forall j :: 0 <= j < Pieces(s, op.nbytes) ==>
      descs[j] == ChainDesc(s, h, base, op.nbytes, Pieces(s, op.nbytes), j)
    ensures forall k :: 0 <= k < Pieces(s, op.nbytes) ==> Carries(s, op, descs[k])
  {
    forall k | 0 <= k < Pieces(s, op.nbytes)
      ensures Carries(s, op, descs[k])
    {
      DescCarries(s, op, h, base, Pieces(s, op.nbytes), k);
    }
  }

  class SpifDriver {
    const soc: Soc
    /** spif_op_buffer, spif_op_buffer_aligned and spif_op_buffer_size. */
    var opBuffer: nat
    var opBufferAligned: nat
    var opBufferSize: nat
    /** The descriptors in the buffer. */
    var descs: array<Desc>
    var world: World

    ghost predicate Valid()
      reads this
    {
      opBuffer != 0 ==>
        && opBufferAligned == AlignUp(opBuffer) && DefaultSize(soc) <= opBufferSize
        && opBufferSize % DESC == 0 && descs.Length * DESC == opBufferSize
    }

    constructor (soc: Soc, world: World)
      ensures Valid() && opBuffer == 0 && this.soc == soc && this.world == world
    {
      this.soc, this.world := soc, world;
      opBuffer, opBufferAligned, opBufferSize := 0, 0, 0;
      descs := new Desc[0];
    }

    /** Lines 273 to 290, given the two results of `malloc`: a buffer at least as large as asked
        for, or none. */
    method ReserveBuffer(size: nat, first: nat, second: nat) returns (ok: bool)
      requires Valid() && size % DESC == 0
      modifies this
      ensures Valid() && world == old(world)
      ensures ok <==> opBuffer != 0
      ensures ok ==> size <= opBufferSize
      ensures descs == old(descs) || fresh(descs)
      ensures ok <==> (old(opBuffer) != 0 || first != 0)
                      && (size <= (if old(opBuffer) != 0 then old(opBufferSize) else DefaultSize(soc)) || second != 0)
    {
      if opBuffer == 0 {
        opBufferSize := DefaultSize(soc);
        opBuffer := first;
        opBufferAligned := MallocAlign(first, opBufferSize);
        descs := new Desc[opBufferSize / DESC];
        if opBufferAligned == 0 { return false; }
      }
      if size > opBufferSize {
        opBufferSize := size;
        opBuffer := second;
        opBufferAligned := MallocAlign(second, opBufferSize);
        descs := new Desc[opBufferSize / DESC];
        if opBufferAligned == 0 { return false; }
      }
      return true;
    }

    /** `spif_mem_exec_op_v1`.  The last three arguments are what `malloc` returns for the
        descriptor buffer, for a larger descriptor buffer, and for the bounce buffer. */
    method ExecOp(op: Op, async: bool, first: nat, second: nat, bounce: nat) returns (ret: int)
      requires Valid() && ValidOp(op) && OpInRange(op, world)
      requires op.nbytes + MaxTrans(soc) - 1 < TWO_32
      requires BounceAt(bounce) + op.nbytes <= |world.mem|
      modifies this, descs
      ensures Valid() && (ret == 0 || ret == -1)
      ensures ret == 0 ==> world == OpEffect(op, BounceAt(bounce), old(world))
      ensures ret == -1 ==> world == old(world)
      ensures ret == -1 <==> opBuffer == 0 || (op.nbytes != 0 && op.buf % 64 != 0 && async)
      ensures ret == 0 && op.nbytes != 0 ==>
        forall k :: 0 <= k < Pieces(soc, op.nbytes) && k < descs.Length ==> Carries(soc, op, descs[k])
    {
      DescBytesMultiple(soc, op.nbytes);
      var ok := ReserveBuffer(DescBytes(soc, op.nbytes), first, second);
      if !ok { return -1; }
      if op.nbytes == 0 { return 0; }
      var data := op.buf;
      if op.buf % LINE != 0 {
        if async { return -1; }
        data := MallocAlign(bounce, op.nbytes);
        if !op.read {
          world := world.(mem := Put(world.mem, data, Get(world.mem, op.buf, op.nbytes)));
        }
      }
      Xfer(op, data);
      if op.read && op.buf % LINE != 0 {
        world := world.(mem := Put(world.mem, op.buf, Get(world.mem, data, op.nbytes)));
      }
      return 0;
    }

    /** Build the chain for `data`. */
    method Prepare(op: Op, data: nat) returns (h: Head)
      requires Valid() && opBuffer != 0 && ValidOp(op) && 0 < op.nbytes && data < TWO_32
      requires Pieces(soc, op.nbytes) <= descs.Length
      modifies descs
      ensures h == Head(op.read, op.phase, op.width, CountWord(op), FlashWord(op), data / 4)
      ensures forall k :: 0 <= k < Pieces(soc, op.nbytes) ==>
        descs[..][k] == ChainDesc(soc, h, opBufferAligned, op.nbytes, Pieces(soc, op.nbytes), k)
      ensures forall k :: 0 <= k < Pieces(soc, op.nbytes) && k < descs.Length ==> Carries(soc, op, descs[k])
    {
      CountWordIsBase(op);
      var count := FirstCount(op);
      h := Head(op.read, op.phase, op.width, count, FlashWord(op), data / 4);
      BuildChain(soc, h, opBufferAligned, op.nbytes, descs);
      ChainCarries(soc, op, h, opBufferAligned, descs[..]);
    }

    /** Build the chain for `data` and let the engine run it. */
    method Xfer(op: Op, data: nat)
      requires Valid() && opBuffer != 0 && ValidOp(op) && 0 < op.nbytes && data % LINE == 0
      requires DescBytes(soc, op.nbytes) <= opBufferSize && op.nbytes + MaxTrans(soc) - 1 < TWO_32
      requires FlashWord(op) + op.nbytes <= |world.flash| <= TWO_32 && data + op.nbytes <= |world.mem| <= TWO_32
      modifies this`world, descs
      ensures world == Transfer(op.read, FlashWord(op), data, op.nbytes, old(world))
      ensures forall k :: 0 <= k < Pieces(soc, op.nbytes) && k < descs.Length ==> Carries(soc, op, descs[k])
    {
      PiecesIsCeiling(soc, op.nbytes);
      var h := Prepare(op, data);
      CountWordIsBase(op);
      AlignUpLine(opBuffer);
      var steps := (op.nbytes + MaxTrans(soc) - 1) % TWO_32 / MaxTrans(soc);
      RunIsTransfer(soc, h, opBufferAligned, op.nbytes, descs[..], world, data, steps,
        Transfer(op.read, FlashWord(op), data, op.nbytes, world));
      world := Run(soc, descs[..], opBufferAligned, steps, world).world;
    }
  }

  lemma RunIsTransfer(s: Soc, h: Head, base: nat, n: nat, descs: seq<Desc>, w: World, data: nat, steps: nat,
                      goal: World)
    requires CountBase(h.countBase) && 0 < n && InRange(h, n, w) && base % 4 == 0 && data == h.data * 4
    requires steps == Pieces(s, n) <= |descs| && goal == Transfer(h.toMemory, h.flash, data, n, w)
    requires forall j :: 0 <= j < Pieces(s, n) ==> descs[j] == ChainDesc(s, h, base, n, Pieces(s, n), j)
    ensures Run(s, descs, base, steps, w).world == goal
  {
    ChainIsTransfer(s, h, base, n, descs, w);
  }

  /** Where `malloc_align` puts the bounce buffer. */
  function BounceAt(p: nat): nat {
    if p == 0 then 0 else AlignUp(p)
  }

  lemma AlignUpLine(p: nat)
    ensures AlignUp(p) % LINE == 0
  {
  }

  lemma DescBytesMultiple(s: Soc, n: nat)
    ensures DescBytes(s, n) % DESC == 0
  {
  }

  // ---------------------------------------------------------------- what the operation achieves

  /** Where the operation reads or writes the flash: from the 32-bit address on, or from 0 without an address. */
  lemma FlashFrom(op: Op, w: World)
    requires OpInRange(op, w)
    ensures var f := if op.addrBytes == 0 then 0 else op.addr % TWO_32;
      FlashWord(op) == f && f + op.nbytes <= |w.flash| && op.buf + op.nbytes <= |w.mem|
  {
  }

  /** The two copies of a read through a bounce buffer. */
  lemma BouncedRead(mem: Bytes, flash: Bytes, f: nat, b: nat, buf: nat, n: nat, m1: Bytes, m2: Bytes, x: nat)
    requires f + n <= |flash| && b + n <= |mem| && buf + n <= |mem| && x < |mem|
    requires m1 == Put(mem, b, Get(flash, f, n)) && m2 == Put(m1, buf, Get(m1, b, n))
    ensures |m2| == |mem|
    ensures m2[x] ==
      if buf <= x < buf + n then flash[f + (x - buf)] else if b <= x < b + n then flash[f + (x - b)] else mem[x]
  {
    CopiedAt(mem, b, flash, f, n, m1, x);
    CopiedAt(m1, buf, m1, b, n, m2, x);
    if buf <= x < buf + n { CopiedAt(mem, b, flash, f, n, m1, b + (x - buf)); }
  }

  /** A read fills the caller's buffer with the flash bytes from the 32-bit address on, or from 0 without an address,
      keeps the flash, and changes no other memory than the bounce buffer. */
  lemma ReadIsExact(op: Op, b: nat, w: World, x: nat)
    requires op.read && OpInRange(op, w) && (Aligned(op) || b + op.nbytes <= |w.mem|) && x < |w.mem|
    ensures var w' := OpEffect(op, b, w); var f := if op.addrBytes == 0 then 0 else op.addr % TWO_32;
            && w'.flash == w.flash && |w'.mem| == |w.mem| && f + op.nbytes <= |w.flash|
            && (op.buf <= x < op.buf + op.nbytes ==> w'.mem[x] == w.flash[f + (x - op.buf)])
            && (!(op.buf <= x < op.buf + op.nbytes) && (op.buf % 64 == 0 || !(b <= x < b + op.nbytes)) ==>
                  w'.mem[x] == w.mem[x])
  {
    FlashFrom(op, w);
    var f, n := FlashWord(op), op.nbytes;
    if n != 0 {
      if Aligned(op) {
        CopiedAt(w.mem, op.buf, w.flash, f, n, Put(w.mem, op.buf, Get(w.flash, f, n)), x);
      } else {
        var m1 := Put(w.mem, b, Get(w.flash, f, n));
        BouncedRead(w.mem, w.flash, f, b, op.buf, n, m1, Put(m1, op.buf, Get(m1, b, n)), x);
      }
    }
  }

  /** The two copies of a write through a bounce buffer that does not meet the caller's. */
  lemma BouncedWrite(mem: Bytes, flash: Bytes, f: nat, b: nat, buf: nat, n: nat, m1: Bytes, f1: Bytes, x: nat)
    requires f + n <= |flash| && b + n <= |mem| && buf + n <= |mem| && x < |flash|
    requires m1 == Put(mem, b, Get(mem, buf, n)) && f1 == Put(flash, f, Get(m1, b, n))
    ensures |f1| == |flash| && f1[x] == if f <= x < f + n then mem[buf + (x - f)] else flash[x]
  {
    CopiedAt(flash, f, m1, b, n, f1, x);
    if f <= x < f + n { CopiedAt(mem, b, mem, buf, n, m1, b + (x - f)); }
  }

  /** A write puts the caller's bytes into the flash from that address on, and keeps the rest of the flash. */
  lemma WriteIsExact(op: Op, b: nat, w: World, x: nat)
    requires !op.read && OpInRange(op, w) && (Aligned(op) || b + op.nbytes <= |w.mem|) && x < |w.flash|
    ensures var w' := OpEffect(op, b, w); var f := if op.addrBytes == 0 then 0 else op.addr % TWO_32;
            && |w'.flash| == |w.flash|
            && w'.flash[x] == if f <= x < f + op.nbytes then w.mem[op.buf + (x - f)] else w.flash[x]
  {
    FlashFrom(op, w);
    var f, n := FlashWord(op), op.nbytes;
    if n != 0 {
      if Aligned(op) {
        CopiedAt(w.flash, f, w.mem, op.buf, n, Put(w.flash, f, Get(w.mem, op.buf, n)), x);
      } else {
        var m1 := Put(w.mem, b, Get(w.mem, op.buf, n));
        BouncedWrite(w.mem, w.flash, f, b, op.buf, n, m1, Put(w.flash, f, Get(m1, b, n)), x);
      }
    }
  }

  /** A write changes no memory but the bounce buffer, which takes the caller's bytes. */
  lemma WriteKeepsMemory(op: Op, b: nat, w: World, x: nat)
    requires !op.read && OpInRange(op, w) && (Aligned(op) || b + op.nbytes <= |w.mem|) && x < |w.mem|
    ensures var w' := OpEffect(op, b, w);
      && |w'.mem| == |w.mem|
      && w'.mem[x] == if op.buf % 64 != 0 && b <= x < b + op.nbytes then w.mem[op.buf + (x - b)] else w.mem[x]
  {
    var n := op.nbytes;
    if n != 0 && !Aligned(op) {
      CopiedAt(w.mem, b, w.mem, op.buf, n, Put(w.mem, b, Get(w.mem, op.buf, n)), x);
    }
  }

  /** Memory that is neither in the caller's buffer nor in the bounce buffer is unchanged. */
  lemma OutsideUnchanged(op: Op, b: nat, w: World, x: nat)
    requires OpInRange(op, w) && (Aligned(op) || b + op.nbytes <= |w.mem|) && x < |w.mem|
    requires !(op.buf <= x < op.buf + op.nbytes) && (Aligned(op) || !(b <= x < b + op.nbytes))
    ensures |OpEffect(op, b, w).mem| == |w.mem| && OpEffect(op, b, w).mem[x] == w.mem[x]
  {
    if op.read { ReadIsExact(op, b, w, x); } else { WriteKeepsMemory(op, b, w, x); }
  }

  /** When the bounce buffer cannot be had the code carries on at address 0: the first byte of memory is
      overwritten, with a byte of the flash or of the caller's buffer. */
  lemma MissingBounce(op: Op, w: World)
    requires OpInRange(op, w) && !Aligned(op) && 0 < op.nbytes <= |w.mem|
    ensures var m := OpEffect(op, BounceAt(0), w).mem; var f := if op.addrBytes == 0 then 0 else op.addr % TWO_32;
      |m| == |w.mem| && f < |w.flash| && m[0] == if op.read then w.flash[f] else w.mem[op.buf]
  {
    FlashFrom(op, w);
    var f, n := FlashWord(op), op.nbytes;
    if op.read {
      var m1 := Put(w.mem, 0, Get(w.flash, f, n));
      BouncedRead(w.mem, w.flash, f, 0, op.buf, n, m1, Put(m1, op.buf, Get(m1, 0, n)), 0);
    } else {
      WriteKeepsMemory(op, 0, w, 0);
    }
  }

  /** Address x belongs to the caller's buffer, or to the nbytes + 63 bytes allocated at `bounce`. */
  predicate Owned(op: Op, bounce: nat, x: nat) {
    || op.buf <= x < op.buf + op.nbytes
    || (bounce != 0 && bounce <= x < bounce + op.nbytes + LINE - 1)
  }

  /** The operation changes no memory but the caller's buffer and the allocation. */
  ghost predicate Confined(op: Op, bounce: nat, w: World) {
    var m := OpEffect(op, BounceAt(bounce), w).mem;
    |m| == |w.mem| && forall x :: 0 <= x < |m| && !Owned(op, bounce, x) ==> m[x] == w.mem[x]
  }

  lemma BounceInside(bounce: nat)
    requires bounce != 0
    ensures bounce <= BounceAt(bounce) < bounce + LINE
  {
  }

  lemma ConfinedWith(op: Op, bounce: nat, w: World)
    requires OpInRange(op, w) && (op.nbytes == 0 || Aligned(op) || bounce != 0)
    requires Aligned(op) || BounceAt(bounce) + op.nbytes <= |w.mem|
    ensures Confined(op, bounce, w)
  {
    if op.nbytes != 0 {
      var m := OpEffect(op, BounceAt(bounce), w).mem;
      if bounce != 0 { BounceInside(bounce); }
      forall x | 0 <= x < |w.mem| && !Owned(op, bounce, x)
        ensures |m| == |w.mem| && m[x] == w.mem[x]
      {
        OutsideUnchanged(op, BounceAt(bounce), w, x);
      }
    }
  }

  /** A memory and a flash of the given sizes that differ at address 0 from everything that could be put there. */
  function Marked(mem: nat, flash: nat): (w: World)
    requires mem > 0
    ensures |w.mem| == mem && |w.flash| == flash && w.mem[0] == 1
    ensures (forall x :: 0 < x < mem ==> w.mem[x] == 0) && forall x :: 0 <= x < flash ==> w.flash[x] == 0
  {
    World(seq(mem, x => if x == 0 then 1 else 0), seq(flash, _ => 0))
  }

  /** For all contents of a memory and a flash that hold the operation, it is confined exactly when there is
      nothing to transfer, the caller's buffer is aligned, or the bounce buffer was allocated. */
  lemma ConfinedIff(op: Op, bounce: nat, mem: nat, flash: nat)
    requires FlashWord(op) + op.nbytes <= flash <= TWO_32 && op.buf + op.nbytes <= mem <= TWO_32
    requires Aligned(op) || BounceAt(bounce) + op.nbytes <= mem
    ensures (forall w: World | |w.mem| == mem && |w.flash| == flash :: Confined(op, bounce, w))
      <==> op.nbytes == 0 || Aligned(op) || bounce != 0
  {
    if op.nbytes == 0 || Aligned(op) || bounce != 0 {
      forall w: World | |w.mem| == mem && |w.flash| == flash ensures Confined(op, bounce, w) {
        ConfinedWith(op, bounce, w);
      }
    } else {
      var w := Marked(mem, flash);
      assert op.buf > 0;
      MissingBounce(op, w);
      assert !Owned(op, bounce, 0);
      assert !Confined(op, bounce, w);
    }
  }
}
