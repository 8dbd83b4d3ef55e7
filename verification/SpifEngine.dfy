/** An abstract DMA engine that walks a descriptor chain, and the transfers it performs on the
    chains the driver builds. */
module SpifEngine {
  import opened Machine
  import opened SpifChain
  import opened Bits

  type Bytes = seq<int>

  /** dst with src written at offset `at`; out-of-range transfers have no effect. */
  function Put(dst: Bytes, at: nat, src: Bytes): (r: Bytes)
    ensures |r| == |dst|
  {
    if at + |src| <= |dst| then dst[..at] + src + dst[at + |src|..] else dst
  }

  function Get(src: Bytes, at: nat, len: nat): Bytes {
    if at + len <= |src| then src[at..at + len] else []
  }

  lemma PutAt(dst: Bytes, at: nat, src: Bytes, x: nat)
    requires at + |src| <= |dst| && x < |dst|
    ensures Put(dst, at, src)[x] == if at <= x < at + |src| then src[x - at] else dst[x]
  {
  }

  lemma GetAt(src: Bytes, at: nat, len: nat, i: nat)
    requires at + len <= |src| && i < len
    ensures |Get(src, at, len)| == len && Get(src, at, len)[i] == src[at + i]
  {
  }

  /** Copying one stretch: every byte of the result. */
  lemma CopiedAt(dst: Bytes, at: nat, src: Bytes, from: nat, len: nat, r: Bytes, x: nat)
    requires at + len <= |dst| && from + len <= |src| && x < |dst| && r == Put(dst, at, Get(src, from, len))
    ensures |r| == |dst| && r[x] == if at <= x < at + len then src[from + (x - at)] else dst[x]
  {
    PutAt(dst, at, Get(src, from, len), x);
    if at <= x < at + len { GetAt(src, from, len, x - at); }
  }

  /** Writing two adjacent stretches is one write. */
  lemma PutPut(dst: Bytes, at: nat, a: Bytes, b: Bytes)
    requires at + |a| + |b| <= |dst|
    ensures Put(Put(dst, at, a), at + |a|, b) == Put(dst, at, a + b)
  {
    var d := Put(dst, at, a);
    assert d[..at + |a|] == dst[..at] + a;
    assert d[at + |a| + |b|..] == dst[at + |a| + |b|..];
  }

  /** Memory and flash. */
  datatype World = World(mem: Bytes, flash: Bytes)

  /** One descriptor: its two length fields must agree; the burst word gives the direction. */
  function ExecDesc(s: Soc, d: Desc, w: World): World {
    var len := BlockLength(s, d.block);
    if len != CountLength(s, d.count) then w
    else if d.burst / 2 % 2 == 1 then w.(mem := Put(w.mem, d.data * 4, Get(w.flash, d.flash, len)))
    else w.(flash := Put(w.flash, d.flash, Get(w.mem, d.data * 4, len)))
  }

  /** How the controller reads the other fields: bytes of the flash address, in the encoding of the second version or
      of the first, dummy cycles, normal mode, burst type, and the unit of a block. */
  function AddressBytes(v2: bool, count: nat): nat {
    if v2 then count / 0x100_0000 % 4 + 1 else if count / 0x100_0000 % 2 == 1 then 4 else 3
  }

  function DummyCycles(count: nat): nat {
    count / 0x1_0000 % 256
  }

  predicate IsNormal(count: nat) {
    count / 0x1000_0000 % 2 == 1
  }

  function BurstType(burst: nat): nat {
    burst / 16 % 8
  }

  function BlockUnit(s: Soc, block: nat): nat {
    match s case Sun8iw21 => block / 0x1_0000 case OtherSoc => block / 0x100_0000
  }

  /** The engine is about to read the descriptor with this index, has stopped at a descriptor
      marked as last, or has followed a link that leads to no descriptor. */
  datatype Engine<W> = Running(at: nat, world: W) | Stopped(world: W) | Lost(world: W)

  /** Where the engine goes after descriptor d left the world as w. */
  function Follow<W>(d: Desc, base: nat, w: W): Engine<W> {
    var a := d.next * 4;
    if d.burst % 2 == 1 then Stopped(w)
    else if a < base || (a - base) % DESC != 0 then Lost(w)
    else Running((a - base) / DESC, w)
  }

  /** The engine after a number of descriptors, started on the first; `exec` is what one does. */
  function After<W>(exec: (Desc, W) -> W, descs: seq<Desc>, base: nat, steps: nat, w: W): Engine<W> {
    if steps == 0 then Running(0, w)
    else
      var e := After(exec, descs, base, steps - 1, w);
      if !e.Running? then e
      else if e.at >= |descs| then Lost(e.world)
      else Follow(descs[e.at], base, exec(descs[e.at], e.world))
  }

  /** The engine of a chip: it runs `ExecDesc`. */
  function Run(s: Soc, descs: seq<Desc>, base: nat, steps: nat, w: World): Engine<World> {
    After((d, v) => ExecDesc(s, d, v), descs, base, steps, w)
  }

  /** The transfer that was asked for: n bytes between flash and memory, in one piece. */
  function Transfer(toMemory: bool, flash: nat, mem: nat, n: nat, w: World): World {
    if toMemory then w.(mem := Put(w.mem, mem, Get(w.flash, flash, n)))
    else w.(flash := Put(w.flash, flash, Get(w.mem, mem, n)))
  }

  /** The transfer stays inside memory and flash. */
  predicate InRange(h: Head, n: nat, w: World) {
    && h.flash + n <= |w.flash| <= TWO_32
    && h.data * 4 + n <= |w.mem| <= TWO_32
  }

  /** What the engine reads from a descriptor for piece k. */
  ghost predicate Describes(s: Soc, h: Head, n: nat, k: nat, d: Desc) {
    && BlockLength(s, d.block) == PieceLength(s, n, k)
    && CountLength(s, d.count) == PieceLength(s, n, k)
    && d.flash == h.flash + Offset(s, k)
    && d.data * 4 == h.data * 4 + Offset(s, k)
    && (d.burst / 2 % 2 == 1 <==> h.toMemory)
  }

  /** Descriptor k of a chain describes piece k. */
  lemma DescFields(s: Soc, h: Head, base: nat, n: nat, c: nat, k: nat)
    requires CountBase(h.countBase) && 0 < n && Offset(s, k) < n
    requires h.flash + n <= TWO_32 && h.data * 4 + n <= TWO_32
    ensures Describes(s, h, n, k, ChainDesc(s, h, base, n, c, k))
  {
    var len := PieceLength(s, n, k);
    var d := ChainDesc(s, h, base, n, c, k);
    assert BlockLength(s, d.block) == len by { ReadBlock(s, len); }
    assert CountLength(s, d.count) == len by { ReadCount(s, h.countBase, len); }
    DescAddresses(s, h, n, k);
  }

  lemma DescAddresses(s: Soc, h: Head, n: nat, k: nat)
    requires 0 < n && Offset(s, k) < n && h.flash + n <= TWO_32 && h.data * 4 + n <= TWO_32
    ensures StepBy(MaxTrans(s), h.flash, k) == h.flash + Offset(s, k)
    ensures StepBy(MaxTrans(s) / 4, h.data, k) * 4 == h.data * 4 + Offset(s, k)
  {
    FlashStep(s, h.flash, k);
    DataStep(s, h.data, k);
    OffsetQuarter(s, k);
  }

  /** Only the last descriptor is marked as last, and every other links to its successor. */
  ghost predicate Links(base: nat, c: nat, k: nat, d: Desc) {
    && (d.burst % 2 == 1 <==> k + 1 >= c)
    && (if k + 1 < c then d.next * 4 == base + DESC * (k + 1) else d.next == 0)
  }

  lemma DescLinks(s: Soc, h: Head, base: nat, n: nat, c: nat, k: nat)
    requires base % 4 == 0
    ensures Links(base, c, k, ChainDesc(s, h, base, n, c, k))
  {
  }

  /** A descriptor for piece k moves exactly piece k. */
  lemma DescMovesPiece(s: Soc, h: Head, n: nat, k: nat, d: Desc, u: World, v: World, flash: nat, mem: nat, len: nat)
    requires Describes(s, h, n, k, d) && v == ExecDesc(s, d, u)
    requires flash == h.flash + Offset(s, k) && mem == h.data * 4 + Offset(s, k) && len == PieceLength(s, n, k)
    ensures v == Transfer(h.toMemory, flash, mem, len, u)
  {
  }

  lemma {:induction false} OffsetQuarter(s: Soc, k: nat)
    ensures Offset(s, k) % 4 == 0
  {
    if k > 0 { OffsetQuarter(s, k - 1); }
  }

  /** A transfer of a bytes and then of the b bytes behind them is one transfer. */
  lemma TransferJoin(toMemory: bool, flash: nat, mem: nat, a: nat, flash': nat, mem': nat, b: nat, n: nat, w: World,
                     u: World, v: World, goal: World)
    requires flash' == flash + a && mem' == mem + a && n == a + b && flash + n <= |w.flash| && mem + n <= |w.mem|
    requires u == Transfer(toMemory, flash, mem, a, w) && v == Transfer(toMemory, flash', mem', b, u)
    requires goal == Transfer(toMemory, flash, mem, n, w)
    ensures v == goal
  {
    if toMemory {
      PutPut(w.mem, mem, Get(w.flash, flash, a), Get(w.flash, flash', b));
      assert Get(w.flash, flash, n) == Get(w.flash, flash, a) + Get(w.flash, flash', b);
    } else {
      PutPut(w.flash, flash, Get(w.mem, mem, a), Get(w.mem, mem', b));
      assert Get(w.mem, mem, n) == Get(w.mem, mem, a) + Get(w.mem, mem', b);
    }
  }

  /** Pieces are full but for the last, which takes what is left. */
  lemma PieceAt(s: Soc, n: nat, k: nat)
    requires 0 < n && k < Pieces(s, n)
    ensures Offset(s, k) < n
    ensures k + 1 < Pieces(s, n) ==> Offset(s, k + 1) == Offset(s, k) + PieceLength(s, n, k) < n
    ensures k + 1 == Pieces(s, n) ==> Offset(s, k) + PieceLength(s, n, k) == n
  {
    OffsetMonotone(s, k, Pieces(s, n) - 1);
    if k + 1 < Pieces(s, n) { OffsetMonotone(s, k + 1, Pieces(s, n) - 1); }
  }

  function Arrive<W>(c: nat, k: nat, w: W): Engine<W> {
    if k < c then Running(k, w) else Stopped(w)
  }

  /** Along properly linked descriptors the engine visits each once, in order, and stops at the last. */
  lemma {:induction false} FollowsLinks<W>(exec: (Desc, W) -> W, descs: seq<Desc>, base: nat, c: nat, ws: seq<W>,
                                           k: nat)
    requires 0 < c <= |descs| && |ws| == c + 1 && k <= c
    requires forall j :: 0 <= j < c ==> Links(base, c, j, descs[j])
    requires forall j :: 0 <= j < c ==> exec(descs[j], ws[j]) == ws[j + 1]
    ensures After(exec, descs, base, k, ws[0]) == Arrive(c, k, ws[k])
  {
    if k > 0 {
      FollowsLinks(exec, descs, base, c, ws, k - 1);
      assert Links(base, c, k - 1, descs[k - 1]);
      assert exec(descs[k - 1], ws[k - 1]) == ws[k];
    }
  }

  /** Bytes moved by the first k of c descriptors. */
  function Moved(s: Soc, n: nat, c: nat, k: nat): nat {
    if k < c then Offset(s, k) else n
  }

  /** The world after the first k descriptors. */
  function Part(s: Soc, h: Head, n: nat, c: nat, k: nat, w: World): World {
    Transfer(h.toMemory, h.flash, h.data * 4, Moved(s, n, c, k), w)
  }

  lemma PartIs(s: Soc, h: Head, n: nat, c: nat, k: nat, w: World, u: World, mem: nat, moved: nat)
    requires u == Part(s, h, n, c, k, w) && mem == h.data * 4 && moved == Moved(s, n, c, k)
    ensures u == Transfer(h.toMemory, h.flash, mem, moved, w)
  {
  }

  /** A descriptor for piece k turns the k-th partial transfer into the next. */
  lemma PieceStep(s: Soc, h: Head, n: nat, c: nat, k: nat, d: Desc, w: World, u: World, v: World, goal: World,
                  mem: nat, off: nat, len: nat)
    requires 0 < n && InRange(h, n, w) && c == Pieces(s, n) && k < c && Describes(s, h, n, k, d)
    requires u == Part(s, h, n, c, k, w) && v == ExecDesc(s, d, u) && goal == Part(s, h, n, c, k + 1, w)
    requires mem == h.data * 4 && off == Offset(s, k) && len == PieceLength(s, n, k)
    ensures v == goal
  {
    MovedNext(s, n, c, k, off, len);
    PartIs(s, h, n, c, k, w, u, mem, off);
    PartIs(s, h, n, c, k + 1, w, goal, mem, off + len);
    PieceMoves(s, h, n, k, d, w, u, v, goal, mem, off, len);
  }

  lemma PieceMoves(s: Soc, h: Head, n: nat, k: nat, d: Desc, w: World, u: World, v: World, goal: World,
                   mem: nat, off: nat, len: nat)
    requires Describes(s, h, n, k, d) && mem == h.data * 4 && off == Offset(s, k) && len == PieceLength(s, n, k)
    requires h.flash + off + len <= |w.flash| && mem + off + len <= |w.mem| && v == ExecDesc(s, d, u)
    requires u == Transfer(h.toMemory, h.flash, mem, off, w) && goal == Transfer(h.toMemory, h.flash, mem, off + len, w)
    ensures v == goal
  {
    DescMovesPiece(s, h, n, k, d, u, v, h.flash + off, mem + off, len);
    TransferJoin(h.toMemory, h.flash, mem, off, h.flash + off, mem + off, len, off + len, w, u, v, goal);
  }

  lemma MovedNext(s: Soc, n: nat, c: nat, k: nat, off: nat, len: nat)
    requires 0 < n && c == Pieces(s, n) && k < c && off == Offset(s, k) && len == PieceLength(s, n, k)
    ensures Moved(s, n, c, k) == off && Moved(s, n, c, k + 1) == off + len <= n
  {
    PieceAt(s, n, k);
  }

  lemma PartStep(s: Soc, h: Head, base: nat, n: nat, c: nat, k: nat, w: World)
    requires CountBase(h.countBase) && 0 < n && InRange(h, n, w) && c == Pieces(s, n) && k < c
    ensures ExecDesc(s, ChainDesc(s, h, base, n, c, k), Part(s, h, n, c, k, w)) == Part(s, h, n, c, k + 1, w)
  {
    var d, u := ChainDesc(s, h, base, n, c, k), Part(s, h, n, c, k, w);
    PieceAt(s, n, k);
    DescFields(s, h, base, n, c, k);
    PieceStep(s, h, n, c, k, d, w, u, ExecDesc(s, d, u), Part(s, h, n, c, k + 1, w),
              h.data * 4, Offset(s, k), PieceLength(s, n, k));
  }

  /** The chain performs exactly the transfer asked for, once and in order. */
  lemma ChainIsTransfer(s: Soc, h: Head, base: nat, n: nat, descs: seq<Desc>, w: World)
    requires CountBase(h.countBase) && 0 < n && InRange(h, n, w) && base % 4 == 0
    requires Pieces(s, n) <= |descs|
    requires forall j :: 0 <= j < Pieces(s, n) ==> descs[j] == ChainDesc(s, h, base, n, Pieces(s, n), j)
    ensures Run(s, descs, base, Pieces(s, n), w) == Stopped(Transfer(h.toMemory, h.flash, h.data * 4, n, w))
  {
    var c := Pieces(s, n);
    var ws := Parts(s, h, n, c, w);
    forall j | 0 <= j < c
      ensures Links(base, c, j, descs[j]) && ExecDesc(s, descs[j], ws[j]) == ws[j + 1]
    {
      DescLinks(s, h, base, n, c, j);
      PartStep(s, h, base, n, c, j, w);
    }
    FollowsLinks((d, v) => ExecDesc(s, d, v), descs, base, c, ws, c);
    assert ws[0] == w by { TransferNothing(h.toMemory, h.flash, h.data * 4, w); }
  }

  function Parts(s: Soc, h: Head, n: nat, c: nat, w: World): (ws: seq<World>)
    ensures |ws| == c + 1 && forall k :: 0 <= k <= c ==> ws[k] == Part(s, h, n, c, k, w)
  {
    seq(c + 1, k requires 0 <= k <= c => Part(s, h, n, c, k, w))
  }

  lemma TransferNothing(toMemory: bool, flash: nat, mem: nat, w: World)
    requires flash <= |w.flash| && mem <= |w.mem|
    ensures Transfer(toMemory, flash, mem, 0, w) == w
  {
  }
}
