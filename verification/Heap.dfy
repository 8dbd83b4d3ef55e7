/** The boot heap of boot0: a first-fit allocator whose block headers live inside the
    heap itself and whose free gaps are implicit between neighbouring headers.

    `Heap` is the abstract heap: the live blocks in list order.  `BootHeap`, in a module of its own,
    is the allocator as the C code writes it: a store of header nodes linked by pointers.
 */
module HeapModel {
  import opened Machine

  /** A live block: where its data starts, how many bytes it owns, how many were asked for. */
  datatype Block = Block(address: nat, size: nat, asked: nat) {
    function End(): nat {
      address + size
    }
  }

  /** `hdr` is the size of a header, kept symbolic. */
  datatype Heap = Heap(hdr: nat, start: nat, end: nat, blocks: seq<Block>) {
    /** First free address after the i-th list node; node 0 is the static head. */
    function GapStart(i: nat): nat
      requires i <= |blocks|
    {
      if i == 0 then start else blocks[i - 1].End()
    }

    /** Address field of the node that closes gap i; the last gap is closed by the static tail. */
    function GapLimit(i: nat): nat
      requires i <= |blocks|
    {
      if i == |blocks| then end else blocks[i].address
    }
  }

  /** Every header lies directly below its data, and headers and data follow one another
      in address order without touching. */
  ghost predicate Inv(h: Heap) {
    && 0 < h.hdr
    && h.start <= h.end < TWO_32
    && (forall i :: 0 <= i < |h.blocks| ==>
          && h.start + h.hdr <= h.blocks[i].address
          && h.blocks[i].End() + h.hdr <= h.end
          && h.blocks[i].asked <= h.blocks[i].size)
    && (forall i {:trigger h.GapStart(i)} :: 0 <= i < |h.blocks| ==> h.GapStart(i) + h.hdr <= h.blocks[i].address)
  }

  /** Blocks follow one another in address order, with room for a header between them. */
  lemma {:induction false} Ordered(h: Heap, i: nat, j: nat)
    requires Inv(h) && i < j < |h.blocks|
    ensures h.blocks[i].End() + h.hdr <= h.blocks[j].address
    decreases j - i
  {
    assert h.GapStart(j) + h.hdr <= h.blocks[j].address;
    if i + 1 < j {
      Ordered(h, i, j - 1);
    }
  }

  /** The rounding macro, evaluated in 32 bits. */
  function Round(n: nat): nat {
    (n + 15) % TWO_32 / 16 * 16
  }

  lemma RoundCovers(n: nat)
    requires n + 15 < TWO_32
    ensures n <= Round(n) < n + 16 && Round(n) % 16 == 0
  {
  }

  /** The rounded size covers the request exactly for the 32-bit requests that do not wrap. */
  lemma RoundCoversIff(n: nat)
    requires n < TWO_32
    ensures n <= Round(n) <==> n + 15 < TWO_32
  {
    if n + 15 >= TWO_32 { assert (n + 15) % TWO_32 == n + 15 - TWO_32; }
  }

  /** Gap i holds `size` data bytes and two headers. */
  predicate Fits(h: Heap, i: nat, size: nat)
    requires i <= |h.blocks|
  {
    h.GapStart(i) + 2 * h.hdr + size <= h.GapLimit(i)
  }

  /** Every block owns exactly its recorded request, rounded up. */
  ghost predicate Rounded(h: Heap) {
    forall b :: b in h.blocks ==> b.asked + 15 < TWO_32 && b.size == Round(b.asked)
  }

  /** The code's test for gap i, whose left side wraps at 32 bits. */
  predicate Taken(h: Heap, i: nat, size: nat)
    requires i <= |h.blocks|
  {
    (h.GapStart(i) + 2 * h.hdr + size) % TWO_32 <= h.GapLimit(i)
  }

  /** The lowest gap the code's test accepts, or one past the last gap. */
  function FirstTaken(h: Heap, size: nat, from: nat): (i: nat)
    requires from <= |h.blocks| + 1
    ensures from <= i <= |h.blocks| + 1
    ensures forall j :: from <= j < i ==> !Taken(h, j, size)
    ensures i <= |h.blocks| ==> Taken(h, i, size)
    decreases |h.blocks| + 1 - from
  {
    if from == |h.blocks| + 1 || Taken(h, from, size) then from else FirstTaken(h, size, from + 1)
  }

  /** The heap with a block of `size` bytes placed at the bottom of gap i. */
  function Insert(h: Heap, i: nat, size: nat, asked: nat): Heap
    requires i <= |h.blocks|
  {
    h.(blocks := h.blocks[..i] + [Block(h.GapStart(i) + h.hdr, size, asked)] + h.blocks[i..])
  }

  function Remove(h: Heap, i: nat): Heap
    requires i < |h.blocks|
  {
    h.(blocks := h.blocks[..i] + h.blocks[i + 1..])
  }

  /** Blocks below gap i end before it, blocks above it start behind it. */
  lemma GapBetween(h: Heap, i: nat, j: nat)
    requires Inv(h) && i <= |h.blocks| && j < |h.blocks|
    ensures j < i ==> h.blocks[j].End() <= h.GapStart(i)
    ensures j >= i ==> h.GapLimit(i) <= h.blocks[j].address
  {
    if j + 1 < i {
      Ordered(h, j, i - 1);
    } else if i < j {
      Ordered(h, i, j);
    }
  }

  lemma InsertKeepsInv(h: Heap, i: nat, size: nat, asked: nat)
    requires Inv(h) && i <= |h.blocks| && Fits(h, i, size) && asked <= size
    ensures Inv(Insert(h, i, size, asked))
  {
    var h' := Insert(h, i, size, asked);
    var b := h'.blocks;
    forall j | 0 <= j < |b|
      ensures h.start + h.hdr <= b[j].address && b[j].End() + h.hdr <= h.end && b[j].asked <= b[j].size
      ensures h'.GapStart(j) + h.hdr <= b[j].address
    {
      if j < i {
        assert b[j] == h.blocks[j] && h'.GapStart(j) == h.GapStart(j);
      } else if j == i {
        assert h'.GapStart(j) == h.GapStart(i);
      } else {
        assert b[j] == h.blocks[j - 1];
        assert j > i + 1 ==> h'.GapStart(j) == h.GapStart(j - 1);
      }
    }
  }

  lemma RemoveKeepsInv(h: Heap, i: nat)
    requires Inv(h) && i < |h.blocks|
    ensures Inv(Remove(h, i))
  {
    var h' := Remove(h, i);
    var b := h'.blocks;
    forall j | 0 <= j < |b|
      ensures h.start + h.hdr <= b[j].address && b[j].End() + h.hdr <= h.end && b[j].asked <= b[j].size
      ensures h'.GapStart(j) + h.hdr <= b[j].address
    {
      if j < i {
        assert b[j] == h.blocks[j] && h'.GapStart(j) == h.GapStart(j);
      } else {
        assert b[j] == h.blocks[j + 1];
        assert h.GapStart(j + 1) + h.hdr <= h.blocks[j + 1].address;
        if j == i && 0 < i { Ordered(h, i - 1, i + 1); }
        assert j == i ==> h'.GapStart(j) == h.GapStart(i);
        assert j > i ==> h'.GapStart(j) == h.GapStart(j + 1);
      }
    }
  }

  /** Index of the block whose data starts at p, if there is one. */
  function Find(h: Heap, p: nat): (i: nat)
    ensures i <= |h.blocks|
    ensures i < |h.blocks| ==> h.blocks[i].address == p
    ensures forall j :: 0 <= j < i ==> h.blocks[j].address != p
  {
    FindFrom(h, p, 0)
  }

  function FindFrom(h: Heap, p: nat, from: nat): (i: nat)
    requires from <= |h.blocks|
    ensures from <= i <= |h.blocks|
    ensures i < |h.blocks| ==> h.blocks[i].address == p
    ensures forall j :: from <= j < i ==> h.blocks[j].address != p
    decreases |h.blocks| - from
  {
    if from == |h.blocks| || h.blocks[from].address == p then from else FindFrom(h, p, from + 1)
  }

  predicate Live(h: Heap, p: nat) {
    Find(h, p) < |h.blocks|
  }

  lemma FindIndex(h: Heap, i: nat)
    requires Inv(h) && i < |h.blocks|
    ensures Find(h, h.blocks[i].address) == i
  {
    var j := Find(h, h.blocks[i].address);
    if j < i { Ordered(h, j, i); }
  }

  // ---------------------------------------------------------------- allocation

  /** The 32-bit sum of the test does not wrap at the gap the code settles on. */
  predicate NoWrap(h: Heap, size: nat) {
    var i := FirstTaken(h, size, 0);
    i <= |h.blocks| ==> h.GapStart(i) + 2 * h.hdr + size < TWO_32
  }

  /** Heap and returned pointer after `malloc`; 0 is the null pointer. */
  function MallocSpec(h: Heap, n: nat): (r: (Heap, nat))
  {
    var i := FirstTaken(h, Round(n), 0);
    if n == 0 || i > |h.blocks| || h.GapStart(i) == 0 then (h, 0)
    else (Insert(h, i, Round(n), n), h.GapStart(i) + h.hdr)
  }

  /** Neither the rounding of the request nor the sum at the gap the code settles on wraps. */
  predicate Exact(h: Heap, n: nat) {
    n + 15 < TWO_32 && NoWrap(h, Round(n))
  }

  /** A request that, rounded and with two headers, cannot wrap past the heap's end. */
  predicate Modest(h: Heap, n: nat) {
    n + 15 + 2 * h.hdr + h.end < TWO_32
  }

  lemma ModestIsExact(h: Heap, n: nat)
    requires Inv(h) && Modest(h, n)
    ensures Exact(h, n)
  {
    RoundCovers(n);
    var i := FirstTaken(h, Round(n), 0);
    assert i <= |h.blocks| ==> h.GapStart(i) <= h.end;
  }

  /** `malloc` hands out a block that fits its gap exactly when the test does not wrap;
      for a wrapped sum the block runs past the next node. */
  lemma MallocSoundIff(h: Heap, n: nat)
    requires Inv(h) && 0 < n && n + 15 < TWO_32
    requires FirstTaken(h, Round(n), 0) <= |h.blocks|
    ensures NoWrap(h, Round(n)) <==> Fits(h, FirstTaken(h, Round(n), 0), Round(n))
  {
    var i := FirstTaken(h, Round(n), 0);
    assert h.GapStart(i) <= h.end && h.GapLimit(i) <= h.end;
  }

  /** A 3 GiB request to a 1 MiB heap wraps and is handed out. */
  lemma WrapHandsOut()
    ensures var h := Heap(16, 0x4000_0000, 0x4010_0000, []); var n := 0xC000_0000;
            && Inv(h) && !NoWrap(h, Round(n))
            && MallocSpec(h, n).1 == 0x4000_0010 && !Fits(h, 0, Round(n))
  {
    var h := Heap(16, 0x4000_0000, 0x4010_0000, []);
    assert Taken(h, 0, Round(0xC000_0000));
  }

  /** For a modest request the wrapping test is the exact one, at every gap. */
  lemma TakenIsFits(h: Heap, n: nat)
    requires Inv(h) && Modest(h, n)
    ensures forall i :: 0 <= i <= |h.blocks| ==> (Taken(h, i, Round(n)) <==> Fits(h, i, Round(n)))
  {
    RoundCovers(n);
    forall i | 0 <= i <= |h.blocks|
      ensures Taken(h, i, Round(n)) <==> Fits(h, i, Round(n))
    {
      assert h.GapStart(i) <= h.end;
    }
  }

  /** A gap that fits always passes the test. */
  lemma FitsIsTaken(h: Heap, i: nat, size: nat)
    requires Inv(h) && i <= |h.blocks| && Fits(h, i, size)
    ensures Taken(h, i, size)
  {
  }

  lemma GapsAboveStart(h: Heap)
    requires Inv(h)
    ensures forall i {:trigger h.GapStart(i)} :: 0 <= i <= |h.blocks| ==> h.start <= h.GapStart(i)
  {
  }

  /** Whatever wraps, a non-zero request fails only when no gap fits, and then nothing changes. */
  lemma MallocFailsOnlyWhenFull(h: Heap, n: nat)
    requires Inv(h) && 0 < n && 0 < h.start && MallocSpec(h, n).1 == 0
    ensures MallocSpec(h, n).0 == h
    ensures forall i :: 0 <= i <= |h.blocks| ==> !Fits(h, i, Round(n))
  {
    GapsAboveStart(h);
    forall i | 0 <= i <= |h.blocks|
      ensures !Fits(h, i, Round(n))
    {
      if Fits(h, i, Round(n)) { FitsIsTaken(h, i, Round(n)); }
    }
  }

  /** An exact request fails exactly when no gap fits. */
  lemma MallocFailsIff(h: Heap, n: nat)
    requires Inv(h) && 0 < n && Exact(h, n) && 0 < h.start
    ensures MallocSpec(h, n).1 == 0 <==> forall i :: 0 <= i <= |h.blocks| ==> !Fits(h, i, Round(n))
    ensures MallocSpec(h, n).1 == 0 ==> MallocSpec(h, n).0 == h
  {
    var k := FirstTaken(h, Round(n), 0);
    if MallocSpec(h, n).1 == 0 {
      MallocFailsOnlyWhenFull(h, n);
    } else {
      MallocSoundIff(h, n);
      assert Fits(h, k, Round(n));
    }
  }

  /** First fit: an exact request is served at the bottom of the lowest gap that fits. */
  lemma MallocTakesLowest(h: Heap, n: nat, i: nat)
    requires Inv(h) && 0 < n && Exact(h, n) && 0 < h.start
    requires i <= |h.blocks| && Fits(h, i, Round(n))
    requires forall j :: 0 <= j < i ==> !Fits(h, j, Round(n))
    ensures MallocSpec(h, n) == (Insert(h, i, Round(n), n), h.GapStart(i) + h.hdr)
  {
    FitsIsTaken(h, i, Round(n));
    MallocSoundIff(h, n);
    assert FirstTaken(h, Round(n), 0) == i;
    assert h.start <= h.GapStart(i);
  }

  lemma MallocKeepsInv(h: Heap, n: nat)
    requires Inv(h) && Exact(h, n)
    ensures Inv(MallocSpec(h, n).0)
    ensures MallocSpec(h, n).1 != 0 ==>
              && Live(MallocSpec(h, n).0, MallocSpec(h, n).1)
              && !Live(h, MallocSpec(h, n).1)
  {
    var i := FirstTaken(h, Round(n), 0);
    if n != 0 && i <= |h.blocks| && h.GapStart(i) != 0 {
      MallocSoundIff(h, n);
      RoundCovers(n);
      InsertKeepsInv(h, i, Round(n), n);
      var h' := Insert(h, i, Round(n), n);
      assert h'.blocks[i].address == h.GapStart(i) + h.hdr;
      FindIndex(h', i);
      forall j | 0 <= j < |h.blocks|
        ensures h.blocks[j].address != h.GapStart(i) + h.hdr
      {
        GapBetween(h, i, j);
      }
    }
  }

  /** A granted request leaves the heap well formed exactly when the sum at its gap does not wrap. */
  lemma MallocKeepsInvIff(h: Heap, n: nat)
    requires Inv(h) && n + 15 < TWO_32 && MallocSpec(h, n).1 != 0
    ensures Inv(MallocSpec(h, n).0) <==> NoWrap(h, Round(n))
  {
    var i := FirstTaken(h, Round(n), 0);
    if NoWrap(h, Round(n)) {
      MallocKeepsInv(h, n);
    } else {
      var b := MallocSpec(h, n).0.blocks;
      assert b[i] == Block(h.GapStart(i) + h.hdr, Round(n), n);
      assert b[i].End() + h.hdr > h.end;
    }
  }

  // ---------------------------------------------------------------- release

  function FreeSpec(h: Heap, p: nat): Heap {
    var i := Find(h, p);
    if p == 0 || i == |h.blocks| then h else Remove(h, i)
  }

  lemma FreeKeepsInv(h: Heap, p: nat)
    requires Inv(h)
    ensures Inv(FreeSpec(h, p)) && !Live(FreeSpec(h, p), p)
  {
    var i := Find(h, p);
    if p != 0 && i < |h.blocks| {
      RemoveKeepsInv(h, i);
      var b := Remove(h, i).blocks;
      forall j | 0 <= j < |b|
        ensures b[j].address != p
      {
        if j >= i { Ordered(h, i, j + 1); }
      }
    }
  }

  /** Freeing what `malloc` has just returned restores the heap exactly. */
  lemma FreeUndoesMalloc(h: Heap, n: nat)
    requires Inv(h) && Exact(h, n)
    ensures FreeSpec(MallocSpec(h, n).0, MallocSpec(h, n).1) == h
  {
    var i := FirstTaken(h, Round(n), 0);
    var (h', p) := MallocSpec(h, n);
    if p != 0 {
      MallocKeepsInv(h, n);
      assert h'.blocks[i].address == p;
      FindIndex(h', i);
      assert h'.blocks[..i] + h'.blocks[i + 1..] == h.blocks;
    }
  }

  /** Frees the listed pointers one after another. */
  function FreeAll(h: Heap, ps: seq<nat>): Heap
    decreases |ps|
  {
    if ps == [] then h else FreeAll(FreeSpec(h, ps[0]), ps[1..])
  }

  /** Freeing a list of pointers that covers every live block, in any order, leaves the
      heap as `malloc_init` made it. */
  lemma {:induction false} FreeAllRestores(h: Heap, ps: seq<nat>)
    requires Inv(h)
    requires forall i :: 0 <= i < |h.blocks| ==> h.blocks[i].address in ps
    ensures FreeAll(h, ps) == h.(blocks := [])
    decreases |ps|
  {
    if ps == [] {
      assert h.blocks == [];
    } else {
      var h' := FreeSpec(h, ps[0]);
      FreeKeepsInv(h, ps[0]);
      var k := Find(h, ps[0]);
      forall i | 0 <= i < |h'.blocks|
        ensures h'.blocks[i].address in ps[1..]
      {
        assert !Live(h', ps[0]);
        var j := if ps[0] != 0 && k < |h.blocks| && i >= k then i + 1 else i;
        assert h'.blocks[i] == h.blocks[j] && h.blocks[j].address in ps;
        assert h'.blocks[i].address != ps[0];
      }
      FreeAllRestores(h', ps[1..]);
    }
  }

  // ---------------------------------------------------------------- resizing

  /** What `realloc` does with a live, non-null block and a non-zero increment. */
  datatype Resize = Same | InPlace(size: nat) | Move(size: nat)

  function ResizePlan(h: Heap, i: nat, n: nat): Resize
    requires i < |h.blocks|
  {
    var b := h.blocks[i];
    var size := Round((b.asked + n) % TWO_32);
    if size == b.size then Same
    else if (b.address + size + 2 * h.hdr) % TWO_32 <= h.GapLimit(i + 1) then InPlace(size)
    else Move(size)
  }

  /** The heap with block i resized in place. */
  function Grow(h: Heap, i: nat, size: nat, asked: nat): Heap
    requires i < |h.blocks|
  {
    h.(blocks := h.blocks[i := Block(h.blocks[i].address, size, asked)])
  }

  /** Heap and returned pointer after `realloc(p, n)`. */
  function ReallocSpec(h: Heap, p: nat, n: nat): (r: (Heap, nat)) {
    if p == 0 then MallocSpec(h, n)
    else if n == 0 then (h, p)
    else if Live(h, p) then ReallocAt(h, Find(h, p), n)
    else (h, 0)
  }

  function ReallocAt(h: Heap, i: nat, n: nat): (r: (Heap, nat))
    requires i < |h.blocks|
  {
    match ResizePlan(h, i, n)
    case Same => (h, h.blocks[i].address)
    case InPlace(size) => (Grow(h, i, size, (h.blocks[i].asked + n) % TWO_32), h.blocks[i].address)
    case Move(size) => MoveSpec(h, i, size)
  }

  /** When the old block is moved, the list is cut at the node found before the inner `malloc`:
      if the new block was placed directly below the old one it is cut out as well. */
  function MoveSpec(h: Heap, i: nat, size: nat): (r: (Heap, nat))
    requires i < |h.blocks|
  {
    var (h', q) := MallocSpec(h, size);
    if q == 0 then (h, 0)
    else (FreeSpec(if CutsNew(h, i, size) then FreeSpec(h', q) else h', h.blocks[i].address), q)
  }

  /** The moved block lands in the gap directly below the block it replaces. */
  predicate CutsNew(h: Heap, i: nat, size: nat)
    requires i < |h.blocks|
  {
    FirstTaken(h, Round(size), 0) == i
  }

  lemma GrowKeepsInv(h: Heap, i: nat, size: nat, asked: nat)
    requires Inv(h) && i < |h.blocks| && asked <= size
    requires h.blocks[i].address + size + 2 * h.hdr <= h.GapLimit(i + 1)
    ensures Inv(Grow(h, i, size, asked))
  {
    var h' := Grow(h, i, size, asked);
    forall j | 0 <= j < |h'.blocks|
      ensures h'.GapStart(j) + h.hdr <= h'.blocks[j].address
    {
      assert h.GapStart(j) + h.hdr <= h.blocks[j].address;
      assert j != i + 1 ==> h'.GapStart(j) == h.GapStart(j);
    }
  }

  /** No 32-bit sum that decides this `realloc` wraps. */
  predicate ExactGrowth(h: Heap, i: nat, n: nat)
    requires i < |h.blocks|
  {
    && h.blocks[i].asked + n + 15 < TWO_32
    && match ResizePlan(h, i, n)
       case Same => true
       case InPlace(size) => h.blocks[i].address + size + 2 * h.hdr < TWO_32
       case Move(size) => Exact(h, size)
  }

  /** What a caller of `realloc` may rely on: the heap stays well formed, and the pointer it
      returns is a live block that holds what was asked for - except exactly when a moved block
      landed directly below the block it replaces; then the returned block is not in the list. */
  ghost predicate Resized(h: Heap, i: nat, n: nat, h': Heap, q: nat)
    requires i < |h.blocks|
  {
    var plan := ResizePlan(h, i, n);
    && Inv(h')
    && (q != 0 ==> (Live(h', q) <==> !(plan.Move? && CutsNew(h, i, plan.size))))
    && (q != 0 && Live(h', q) ==> h.blocks[i].asked + n <= h'.blocks[Find(h', q)].size)
  }

  lemma ReallocOutcome(h: Heap, p: nat, n: nat)
    requires Inv(h) && Live(h, p) && p != 0 && 0 < n
    requires ExactGrowth(h, Find(h, p), n)
    ensures var (h', q) := ReallocSpec(h, p, n); Resized(h, Find(h, p), n, h', q)
  {
    var i := Find(h, p);
    var plan := ResizePlan(h, i, n);
    RoundTotal(h, i, n);
    if plan.Move? {
      MoveCase(h, i, n, plan.size);
    } else if plan.InPlace? {
      GrowCase(h, i, n, plan.size);
    } else {
      FindIndex(h, i);
    }
  }

  /** The total of an exact growth is covered by its rounding, which is a multiple of the rounding unit. */
  lemma RoundTotal(h: Heap, i: nat, n: nat)
    requires i < |h.blocks| && h.blocks[i].asked + n + 15 < TWO_32
    ensures var total := h.blocks[i].asked + n; var size := Round(total);
            total % TWO_32 == total && total <= size == Round(size) && size + 15 < TWO_32
  {
    RoundCovers(h.blocks[i].asked + n);
    RoundCovers(Round(h.blocks[i].asked + n));
  }

  lemma GrowCase(h: Heap, i: nat, n: nat, size: nat)
    requires Inv(h) && i < |h.blocks| && ExactGrowth(h, i, n)
    requires ResizePlan(h, i, n) == InPlace(size) && h.blocks[i].asked + n <= size
    ensures var (h', q) := ReallocAt(h, i, n); Resized(h, i, n, h', q)
  {
    GrowOutcome(h, i, size, h.blocks[i].asked + n);
    assert (h.blocks[i].asked + n) % TWO_32 == h.blocks[i].asked + n;
    assert ReallocAt(h, i, n) == (Grow(h, i, size, h.blocks[i].asked + n), h.blocks[i].address);
  }

  lemma MoveCase(h: Heap, i: nat, n: nat, size: nat)
    requires Inv(h) && i < |h.blocks| && 0 < n && 0 < size
    requires ResizePlan(h, i, n) == Move(size)
    requires Exact(h, size) && Round(size) == size && h.blocks[i].asked + n <= size
    ensures var (h', q) := ReallocAt(h, i, n); Resized(h, i, n, h', q)
  {
    if MallocSpec(h, size).1 != 0 {
      MoveOutcome(h, i, size);
    }
  }

  lemma GrowOutcome(h: Heap, i: nat, size: nat, asked: nat)
    requires Inv(h) && i < |h.blocks| && asked <= size
    requires h.blocks[i].address + size + 2 * h.hdr <= h.GapLimit(i + 1)
    ensures var h' := Grow(h, i, size, asked); var p := h.blocks[i].address;
            Inv(h') && Live(h', p) && h'.blocks[Find(h', p)] == Block(p, size, asked)
  {
    GrowKeepsInv(h, i, size, asked);
    FindIndex(Grow(h, i, size, asked), i);
  }

  lemma MoveOutcome(h: Heap, i: nat, size: nat)
    requires Inv(h) && i < |h.blocks| && 0 < size && Exact(h, size) && Round(size) == size
    requires MallocSpec(h, size).1 != 0
    ensures var p := h.blocks[i].address;
            var (h', q) := MallocSpec(h, size);
            var h'' := FreeSpec(if CutsNew(h, i, size) then FreeSpec(h', q) else h', p);
            && Inv(h'')
            && (Live(h'', q) <==> !CutsNew(h, i, size))
            && (Live(h'', q) ==> h''.blocks[Find(h'', q)].size == size)
  {
    var p := h.blocks[i].address;
    var (h', q) := MallocSpec(h, size);
    var k := FirstTaken(h, size, 0);
    MallocKeepsInv(h, size);
    if k == i {
      FreeUndoesMalloc(h, size);
      FreeKeepsInv(h, p);
      KeepsDead(h, p, q);
    } else {
      assert h'.blocks[k].address == q && h'.blocks[k].size == size;
      FreeKeepsInv(h', p);
      KeepsLive(h', p, k);
    }
  }

  /** A total that wraps is rounded to less than itself. */
  lemma WrappedTotal(t: nat)
    ensures TWO_32 <= t + 15 ==> Round(t % TWO_32) < t
  {
  }

  lemma FindGrown(h: Heap, i: nat, size: nat, asked: nat)
    requires Inv(h) && i < |h.blocks|
    ensures Find(Grow(h, i, size, asked), h.blocks[i].address) == i
  {
    FindIndex(h, i);
    var b := Grow(h, i, size, asked).blocks;
    assert forall j :: 0 <= j < |b| ==> b[j].address == h.blocks[j].address;
  }

  /** The bottom of a gap is not where another block than the one above it has its data. */
  lemma NotInGap(h: Heap, k: nat, i: nat)
    requires Inv(h) && k <= |h.blocks| && i < |h.blocks| && i != k
    ensures h.GapStart(k) + h.hdr != h.blocks[i].address
  {
    GapBetween(h, k, i);
    if i > k { Ordered(h, k, i); }
  }

  lemma MallocInserts(h: Heap, n: nat)
    requires MallocSpec(h, n).1 != 0
    ensures var k := FirstTaken(h, Round(n), 0);
            k <= |h.blocks| && MallocSpec(h, n) == (Insert(h, k, Round(n), n), h.GapStart(k) + h.hdr)
  {
  }

  lemma InsertHas(h: Heap, k: nat, size: nat, asked: nat)
    requires k <= |h.blocks|
    ensures k < |Insert(h, k, size, asked).blocks|
    ensures Insert(h, k, size, asked).blocks[k] == Block(h.GapStart(k) + h.hdr, size, asked)
  {
  }

  /** The block a move inserts stays in the list when the old one is freed. */
  lemma MovedInserted(h: Heap, i: nat, size: nat)
    requires Inv(h) && i < |h.blocks| && MallocSpec(h, size).1 != 0 && !CutsNew(h, i, size)
    ensures var (h', q) := MoveSpec(h, i, size);
            q == MallocSpec(h, size).1 && Block(q, Round(size), size) in h'.blocks
  {
    var k := FirstTaken(h, Round(size), 0);
    MallocInserts(h, size);
    InsertHas(h, k, Round(size), size);
    NotInGap(h, k, i);
    FreeKeepsOther(MallocSpec(h, size).0, h.blocks[i].address, k);
  }

  /** Freeing a pointer keeps every block at another address in the list, whether or not the heap is well formed. */
  lemma FreeKeepsOther(h: Heap, p: nat, k: nat)
    requires k < |h.blocks| && h.blocks[k].address != p
    ensures h.blocks[k] in FreeSpec(h, p).blocks
  {
    var f := Find(h, p);
    if p != 0 && f < |h.blocks| {
      assert Remove(h, f).blocks[if k < f then k else k - 1] == h.blocks[k];
    }
  }

  /** Well formed, with the returned block live and as large as the growth asks for. */
  ghost predicate Served(h: Heap, i: nat, n: nat, h': Heap, q: nat)
    requires i < |h.blocks|
  {
    Inv(h') && Live(h', q) && h.blocks[i].asked + n <= h'.blocks[Find(h', q)].size
  }

  lemma InPlaceNeedsExact(h: Heap, i: nat, n: nat, size: nat)
    requires Inv(h) && i < |h.blocks| && h.end + h.hdr < TWO_32 && ResizePlan(h, i, n) == InPlace(size)
    requires Served(h, i, n, Grow(h, i, size, (h.blocks[i].asked + n) % TWO_32), h.blocks[i].address)
    ensures ExactGrowth(h, i, n)
  {
    var h' := Grow(h, i, size, (h.blocks[i].asked + n) % TWO_32);
    FindGrown(h, i, size, (h.blocks[i].asked + n) % TWO_32);
    WrappedTotal(h.blocks[i].asked + n);
    assert h'.blocks[i].End() + h.hdr <= h.end;
  }

  lemma MoveNeedsExact(h: Heap, i: nat, n: nat, size: nat)
    requires Inv(h) && i < |h.blocks| && ResizePlan(h, i, n) == Move(size) && !CutsNew(h, i, size)
    requires MallocSpec(h, size).1 != 0 && Served(h, i, n, MoveSpec(h, i, size).0, MoveSpec(h, i, size).1)
    ensures ExactGrowth(h, i, n)
  {
    var (h', q) := MoveSpec(h, i, size);
    MovedInserted(h, i, size);
    var j :| 0 <= j < |h'.blocks| && h'.blocks[j] == Block(q, Round(size), size);
    FindIndex(h', j);
    RoundIdempotent((h.blocks[i].asked + n) % TWO_32);
    WrappedTotal(h.blocks[i].asked + n);
    assert h'.blocks[j].End() + h.hdr <= h.end;
  }

  lemma RoundIdempotent(t: nat)
    ensures Round(Round(t)) == Round(t) && Round(t) + 15 < TWO_32
  {
  }

  /** In a heap that ends a header below the top, a successful `realloc` that does not move a block directly below
      its old place serves the growth exactly when no sum that decides it wraps. */
  lemma ReallocServesIff(h: Heap, p: nat, n: nat)
    requires Inv(h) && Live(h, p) && p != 0 && 0 < n && h.end + h.hdr < TWO_32 && ReallocSpec(h, p, n).1 != 0
    requires var plan := ResizePlan(h, Find(h, p), n); plan.Move? ==> !CutsNew(h, Find(h, p), plan.size)
    ensures Served(h, Find(h, p), n, ReallocSpec(h, p, n).0, ReallocSpec(h, p, n).1) <==> ExactGrowth(h, Find(h, p), n)
  {
    var i := Find(h, p);
    var plan := ResizePlan(h, i, n);
    if ExactGrowth(h, i, n) {
      ReallocOutcome(h, p, n);
    } else if Served(h, i, n, ReallocSpec(h, p, n).0, ReallocSpec(h, p, n).1) {
      match plan {
        case Same => WrappedTotal(h.blocks[i].asked + n);
        case InPlace(size) => InPlaceNeedsExact(h, i, n, size);
        case Move(size) => MoveNeedsExact(h, i, n, size);
      }
    }
  }

  /** A growth by almost 4 GiB wraps to a total below the old size, and the block shrinks in place. */
  lemma GrowthShrinks()
    ensures var h := Heap(16, 4096, 8192, [Block(4112, 64, 64)]);
            Inv(h) && ReallocSpec(h, 4112, 0xFFFF_FFE0) == (Grow(h, 0, 32, 32), 4112)
  {
    var h := Heap(16, 4096, 8192, [Block(4112, 64, 64)]);
    FindIndex(h, 0);
    assert ResizePlan(h, 0, 0xFFFF_FFE0) == InPlace(32);
  }

  /** Freeing one pointer keeps every block at another address, unchanged. */
  lemma KeepsLive(h: Heap, p: nat, k: nat)
    requires Inv(h) && k < |h.blocks| && h.blocks[k].address != p
    ensures var h' := FreeSpec(h, p); var q := h.blocks[k].address;
            Live(h', q) && h'.blocks[Find(h', q)] == h.blocks[k]
  {
    var i := Find(h, p);
    var h' := FreeSpec(h, p);
    var k' := if p != 0 && i < |h.blocks| && i < k then k - 1 else k;
    assert i != k;
    assert h'.blocks[k'] == h.blocks[k];
    FreeKeepsInv(h, p);
    FindIndex(h', k');
  }

  /** Freeing one pointer makes no other pointer live. */
  lemma KeepsDead(h: Heap, p: nat, q: nat)
    requires Inv(h) && !Live(h, q)
    ensures !Live(FreeSpec(h, p), q)
  {
    var i := Find(h, p);
    var b := FreeSpec(h, p).blocks;
    assert forall j :: 0 <= j < |b| ==> b[j] in h.blocks;
  }

  /** The pointer of a moved block differs from the old one. */
  lemma MoveChanges(h: Heap, i: nat, size: nat)
    requires Inv(h) && i < |h.blocks| && h.blocks[i].address != 0 && Exact(h, size)
    ensures MoveSpec(h, i, size).1 != h.blocks[i].address
  {
    FindIndex(h, i);
    MallocKeepsInv(h, size);
  }

  /** The address of the node above block i. */
  lemma LimitIs(h: Heap, i: nat)
    requires i < |h.blocks|
    ensures h.GapLimit(i + 1) == if i + 1 == |h.blocks| then h.end else h.blocks[i + 1].address
  {
  }

  /** Whether an exact growth is done in place, in exact arithmetic. */
  lemma PlanIs(h: Heap, i: nat, n: nat, size: nat)
    requires Inv(h) && i < |h.blocks| && ExactGrowth(h, i, n) && size == Round(h.blocks[i].asked + n)
    ensures var b := h.blocks[i]; var fits := b.address + size + 2 * h.hdr <= h.GapLimit(i + 1);
      ResizePlan(h, i, n) == if size == b.size then Same else if fits then InPlace(size) else Move(size)
  {
    RoundTotal(h, i, n);
  }

  /** An exact growth stays in place exactly when the new size is the old one, or ends two headers below the next
      node; then only the sizes of the block change. */
  lemma GrowsInPlaceIff(h: Heap, p: nat, n: nat)
    requires Inv(h) && Live(h, p) && p != 0 && 0 < n && ExactGrowth(h, Find(h, p), n)
    ensures var i := Find(h, p); var b := h.blocks[i]; var size := Round(b.asked + n);
            var limit := if i + 1 == |h.blocks| then h.end else h.blocks[i + 1].address;
            var (h', q) := ReallocSpec(h, p, n);
            && (q == p <==> size == b.size || p + size + 2 * h.hdr <= limit)
            && (q == p ==> h' == h || h' == h.(blocks := h.blocks[i := Block(p, size, b.asked + n)]))
  {
    var i := Find(h, p);
    var size := Round(h.blocks[i].asked + n);
    LimitIs(h, i);
    PlanIs(h, i, n, size);
    if ResizePlan(h, i, n).Move? { MoveChanges(h, i, size); }
  }

  /** The early return of `realloc` keeps the recorded request, every other success adds to it. */
  lemma RecordsGrowthIff(h: Heap, p: nat, n: nat)
    requires Inv(h) && Live(h, p) && p != 0 && 0 < n
    requires ExactGrowth(h, Find(h, p), n) && !ResizePlan(h, Find(h, p), n).Move?
    ensures var i := Find(h, p); var h' := ReallocSpec(h, p, n).0;
            && Live(h', p)
            && (h'.blocks[Find(h', p)].asked == h.blocks[i].asked + n <==> !ResizePlan(h, i, n).Same?)
  {
    var i := Find(h, p);
    var total := h.blocks[i].asked + n;
    assert total % TWO_32 == total;
    RoundCovers(total);
    if ResizePlan(h, i, n).InPlace? {
      GrowOutcome(h, i, Round(total), total);
    }
  }

  /** So two growths by 15 of a one-byte block both succeed without a byte being added. */
  lemma GrowthForgotten()
    ensures var h := Heap(16, 4096, 8192, [Block(4112, 16, 1)]);
            && Inv(h)
            && ReallocSpec(h, 4112, 15) == (h, 4112)
            && ReallocSpec(ReallocSpec(h, 4112, 15).0, 4112, 15) == (h, 4112)
            && h.blocks[0].size < 1 + 15 + 15
  {
    var h := Heap(16, 4096, 8192, [Block(4112, 16, 1)]);
    FindIndex(h, 0);
    assert ResizePlan(h, 0, 15) == Same;
  }

  /** `realloc` of a block for which the gap directly below is taken: the new block is cut out with the old one. */
  lemma MoveLoses(h: Heap, i: nat, size: nat)
    requires Inv(h) && i < |h.blocks| && Exact(h, size) && MallocSpec(h, size).1 != 0 && CutsNew(h, i, size)
    ensures MoveSpec(h, i, size) == (FreeSpec(h, h.blocks[i].address), MallocSpec(h, size).1)
  {
    FreeUndoesMalloc(h, size);
  }

  /** A block that is moved into the gap directly below it is lost: the pointer handed back is not in the list,
      and the next request of that size is given the same bytes. */
  lemma MovedBlockLost(h: Heap)
    requires h == Heap(16, 4096, 8192, [Block(5120, 16, 16), Block(5152, 16, 16)])
    ensures var (h', q) := ReallocSpec(h, 5120, 16);
            Inv(h) && q == 4112 && !Live(h', q) && MallocSpec(h', 32).1 == q
  {
    FindIndex(h, 0);
    assert ResizePlan(h, 0, 16) == Move(32);
    LowGap(h);
    MoveLoses(h, 0, 32);
    assert Remove(h, 0).blocks == [Block(5152, 16, 16)];
    LowGap(Remove(h, 0));
  }

  /** With the lowest gap of 4096 and up free, a request of 32 bytes is served there. */
  lemma LowGap(h: Heap)
    requires h.hdr == 16 && h.start == 4096 && h.blocks != [] && h.blocks[0].address >= 5120
    ensures FirstTaken(h, Round(32), 0) == 0 && Exact(h, 32) && MallocSpec(h, 32).1 == 4112
  {
    assert Round(32) == 32 && Taken(h, 0, 32);
  }

  // ---------------------------------------------------------------- whole runs over memory

  /** Address x lies in the header of block i. */
  ghost predicate InHeader(h: Heap, i: nat, x: nat)
    requires i < |h.blocks|
  {
    h.blocks[i].address - h.hdr <= x < h.blocks[i].address
  }

  /** Address x lies in the data of block i. */
  ghost predicate InData(h: Heap, i: nat, x: nat)
    requires i < |h.blocks|
  {
    h.blocks[i].address <= x < h.blocks[i].End()
  }

  /** Every byte belongs to at most one header or one block's data. */
  lemma Disjoint(h: Heap, i: nat, j: nat, x: nat)
    requires Inv(h) && i < |h.blocks| && j < |h.blocks|
    ensures InData(h, i, x) ==> !InHeader(h, j, x) && h.start <= x < h.end
    ensures i != j ==> !(InData(h, i, x) && InData(h, j, x))
    ensures i != j ==> !(InHeader(h, i, x) && InHeader(h, j, x))
    ensures InHeader(h, i, x) ==> h.start <= x < h.end
  {
    if i < j { Ordered(h, i, j); }
    if j < i { Ordered(h, j, i); }
  }

  /** Calls of the allocator, and stores by the program that owns the blocks. */
  datatype Op = Malloc(n: nat) | Free(p: nat) | Realloc(p: nat, n: nat) | Store(at: nat, value: int)

  function Apply(h: Heap, op: Op): Heap {
    match op
    case Malloc(n) => MallocSpec(h, n).0
    case Free(p) => FreeSpec(h, p)
    case Realloc(p, n) => ReallocSpec(h, p, n).0
    case Store(_, _) => h
  }

  /** The program keeps its side: requests do not wrap, the heap end is never passed as a block,
      a `realloc` does not land directly below the block it moves, and stores stay in live data. */
  ghost predicate Proper(h: Heap, op: Op) {
    match op
    case Malloc(n) => Exact(h, n)
    case Free(p) => p != h.end
    case Realloc(p, n) =>
      && p != h.end
      && (p == 0 ==> Exact(h, n))
      && (p != 0 && 0 < n && Live(h, p) ==>
            var i := Find(h, p);
            var plan := ResizePlan(h, i, n);
            ExactGrowth(h, i, n) && !(plan.Move? && CutsNew(h, i, plan.size)))
    case Store(at, _) => exists i :: 0 <= i < |h.blocks| && InData(h, i, at)
  }

  /** Addresses that the operation writes on purpose: the stored byte, or the target of the copy
      made when a block is moved. */
  ghost predicate Writes(h: Heap, op: Op, x: nat) {
    match op
    case Malloc(_) => false
    case Free(_) => false
    case Realloc(p, n) =>
      Moves(h, op) && ReallocSpec(h, p, n).1 <= x < ReallocSpec(h, p, n).1 + h.blocks[Find(h, p)].size
    case Store(at, _) => x == at
  }

  /** One step over memory: bytes of headers, old and new, are the allocator's own and may become
      anything; every other byte changes only where the operation writes, and a moved block is copied. */
  ghost predicate Step(h: Heap, m: seq<int>, op: Op, h': Heap, m': seq<int>) {
    && h' == Apply(h, op)
    && |m'| == |m|
    && (forall x :: 0 <= x < |m| && m'[x] != m[x] ==>
          || Writes(h, op, x)
          || (exists i :: 0 <= i < |h.blocks| && InHeader(h, i, x))
          || (exists i :: 0 <= i < |h'.blocks| && InHeader(h', i, x)))
    && (Moves(h, op) ==> Copied(m, op.p, m', ReallocSpec(h, op.p, op.n).1, h.blocks[Find(h, op.p)].size))
  }

  /** The bytes from p on are found from q on. */
  ghost predicate Copied(m: seq<int>, p: nat, m': seq<int>, q: nat, size: nat) {
    forall y :: p <= y < p + size && y < |m| && q + (y - p) < |m'| ==> m'[q + (y - p)] == m[y]
  }

  /** The operation moves a block. */
  ghost predicate Moves(h: Heap, op: Op) {
    && op.Realloc? && op.p != 0 && 0 < op.n && Live(h, op.p)
    && ResizePlan(h, Find(h, op.p), op.n).Move? && ReallocSpec(h, op.p, op.n).1 != 0
  }

  /** The operation frees, resizes or stores into block p. */
  ghost predicate Touches(h: Heap, op: Op, p: nat) {
    match op
    case Malloc(_) => false
    case Free(q) => q == p
    case Realloc(q, _) => q == p
    case Store(at, _) => Live(h, p) && InData(h, Find(h, p), at)
  }

  /** Block p is live in both heaps with the same size and the same bytes. */
  ghost predicate SameBlock(h: Heap, m: seq<int>, h': Heap, m': seq<int>, p: nat) {
    && Live(h, p) && Live(h', p)
    && h'.blocks[Find(h', p)] == h.blocks[Find(h, p)]
    && forall x :: 0 <= x < |m| && x < |m'| && InData(h, Find(h, p), x) ==> m'[x] == m[x]
  }

  lemma ApplyKeepsInv(h: Heap, op: Op)
    requires Inv(h) && Rounded(h) && Proper(h, op)
    ensures Inv(Apply(h, op)) && Rounded(Apply(h, op)) && Apply(h, op).(blocks := []) == h.(blocks := [])
  {
    match op {
      case Malloc(n) => MallocKeepsInv(h, n); MallocKeepsRounded(h, n);
      case Free(p) => FreeKeepsInv(h, p); FreeKeepsRounded(h, p);
      case Realloc(p, n) =>
        if p == 0 {
          MallocKeepsInv(h, n);
          MallocKeepsRounded(h, n);
        } else if n != 0 && Live(h, p) {
          ReallocOutcome(h, p, n);
          ReallocKeepsRounded(h, p, n);
        }
      case Store(_, _) =>
    }
  }

  lemma MallocKeepsRounded(h: Heap, n: nat)
    requires Rounded(h) && n + 15 < TWO_32
    ensures Rounded(MallocSpec(h, n).0)
  {
    var i := FirstTaken(h, Round(n), 0);
    if i <= |h.blocks| {
      assert forall b :: b in Insert(h, i, Round(n), n).blocks ==>
          b in h.blocks || (b.size == Round(n) && b.asked == n);
    }
  }

  lemma FreeKeepsRounded(h: Heap, p: nat)
    requires Rounded(h)
    ensures Rounded(FreeSpec(h, p))
  {
    assert forall b :: b in FreeSpec(h, p).blocks ==> b in h.blocks;
  }

  lemma ReallocKeepsRounded(h: Heap, p: nat, n: nat)
    requires Inv(h) && Rounded(h) && p != 0 && n != 0 && Live(h, p) && Proper(h, Realloc(p, n))
    ensures Rounded(ReallocSpec(h, p, n).0)
  {
    var i := Find(h, p);
    var plan := ResizePlan(h, i, n);
    if plan.InPlace? {
      RoundTotal(h, i, n);
      GrowKeepsRounded(h, i, h.blocks[i].asked + n);
    } else if plan.Move? && ReallocSpec(h, p, n).1 != 0 {
      MoveDetail(h, p, n);
      MallocKeepsRounded(h, plan.size);
      FreeKeepsRounded(MallocSpec(h, plan.size).0, p);
    }
  }

  lemma GrowKeepsRounded(h: Heap, i: nat, total: nat)
    requires Rounded(h) && i < |h.blocks| && total + 15 < TWO_32
    ensures Rounded(Grow(h, i, Round(total), total))
  {
    assert forall b :: b in Grow(h, i, Round(total), total).blocks ==>
        b in h.blocks || (b.size == Round(total) && b.asked == total);
  }

  /** An operation that does not touch block i leaves it in the list as it is. */
  lemma BlockSurvives(h: Heap, op: Op, i: nat)
    requires Inv(h) && Rounded(h) && Proper(h, op) && i < |h.blocks|
    requires !Touches(h, op, h.blocks[i].address)
    ensures h.blocks[i] in Apply(h, op).blocks
  {
    match op {
      case Malloc(n) => InsertSurvives(h, n, i);
      case Free(p) =>
        KeepsLive(h, p, i);
      case Realloc(p, n) =>
        if p == 0 {
          InsertSurvives(h, n, i);
        } else if n != 0 && Live(h, p) {
          ReallocSurvives(h, p, n, i);
        }
      case Store(_, _) =>
    }
  }

  lemma InsertSurvives(h: Heap, n: nat, i: nat)
    requires i < |h.blocks|
    ensures h.blocks[i] in MallocSpec(h, n).0.blocks
  {
    var k := FirstTaken(h, Round(n), 0);
    if k <= |h.blocks| {
      var b := Insert(h, k, Round(n), n).blocks;
      assert b[if i < k then i else i + 1] == h.blocks[i];
    }
  }

  lemma ReallocSurvives(h: Heap, p: nat, n: nat, i: nat)
    requires Inv(h) && Rounded(h) && i < |h.blocks| && h.blocks[i].address != p
    requires p != 0 && n != 0 && Live(h, p) && Proper(h, Realloc(p, n))
    ensures h.blocks[i] in ReallocSpec(h, p, n).0.blocks
  {
    var plan := ResizePlan(h, Find(h, p), n);
    if plan.InPlace? {
      assert ReallocSpec(h, p, n).0.blocks[i] == h.blocks[i];
    } else if plan.Move? && ReallocSpec(h, p, n).1 != 0 {
      MoveDetail(h, p, n);
      MoveSurvives(h, p, plan.size, i);
    }
  }

  lemma MoveSurvives(h: Heap, p: nat, size: nat, i: nat)
    requires Inv(h) && Exact(h, size) && i < |h.blocks| && h.blocks[i].address != p
    ensures h.blocks[i] in FreeSpec(MallocSpec(h, size).0, p).blocks
  {
    var h' := MallocSpec(h, size).0;
    MallocKeepsInv(h, size);
    InsertSurvives(h, size, i);
    var j :| 0 <= j < |h'.blocks| && h'.blocks[j] == h.blocks[i];
    KeepsLive(h', p, j);
  }

  /** A successful proper move: the new block was not live before, is live after, holds the old
      block's bytes, and the old block is gone. */
  lemma MoveDetail(h: Heap, p: nat, n: nat)
    requires Inv(h) && Rounded(h) && p != 0 && n != 0 && Live(h, p) && Proper(h, Realloc(p, n))
    requires ResizePlan(h, Find(h, p), n).Move? && ReallocSpec(h, p, n).1 != 0
    ensures var size := ResizePlan(h, Find(h, p), n).size;
            var (h', q) := ReallocSpec(h, p, n);
            && Exact(h, size)
            && h' == FreeSpec(MallocSpec(h, size).0, p) && q == MallocSpec(h, size).1
            && Inv(h') && !Live(h, q) && Live(h', q) && !Live(h', p)
            && h.blocks[Find(h, p)].size <= size == h'.blocks[Find(h', q)].size
  {
    var i := Find(h, p);
    var size := ResizePlan(h, i, n).size;
    PlanSize(h, i, n);
    MallocKeepsInv(h, size);
    MoveOutcome(h, i, size);
    FreeKeepsInv(MallocSpec(h, size).0, p);
  }

  lemma PlanSize(h: Heap, i: nat, n: nat)
    requires i < |h.blocks| && Rounded(h) && ExactGrowth(h, i, n) && !ResizePlan(h, i, n).Same?
    ensures var size := ResizePlan(h, i, n).size;
            && size == Round(size) == Round(h.blocks[i].asked + n) && size + 15 < TWO_32
            && h.blocks[i].asked + n <= size && h.blocks[i].size <= size
  {
    assert h.blocks[i] in h.blocks;
    RoundTotal(h, i, n);
    RoundMonotone(h.blocks[i].asked, h.blocks[i].asked + n);
  }

  lemma RoundMonotone(a: nat, b: nat)
    requires a <= b && b + 15 < TWO_32
    ensures Round(a) <= Round(b)
  {
  }

  /** One proper step that does not touch block p keeps it, with its contents. */
  lemma StepKeepsBlock(h: Heap, m: seq<int>, op: Op, h': Heap, m': seq<int>, p: nat)
    requires Inv(h) && Rounded(h) && Proper(h, op) && Step(h, m, op, h', m')
    requires Live(h, p) && !Touches(h, op, p)
    ensures SameBlock(h, m, h', m', p)
  {
    var i := Find(h, p);
    ApplyKeepsInv(h, op);
    BlockSurvives(h, op, i);
    var j :| 0 <= j < |h'.blocks| && h'.blocks[j] == h.blocks[i];
    FindIndex(h', j);
    forall x | 0 <= x < |m| && InData(h, i, x)
      ensures m'[x] == m[x]
    {
      forall k | 0 <= k < |h.blocks| ensures !InHeader(h, k, x) { Disjoint(h, i, k, x); }
      forall k | 0 <= k < |h'.blocks| ensures !InHeader(h', k, x) { Disjoint(h', j, k, x); }
      if Writes(h, op, x) {
        MoveTargetIsFresh(h, op, h', j, x);
      }
    }
  }

  /** A moved block is copied into data that no other block owns. */
  lemma MoveTargetIsFresh(h: Heap, op: Op, h': Heap, j: nat, x: nat)
    requires Inv(h) && Rounded(h) && Proper(h, op) && h' == Apply(h, op) && Writes(h, op, x) && op.Realloc?
    requires Inv(h') && j < |h'.blocks| && h'.blocks[j] in h.blocks
    ensures !InData(h', j, x)
  {
    MoveDetail(h, op.p, op.n);
    var q := ReallocSpec(h, op.p, op.n).1;
    var o :| 0 <= o < |h.blocks| && h.blocks[o] == h'.blocks[j];
    FindIndex(h, o);
    Disjoint(h', j, Find(h', q), x);
  }

  /** A successful proper `realloc` of a live block keeps the block's bytes, in place or moved. */
  lemma ReallocKeepsBytes(h: Heap, m: seq<int>, p: nat, n: nat, h': Heap, m': seq<int>)
    requires Inv(h) && Rounded(h) && p != 0 && 0 < n && Live(h, p) && Proper(h, Realloc(p, n))
    requires Step(h, m, Realloc(p, n), h', m') && ReallocSpec(h, p, n).1 != 0
    ensures Copied(m, p, m', ReallocSpec(h, p, n).1, h.blocks[Find(h, p)].size)
  {
    var op := Realloc(p, n);
    if !Moves(h, op) {
      var i := Find(h, p);
      ApplyKeepsInv(h, op);
      InPlaceBlock(h, p, n);
      forall y | p <= y < p + h.blocks[i].size && y < |m|
        ensures m'[y] == m[y]
      {
        KeepsByte(h, m, op, h', m', i, y);
      }
    }
  }

  /** A block that is not moved keeps its place in the list and does not shrink. */
  lemma InPlaceBlock(h: Heap, p: nat, n: nat)
    requires Inv(h) && Rounded(h) && p != 0 && 0 < n && Live(h, p) && Proper(h, Realloc(p, n))
    requires !ResizePlan(h, Find(h, p), n).Move?
    ensures var i := Find(h, p); var (h', q) := ReallocSpec(h, p, n);
            q == p && i < |h'.blocks| && h'.blocks[i].address == p && h.blocks[i].size <= h'.blocks[i].size
  {
    var i := Find(h, p);
    if !ResizePlan(h, i, n).Same? { PlanSize(h, i, n); }
  }

  lemma KeepsByte(h: Heap, m: seq<int>, op: Op, h': Heap, m': seq<int>, i: nat, x: nat)
    requires Inv(h) && Inv(h') && Step(h, m, op, h', m') && !Writes(h, op, x) && x < |m|
    requires i < |h.blocks| && i < |h'.blocks| && InData(h, i, x) && InData(h', i, x)
    ensures m'[x] == m[x]
  {
    forall k | 0 <= k < |h.blocks| ensures !InHeader(h, k, x) { Disjoint(h, i, k, x); }
    forall k | 0 <= k < |h'.blocks| ensures !InHeader(h', k, x) { Disjoint(h', i, k, x); }
  }

  /** A run: heaps and memories before each operation and after the last. */
  datatype Moment = Moment(heap: Heap, mem: seq<int>)

  ghost predicate Run(ms: seq<Moment>, ops: seq<Op>) {
    && |ms| == |ops| + 1
    && forall k :: 0 <= k < |ops| ==>
         && Proper(ms[k].heap, ops[k])
         && Step(ms[k].heap, ms[k].mem, ops[k], ms[k + 1].heap, ms[k + 1].mem)
  }

  /** The heap as `malloc_init` leaves it. */
  function Initial(hdr: nat, start: nat, size: nat): Heap {
    Heap(hdr, start, start + size, [])
  }

  /** After any proper run from `malloc_init` the heap is well formed. */
  lemma {:induction false} RunKeepsInv(hdr: nat, start: nat, size: nat, ms: seq<Moment>, ops: seq<Op>, k: nat)
    requires Run(ms, ops) && k <= |ops|
    requires 0 < hdr && start + size < TWO_32 && ms[0].heap == Initial(hdr, start, size)
    ensures Inv(ms[k].heap) && Rounded(ms[k].heap)
    ensures |ms[k].mem| == |ms[0].mem|
  {
    if k > 0 {
      RunKeepsInv(hdr, start, size, ms, ops, k - 1);
      ApplyKeepsInv(ms[k - 1].heap, ops[k - 1]);
    }
  }

  /** Over any stretch of a proper run in which no operation touches block p, the block stays
      live and keeps its size and all its bytes. */
  lemma {:induction false} RunKeepsBlock(ms: seq<Moment>, ops: seq<Op>, a: nat, b: nat, p: nat)
    requires Run(ms, ops) && a <= b <= |ops| && Inv(ms[a].heap) && Rounded(ms[a].heap) && Live(ms[a].heap, p)
    requires forall k :: a <= k < b ==> !Touches(ms[k].heap, ops[k], p)
    ensures Inv(ms[b].heap) && Rounded(ms[b].heap) && |ms[b].mem| == |ms[a].mem|
    ensures SameBlock(ms[a].heap, ms[a].mem, ms[b].heap, ms[b].mem, p)
    decreases b - a
  {
    if a < b {
      var mid := b - 1;
      RunKeepsBlock(ms, ops, a, mid, p);
      StepKeepsBlock(ms[mid].heap, ms[mid].mem, ops[mid], ms[b].heap, ms[b].mem, p);
      ApplyKeepsInv(ms[mid].heap, ops[mid]);
    }
  }
}
