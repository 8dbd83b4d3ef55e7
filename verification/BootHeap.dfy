/** The allocator as boot0 writes it: header nodes stored in heap memory and linked by
    pointers, two static end nodes, and search loops that move one pointer. */
module BootHeapCode {
  import opened Machine
  import opened HeapModel

  /** A node is one of the two static ends or a header stored at an address. */
  datatype Ptr = Null | Head | Tail | At(header: nat)

  datatype Node = Node(address: nat, size: nat, asked: nat, next: Ptr)

  type Store = map<Ptr, Node>

  /** Pointer to list node i of a heap: 0 is the head, |blocks| + 1 the tail. */
  function NodePtr(h: Heap, i: nat): Ptr
    requires i <= |h.blocks| + 1
  {
    if i == 0 then Head
    else if i == |h.blocks| + 1 then Tail
    else At(HeaderOf(h, h.blocks[i - 1]))
  }

  /** A header lies directly below the data of its block. */
  function HeaderOf(h: Heap, b: Block): nat {
    if b.address < h.hdr then 0 else b.address - h.hdr
  }

  /** Contents of list node i; the static head is zero-initialised. */
  function NodeAt(h: Heap, i: nat): Node
    requires i <= |h.blocks|
  {
    if i == 0 then Node(h.start, 0, 0, NodePtr(h, 1))
    else
      var b := h.blocks[i - 1];
      Node(b.address, b.size, b.asked, NodePtr(h, i + 1))
  }

  ghost predicate NodeIs(s: Store, h: Heap, i: nat)
    requires i <= |h.blocks|
  {
    NodePtr(h, i) in s && s[NodePtr(h, i)] == NodeAt(h, i)
  }

  /** The store holds exactly the list of the heap, from head to tail. */
  ghost predicate Linked(s: Store, h: Heap) {
    && (forall i :: 0 <= i <= |h.blocks| ==> NodeIs(s, h, i))
    && Tail in s && s[Tail].address == h.end && s[Tail].next == Null
  }

  /** Memory behaves as memory: a write to [lo, hi) destroys every header it overlaps. */
  function Overwrite(s: Store, hdr: nat, lo: nat, hi: nat): Store {
    map p | p in s && !(p.At? && lo < p.header + hdr && p.header < hi) :: s[p]
  }

  /** A write that stays inside the data of a live block destroys no header of the list. */
  lemma DataWriteKeepsList(s: Store, h: Heap, i: nat, lo: nat, hi: nat)
    requires Inv(h) && Linked(s, h) && i < |h.blocks|
    requires h.blocks[i].address <= lo <= hi <= h.blocks[i].End()
    ensures Linked(Overwrite(s, h.hdr, lo, hi), h)
  {
    var s' := Overwrite(s, h.hdr, lo, hi);
    forall k | 0 <= k <= |h.blocks|
      ensures NodeIs(s', h, k)
    {
      assert NodeIs(s, h, k);
      if 0 < k <= i { Ordered(h, k - 1, i); }
      if k > i + 1 { Ordered(h, i, k - 1); }
    }
  }

  /** Node pointers of a well-formed heap are pairwise distinct. */
  lemma PtrsDistinct(h: Heap, i: nat, j: nat)
    requires Inv(h) && i < j <= |h.blocks| + 1
    ensures NodePtr(h, i) != NodePtr(h, j)
  {
    if 0 < i && j <= |h.blocks| { Ordered(h, i - 1, j - 1); }
  }

  /** The store after a new header is written at address a and linked in behind node p. */
  function Splice(s: Store, hdr: nat, p: Ptr, a: nat, size: nat, asked: nat): Store
    requires p in s
  {
    Overwrite(s, hdr, a, a + hdr)[At(a) := Node(a + hdr, size, asked, s[p].next)][p := s[p].(next := At(a))]
  }

  /** Writing a new node into a fitting gap and linking it in gives the list of the grown heap. */
  lemma LinkedInsert(s: Store, h: Heap, i: nat, size: nat, asked: nat)
    requires Inv(h) && Linked(s, h) && i <= |h.blocks| && Fits(h, i, size) && asked <= size
    ensures Inv(Insert(h, i, size, asked)) && NodePtr(h, i) in s
    ensures Linked(Splice(s, h.hdr, NodePtr(h, i), h.GapStart(i), size, asked), Insert(h, i, size, asked))
  {
    InsertKeepsInv(h, i, size, asked);
    assert NodeIs(s, h, i);
    var h' := Insert(h, i, size, asked);
    var s' := Splice(s, h.hdr, NodePtr(h, i), h.GapStart(i), size, asked);
    forall k | 0 <= k <= |h'.blocks|
      ensures NodeIs(s', h', k)
    {
      NodeAfterInsert(s, h, i, size, asked, k);
    }
  }

  /** Only the new header, the node before it and overlapped headers differ after a splice. */
  lemma SpliceKeeps(s: Store, hdr: nat, p: Ptr, a: nat, size: nat, asked: nat, q: Ptr)
    requires 0 < hdr && p in s && q in s && q != p
    requires q.At? ==> q.header + hdr <= a || a + hdr <= q.header
    ensures var s' := Splice(s, hdr, p, a, size, asked); q in s' && s'[q] == s[q]
  {
  }

  lemma NodeAfterInsert(s: Store, h: Heap, i: nat, size: nat, asked: nat, k: nat)
    requires Inv(h) && Linked(s, h) && i <= |h.blocks| && Fits(h, i, size) && k <= |h.blocks| + 1
    requires NodePtr(h, i) in s
    ensures NodeIs(Splice(s, h.hdr, NodePtr(h, i), h.GapStart(i), size, asked), Insert(h, i, size, asked), k)
  {
    InsertedNode(h, i, size, asked, k);
    if k == i || k == i + 1 {
      assert NodeIs(s, h, i);
      if i > 0 { HeaderOutsideGap(h, i, size, i); }
    } else {
      OtherNodeAfterInsert(s, h, i, size, asked, if k < i then k else k - 1);
    }
  }

  lemma OtherNodeAfterInsert(s: Store, h: Heap, i: nat, size: nat, asked: nat, o: nat)
    requires Inv(h) && Linked(s, h) && i <= |h.blocks| && Fits(h, i, size) && o <= |h.blocks| && o != i
    requires NodePtr(h, i) in s
    ensures NodeIs(s, h, o)
    ensures var s' := Splice(s, h.hdr, NodePtr(h, i), h.GapStart(i), size, asked);
            NodePtr(h, o) in s' && s'[NodePtr(h, o)] == s[NodePtr(h, o)]
  {
    assert NodeIs(s, h, o);
    if o > 0 { HeaderOutsideGap(h, i, size, o); }
    if o < i { PtrsDistinct(h, o, i); } else { PtrsDistinct(h, i, o); }
    SpliceKeeps(s, h.hdr, NodePtr(h, i), h.GapStart(i), size, asked, NodePtr(h, o));
  }

  /** No live header overlaps the place of the new header. */
  lemma HeaderOutsideGap(h: Heap, i: nat, size: nat, k: nat)
    requires Inv(h) && i <= |h.blocks| && Fits(h, i, size) && 0 < k <= |h.blocks|
    ensures var a := h.GapStart(i); var q := h.blocks[k - 1].address - h.hdr;
            q + h.hdr <= a || a + h.hdr <= q
  {
    GapBetween(h, i, k - 1);
  }

  /** Where the node pointers of the grown list come from. */
  lemma InsertedPtr(h: Heap, i: nat, size: nat, asked: nat, k: nat)
    requires i <= |h.blocks| && k <= |h.blocks| + 2
    ensures NodePtr(Insert(h, i, size, asked), k)
              == if k <= i then NodePtr(h, k) else if k == i + 1 then At(h.GapStart(i)) else NodePtr(h, k - 1)
  {
    var b := Insert(h, i, size, asked).blocks;
    if 0 < k <= i { assert b[k - 1] == h.blocks[k - 1]; }
    if i + 1 < k <= |h.blocks| + 1 { assert b[k - 1] == h.blocks[k - 2]; }
  }

  /** Where the nodes of the grown list come from. */
  lemma InsertedNode(h: Heap, i: nat, size: nat, asked: nat, k: nat)
    requires i <= |h.blocks| && k <= |h.blocks| + 1
    ensures var h' := Insert(h, i, size, asked); var a := h.GapStart(i);
            && NodePtr(h', k) == (if k <= i then NodePtr(h, k) else if k == i + 1 then At(a) else NodePtr(h, k - 1))
            && NodeAt(h', k) == (if k < i then NodeAt(h, k)
                                 else if k == i then NodeAt(h, i).(next := At(a))
                                 else if k == i + 1 then Node(a + h.hdr, size, asked, NodePtr(h, i + 1))
                                 else NodeAt(h, k - 1))
  {
    InsertedPtr(h, i, size, asked, k);
    InsertedPtr(h, i, size, asked, k + 1);
    var b := Insert(h, i, size, asked).blocks;
    if 0 < k <= i { assert b[k - 1] == h.blocks[k - 1]; }
    if i + 1 < k { assert b[k - 1] == h.blocks[k - 2]; }
  }

  /** Cutting node i + 1 out of the list gives the list of the smaller heap. */
  lemma LinkedRemove(s: Store, h: Heap, i: nat)
    requires Inv(h) && Linked(s, h) && i < |h.blocks|
    ensures Inv(Remove(h, i))
    ensures var p := NodePtr(h, i); var q := NodePtr(h, i + 1);
            p in s && q in s && Linked(s[p := s[p].(next := s[q].next)], Remove(h, i))
  {
    RemoveKeepsInv(h, i);
    var p := NodePtr(h, i);
    var q := NodePtr(h, i + 1);
    assert NodeIs(s, h, i) && NodeIs(s, h, i + 1);
    var h' := Remove(h, i);
    var s' := s[p := s[p].(next := s[q].next)];
    forall k | 0 <= k <= |h'.blocks|
      ensures NodeIs(s', h', k)
    {
      NodeAfterRemove(s, h, i, k);
    }
  }

  lemma NodeAfterRemove(s: Store, h: Heap, i: nat, k: nat)
    requires Inv(h) && Linked(s, h) && i < |h.blocks| && k < |h.blocks|
    requires NodePtr(h, i) in s && NodePtr(h, i + 1) in s
    ensures var p := NodePtr(h, i); var q := NodePtr(h, i + 1);
            NodeIs(s[p := s[p].(next := s[q].next)], Remove(h, i), k)
  {
    RemovedNode(h, i, k);
    assert NodeIs(s, h, i) && NodeIs(s, h, i + 1);
    if k != i {
      var o := if k < i then k else k + 1;
      assert NodeIs(s, h, o);
      if o < i { PtrsDistinct(h, o, i); } else { PtrsDistinct(h, i, o); }
    }
  }

  /** Pointing node i past the two nodes behind it cuts both of them. */
  lemma CutBoth(s: Store, h: Heap, i: nat)
    requires Inv(h) && Linked(s, h) && i + 1 < |h.blocks|
    ensures Inv(Remove(Remove(h, i), i))
    ensures var p := NodePtr(h, i); var q := NodePtr(h, i + 2);
            p in s && q in s && Linked(s[p := s[p].(next := s[q].next)], Remove(Remove(h, i), i))
  {
    LinkedRemove(s, h, i);
    assert NodeIs(s, h, i) && NodeIs(s, h, i + 1) && NodeIs(s, h, i + 2);
    var p := NodePtr(h, i);
    var s1 := s[p := s[p].(next := s[NodePtr(h, i + 1)].next)];
    RemovedPtr(h, i, i);
    RemovedPtr(h, i, i + 1);
    LinkedRemove(s1, Remove(h, i), i);
    PtrsDistinct(h, i, i + 2);
    assert s1[p := s1[p].(next := s1[NodePtr(h, i + 2)].next)] == s[p := s[p].(next := s[NodePtr(h, i + 2)].next)];
  }

  /** After a block was inserted in gap k, the copy into it destroys no header. */
  lemma BeforeCut(s: Store, h': Heap, h: Heap, i: nat, k: nat, size: nat)
    requires Inv(h) && i < |h.blocks| && k <= |h.blocks| && h.blocks[i].size <= size
    requires h' == Insert(h, k, size, size) && Inv(h') && Linked(s, h')
    ensures NodePtr(h, i + 1) in s && s[NodePtr(h, i + 1)].size == h.blocks[i].size
    ensures var q := h.GapStart(k) + h.hdr; Linked(Overwrite(s, h.hdr, q, q + h.blocks[i].size), h')
  {
    var q := h.GapStart(k) + h.hdr;
    assert h'.blocks[k] == Block(q, size, size);
    DataWriteKeepsList(s, h', k, q, q + h.blocks[i].size);
    var o := if k <= i then i + 2 else i + 1;
    InsertedNode(h, k, size, size, o);
    assert NodeIs(s, h', o);
  }

  /** The store after node `o` is cut out behind node `p`. */
  function Cut(s: Store, p: Ptr, o: Ptr): Store
    requires p in s && o in s
  {
    s[p := s[p].(next := s[o].next)]
  }

  /** Cutting from the old predecessor to the old successor of block i takes the inserted block
      along when it sits between the two. */
  lemma MoveCutsBoth(s: Store, h: Heap, i: nat, size: nat)
    requires Inv(h) && i < |h.blocks| && h.blocks[i].address != 0
    requires Inv(Insert(h, i, size, size)) && Linked(s, Insert(h, i, size, size))
    ensures NodePtr(h, i) in s && NodePtr(h, i + 1) in s
    ensures Inv(FreeSpec(h, h.blocks[i].address))
    ensures Linked(Cut(s, NodePtr(h, i), NodePtr(h, i + 1)), FreeSpec(h, h.blocks[i].address))
  {
    var h' := Insert(h, i, size, size);
    InsertedPtr(h, i, size, size, i);
    InsertedPtr(h, i, size, size, i + 2);
    CutBoth(s, h', i);
    assert Remove(h', i).blocks == h.blocks;
    FindIndex(h, i);
  }

  /** Elsewhere it cuts exactly the old block. */
  lemma MoveCutsOld(s: Store, h: Heap, i: nat, k: nat, size: nat)
    requires i < |h.blocks| && k <= |h.blocks| && k != i && h.blocks[i].address != 0
    requires Inv(Insert(h, k, size, size)) && Linked(s, Insert(h, k, size, size))
    ensures var h' := Insert(h, k, size, size); var p := h.blocks[i].address;
            && NodePtr(h, i) in s && NodePtr(h, i + 1) in s
            && Inv(FreeSpec(h', p)) && Linked(Cut(s, NodePtr(h, i), NodePtr(h, i + 1)), FreeSpec(h', p))
  {
    var h' := Insert(h, k, size, size);
    var i' := if k < i then i + 1 else i;
    InsertedPtr(h, k, size, size, i');
    InsertedPtr(h, k, size, size, i' + 1);
    assert h'.blocks[i'] == h.blocks[i];
    LinkedRemove(s, h', i');
    FindIndex(h', i');
  }

  lemma MoveCuts(s: Store, h: Heap, i: nat, k: nat, size: nat)
    requires Inv(h) && i < |h.blocks| && k <= |h.blocks| && h.blocks[i].address != 0
    requires Inv(Insert(h, k, size, size)) && Linked(s, Insert(h, k, size, size))
    ensures var h' := if k == i then h else Insert(h, k, size, size); var p := h.blocks[i].address;
            && NodePtr(h, i) in s && NodePtr(h, i + 1) in s
            && Inv(FreeSpec(h', p)) && Linked(Cut(s, NodePtr(h, i), NodePtr(h, i + 1)), FreeSpec(h', p))
  {
    if k == i {
      MoveCutsBoth(s, h, i, size);
    } else {
      MoveCutsOld(s, h, i, k, size);
    }
  }

  lemma RemovedPtr(h: Heap, i: nat, k: nat)
    requires i < |h.blocks| && k <= |h.blocks|
    ensures NodePtr(Remove(h, i), k) == if k <= i then NodePtr(h, k) else NodePtr(h, k + 1)
  {
    var b := Remove(h, i).blocks;
    if 0 < k <= i { assert b[k - 1] == h.blocks[k - 1]; }
    if i < k < |h.blocks| { assert b[k - 1] == h.blocks[k]; }
  }

  /** Where the nodes of the shrunk list come from. */
  lemma RemovedNode(h: Heap, i: nat, k: nat)
    requires i < |h.blocks| && k < |h.blocks|
    ensures var h' := Remove(h, i);
            && NodePtr(h', k) == (if k <= i then NodePtr(h, k) else NodePtr(h, k + 1))
            && NodeAt(h', k) == (if k < i then NodeAt(h, k)
                                 else if k == i then NodeAt(h, i).(next := NodeAt(h, i + 1).next)
                                 else NodeAt(h, k + 1))
  {
    RemovedPtr(h, i, k);
    RemovedPtr(h, i, k + 1);
    var b := Remove(h, i).blocks;
    if 0 < k <= i { assert b[k - 1] == h.blocks[k - 1]; }
    if i < k { assert b[k - 1] == h.blocks[k]; }
  }

  /** Rewriting the sizes in node i + 1 gives the list of the heap with block i resized. */
  lemma LinkedGrow(s: Store, h: Heap, i: nat, size: nat, asked: nat)
    requires Inv(h) && Linked(s, h) && i < |h.blocks| && asked <= size
    requires h.blocks[i].address + size + 2 * h.hdr <= h.GapLimit(i + 1)
    ensures Inv(Grow(h, i, size, asked))
    ensures var q := NodePtr(h, i + 1);
            q in s && Linked(s[q := s[q].(size := size, asked := asked)], Grow(h, i, size, asked))
  {
    GrowKeepsInv(h, i, size, asked);
    var q := NodePtr(h, i + 1);
    var h' := Grow(h, i, size, asked);
    assert NodeIs(s, h, i + 1);
    var s' := s[q := s[q].(size := size, asked := asked)];
    forall k | 0 <= k <= |h'.blocks|
      ensures NodeIs(s', h', k)
    {
      assert NodeIs(s, h, k);
      assert NodePtr(h', k) == NodePtr(h, k) && NodePtr(h', k + 1) == NodePtr(h, k + 1);
      if k < i + 1 { PtrsDistinct(h, k, i + 1); } else if k > i + 1 { PtrsDistinct(h, i + 1, k); }
    }
  }

  /** The sums `realloc` forms for an exact growth. */
  lemma SumsExact(h: Heap, i: nat, n: nat)
    requires Inv(h) && Rounded(h) && i < |h.blocks| && 0 < n && ExactGrowth(h, i, n)
    ensures var total := h.blocks[i].asked + n; var actual := Round(total);
            && total % TWO_32 == total && total <= actual && 0 < actual
            && Round(actual) == actual && h.blocks[i].size <= actual
            && (ResizePlan(h, i, n) == Move(actual) ==> Exact(h, actual))
            && (ResizePlan(h, i, n) == InPlace(actual) ==>
                  (h.blocks[i].address + actual + 2 * h.hdr) % TWO_32 == h.blocks[i].address + actual + 2 * h.hdr)
  {
    RoundTotal(h, i, n);
    RoundMonotone(h.blocks[i].asked, h.blocks[i].asked + n);
    assert h.blocks[i] in h.blocks;
  }

  /** The header of the node before a gap ends where the gap starts, or earlier. */
  lemma BelowGap(h: Heap, i: nat)
    requires Inv(h) && i <= |h.blocks|
    ensures NodePtr(h, i).At? ==> NodePtr(h, i).header + h.hdr <= h.GapStart(i)
  {
  }

  /** The size an exact `realloc` moves a block to. */
  ghost predicate MoveSize(h: Heap, i: nat, size: nat)
    requires i < |h.blocks|
  {
    0 < size && Exact(h, size) && Round(size) == size && h.blocks[i].size <= size
  }

  lemma MoveFits(h: Heap, i: nat, n: nat)
    requires Inv(h) && Rounded(h) && i < |h.blocks| && 0 < n && ExactGrowth(h, i, n)
    requires ResizePlan(h, i, n).Move?
    ensures MoveSize(h, i, ResizePlan(h, i, n).size)
  {
    SumsExact(h, i, n);
  }

  class BootHeap {
    const hdr: nat
    var nodes: Store
    /** The abstract heap this list stands for. */
    ghost var heap: Heap

    ghost predicate Valid()
      reads this
    {
      heap.hdr == hdr && Inv(heap) && Linked(nodes, heap)
    }

    /** `malloc_init`. */
    constructor (hdr: nat, start: nat, size: nat)
      requires 0 < hdr && start + size < TWO_32
      ensures Valid() && heap == Initial(hdr, start, size)
    {
      this.hdr := hdr;
      nodes := map[Head := Node(start, 0, 0, Tail), Tail := Node(start + size, 0, 0, Null)];
      heap := Heap(hdr, start, start + size, []);
    }

    /** The search loop of `malloc`: stops at the first node whose gap passes the test, or at the tail. */
    method SearchGap(actual: nat) returns (ptr: Ptr, ghost i: nat)
      requires Valid()
      ensures i == FirstTaken(heap, actual, 0) && ptr == NodePtr(heap, i) && ptr in nodes
      ensures nodes[ptr].next == Null <==> i == |heap.blocks| + 1
    {
      ptr, i := Head, 0;
      assert NodeIs(nodes, heap, 0);
      while ptr != Null && nodes[ptr].next != Null
        invariant i <= |heap.blocks| + 1 && ptr == NodePtr(heap, i) && ptr in nodes
        invariant forall j :: 0 <= j < i ==> !Taken(heap, j, actual)
        decreases |heap.blocks| + 1 - i
      {
        assert NodeIs(nodes, heap, i);
        assert i < |heap.blocks| ==> NodeIs(nodes, heap, i + 1);
        var node := nodes[ptr];
        if nodes[node.next].address >= (node.address + node.size + 2 * hdr + actual) % TWO_32 {
          assert Taken(heap, i, actual);
          break;
        }
        ptr := node.next;
        i := i + 1;
      }
      assert i <= |heap.blocks| ==> NodeIs(nodes, heap, i);
    }

    /** `malloc`; 0 is the null pointer.  The request is any 32-bit number; the sums of the search
        wrap, so the result is promised when the sum at the chosen gap does not. */
    method Malloc(n: nat) returns (p: nat)
      requires Valid() && n < TWO_32
      modifies this
      ensures Exact(old(heap), n) ==>
                Valid() && heap == MallocSpec(old(heap), n).0 && p == MallocSpec(old(heap), n).1
    {
      if n == 0 { return 0; }
      var actual := Round(n);
      ghost var i;
      var ptr;
      ptr, i := SearchGap(actual);
      if nodes[ptr].next == Null { return 0; }
      assert NodeIs(nodes, heap, i);
      var header := nodes[ptr].address + nodes[ptr].size;
      if header == 0 { return 0; }
      p := header + hdr;
      ghost var fine := Exact(heap, n);
      ghost var grown := Insert(heap, i, actual, n);
      assert fine ==> MallocSpec(heap, n) == (grown, p);
      if fine { InsertHere(n, i); }
      BelowGap(heap, i);
      LinkIn(ptr, header, actual, n);
      if fine { heap := grown; }
    }

    /** Lines 128 to 136 of `malloc`: write the new header and link it in behind `ptr`. */
    method LinkIn(ptr: Ptr, header: nat, actual: nat, n: nat)
      requires ptr in nodes && (ptr.At? ==> ptr.header + hdr <= header) && 0 < hdr
      modifies this`nodes
      ensures nodes == Splice(old(nodes), hdr, ptr, header, actual, n)
    {
      var link := nodes[ptr].next;
      nodes := Overwrite(nodes, hdr, header, header + hdr);
      nodes := nodes[At(header) := Node(header + hdr, actual, n, link)];
      nodes := nodes[ptr := nodes[ptr].(next := At(header))];
    }

    lemma InsertHere(n: nat, i: nat)
      requires Valid() && 0 < n && Exact(heap, n)
      requires i == FirstTaken(heap, Round(n), 0) <= |heap.blocks|
      ensures var h := Insert(heap, i, Round(n), n); var p := NodePtr(heap, i);
              && Inv(h) && p in nodes && Linked(Splice(nodes, hdr, p, heap.GapStart(i), Round(n), n), h)
    {
      RoundCovers(n);
      MallocSoundIff(heap, n);
      LinkedInsert(nodes, heap, i, Round(n), n);
    }

    /** The search loop of `free` and `realloc`: stops at the node before the one whose data
        starts at p; the tail counts as starting at the heap's end. */
    method SearchBefore(p: nat) returns (ptr: Ptr, ghost i: nat)
      requires Valid()
      ensures ptr in nodes && i <= |heap.blocks| + 1 && ptr == NodePtr(heap, i)
      ensures i == if p == heap.end || Live(heap, p) then Find(heap, p) else |heap.blocks| + 1
      ensures nodes[ptr].next == Null <==> i == |heap.blocks| + 1
    {
      ptr, i := Head, 0;
      assert NodeIs(nodes, heap, 0);
      while ptr != Null && nodes[ptr].next != Null
        invariant i <= |heap.blocks| + 1 && ptr == NodePtr(heap, i) && ptr in nodes
        invariant forall j :: 0 <= j < i && j < |heap.blocks| ==> heap.blocks[j].address != p
        invariant i == |heap.blocks| + 1 ==> p != heap.end
        decreases |heap.blocks| + 1 - i
      {
        assert NodeIs(nodes, heap, i);
        assert i < |heap.blocks| ==> NodeIs(nodes, heap, i + 1);
        if nodes[nodes[ptr].next].address == p {
          break;
        }
        ptr := nodes[ptr].next;
        i := i + 1;
      }
      assert i <= |heap.blocks| ==> NodeIs(nodes, heap, i);
    }

    /** `free`.  Any pointer but the heap's end leaves a well-formed list; given the heap's end
        the code cuts the tail off, and no later search can succeed. */
    method Free(p: nat)
      requires Valid()
      modifies this
      ensures p != old(heap).end || p == 0 ==> Valid() && heap == FreeSpec(old(heap), p)
      ensures p == old(heap).end && p != 0 ==>
                var last := NodePtr(old(heap), |old(heap).blocks|);
                last in nodes && nodes[last].next == Null
    {
      if p == 0 { return; }
      var prev;
      ghost var i;
      prev, i := SearchBefore(p);
      var ptr := nodes[prev].next;
      if ptr == Null { return; }
      assert NodeIs(nodes, heap, i);
      if i < |heap.blocks| {
        LinkedRemove(nodes, heap, i);
        heap := Remove(heap, i);
      }
      nodes := nodes[prev := nodes[prev].(next := nodes[ptr].next)];
    }

    /** `realloc`: grows block p by n bytes, in place when the gap above it allows. */
    method Realloc(p: nat, n: nat) returns (q: nat)
      requires Valid() && Rounded(heap) && n < TWO_32
      requires p != heap.end
      requires p == 0 ==> Exact(heap, n)
      requires p != 0 && 0 < n && Live(heap, p) ==> ExactGrowth(heap, Find(heap, p), n)
      modifies this
      ensures Valid() && heap == ReallocSpec(old(heap), p, n).0 && q == ReallocSpec(old(heap), p, n).1
      ensures p == 0 ==> heap == MallocSpec(old(heap), n).0 && q == MallocSpec(old(heap), n).1
      ensures p != 0 && n == 0 ==> heap == old(heap) && q == p
      ensures p != 0 && n != 0 && !Live(old(heap), p) ==> heap == old(heap) && q == 0
    {
      if p == 0 {
        q := Malloc(n);
        return;
      }
      if n == 0 { return p; }
      var prev;
      ghost var i;
      prev, i := SearchBefore(p);
      var ptr := nodes[prev].next;
      if ptr == Null { return 0; }
      assert NodeIs(nodes, heap, i);
      q := ReallocNode(p, n, prev, ptr, i);
    }

    /** `realloc` once the node of p is found, lines 183 to 206. */
    method ReallocNode(p: nat, n: nat, prev: Ptr, ptr: Ptr, ghost i: nat) returns (q: nat)
      requires Valid() && Rounded(heap) && i < |heap.blocks| && p == heap.blocks[i].address && p != 0
      requires prev == NodePtr(heap, i) && ptr == NodePtr(heap, i + 1)
      requires 0 < n && ExactGrowth(heap, i, n)
      modifies this
      ensures Valid() && heap == ReallocAt(old(heap), i, n).0 && q == ReallocAt(old(heap), i, n).1
    {
      NextAddress(i);
      var node := nodes[ptr];
      var actual := Round((node.asked + n) % TWO_32);
      if actual == node.size {
        assert ResizePlan(heap, i, n) == Same;
        return p;
      }
      if nodes[node.next].address >= (node.address + actual + 2 * hdr) % TWO_32 {
        assert ResizePlan(heap, i, n) == InPlace(actual);
        GrowNode(ptr, actual, n, i);
        return p;
      }
      assert ResizePlan(heap, i, n) == Move(actual);
      assert ReallocAt(heap, i, n) == MoveSpec(heap, i, actual);
      MoveFits(heap, i, n);
      q := MoveBlock(p, prev, ptr, actual, i);
    }

    lemma NextAddress(i: nat)
      requires Valid() && i < |heap.blocks|
      ensures NodePtr(heap, i + 1) in nodes && nodes[NodePtr(heap, i + 1)] == NodeAt(heap, i + 1)
      ensures NodePtr(heap, i + 2) in nodes && nodes[NodePtr(heap, i + 2)].address == heap.GapLimit(i + 1)
    {
      assert NodeIs(nodes, heap, i + 1);
      if i + 1 < |heap.blocks| { assert NodeIs(nodes, heap, i + 2); }
    }

    /** The in-place path of `realloc`, lines 192 and 193. */
    method GrowNode(ptr: Ptr, actual: nat, n: nat, ghost i: nat)
      requires Valid() && Rounded(heap) && i < |heap.blocks| && ptr == NodePtr(heap, i + 1) && ptr in nodes
      requires nodes[ptr].asked == heap.blocks[i].asked
      requires 0 < n && ExactGrowth(heap, i, n) && ResizePlan(heap, i, n) == InPlace(actual)
      modifies this
      ensures Valid() && heap == Grow(old(heap), i, actual, (old(heap).blocks[i].asked + n) % TWO_32)
    {
      SumsExact(heap, i, n);
      LinkedGrow(nodes, heap, i, actual, heap.blocks[i].asked + n);
      heap := Grow(heap, i, actual, heap.blocks[i].asked + n);
      nodes := nodes[ptr := nodes[ptr].(size := actual, asked := (nodes[ptr].asked + n) % TWO_32)];
    }

    /** The move path of `realloc`, lines 198 to 206: `prev` was found before this `malloc`. */
    method MoveBlock(p: nat, prev: Ptr, ptr: Ptr, actual: nat, ghost i: nat) returns (q: nat)
      requires Valid() && i < |heap.blocks| && p == heap.blocks[i].address && p != 0
      requires prev == NodePtr(heap, i) && ptr == NodePtr(heap, i + 1)
      requires MoveSize(heap, i, actual)
      modifies this
      ensures Valid() && heap == MoveSpec(old(heap), i, actual).0 && q == MoveSpec(old(heap), i, actual).1
    {
      ghost var h := heap;
      ghost var k := FirstTaken(h, actual, 0);
      q := Malloc(actual);
      if q == 0 { return; }
      CopyAndCut(q, prev, ptr, actual, h, i, k);
      FreeUndoesMalloc(h, actual);
    }

    /** Lines 203 and 204 of `realloc`, after a block was inserted in gap k of heap h. */
    method CopyAndCut(q: nat, prev: Ptr, ptr: Ptr, actual: nat, ghost h: Heap, ghost i: nat, ghost k: nat)
      requires Valid() && Inv(h) && i < |h.blocks| && h.blocks[i].address != 0 && h.blocks[i].size <= actual
      requires k <= |h.blocks| && heap == Insert(h, k, actual, actual) && q == h.GapStart(k) + hdr
      requires prev == NodePtr(h, i) && ptr == NodePtr(h, i + 1)
      modifies this
      ensures Valid() && heap == FreeSpec(if k == i then h else old(heap), h.blocks[i].address)
    {
      // memcpy(tmp, ptr->address, ptr->size) into the new block
      BeforeCut(nodes, heap, h, i, k, actual);
      nodes := Overwrite(nodes, hdr, q, q + nodes[ptr].size);
      MoveCuts(nodes, h, i, k, actual);
      nodes := Cut(nodes, prev, ptr);
      heap := FreeSpec(if k == i then h else heap, h.blocks[i].address);
    }
  }
}
