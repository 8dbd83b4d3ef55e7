/** `load_elf_image`: the loadable segments of an image in memory are copied to their remapped addresses. */
module ElfLoader {
  import opened Machine
  import MemCopy

  const PT_LOAD: nat := 1

  datatype Range = Range(vstart: nat, vend: nat, pstart: nat)

  datatype Phdr = Phdr(kind: nat, offset: nat, paddr: nat, filesz: nat, memsz: nat)

  // ---------------------------------------------------------------- addresses

  predicate In(r: Range, v: nat) {
    r.vstart <= v <= r.vend
  }

  function VaToPa(v: nat, ranges: seq<Range>): nat {
    if ranges == [] then v
    else if In(ranges[0], v) then (v - ranges[0].vstart + ranges[0].pstart) % TWO_32
    else VaToPa(v, ranges[1..])
  }

  /** Range i is the first that holds address v. */
  ghost predicate FirstHolding(ranges: seq<Range>, v: nat, i: nat) {
    && i < |ranges| && ranges[i].vstart <= v <= ranges[i].vend
    && forall k :: 0 <= k < i ==> v < ranges[k].vstart || ranges[k].vend < v
  }

  /** Address v maps to p: the first range that holds it moves it, and in no range it stays. */
  ghost predicate MapsTo(ranges: seq<Range>, v: nat, p: nat) {
    && (forall i: nat :: FirstHolding(ranges, v, i) ==> p == (v - ranges[i].vstart + ranges[i].pstart) % TWO_32)
    && ((forall k :: 0 <= k < |ranges| ==> v < ranges[k].vstart || ranges[k].vend < v) ==> p == v)
  }

  /** The first range that holds v, or the end of the list if none does. */
  lemma {:induction false} FindRange(v: nat, ranges: seq<Range>) returns (i: nat)
    ensures i <= |ranges| && forall k :: 0 <= k < i ==> v < ranges[k].vstart || ranges[k].vend < v
    ensures i < |ranges| ==> FirstHolding(ranges, v, i)
    ensures VaToPa(v, ranges) == if i == |ranges| then v else (v - ranges[i].vstart + ranges[i].pstart) % TWO_32
  {
    if ranges == [] || In(ranges[0], v) {
      i := 0;
    } else {
      var rest := ranges[1..];
      i := FindRange(v, rest);
      assert forall k :: 0 <= k < |rest| ==> rest[k] == ranges[k + 1];
      i := i + 1;
    }
  }

  /** The mapping moves an address by the first range that holds it, and leaves it in no range. */
  lemma FirstRangeMoves(v: nat, ranges: seq<Range>)
    ensures MapsTo(ranges, v, VaToPa(v, ranges))
  {
    var i := FindRange(v, ranges);
    forall j: nat | FirstHolding(ranges, v, j)
      ensures j == i
    {
    }
  }

  /** An address maps to one address only. */
  lemma MapsToOne(ranges: seq<Range>, v: nat, p: nat)
    requires MapsTo(ranges, v, p)
    ensures p == VaToPa(v, ranges)
  {
    var i := FindRange(v, ranges);
  }

  /** `set_img_va_to_pa`. */
  method SetImgVaToPa(v: nat, ranges: seq<Range>) returns (p: nat)
    ensures p == VaToPa(v, ranges)
  {
    p := v;
    var i := 0;
    while i < |ranges|
      invariant i <= |ranges| && p == v && VaToPa(v, ranges[i..]) == VaToPa(v, ranges)
    {
      assert ranges[i..][1..] == ranges[i + 1..];
      if In(ranges[i], v) {
        return (v - ranges[i].vstart + ranges[i].pstart) % TWO_32;
      }
      i := i + 1;
    }
  }

  // ---------------------------------------------------------------- segments

  /** The header is one the loader acts on; segments without file bytes are passed over. */
  predicate Loads(h: Phdr) {
    h.kind == PT_LOAD && h.memsz != 0 && h.filesz != 0
  }

  /** The segment as placed in memory: bytes from src, then zeros. */
  datatype Segment = Segment(dst: nat, src: nat, filesz: nat, memsz: nat)

  function Place(h: Phdr, image: nat, ranges: seq<Range>): Segment {
    Segment(VaToPa(h.paddr, ranges), image + h.offset, h.filesz, h.memsz)
  }

  predicate Covers(s: Segment, p: nat) {
    s.dst <= p < s.dst + s.memsz
  }

  /** What the segment puts at an address it covers, taken from memory m. */
  function SegmentByte(m: seq<Byte>, s: Segment, p: nat): Byte
    requires Covers(s, p) && s.src + s.filesz <= |m|
  {
    if p < s.dst + s.filesz then m[s.src + (p - s.dst)] else 0
  }

  /** The file bytes lie in the image, the segment in memory but outside the image. */
  predicate Placed(s: Segment, size: nat, image: nat, imageSize: nat) {
    && s.filesz <= s.memsz && s.dst + s.memsz <= size && image + imageSize <= size
    && image <= s.src && s.src + s.filesz <= image + imageSize
    && (s.dst + s.memsz <= image || image + imageSize <= s.dst)
  }

  /** `now` is `m` with the segment in place. */
  ghost predicate Holds(m: seq<Byte>, now: seq<Byte>, s: Segment)
    requires s.src + s.filesz <= |m|
  {
    |now| == |m| && forall p :: 0 <= p < |m| ==> now[p] == if Covers(s, p) then SegmentByte(m, s, p) else m[p]
  }

  method CopyFile(mem: array<Byte>, s: Segment, ghost image: nat, ghost imageSize: nat)
    requires Placed(s, mem.Length, image, imageSize)
    modifies mem
    ensures MemCopy.IsCopy(old(mem[..]), mem[..], s.dst, s.src, s.filesz)
  {
    MemCopy.MemCpyIsCopyIff(mem[..], s.dst, s.src, s.filesz);
    if s.src < s.dst { MemCopy.FarIsRepeat(mem[..], s.dst, s.src, s.filesz); }
    MemCopy.MemCpy(mem, s.dst, s.src, s.filesz);
  }

  method MemSet(mem: array<Byte>, at: nat, len: nat)
    requires at + len <= mem.Length
    modifies mem
    ensures forall p :: 0 <= p < mem.Length ==> mem[p] == if at <= p < at + len then 0 else old(mem[p])
  {
    var i := 0;
    while i < len
      invariant i <= len
      invariant forall p :: 0 <= p < mem.Length ==> mem[p] == if at <= p < at + i then 0 else old(mem[p])
    {
      mem[at + i] := 0;
      i := i + 1;
    }
  }

  /** One segment: `memcpy` of the file bytes, `memset` of the rest. */
  method LoadSegment(mem: array<Byte>, s: Segment, ghost image: nat, ghost imageSize: nat)
    requires Placed(s, mem.Length, image, imageSize)
    modifies mem
    ensures Holds(old(mem[..]), mem[..], s)
  {
    ghost var m := mem[..];
    CopyFile(mem, s, image, imageSize);
    ghost var copied := mem[..];
    if s.filesz != s.memsz {
      MemSet(mem, s.dst + s.filesz, s.memsz - s.filesz);
    }
    SegmentHolds(m, copied, mem[..], s);
  }

  lemma SegmentHolds(m: seq<Byte>, copied: seq<Byte>, now: seq<Byte>, s: Segment)
    requires s.filesz <= s.memsz && s.dst + s.memsz <= |m| && s.src + s.filesz <= |m| == |now|
    requires MemCopy.IsCopy(m, copied, s.dst, s.src, s.filesz)
    requires forall p :: 0 <= p < |now| ==> now[p] == if s.dst + s.filesz <= p < s.dst + s.memsz then 0 else copied[p]
    ensures Holds(m, now, s)
  {
    forall p | 0 <= p < |m|
      ensures now[p] == if Covers(s, p) then SegmentByte(m, s, p) else m[p]
    {
      assert copied[p] == MemCopy.CopyAt(m, s.dst, s.src, s.filesz, p);
    }
  }

  /** The segments of a header table that are loaded, in order. */
  function Segments(headers: seq<Phdr>, image: nat, ranges: seq<Range>): seq<Segment> {
    if headers == [] then []
    else
      var h := headers[|headers| - 1];
      Segments(headers[..|headers| - 1], image, ranges) + if Loads(h) then [Place(h, image, ranges)] else []
  }

  /** The byte at p after all segments: that of the last segment covering it, with the image as it was. */
  function After(m: seq<Byte>, segments: seq<Segment>, p: nat): Byte
    requires p < |m| && forall s :: s in segments ==> s.src + s.filesz <= |m|
    decreases |segments|
  {
    if segments == [] then m[p]
    else
      var s := segments[|segments| - 1];
      if Covers(s, p) then SegmentByte(m, s, p) else After(m, segments[..|segments| - 1], p)
  }

  ghost predicate AllPlaced(segments: seq<Segment>, size: nat, image: nat, imageSize: nat) {
    forall s :: s in segments ==> Placed(s, size, image, imageSize)
  }

  lemma {:induction false} ImageKept(m: seq<Byte>, segments: seq<Segment>, image: nat, imageSize: nat, p: nat)
    requires AllPlaced(segments, |m|, image, imageSize) && image <= p < image + imageSize && p < |m|
    ensures After(m, segments, p) == m[p]
    decreases |segments|
  {
    if segments != [] {
      assert segments[|segments| - 1] in segments;
      ImageKept(m, segments[..|segments| - 1], image, imageSize, p);
    }
  }

  /** The memory is `m` after the given segments. */
  ghost predicate LoadedUpTo(m: seq<Byte>, now: seq<Byte>, segments: seq<Segment>, image: nat, imageSize: nat)
    requires AllPlaced(segments, |m|, image, imageSize)
  {
    |now| == |m| && forall p :: 0 <= p < |m| ==> now[p] == After(m, segments, p)
  }

  /** A further segment, whose bytes are read from the memory as it is now. */
  lemma OneMore(m: seq<Byte>, now: seq<Byte>, next: seq<Byte>, segments: seq<Segment>, s: Segment,
                image: nat, imageSize: nat)
    requires AllPlaced(segments + [s], |m|, image, imageSize) && AllPlaced(segments, |m|, image, imageSize)
    requires Placed(s, |m|, image, imageSize)
    requires LoadedUpTo(m, now, segments, image, imageSize) && Holds(now, next, s)
    ensures LoadedUpTo(m, next, segments + [s], image, imageSize)
  {
    var more := segments + [s];
    assert more[..|segments|] == segments;
    forall p | 0 <= p < |m|
      ensures next[p] == After(m, more, p)
    {
      if s.dst <= p < s.dst + s.filesz {
        ImageKept(m, segments, image, imageSize, s.src + (p - s.dst));
      }
    }
  }

  /** The loop of `load_elf_image` over the headers. */
  method LoadHeaders(mem: array<Byte>, headers: seq<Phdr>, image: nat, ranges: seq<Range>, ghost imageSize: nat)
    requires AllPlaced(Segments(headers, image, ranges), mem.Length, image, imageSize)
    modifies mem
    ensures LoadedUpTo(old(mem[..]), mem[..], Segments(headers, image, ranges), image, imageSize)
  {
    ghost var m := mem[..];
    var i := 0;
    ghost var done := [];
    while i < |headers|
      invariant i <= |headers| && done == Segments(headers[..i], image, ranges)
      invariant AllPlaced(done, |m|, image, imageSize) && LoadedUpTo(m, mem[..], done, image, imageSize)
    {
      var h := headers[i];
      SegmentsNext(headers, i, image, ranges, mem.Length, imageSize);
      var dst := SetImgVaToPa(h.paddr, ranges);
      if Loads(h) {
        var s := Segment(dst, image + h.offset, h.filesz, h.memsz);
        assert s == Place(h, image, ranges);
        ghost var now := mem[..];
        LoadSegment(mem, s, image, imageSize);
        OneMore(m, now, mem[..], done, s, image, imageSize);
        done := done + [s];
      }
      i := i + 1;
    }
    assert headers[..i] == headers;
  }

  lemma {:induction false} SegmentsPrefix(headers: seq<Phdr>, i: nat, image: nat, ranges: seq<Range>)
    requires i <= |headers|
    ensures forall s :: s in Segments(headers[..i], image, ranges) ==> s in Segments(headers, image, ranges)
    decreases |headers|
  {
    if i == |headers| {
      assert headers[..i] == headers;
    } else {
      assert headers[..|headers| - 1][..i] == headers[..i];
      SegmentsPrefix(headers[..|headers| - 1], i, image, ranges);
    }
  }

  lemma SegmentsNext(headers: seq<Phdr>, i: nat, image: nat, ranges: seq<Range>, size: nat, imageSize: nat)
    requires i < |headers| && AllPlaced(Segments(headers, image, ranges), size, image, imageSize)
    ensures var now, next := Segments(headers[..i], image, ranges), Segments(headers[..i + 1], image, ranges);
      && next == (if Loads(headers[i]) then now + [Place(headers[i], image, ranges)] else now)
      && AllPlaced(next, size, image, imageSize)
      && (Loads(headers[i]) ==> Placed(Place(headers[i], image, ranges), size, image, imageSize))
  {
    assert headers[..i + 1][..i] == headers[..i];
    SegmentsPrefix(headers, i + 1, image, ranges);
    var next := Segments(headers[..i + 1], image, ranges);
    if Loads(headers[i]) { assert next[|next| - 1] in next; }
  }

  // ---------------------------------------------------------------- in terms of the header table

  /** Header i is for a loadable segment with file bytes, and address p is in its destination. */
  predicate Fills(headers: seq<Phdr>, dsts: seq<nat>, i: nat, p: nat)
    requires |dsts| == |headers|
  {
    && i < |headers| && headers[i].kind == 1 && headers[i].filesz != 0 && headers[i].memsz != 0
    && dsts[i] <= p < dsts[i] + headers[i].memsz
  }

  /** Header i is the last one to fill address p. */
  ghost predicate LastToFill(headers: seq<Phdr>, dsts: seq<nat>, i: nat, p: nat)
    requires |dsts| == |headers|
  {
    Fills(headers, dsts, i, p) && forall j: nat :: i < j ==> !Fills(headers, dsts, j, p)
  }

  /** `dsts` are the physical addresses of the headers. */
  ghost predicate Resolves(headers: seq<Phdr>, ranges: seq<Range>, dsts: seq<nat>) {
    |dsts| == |headers| && forall i :: 0 <= i < |headers| ==> MapsTo(ranges, headers[i].paddr, dsts[i])
  }

  /** The loadable segments lie in memory apart from the image, and their file bytes in the image. */
  ghost predicate TablePlaced(headers: seq<Phdr>, dsts: seq<nat>, size: nat, image: nat, imageSize: nat)
    requires |dsts| == |headers|
  {
    && image + imageSize <= size
    && forall i :: 0 <= i < |headers| && headers[i].kind == 1 && headers[i].filesz != 0 && headers[i].memsz != 0 ==>
         && headers[i].filesz <= headers[i].memsz && dsts[i] + headers[i].memsz <= size
         && headers[i].offset + headers[i].filesz <= imageSize
         && (dsts[i] + headers[i].memsz <= image || image + imageSize <= dsts[i])
  }

  /** The memory after loading: an address holds what the last header to fill it puts there, the file byte or 0 behind
      the file bytes, and an address that no header fills is unchanged. */
  ghost predicate TableLoaded(m: seq<Byte>, now: seq<Byte>, headers: seq<Phdr>, dsts: seq<nat>, image: nat)
    requires |dsts| == |headers|
  {
    && |now| == |m|
    && (forall p, i: nat :: 0 <= p < |m| && LastToFill(headers, dsts, i, p) ==>
          var k := p - dsts[i];
          if k < headers[i].filesz
          then image + headers[i].offset + k < |m| && now[p] == m[image + headers[i].offset + k]
          else now[p] == 0)
    && (forall p :: 0 <= p < |m| && (forall i: nat :: !Fills(headers, dsts, i, p)) ==> now[p] == m[p])
  }

  /** The first n headers of a table. */
  lemma {:induction false} PlacedSegments(headers: seq<Phdr>, dsts: seq<nat>, ranges: seq<Range>, size: nat, image: nat,
                                          imageSize: nat, n: nat)
    requires n <= |headers| && Resolves(headers, ranges, dsts) && TablePlaced(headers, dsts, size, image, imageSize)
    ensures AllPlaced(Segments(headers[..n], image, ranges), size, image, imageSize)
  {
    if n > 0 {
      PlacedSegments(headers, dsts, ranges, size, image, imageSize, n - 1);
      assert headers[..n][..n - 1] == headers[..n - 1];
      MapsToOne(ranges, headers[n - 1].paddr, dsts[n - 1]);
    }
  }

  lemma SegmentsStep(headers: seq<Phdr>, n: nat, image: nat, ranges: seq<Range>)
    requires 0 < n <= |headers|
    ensures var h := headers[n - 1];
      Segments(headers[..n], image, ranges)
      == Segments(headers[..n - 1], image, ranges) + if Loads(h) then [Place(h, image, ranges)] else []
  {
    assert headers[..n][..n - 1] == headers[..n - 1];
  }

  lemma AfterLast(m: seq<Byte>, segments: seq<Segment>, s: Segment, p: nat)
    requires p < |m| && forall t :: t in segments + [s] ==> t.src + t.filesz <= |m|
    ensures After(m, segments + [s], p) == if Covers(s, p) then SegmentByte(m, s, p) else After(m, segments, p)
  {
    var more := segments + [s];
    assert more[|more| - 1] == s && more[..|more| - 1] == segments;
  }

  /** What a header puts at an address it fills. */
  function FileByte(m: seq<Byte>, h: Phdr, dst: nat, image: nat, p: nat): Byte
    requires dst <= p && image + h.offset + h.filesz <= |m|
  {
    if p - dst < h.filesz then m[image + h.offset + (p - dst)] else 0
  }

  lemma FillsIsCovers(headers: seq<Phdr>, dsts: seq<nat>, ranges: seq<Range>, image: nat, k: nat, p: nat)
    requires Resolves(headers, ranges, dsts) && k < |headers|
    ensures Fills(headers, dsts, k, p) <==> Loads(headers[k]) && Covers(Place(headers[k], image, ranges), p)
    ensures Place(headers[k], image, ranges).dst == dsts[k]
  {
    MapsToOne(ranges, headers[k].paddr, dsts[k]);
  }

  /** One more header. */
  lemma AfterHeader(m: seq<Byte>, headers: seq<Phdr>, dsts: seq<nat>, ranges: seq<Range>, image: nat, imageSize: nat,
                    k: nat, p: nat, now: seq<Segment>, next: seq<Segment>)
    requires Resolves(headers, ranges, dsts) && TablePlaced(headers, dsts, |m|, image, imageSize)
    requires k < |headers| && p < |m| && now == Segments(headers[..k], image, ranges)
    requires next == Segments(headers[..k + 1], image, ranges) && AllPlaced(next, |m|, image, imageSize)
    ensures AllPlaced(now, |m|, image, imageSize)
    ensures Fills(headers, dsts, k, p) ==> After(m, next, p) == FileByte(m, headers[k], dsts[k], image, p)
    ensures !Fills(headers, dsts, k, p) ==> After(m, next, p) == After(m, now, p)
  {
    SegmentsStep(headers, k + 1, image, ranges);
    FillsIsCovers(headers, dsts, ranges, image, k, p);
    if Loads(headers[k]) {
      assert forall t :: t in now ==> t in next;
      AfterLast(m, now, Place(headers[k], image, ranges), p);
    } else {
      assert now + [] == now;
    }
  }

  /** The first n headers leave an address that none of them fills as it was. */
  lemma {:induction false} UnfilledByte(m: seq<Byte>, headers: seq<Phdr>, dsts: seq<nat>, ranges: seq<Range>,
                                        image: nat, imageSize: nat, n: nat, p: nat)
    requires Resolves(headers, ranges, dsts) && TablePlaced(headers, dsts, |m|, image, imageSize)
    requires n <= |headers| && p < |m| && forall j: nat :: j < n ==> !Fills(headers, dsts, j, p)
    requires AllPlaced(Segments(headers[..n], image, ranges), |m|, image, imageSize)
    ensures After(m, Segments(headers[..n], image, ranges), p) == m[p]
  {
    if n > 0 {
      var now, next := Segments(headers[..n - 1], image, ranges), Segments(headers[..n], image, ranges);
      AfterHeader(m, headers, dsts, ranges, image, imageSize, n - 1, p, now, next);
      UnfilledByte(m, headers, dsts, ranges, image, imageSize, n - 1, p);
    }
  }

  /** What the first n headers leave at p, when i is the last of them to fill it. */
  lemma {:induction false} HeaderByte(m: seq<Byte>, headers: seq<Phdr>, dsts: seq<nat>, ranges: seq<Range>, image: nat,
                                      imageSize: nat, n: nat, i: nat, p: nat)
    requires Resolves(headers, ranges, dsts) && TablePlaced(headers, dsts, |m|, image, imageSize)
    requires i < n <= |headers| && p < |m| && Fills(headers, dsts, i, p)
    requires forall j: nat :: i < j < n ==> !Fills(headers, dsts, j, p)
    requires AllPlaced(Segments(headers[..n], image, ranges), |m|, image, imageSize)
    ensures After(m, Segments(headers[..n], image, ranges), p) == FileByte(m, headers[i], dsts[i], image, p)
  {
    var now, next := Segments(headers[..n - 1], image, ranges), Segments(headers[..n], image, ranges);
    AfterHeader(m, headers, dsts, ranges, image, imageSize, n - 1, p, now, next);
    if i < n - 1 { HeaderByte(m, headers, dsts, ranges, image, imageSize, n - 1, i, p); }
  }

  lemma LoadedIsTable(m: seq<Byte>, now: seq<Byte>, headers: seq<Phdr>, dsts: seq<nat>, ranges: seq<Range>, image: nat,
                      imageSize: nat)
    requires Resolves(headers, ranges, dsts) && TablePlaced(headers, dsts, |m|, image, imageSize)
    requires AllPlaced(Segments(headers, image, ranges), |m|, image, imageSize)
    requires LoadedUpTo(m, now, Segments(headers, image, ranges), image, imageSize)
    ensures TableLoaded(m, now, headers, dsts, image)
  {
    var n := |headers|;
    assert headers[..n] == headers;
    forall p, i: nat | 0 <= p < |m| && LastToFill(headers, dsts, i, p)
      ensures var k := p - dsts[i];
        if k < headers[i].filesz then image + headers[i].offset + k < |m| && now[p] == m[image + headers[i].offset + k]
        else now[p] == 0
    {
      HeaderByte(m, headers, dsts, ranges, image, imageSize, n, i, p);
    }
    forall p | 0 <= p < |m| && (forall i: nat :: !Fills(headers, dsts, i, p))
      ensures now[p] == m[p]
    {
      UnfilledByte(m, headers, dsts, ranges, image, imageSize, n, p);
    }
  }

  /** `load_elf_image`: `headers` is the program header table, which lies in the image and is not written. */
  method LoadElfImage(mem: array<Byte>, headers: seq<Phdr>, image: nat, ranges: seq<Range>, ghost imageSize: nat,
                      ghost dsts: seq<nat>)
    requires Resolves(headers, ranges, dsts) && TablePlaced(headers, dsts, mem.Length, image, imageSize)
    modifies mem
    ensures TableLoaded(old(mem[..]), mem[..], headers, dsts, image)
  {
    ghost var m := mem[..];
    PlacedSegments(headers, dsts, ranges, mem.Length, image, imageSize, |headers|);
    assert headers[..|headers|] == headers;
    LoadHeaders(mem, headers, image, ranges, imageSize);
    LoadedIsTable(m, mem[..], headers, dsts, ranges, image, imageSize);
  }

  /** Destinations that do not meet. */
  ghost predicate TableApart(headers: seq<Phdr>, dsts: seq<nat>)
    requires |dsts| == |headers|
  {
    forall i: nat, j: nat, p: nat :: i < j && Fills(headers, dsts, i, p) ==> !Fills(headers, dsts, j, p)
  }

  /** With destinations that do not meet, each loadable segment is in place whole: its file bytes at its physical
      address, then zeros up to its memory size. */
  lemma EachInPlace(m: seq<Byte>, now: seq<Byte>, headers: seq<Phdr>, dsts: seq<nat>, image: nat, i: nat, k: nat)
    requires |dsts| == |headers| && TableLoaded(m, now, headers, dsts, image) && TableApart(headers, dsts)
    requires i < |headers| && headers[i].kind == 1 && headers[i].filesz != 0 && k < headers[i].memsz
    requires dsts[i] + headers[i].memsz <= |m|
    ensures if k < headers[i].filesz
      then image + headers[i].offset + k < |m| && now[dsts[i] + k] == m[image + headers[i].offset + k]
      else now[dsts[i] + k] == 0
  {
    var p := dsts[i] + k;
    assert Fills(headers, dsts, i, p);
    assert LastToFill(headers, dsts, i, p);
  }
}
