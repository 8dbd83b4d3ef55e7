/** `eeprom_rw`: a transfer cut into chunks for a device that writes page by page, its address counter wrapping
    inside the page. */
module Eeprom {
  import opened Machine
  import B = Bits

  /** Page size 2 to the `bits`; at most `limit` bytes per bus transfer. */
  datatype Chip = Chip(bits: nat, limit: nat)

  function Page(c: Chip): nat {
    B.Pow2(c.bits)
  }

  // ---------------------------------------------------------------- the device

  /** A page write: the counter goes back to the start of the page after its last byte. */
  function PageWrite<T>(cells: seq<T>, page: nat, base: nat, pos: nat, data: seq<T>): (r: seq<T>)
    requires pos < page && base + page <= |cells|
    ensures |r| == |cells|
    decreases |data|
  {
    if data == [] then cells
    else PageWrite(cells[base + pos := data[0]], page, base, if pos + 1 == page then 0 else pos + 1, data[1..])
  }

  /** Writing bytes to consecutive cells. */
  function Linear<T>(cells: seq<T>, offset: nat, data: seq<T>): (r: seq<T>)
    requires offset + |data| <= |cells|
    ensures |r| == |cells|
  {
    cells[..offset] + data + cells[offset + |data|..]
  }

  lemma {:induction false} PageWriteInPage<T>(cells: seq<T>, page: nat, base: nat, pos: nat, data: seq<T>)
    requires pos < page && base + page <= |cells| && pos + |data| <= page
    ensures PageWrite(cells, page, base, pos, data) == Linear(cells, base + pos, data)
    decreases |data|
  {
    if |data| == 1 {
      assert data[1..] == [];
      assert Linear(cells, base + pos, data) == cells[base + pos := data[0]];
    } else if |data| > 1 {
      PageWriteInPage(cells[base + pos := data[0]], page, base, pos + 1, data[1..]);
      LinearHead(cells, base + pos, data);
    }
  }

  lemma LinearHead<T>(cells: seq<T>, at: nat, data: seq<T>)
    requires data != [] && at + |data| <= |cells|
    ensures Linear(cells[at := data[0]], at + 1, data[1..]) == Linear(cells, at, data)
  {
  }

  lemma LinearJoin<T>(cells: seq<T>, at: nat, a: seq<T>, b: seq<T>)
    requires at + |a| + |b| <= |cells|
    ensures Linear(Linear(cells, at, a), at + |a|, b) == Linear(cells, at, a + b)
  {
  }

  // ---------------------------------------------------------------- chunks

  /** `eeprom_len`: the length of the next chunk. The masks keep the low 8 bits, then the low `bits` bits. */
  function Len(c: Chip, offset: nat, end: nat): (n: nat)
    requires offset < end && c.limit > 0
    ensures n <= end - offset && n <= c.limit
  {
    LowBound(B.Low(offset, 8), c.bits);
    var room := Page(c) - B.Low(B.Low(offset, 8), c.bits);
    var maxlen := if room > c.limit then c.limit else room;
    if end - offset > maxlen then maxlen else end - offset
  }

  lemma {:induction false} LowBound(a: nat, k: nat)
    ensures B.Low(a, k) < B.Pow2(k) && B.Low(a, k) <= a
    decreases k
  {
    if k > 0 { LowBound(a / 2, k - 1); }
  }

  lemma {:induction false} LowLow(a: nat, j: nat, k: nat)
    ensures B.Low(B.Low(a, j), k) == B.Low(a, if j < k then j else k)
    decreases k
  {
    if j > 0 && k > 0 {
      assert B.Low(a, j) % 2 == a % 2 && B.Low(a, j) / 2 == B.Low(a / 2, j - 1);
      LowLow(a / 2, j - 1, k - 1);
    } else if j == 0 {
      B.LowZero(k);
    }
  }

  /** Every chunk is non-empty, so the loop ends; with pages of at most 256 bytes none crosses a page. */
  lemma ChunkFits(c: Chip, offset: nat, end: nat)
    requires offset < end && c.limit > 0
    ensures 0 < Len(c, offset, end)
    ensures c.bits <= 8 || c.limit == 1 ==> B.Low(offset, c.bits) + Len(c, offset, end) <= Page(c)
  {
    LowLow(offset, 8, c.bits);
    LowBound(B.Low(offset, 8), c.bits);
    LowBound(offset, c.bits);
  }

  lemma PageEnd(offset: nat, p: nat)
    requires p > 0
    ensures (offset + (p - offset % p)) % p == 0
  {
    var q := offset / p;
    assert offset == p * q + offset % p;
    assert offset + (p - offset % p) == p * (q + 1);
    B.DivUnique(offset + (p - offset % p), p, q + 1, 0);
  }

  /** A chunk is cut short only by the end of the transfer, the limit of the bus, or the end of a page; with pages above
      256 bytes the last is taken to be as far off as from the same place in the first 256 bytes of a page. */
  lemma ChunkIsLongest(c: Chip, offset: nat, end: nat)
    requires offset < end && c.limit > 0
    ensures var n := Len(c, offset, end);
      || n == end - offset || n == c.limit
      || (if c.bits <= 8 then (offset + n) % Page(c) == 0 else n == Page(c) - offset % 256)
  {
    LowLow(offset, 8, c.bits);
    B.LowIsMod(offset, if c.bits < 8 then c.bits else 8);
    B.PowValues();
    PageEnd(offset, Page(c));
  }

  // ---------------------------------------------------------------- the transfer

  /** The lengths of the chunks of a transfer. */
  function Cuts(c: Chip, offset: nat, end: nat): seq<nat>
    requires c.limit > 0
    decreases end - offset
  {
    if offset >= end then []
    else
      ChunkFits(c, offset, end);
      [Len(c, offset, end)] + Cuts(c, offset + Len(c, offset, end), end)
  }

  /** A device in state w after the chunks of a write from `offset` on, where `put` stores one chunk;
      `fails` tells at which offsets the bus transfer fails and stores nothing. */
  function Store<W, T>(put: (W, nat, seq<T>) -> W, w: W, offset: nat, data: seq<T>, cuts: seq<nat>,
                       fails: nat -> bool): W
    decreases |cuts|
  {
    if cuts == [] || cuts[0] > |data| then w
    else
      var next := if fails(offset) then w else put(w, offset, data[..cuts[0]]);
      Store(put, next, offset + cuts[0], data[cuts[0]..], cuts[1..], fails)
  }

  function Code(failed: bool): int {
    if failed then 1 else 0
  }

  /** The result code after the chunks of a transfer that starts with code rcode. */
  function Result(rcode: int, offset: nat, cuts: seq<nat>, fails: nat -> bool): int
    decreases |cuts|
  {
    if cuts == [] then rcode else Result(Code(fails(offset)), offset + cuts[0], cuts[1..], fails)
  }

  /** The device on the bus. */
  class Device<W> {
    var state: W

    constructor (w: W)
      ensures state == w
    {
      state := w;
    }

    /** `eeprom_rw_block` writing. */
    method WriteBlock<T>(put: (W, nat, seq<T>) -> W, offset: nat, data: seq<T>, failed: bool) returns (ret: int)
      modifies this
      ensures state == (if failed then old(state) else put(old(state), offset, data)) && ret == Code(failed)
    {
      if failed {
        return 1;
      }
      state := put(state, offset, data);
      return 0;
    }
  }

  lemma CutsNext(c: Chip, offset: nat, end: nat, len: nat)
    requires c.limit > 0 && offset < end && len == Len(c, offset, end)
    ensures 0 < len <= end - offset && Cuts(c, offset, end) == [len] + Cuts(c, offset + len, end)
  {
    ChunkFits(c, offset, end);
  }

  lemma StoreNext<W, T>(put: (W, nat, seq<T>) -> W, w: W, offset: nat, data: seq<T>, len: nat, cuts: seq<nat>,
                        fails: nat -> bool, next: W)
    requires len <= |data| && next == if fails(offset) then w else put(w, offset, data[..len])
    ensures Store(put, w, offset, data, [len] + cuts, fails) == Store(put, next, offset + len, data[len..], cuts, fails)
    ensures forall rcode ::
      Result(rcode, offset, [len] + cuts, fails) == Result(Code(fails(offset)), offset + len, cuts, fails)
  {
    assert ([len] + cuts)[1..] == cuts;
  }

  /** One turn of the loop. */
  method NextChunk<W, T>(dev: Device<W>, put: (W, nat, seq<T>) -> W, c: Chip, at: nat, end: nat, buffer: seq<T>,
                         fails: nat -> bool, ghost cuts: seq<nat>, ghost goal: W)
    returns (at': nat, buffer': seq<T>, rcode: int, ghost rest: seq<nat>)
    requires c.limit > 0 && at < end == at + |buffer| && cuts == Cuts(c, at, end)
    requires Store(put, dev.state, at, buffer, cuts, fails) == goal
    modifies dev
    ensures at < at' <= end == at' + |buffer'| && rest == Cuts(c, at', end)
    ensures Store(put, dev.state, at', buffer', rest, fails) == goal
    ensures forall code :: Result(code, at, cuts, fails) == Result(rcode, at', rest, fails)
  {
    var len := Len(c, at, end);
    CutsNext(c, at, end, len);
    at', buffer' := at + len, buffer[len..];
    rest := Cuts(c, at', end);
    ghost var was := dev.state;
    rcode := dev.WriteBlock(put, at, buffer[..len], fails(at));
    StoreNext(put, was, at, buffer, len, rest, fails, dev.state);
  }

  lemma NothingLeft<W, T>(put: (W, nat, seq<T>) -> W, w: W, offset: nat, data: seq<T>, fails: nat -> bool, rcode: int)
    ensures Store(put, w, offset, data, [], fails) == w && Result(rcode, offset, [], fails) == rcode
  {
  }

  /** The loop: chunk after chunk, keeping the result code of the last one. */
  method WriteChunks<W, T>(dev: Device<W>, put: (W, nat, seq<T>) -> W, c: Chip, offset: nat, end: nat, data: seq<T>,
                           fails: nat -> bool, ghost cuts: seq<nat>, ghost goal: W)
    returns (rcode: int)
    requires c.limit > 0 && end == offset + |data| && cuts == Cuts(c, offset, end)
    requires goal == Store(put, dev.state, offset, data, cuts, fails)
    modifies dev
    ensures dev.state == goal && rcode == Result(0, offset, cuts, fails)
  {
    rcode := 0;
    var at: nat, buffer := offset, data;
    ghost var left := cuts;
    while at < end
      invariant at + |buffer| == end && left == Cuts(c, at, end)
      invariant Store(put, dev.state, at, buffer, left, fails) == goal
      invariant Result(rcode, at, left, fails) == Result(0, offset, cuts, fails)
      decreases end - at
    {
      at, buffer, rcode, left := NextChunk(dev, put, c, at, end, buffer, fails, left, goal);
    }
    NothingLeft(put, dev.state, at, buffer, fails, rcode);
  }

  lemma EndValue(offset: nat, cnt: nat)
    requires offset < TWO_32 && cnt < TWO_32
    ensures (offset + cnt) % TWO_32 == if offset + cnt < TWO_32 then offset + cnt else offset + cnt - TWO_32
  {
  }

  /** `eeprom_rw` writing: with 32-bit offsets, and with the result code of the last chunk only. */
  method EepromWrite<W, T>(dev: Device<W>, put: (W, nat, seq<T>) -> W, c: Chip, offset: nat, buffer: seq<T>,
                           fails: nat -> bool)
    returns (rcode: int)
    requires c.limit > 0 && offset < TWO_32 && |buffer| < TWO_32
    modifies dev
    ensures offset + |buffer| < TWO_32 ==>
      var cuts := Cuts(c, offset, offset + |buffer|);
      dev.state == Store(put, old(dev.state), offset, buffer, cuts, fails) && rcode == Result(0, offset, cuts, fails)
    ensures offset + |buffer| >= TWO_32 ==> dev.state == old(dev.state) && rcode == 0
  {
    EndValue(offset, |buffer|);
    var end := (offset + |buffer|) % TWO_32;
    if end < offset {
      return 0;
    }
    rcode := WriteChunks(dev, put, c, offset, end, buffer, fails,
      Cuts(c, offset, end), Store(put, dev.state, offset, buffer, Cuts(c, offset, end), fails));
  }

  // ---------------------------------------------------------------- the effect

  /** One chunk on a device of pages; a page outside the device stores nothing. */
  function PutPage<T>(c: Chip, cells: seq<T>, offset: nat, data: seq<T>): (r: seq<T>)
    ensures |r| == |cells|
  {
    LowBound(offset, c.bits);
    var pos := B.Low(offset, c.bits);
    if offset - pos + Page(c) > |cells| then cells else PageWrite(cells, Page(c), offset - pos, pos, data)
  }

  function Pages<T>(c: Chip): (seq<T>, nat, seq<T>) -> seq<T> {
    (cells: seq<T>, offset: nat, data: seq<T>) => PutPage(c, cells, offset, data)
  }

  lemma PutPageLinear<T>(c: Chip, cells: seq<T>, offset: nat, data: seq<T>)
    requires B.Low(offset, c.bits) + |data| <= Page(c)
    requires B.Low(offset, c.bits) <= offset && offset - B.Low(offset, c.bits) + Page(c) <= |cells|
    ensures PutPage(c, cells, offset, data) == Linear(cells, offset, data)
  {
    LowBound(offset, c.bits);
    var pos := B.Low(offset, c.bits);
    PageWriteInPage(cells, Page(c), offset - pos, pos, data);
  }

  /** Every chunk is non-empty and inside one page of the device, and together they make up the transfer. */
  predicate InPages(c: Chip, size: nat, offset: nat, len: nat, cuts: seq<nat>)
    decreases |cuts|
  {
    if cuts == [] then len == 0
    else
      var pos := B.Low(offset, c.bits);
      && 0 < cuts[0] <= len && cuts[0] <= c.limit
      && pos <= offset && pos + cuts[0] <= Page(c) && offset - pos + Page(c) <= size
      && InPages(c, size, offset + cuts[0], len - cuts[0], cuts[1..])
  }

  /** The device consists of whole pages. */
  ghost predicate WholePages(c: Chip, size: nat) {
    forall offset: nat {:trigger B.Low(offset, c.bits)} | offset < size ::
      B.Low(offset, c.bits) <= offset && offset - B.Low(offset, c.bits) + Page(c) <= size
  }

  /** With pages of at most 256 bytes no chunk crosses a page. */
  lemma {:induction false} CutsInPages(c: Chip, size: nat, offset: nat, end: nat)
    requires c.limit > 0 && (c.bits <= 8 || c.limit == 1) && WholePages(c, size) && offset <= end <= size
    ensures InPages(c, size, offset, end - offset, Cuts(c, offset, end))
    decreases end - offset
  {
    if offset < end {
      var len := Len(c, offset, end);
      CutsNext(c, offset, end, len);
      ChunkFits(c, offset, end);
      CutsInPages(c, size, offset + len, end);
      assert ([len] + Cuts(c, offset + len, end))[1..] == Cuts(c, offset + len, end);
    }
  }

  lemma LinearSplit<T>(cells: seq<T>, offset: nat, data: seq<T>, len: nat)
    requires offset + |data| <= |cells| && len <= |data|
    ensures Linear(Linear(cells, offset, data[..len]), offset + len, data[len..]) == Linear(cells, offset, data)
  {
    LinearJoin(cells, offset, data[..len], data[len..]);
    assert data[..len] + data[len..] == data;
  }

  ghost predicate NeverFails(fails: nat -> bool) {
    forall k :: !fails(k)
  }

  lemma {:induction false} PagesAreLinear<T>(c: Chip, cells: seq<T>, offset: nat, data: seq<T>, cuts: seq<nat>,
                                             fails: nat -> bool, goal: seq<T>)
    requires InPages(c, |cells|, offset, |data|, cuts) && offset + |data| <= |cells| && NeverFails(fails)
    requires goal == Linear(cells, offset, data)
    ensures Store(Pages<T>(c), cells, offset, data, cuts, fails) == goal
    decreases |cuts|
  {
    if cuts == [] {
      assert Linear(cells, offset, data) == cells;
    } else {
      var len := cuts[0];
      PutPageLinear(c, cells, offset, data[..len]);
      var next := Linear(cells, offset, data[..len]);
      LinearSplit(cells, offset, data, len);
      PagesAreLinear(c, next, offset + len, data[len..], cuts[1..], fails, goal);
    }
  }

  /** With pages of at most 256 bytes and a bus that does not fail, a write is one linear write, whatever its
      offset and length. */
  lemma WriteIsLinear<T>(c: Chip, cells: seq<T>, offset: nat, data: seq<T>, fails: nat -> bool)
    requires c.limit > 0 && (c.bits <= 8 || c.limit == 1) && WholePages(c, |cells|)
    requires offset + |data| <= |cells| && NeverFails(fails)
    ensures Store(Pages<T>(c), cells, offset, data, Cuts(c, offset, offset + |data|), fails)
         == Linear(cells, offset, data)
  {
    CutsInPages(c, |cells|, offset, offset + |data|);
    PagesAreLinear(c, cells, offset, data, Cuts(c, offset, offset + |data|), fails, Linear(cells, offset, data));
  }

  /** A device of m pages consists of whole pages. */
  lemma PagesAreWhole(c: Chip, m: nat)
    ensures WholePages(c, m * Page(c))
  {
    forall offset: nat | offset < m * Page(c)
      ensures B.Low(offset, c.bits) <= offset && offset - B.Low(offset, c.bits) + Page(c) <= m * Page(c)
    {
      LowBound(offset, c.bits);
      B.LowIsMod(offset, c.bits);
      LastPage(offset, Page(c), m);
    }
  }

  lemma PositiveFactor(p: nat, d: int)
    requires p * d > 0
    ensures p > 0 && d >= 1
  {
  }

  lemma QuotientBelow(p: nat, q: nat, m: nat)
    requires p * q < m * p
    ensures p * q + p <= m * p
  {
    assert m * p - p * q == p * (m - q);
    PositiveFactor(p, m - q);
    B.MulMonotone(p, m - q);
  }

  lemma LastPage(offset: nat, p: nat, m: nat)
    requires p > 0 && offset < m * p
    ensures offset - offset % p + p <= m * p
  {
    var q := offset / p;
    assert offset == p * q + offset % p;
    QuotientBelow(p, q, m);
  }

  lemma {:induction false} LowOfOnes(j: nat, k: nat)
    requires j <= k
    ensures B.Low(B.Pow2(k) - 1, j) == B.Pow2(j) - 1
    decreases j
  {
    if j > 0 {
      assert (B.Pow2(k) - 1) / 2 == B.Pow2(k - 1) - 1 && (B.Pow2(k) - 1) % 2 == 1;
      LowOfOnes(j - 1, k - 1);
    }
  }

  lemma {:induction false} PowAbove(j: nat, k: nat)
    requires j < k
    ensures B.Pow2(k) >= 2 * B.Pow2(j)
    decreases k
  {
    if j + 1 < k { PowAbove(j, k - 1); }
  }

  /** With larger pages the mask of 8 bits misses the end of the page: two bytes over it go out in one chunk. */
  lemma CrossingCut(c: Chip)
    requires c.bits > 8 && c.limit > 1
    ensures Cuts(c, Page(c) - 1, Page(c) + 1) == [2]
  {
    LowOfOnes(8, c.bits);
    LowLow(Page(c) - 1, 8, c.bits);
    PowAbove(8, c.bits);
    B.PowValues();
    CutsNext(c, Page(c) - 1, Page(c) + 1, 2);
  }

  /** The second of them lands at the start of the first page. */
  lemma CrossingWrite<T>(c: Chip, cells: seq<T>, data: seq<T>, fails: nat -> bool)
    requires c.bits > 8 && c.limit > 1 && |cells| >= 2 * Page(c) && |data| == 2 && NeverFails(fails)
    ensures var r := Store(Pages<T>(c), cells, Page(c) - 1, data, Cuts(c, Page(c) - 1, Page(c) + 1), fails);
      |r| == |cells| && r[0] == data[1] && r[Page(c)] == cells[Page(c)]
  {
    var p := Page(c);
    PowAbove(8, c.bits);
    CrossingCut(c);
    LowOfOnes(c.bits, c.bits);
    assert data[..2] == data;
    TwoBytes(cells, p, data);
  }

  lemma TwoBytes<T>(cells: seq<T>, page: nat, data: seq<T>)
    requires 1 < page <= |cells| && |data| == 2
    ensures PageWrite(cells, page, 0, page - 1, data) == cells[page - 1 := data[0]][0 := data[1]]
  {
    var one := cells[page - 1 := data[0]];
    assert data[1..] == [data[1]] && [data[1]][1..] == [];
    assert PageWrite(one, page, 0, 0, [data[1]]) == one[0 := data[1]];
  }

  /** The chunked write of `data` at `offset` is one linear write. */
  ghost predicate WritesLinearly(c: Chip, cells: seq<bool>, offset: nat, data: seq<bool>, fails: nat -> bool)
    requires c.limit > 0 && offset + |data| <= |cells|
  {
    Store(Pages<bool>(c), cells, offset, data, Cuts(c, offset, offset + |data|), fails) == Linear(cells, offset, data)
  }

  lemma TwoPages(p: nat, m: nat)
    requires m >= 2
    ensures m * p >= 2 * p
  {
  }

  /** On devices of any number of pages above one, every write is a linear write exactly when pages have at most
      256 bytes, or bytes go out one by one. */
  lemma LinearIff(c: Chip, m: nat, fails: nat -> bool)
    requires c.limit > 0 && m >= 2 && NeverFails(fails)
    ensures
      (forall cells: seq<bool>, offset: nat, data: seq<bool> | |cells| == m * Page(c) && offset + |data| <= |cells| ::
         WritesLinearly(c, cells, offset, data, fails))
      <==> c.bits <= 8 || c.limit == 1
  {
    if c.bits <= 8 || c.limit == 1 {
      PagesAreWhole(c, m);
      forall cells: seq<bool>, offset: nat, data: seq<bool> | |cells| == m * Page(c) && offset + |data| <= |cells|
        ensures WritesLinearly(c, cells, offset, data, fails)
      {
        WriteIsLinear(c, cells, offset, data, fails);
      }
    } else {
      TwoPages(Page(c), m);
      var cells, data := seq(m * Page(c), _ => false), [true, true];
      CrossingWrite(c, cells, data, fails);
      assert Linear(cells, Page(c) - 1, data)[Page(c)] == true;
      assert !WritesLinearly(c, cells, Page(c) - 1, data, fails);
    }
  }

  /** Where the last chunk starts. */
  function LastStart(offset: nat, cuts: seq<nat>): nat
    requires cuts != []
    decreases |cuts|
  {
    if |cuts| == 1 then offset else LastStart(offset + cuts[0], cuts[1..])
  }

  /** Only the last chunk decides the result code: the failure of any other chunk goes unreported. */
  lemma {:induction false} ResultIsLast(rcode: int, offset: nat, cuts: seq<nat>, fails: nat -> bool)
    requires cuts != []
    ensures Result(rcode, offset, cuts, fails) == Code(fails(LastStart(offset, cuts)))
    decreases |cuts|
  {
    if |cuts| > 1 {
      ResultIsLast(Code(fails(offset)), offset + cuts[0], cuts[1..], fails);
    }
  }
}
