/** `efi_build_mem_table`: the firmware's memory map is sorted by address, boot-services regions are read
    as free memory, and touching free regions are joined, all inside one buffer. */
module EfiMemTable {
  import opened Machine
  import Bits
  import ShellSort

  const PAGE_SIZE: nat := 4096

  const LOADER_CODE: nat := 1
  const LOADER_DATA: nat := 2
  const BOOT_SERVICES_CODE: nat := 3
  const BOOT_SERVICES_DATA: nat := 4
  const CONVENTIONAL: nat := 7
  const TABLE_END: nat := 15

  /** A descriptor; `rest` stands for the fields that are only carried along. */
  datatype Desc = Desc(kind: nat, start: nat, pages: nat, rest: seq<int>)

  predicate IsBootServices(kind: nat) {
    kind == LOADER_CODE || kind == LOADER_DATA || kind == BOOT_SERVICES_CODE || kind == BOOT_SERVICES_DATA
  }

  function Kind(d: Desc, skip: bool): nat {
    if skip && IsBootServices(d.kind) then CONVENTIONAL else d.kind
  }

  // ---------------------------------------------------------------- the comparison

  /** A 64-bit difference read as a signed number. */
  function Signed(x: int): int {
    var w := x % TWO_64;
    if w < TWO_63 then w else w - TWO_64
  }

  function CmpEntry(a: Desc, b: Desc): int {
    var diff := Signed(a.start - b.start);
    if diff < 0 then -1 else if diff > 0 then 1 else 0
  }

  /** The comparison is the order of the start addresses exactly when they lie less than half the address space
      apart. */
  lemma CmpEntryAgreesIff(a: Desc, b: Desc)
    requires a.start < TWO_64 && b.start < TWO_64
    ensures (CmpEntry(a, b) == if a.start < b.start then -1 else if a.start > b.start then 1 else 0)
            <==> -TWO_63 <= a.start - b.start < TWO_63
  {
    SignedValue(a.start - b.start);
  }

  lemma SignedValue(x: int)
    requires -TWO_64 < x < TWO_64
    ensures Signed(x) == if x < -TWO_63 then x + TWO_64 else if x < TWO_63 then x else x - TWO_64
  {
    if x < 0 { assert x % TWO_64 == x + TWO_64; } else { assert x % TWO_64 == x; }
  }

  lemma SignedFlips(x: int)
    requires Signed(x) > 0
    ensures Signed(-x) <= 0
  {
    var w := x % TWO_64;
    assert x == w + TWO_64 * (x / TWO_64);
    assert -x == TWO_64 * (-(x / TWO_64) - 1) + (TWO_64 - w);
    Bits.DivUnique(-x, TWO_64, -(x / TWO_64) - 1, TWO_64 - w);
  }

  lemma CmpEntryFlips()
    ensures ShellSort.Flips(CmpEntry)
  {
    forall a: Desc, b: Desc | CmpEntry(a, b) > 0
      ensures CmpEntry(b, a) <= 0
    {
      SignedFlips(a.start - b.start);
      assert b.start - a.start == -(a.start - b.start);
    }
  }

  // ---------------------------------------------------------------- the table

  /** The address after a region, in 64-bit arithmetic. */
  function End(d: Desc): nat {
    (d.start + d.pages * PAGE_SIZE) % TWO_64
  }

  /** The same without wrap-around. */
  function Limit(d: Desc): nat {
    d.start + d.pages * PAGE_SIZE
  }

  function Grown(prev: Desc, d: Desc): Desc {
    prev.(pages := (prev.pages + d.pages) % TWO_64)
  }

  /** Whether d is joined to the last entry of the table, `addr` being the end of the descriptor before d. */
  predicate Joins(table: seq<Desc>, addr: nat, d: Desc, skip: bool) {
    skip && table != [] && d.start == addr && Kind(d, skip) == CONVENTIONAL && table[|table| - 1].kind == CONVENTIONAL
  }

  function Add(table: seq<Desc>, addr: nat, d: Desc, skip: bool): seq<Desc> {
    if Joins(table, addr, d, skip) then table[..|table| - 1] + [Grown(table[|table| - 1], d)]
    else table + [d.(kind := Kind(d, skip))]
  }

  function Addr(s: seq<Desc>): nat {
    if s == [] then 0 else End(s[|s| - 1])
  }

  /** The table built from an ordered list. */
  function Table(s: seq<Desc>, skip: bool): seq<Desc> {
    if s == [] then [] else Add(Table(s[..|s| - 1], skip), Addr(s[..|s| - 1]), s[|s| - 1], skip)
  }

  lemma {:induction false} TableSize(s: seq<Desc>, skip: bool)
    ensures |Table(s, skip)| <= |s| && (s != [] ==> Table(s, skip) != [])
  {
    if s != [] { TableSize(s[..|s| - 1], skip); }
  }

  /** One turn of the loop: the descriptor is copied to the write position and retyped, then kept or joined. */
  method Place(base: array<Desc>, dest: nat, prev: int, desc: nat, addr: nat, skip: bool)
    returns (dest': nat, prev': int)
    requires dest <= desc < base.Length && prev == dest - 1
    modifies base
    ensures dest <= dest' <= dest + 1 && prev' == dest' - 1
    ensures base[..dest'] == Add(old(base[..dest]), addr, old(base[desc]), skip)
    ensures base[desc + 1..] == old(base[desc + 1..])
  {
    var kind := Kind(base[desc], skip);
    var d := base[desc];
    base[dest] := d.(kind := kind);
    if skip && prev >= 0 && d.start == addr && kind == CONVENTIONAL && base[prev].kind == CONVENTIONAL {
      base[prev] := Grown(base[prev], d);
      dest', prev' := dest, prev;
      assert base[..dest'] == old(base[..dest])[..dest - 1] + [base[prev]];
    } else {
      dest', prev' := dest + 1, dest;
      assert base[..dest'] == old(base[..dest]) + [base[dest]];
    }
  }

  lemma NextEntry(s: seq<Desc>, n: nat, skip: bool)
    requires n < |s|
    ensures Table(s[..n + 1], skip) == Add(Table(s[..n], skip), Addr(s[..n]), s[n], skip)
    ensures Addr(s[..n + 1]) == End(s[n])
  {
    assert s[..n + 1][..n] == s[..n];
  }

  /** What the loop keeps: the table of the descriptors read so far, and the others still as they were. */
  ghost predicate Compacting(now: seq<Desc>, s: seq<Desc>, desc: nat, dest: nat, prev: int, addr: nat, skip: bool) {
    && |now| == |s| && dest <= desc < |s| && prev == dest - 1 && addr == Addr(s[..desc])
    && now[..dest] == Table(s[..desc], skip) && now[desc..] == s[desc..]
  }

  /** One turn of the loop. */
  method Turn(base: array<Desc>, desc: nat, dest: nat, prev: int, addr: nat, skip: bool, ghost s: seq<Desc>)
    returns (dest': nat, prev': int, addr': nat)
    requires Compacting(base[..], s, desc, dest, prev, addr, skip) && desc + 1 < |s|
    modifies base
    ensures Compacting(base[..], s, desc + 1, dest', prev', addr', skip)
  {
    NextEntry(s, desc, skip);
    var d := base[desc];
    assert base[..][..dest] == base[..dest] && base[..][desc..] == base[desc..];
    assert d == s[desc] by { assert base[desc..][0] == s[desc..][0]; }
    dest', prev' := Place(base, dest, prev, desc, addr, skip);
    addr' := (d.start + d.pages * PAGE_SIZE) % TWO_64;
    assert s[desc + 1..] == s[desc..][1..];
    assert base[..][..dest'] == base[..dest'] && base[..][desc + 1..] == base[desc + 1..];
  }

  /** The compaction in place: the read position never falls behind the write position, so no descriptor is
      overwritten before it is read, and nothing behind the end marker is touched. */
  method Compact(base: array<Desc>, count: nat, skip: bool) returns (size: nat)
    requires count < base.Length
    modifies base
    ensures size <= count && base[..size] == Table(old(base[..count]), skip)
    ensures base[size].kind == TABLE_END
    ensures base[count + 1..] == old(base[count + 1..])
  {
    ghost var s := base[..];
    var desc: nat, dest: nat, prev: int, addr: nat := 0, 0, -1, 0;
    while desc < count
      invariant desc <= count && Compacting(base[..], s, desc, dest, prev, addr, skip)
    {
      dest, prev, addr := Turn(base, desc, dest, prev, addr, skip, s);
      desc := desc + 1;
    }
    size := dest;
    assert base[..][count..][1..] == base[count + 1..] && s[count..][1..] == s[count + 1..];
    assert base[..][..dest] == base[..dest];
    base[dest] := base[dest].(kind := TABLE_END);
  }

  /** The whole function: the buffer holds the table of an ordered rearrangement of the map, then the end marker. */
  method BuildMemTable(map_: seq<Desc>, skip: bool) returns (base: array<Desc>, size: nat, ghost s: seq<Desc>)
    ensures fresh(base) && size < base.Length
    ensures multiset(s) == multiset(map_) && ShellSort.InOrder(CmpEntry, s, 1, |s|)
    ensures base[..size] == Table(s, skip) && base[size].kind == TABLE_END
  {
    var blank := Desc(0, 0, 0, []);
    base := new Desc[|map_| + 1](i => if 0 <= i < |map_| then map_[i] else blank);
    assert base[..|map_|] == map_;
    CmpEntryFlips();
    ShellSort.Qsort(CmpEntry, base, |map_|);
    s := base[..|map_|];
    size := Compact(base, |map_|, skip);
  }

  // ---------------------------------------------------------------- what the table means

  predicate Covers(d: Desc, x: nat) {
    d.start <= x < Limit(d)
  }

  /** The region lies inside the 64-bit address space. */
  predicate Fits(d: Desc) {
    d.start < TWO_64 && Limit(d) <= TWO_64
  }

  ghost predicate AllFit(s: seq<Desc>) {
    forall d :: d in s ==> Fits(d)
  }

  /** Some descriptor gives address x the kind t. */
  ghost predicate Maps(s: seq<Desc>, skip: bool, x: nat, t: nat) {
    exists d :: d in s && Covers(d, x) && Kind(d, skip) == t
  }

  function Pages(s: seq<Desc>): nat {
    if s == [] then 0 else Pages(s[..|s| - 1]) + s[|s| - 1].pages
  }

  /** Descriptor i is joined to a region that already reaches the top of the address space. */
  predicate Lost(s: seq<Desc>, i: nat, skip: bool)
    requires i < |s|
  {
    var table := Table(s[..i], skip);
    Joins(table, Addr(s[..i]), s[i], skip) && s[i].pages > 0 && Limit(table[|table| - 1]) >= TWO_64
  }

  // ---------------------------------------------------------------- ends

  lemma GrownEnd(prev: Desc, d: Desc)
    requires d.start == End(prev)
    ensures End(Grown(prev, d)) == End(d)
  {
    var p := prev.pages + d.pages;
    assert p == p % TWO_64 + TWO_64 * (p / TWO_64);
    assert prev.start + p * PAGE_SIZE == prev.start + (p % TWO_64) * PAGE_SIZE + TWO_64 * ((p / TWO_64) * PAGE_SIZE);
    ModShift(prev.start + (p % TWO_64) * PAGE_SIZE, TWO_64, (p / TWO_64) * PAGE_SIZE);
    ModAdd(prev.start + prev.pages * PAGE_SIZE, d.pages * PAGE_SIZE, TWO_64);
  }

  /** The last entry ends where the last descriptor does. */
  lemma {:induction false} LastEnd(s: seq<Desc>, skip: bool)
    ensures Table(s, skip) == [] <==> s == []
    ensures s != [] ==> End(Table(s, skip)[|Table(s, skip)| - 1]) == End(s[|s| - 1])
  {
    if s != [] {
      var n := |s| - 1;
      LastEnd(s[..n], skip);
      var table := Table(s[..n], skip);
      if Joins(table, Addr(s[..n]), s[n], skip) {
        GrownEnd(table[|table| - 1], s[n]);
      }
    }
  }

  /** Two entries that the code would have joined. */
  predicate Joinable(a: Desc, b: Desc) {
    a.kind == CONVENTIONAL && b.kind == CONVENTIONAL && b.start == End(a)
  }

  ghost predicate NoneJoinable(table: seq<Desc>) {
    forall k :: 0 <= k < |table| - 1 ==> !Joinable(table[k], table[k + 1])
  }

  /** With boot services skipped no two neighbours of any table could still be joined. */
  lemma {:induction false} TableIsJoined(s: seq<Desc>)
    ensures NoneJoinable(Table(s, true))
  {
    if s != [] {
      var n := |s| - 1;
      TableIsJoined(s[..n]);
      LastEnd(s[..n], true);
      var table := Table(s[..n], true);
      AddIsJoined(table, Addr(s[..n]), s[n]);
    }
  }

  lemma AddIsJoined(table: seq<Desc>, addr: nat, d: Desc)
    requires NoneJoinable(table) && (table != [] ==> End(table[|table| - 1]) == addr)
    ensures NoneJoinable(Add(table, addr, d, true))
  {
    var next := Add(table, addr, d, true);
    var m := |table| - 1;
    forall k | 0 <= k < |next| - 1
      ensures !Joinable(next[k], next[k + 1])
    {
      if k < m - 1 {
        assert next[k] == table[k] && next[k + 1] == table[k + 1];
      } else if Joins(table, addr, d, true) {
        assert next[k] == table[k] && next[k + 1] == Grown(table[k + 1], d);
        assert !Joinable(table[k], table[k + 1]);
      } else if k == m - 1 {
        assert next[k] == table[k] && next[k + 1] == table[k + 1];
      } else {
        assert next[k] == table[m] && next[k + 1] == d.(kind := Kind(d, true));
      }
    }
  }

  lemma SplitLast<T>(s: seq<T>)
    requires s != []
    ensures s[..|s| - 1] + [s[|s| - 1]] == s
  {
  }

  lemma AddWithoutSkip(table: seq<Desc>, addr: nat, d: Desc)
    ensures Add(table, addr, d, false) == table + [d]
  {
    assert d.(kind := Kind(d, false)) == d;
  }

  /** Without skipping, the table is the ordered list itself. */
  lemma {:induction false} TableWithoutSkip(s: seq<Desc>)
    ensures Table(s, false) == s
  {
    if s != [] {
      var n := |s| - 1;
      TableWithoutSkip(s[..n]);
      AddWithoutSkip(s[..n], Addr(s[..n]), s[n]);
      SplitLast(s);
    }
  }

  /** Only the four kinds of loader and boot-services memory change, to conventional memory, and only when skipping. */
  lemma KindIs(d: Desc, skip: bool)
    ensures Kind(d, skip) == if skip && 1 <= d.kind <= 4 then 7 else d.kind
  {
  }

  /** Entry e has the start, the kind and the carried fields of descriptor d. */
  predicate ComesFrom(e: Desc, d: Desc, skip: bool) {
    e.start == d.start && e.rest == d.rest && e.kind == if skip && 1 <= d.kind <= 4 then 7 else d.kind
  }

  /** Every entry comes from a descriptor of the list: a joined region keeps the fields of its first descriptor. */
  lemma {:induction false} EntriesComeFrom(s: seq<Desc>, skip: bool, e: Desc) returns (i: nat)
    requires e in Table(s, skip)
    ensures i < |s| && ComesFrom(e, s[i], skip)
  {
    var n := |s| - 1;
    var before, d := Table(s[..n], skip), s[n];
    KindIs(d, skip);
    if Joins(before, Addr(s[..n]), d, skip) {
      var prev := before[|before| - 1];
      if e == Grown(prev, d) {
        i := EntriesComeFrom(s[..n], skip, prev);
      } else {
        i := EntriesComeFrom(s[..n], skip, e);
      }
    } else if e in before {
      i := EntriesComeFrom(s[..n], skip, e);
    } else {
      i := n;
    }
  }

  // ---------------------------------------------------------------- pages

  lemma PagesAppend(s: seq<Desc>, d: Desc)
    ensures Pages(s + [d]) == Pages(s) + d.pages
  {
    assert (s + [d])[..|s|] == s;
  }

  lemma PagesLast(s: seq<Desc>)
    requires s != []
    ensures Pages(s) == Pages(s[..|s| - 1]) + s[|s| - 1].pages
  {
  }

  lemma AddPages(table: seq<Desc>, addr: nat, d: Desc, skip: bool)
    requires Pages(table) + d.pages < TWO_64
    ensures Pages(Add(table, addr, d, skip)) == Pages(table) + d.pages
  {
    if Joins(table, addr, d, skip) {
      var m := |table| - 1;
      PagesLast(table);
      PagesAppend(table[..m], Grown(table[m], d));
    } else {
      PagesAppend(table, d.(kind := Kind(d, skip)));
    }
  }

  /** Pages are conserved. */
  lemma {:induction false} PagesKept(s: seq<Desc>, skip: bool)
    requires Pages(s) < TWO_64
    ensures Pages(Table(s, skip)) == Pages(s)
  {
    if s != [] {
      var n := |s| - 1;
      PagesKept(s[..n], skip);
      AddPages(Table(s[..n], skip), Addr(s[..n]), s[n], skip);
    }
  }

  // ---------------------------------------------------------------- the map from addresses to kinds

  /** Descriptors up to the last give address x the kind t, those lost not counted. */
  ghost predicate KeptMaps(s: seq<Desc>, skip: bool, x: nat, t: nat) {
    exists i :: 0 <= i < |s| && Covers(s[i], x) && Kind(s[i], skip) == t && !Lost(s, i, skip)
  }

  lemma KeptNext(s: seq<Desc>, skip: bool, x: nat, t: nat)
    requires s != []
    ensures var n := |s| - 1;
      KeptMaps(s, skip, x, t)
      <==> KeptMaps(s[..n], skip, x, t) || (Covers(s[n], x) && Kind(s[n], skip) == t && !Lost(s, n, skip))
  {
    var n := |s| - 1;
    forall i | 0 <= i < n
      ensures Lost(s[..n], i, skip) == Lost(s, i, skip)
    {
      assert s[..n][..i] == s[..i];
    }
    if KeptMaps(s, skip, x, t) {
      var i :| 0 <= i < |s| && Covers(s[i], x) && Kind(s[i], skip) == t && !Lost(s, i, skip);
      if i < n { assert s[..n][i] == s[i]; }
    }
    if KeptMaps(s[..n], skip, x, t) {
      var i :| 0 <= i < n && Covers(s[..n][i], x) && Kind(s[..n][i], skip) == t && !Lost(s[..n], i, skip);
      assert s[..n][i] == s[i];
    }
  }

  lemma MapsAppend(s: seq<Desc>, d: Desc, x: nat, t: nat)
    ensures Maps(s + [d], false, x, t) <==> Maps(s, false, x, t) || (Covers(d, x) && d.kind == t)
  {
    if Maps(s, false, x, t) {
      var e :| e in s && Covers(e, x) && Kind(e, false) == t;
      assert e in s + [d];
    }
    if Covers(d, x) && d.kind == t { assert d in s + [d]; }
  }

  lemma GrownCovers(prev: Desc, d: Desc, x: nat)
    requires d.start == End(prev) && Fits(d) && prev.pages + d.pages < TWO_64 && x < TWO_64
    ensures Covers(Grown(prev, d), x) <==> Covers(prev, x) || (Covers(d, x) && !(d.pages > 0 && Limit(prev) >= TWO_64))
  {
    assert Grown(prev, d).pages == prev.pages + d.pages;
    assert Limit(Grown(prev, d)) == Limit(prev) + d.pages * PAGE_SIZE;
    if Limit(prev) < TWO_64 {
      assert End(prev) == Limit(prev);
    }
  }

  lemma AddMaps(table: seq<Desc>, addr: nat, d: Desc, skip: bool, x: nat, t: nat)
    requires Fits(d) && Pages(table) + d.pages < TWO_64 && x < TWO_64
    requires table != [] ==> End(table[|table| - 1]) == addr
    ensures Maps(Add(table, addr, d, skip), false, x, t)
      <==> Maps(table, false, x, t)
           || (Covers(d, x) && Kind(d, skip) == t
               && !(Joins(table, addr, d, skip) && d.pages > 0 && Limit(table[|table| - 1]) >= TWO_64))
  {
    if Joins(table, addr, d, skip) {
      var m := |table| - 1;
      var prev := table[m];
      PagesLast(table);
      GrownCovers(prev, d, x);
      MapsAppend(table[..m], Grown(prev, d), x, t);
      MapsAppend(table[..m], prev, x, t);
      assert table == table[..m] + [prev];
    } else {
      MapsAppend(table, d.(kind := Kind(d, skip)), x, t);
    }
  }

  /** The table gives every address exactly the kinds of the descriptors that are not lost. */
  lemma {:induction false} TableMaps(s: seq<Desc>, skip: bool, x: nat, t: nat)
    requires AllFit(s) && Pages(s) < TWO_64 && x < TWO_64
    ensures Maps(Table(s, skip), false, x, t) <==> KeptMaps(s, skip, x, t)
  {
    if s != [] {
      var n := |s| - 1;
      PagesKept(s[..n], skip);
      LastEnd(s[..n], skip);
      assert s[n] in s;
      TableMaps(s[..n], skip, x, t);
      AddMaps(Table(s[..n], skip), Addr(s[..n]), s[n], skip, x, t);
      KeptNext(s, skip, x, t);
    }
  }

  // ---------------------------------------------------------------- lists without overlap

  predicate Apart(d: Desc, e: Desc) {
    d.pages == 0 || e.pages == 0 || Limit(d) <= e.start || Limit(e) <= d.start
  }

  /** No two descriptors share an address; one that occurs twice shares its addresses with itself. */
  ghost predicate NonOverlapping(m: multiset<Desc>) {
    forall d, e :: d in m && e in m - multiset{d} ==> Apart(d, e)
  }

  lemma PairApart(s: seq<Desc>, i: nat, j: nat)
    requires i < j < |s| && NonOverlapping(multiset(s))
    ensures Apart(s[i], s[j])
  {
    assert s == s[..i] + [s[i]] + s[i + 1..];
    assert s[j] == s[i + 1..][j - i - 1];
    assert multiset(s) - multiset{s[i]} == multiset(s[..i]) + multiset(s[i + 1..]);
  }

  /** The n descriptors before end with a free region up to the very top, and free empty descriptors at 0 behind it. */
  predicate AtTop(s: seq<Desc>, n: nat, skip: bool)
    requires n <= |s|
  {
    && n > 0 && Kind(s[n - 1], skip) == CONVENTIONAL
    && (Limit(s[n - 1]) == TWO_64 || (s[n - 1].pages == 0 && s[n - 1].start == 0 && AtTop(s, n - 1, skip)))
  }

  /** Descriptor i is free memory at 0 and comes directly behind free memory up to the very top: the code joins them. */
  predicate WrapsAt(s: seq<Desc>, i: nat, skip: bool) {
    && skip && i < |s| && s[i].start == 0 && s[i].pages > 0 && Kind(s[i], skip) == CONVENTIONAL
    && AtTop(s, i, skip)
  }

  ghost predicate NoneLost(s: seq<Desc>, skip: bool) {
    forall i :: 0 <= i < |s| ==> !Lost(s, i, skip)
  }

  lemma NoneLostPrefix(s: seq<Desc>, n: nat, skip: bool)
    requires NoneLost(s, skip) && n <= |s|
    ensures NoneLost(s[..n], skip)
  {
    forall i | 0 <= i < n
      ensures !Lost(s[..n], i, skip)
    {
      assert s[..n][..i] == s[..i];
      assert !Lost(s, i, skip);
    }
  }

  lemma GrownFits(prev: Desc, d: Desc)
    requires Fits(prev) && Fits(d) && d.start == End(prev) && (d.pages == 0 || Limit(prev) < TWO_64)
    ensures Fits(Grown(prev, d)) && Grown(prev, d).pages == prev.pages + d.pages
  {
  }

  /** While nothing is lost, the last entry lies inside the address space. */
  lemma {:induction false} LastFits(s: seq<Desc>, skip: bool)
    requires AllFit(s) && NoneLost(s, skip) && s != []
    ensures Table(s, skip) != [] && Fits(Table(s, skip)[|Table(s, skip)| - 1])
  {
    var n := |s| - 1;
    var table := Table(s[..n], skip);
    LastEnd(s[..n], skip);
    assert s[n] in s;
    if Joins(table, Addr(s[..n]), s[n], skip) {
      NoneLostPrefix(s, n, skip);
      LastFits(s[..n], skip);
      assert !Lost(s, n, skip);
      GrownFits(table[|table| - 1], s[n]);
    }
  }

  /** The table gives every address the kind it had in the list. */
  ghost predicate KindsKept(s: seq<Desc>, skip: bool) {
    forall x: nat, t: nat | x < TWO_64 :: Maps(Table(s, skip), false, x, t) <==> Maps(s, skip, x, t)
  }

  /** On a list without overlap every address keeps its kind exactly when no free region up to the very top is
      followed by one at address 0. */
  lemma MapKeptIff(s: seq<Desc>, skip: bool)
    requires AllFit(s) && NonOverlapping(multiset(s))
    ensures KindsKept(s, skip) <==> (forall i: nat :: !WrapsAt(s, i, skip))
  {
    TotalFits(s);
    if i: nat :| WrapsAt(s, i, skip) {
      WrapIsLost(s, i, skip);
      LostShows(s, i, skip);
    } else {
      forall i | 0 <= i < |s|
        ensures !Lost(s, i, skip)
      {
        if Lost(s, i, skip) { var j := LostIsWrap(s, i, skip); }
      }
      NoneLostKeeps(s, skip);
    }
  }

  lemma NoneLostKeeps(s: seq<Desc>, skip: bool)
    requires AllFit(s) && Pages(s) < TWO_64 && NoneLost(s, skip)
    ensures KindsKept(s, skip)
  {
    forall x: nat, t: nat | x < TWO_64
      ensures Maps(Table(s, skip), false, x, t) <==> Maps(s, skip, x, t)
    {
      TableMaps(s, skip, x, t);
      if Maps(s, skip, x, t) {
        var d :| d in s && Covers(d, x) && Kind(d, skip) == t;
        var i :| 0 <= i < |s| && s[i] == d;
        assert !Lost(s, i, skip);
      }
    }
  }

  /** The addresses of a lost descriptor are missing from the table. */
  lemma LostShows(s: seq<Desc>, i: nat, skip: bool)
    requires AllFit(s) && Pages(s) < TWO_64 && NonOverlapping(multiset(s)) && i < |s| && Lost(s, i, skip)
    ensures var x, t := s[i].start, Kind(s[i], skip);
      x < TWO_64 && Maps(s, skip, x, t) && !Maps(Table(s, skip), false, x, t)
  {
    var x, t := s[i].start, Kind(s[i], skip);
    assert s[i] in s && Covers(s[i], x);
    TableMaps(s, skip, x, t);
    if KeptMaps(s, skip, x, t) {
      var j :| 0 <= j < |s| && Covers(s[j], x) && Kind(s[j], skip) == t && !Lost(s, j, skip);
      if j < i { PairApart(s, j, i); } else if i < j { PairApart(s, i, j); }
    }
  }

  lemma PrefixPages(s: seq<Desc>, n: nat)
    requires n <= |s|
    ensures Pages(s[..n]) <= Pages(s)
  {
    if n < |s| {
      assert s[..|s| - 1][..n] == s[..n];
      PrefixPages(s[..|s| - 1], n);
    } else {
      assert s[..n] == s;
    }
  }

  lemma {:induction false} LastHolds(s: seq<Desc>, skip: bool)
    requires s != [] && Pages(s) < TWO_64
    ensures Table(s, skip) != []
    ensures Table(s, skip)[|Table(s, skip)| - 1].pages >= s[|s| - 1].pages
    ensures Kind(s[|s| - 1], skip) == Table(s, skip)[|Table(s, skip)| - 1].kind
  {
    var n := |s| - 1;
    PagesKept(s[..n], skip);
    var table := Table(s[..n], skip);
    if Joins(table, Addr(s[..n]), s[n], skip) {
      PagesLast(table);
    }
  }

  /** The table of a prefix ends with a free entry that reaches the top. */
  ghost predicate TopTable(table: seq<Desc>) {
    table != [] && table[|table| - 1].kind == CONVENTIONAL && Limit(table[|table| - 1]) >= TWO_64
  }

  lemma TopDirect(t: seq<Desc>, skip: bool)
    requires t != [] && Pages(t) < TWO_64 && Kind(t[|t| - 1], skip) == CONVENTIONAL
    requires Fits(t[|t| - 1]) && Limit(t[|t| - 1]) == TWO_64
    ensures TopTable(Table(t, skip)) && Addr(t) == 0
  {
    LastHolds(t, skip);
    LastEnd(t, skip);
    ReachesTop(t[|t| - 1]);
    WrappedEnd(Table(t, skip)[|Table(t, skip)| - 1]);
  }

  lemma EmptyGrown(prev: Desc, d: Desc)
    requires d.pages == 0 && prev.pages < TWO_64
    ensures Grown(prev, d) == prev
  {
  }

  lemma TopBehindEmpty(table: seq<Desc>, d: Desc, next: seq<Desc>)
    requires TopTable(table) && Pages(table) < TWO_64 && d.pages == 0 && d.start == 0 && Kind(d, true) == CONVENTIONAL
    requires next == Add(table, 0, d, true)
    ensures TopTable(next)
  {
    PagesLast(table);
    EmptyGrown(table[|table| - 1], d);
  }

  /** Behind free memory up to the very top the last entry is free, reaches the top and ends at 0. */
  lemma {:induction false} TopEntry(s: seq<Desc>, n: nat, skip: bool)
    requires skip && n <= |s| && AllFit(s) && Pages(s) < TWO_64 && AtTop(s, n, skip)
    ensures TopTable(Table(s[..n], skip)) && Addr(s[..n]) == 0
  {
    var t, d := s[..n], s[n - 1];
    assert t[n - 1] == d && d in s && t[..n - 1] == s[..n - 1];
    PrefixPages(s, n);
    if Limit(d) == TWO_64 {
      TopDirect(t, skip);
    } else {
      TopEntry(s, n - 1, skip);
      PrefixPages(s, n - 1);
      PagesKept(s[..n - 1], skip);
      TopBehindEmpty(Table(s[..n - 1], skip), d, Table(t, skip));
    }
  }

  lemma WrapIsLost(s: seq<Desc>, i: nat, skip: bool)
    requires AllFit(s) && Pages(s) < TWO_64 && WrapsAt(s, i, skip)
    ensures Lost(s, i, skip)
  {
    TopEntry(s, i, skip);
  }

  lemma ReachesTop(d: Desc)
    requires Limit(d) == TWO_64
    ensures End(d) == 0
  {
  }

  lemma WrappedEnd(d: Desc)
    requires End(d) == 0 && d.pages > 0
    ensures Limit(d) >= TWO_64
  {
  }

  lemma GrownLimit(prev: Desc, d: Desc)
    requires d.start == End(prev) && Limit(prev) < TWO_64 && prev.pages + d.pages < TWO_64
    ensures Limit(Grown(prev, d)) == Limit(d)
  {
  }

  /** A descriptor joined to a region below the top that then reaches the top ends there itself. */
  lemma JoinedToTop(table: seq<Desc>, addr: nat, d: Desc, next: seq<Desc>)
    requires Joins(table, addr, d, true) && End(table[|table| - 1]) == addr && Limit(table[|table| - 1]) < TWO_64
    requires Pages(table) + d.pages < TWO_64 && Fits(d) && next == Add(table, addr, d, true) && TopTable(next)
    ensures Limit(d) == TWO_64
  {
    PagesLast(table);
    GrownLimit(table[|table| - 1], d);
  }

  /** The table before a descriptor that is joined. */
  lemma BeforeJoin(s: seq<Desc>, k: nat)
    requires k < |s| && Pages(s) < TWO_64
    ensures Pages(Table(s[..k], true)) + s[k].pages < TWO_64
    ensures var table := Table(s[..k], true); table != [] ==> End(table[|table| - 1]) == Addr(s[..k])
  {
    PrefixPages(s, k + 1);
    PrefixPages(s, k);
    assert s[..k + 1][..k] == s[..k];
    PagesKept(s[..k], true);
    LastEnd(s[..k], true);
  }

  /** A free last entry that reaches the top comes from free memory up to the very top, unless something was
      joined past the top before. */
  lemma {:induction false} TopOrigin(s: seq<Desc>, n: nat, skip: bool) returns (j: nat)
    requires 0 < n <= |s| && AllFit(s) && Pages(s) < TWO_64 && skip
    requires TopTable(Table(s[..n], skip))
    ensures AtTop(s, n, skip) || WrapsAt(s, j, skip)
    decreases n
  {
    j := 0;
    var k := n - 1;
    var d, before := s[k], Table(s[..k], skip);
    assert d in s;
    NextEntry(s, k, skip);
    BeforeJoin(s, k);
    if Joins(before, Addr(s[..k]), d, skip) {
      if Limit(before[|before| - 1]) < TWO_64 {
        JoinedToTop(before, Addr(s[..k]), d, Table(s[..n], skip));
      } else {
        j := TopOrigin(s, k, skip);
        if AtTop(s, k, skip) {
          TopEntry(s, k, skip);
          j := k;
        }
      }
    }
  }

  lemma LostIsWrap(s: seq<Desc>, i: nat, skip: bool) returns (j: nat)
    requires AllFit(s) && Pages(s) < TWO_64 && i < |s| && Lost(s, i, skip)
    ensures WrapsAt(s, j, skip)
  {
    j := TopOrigin(s, i, skip);
    if AtTop(s, i, skip) {
      TopEntry(s, i, skip);
      j := i;
    }
  }

  // ---------------------------------------------------------------- any input

  /** No two start addresses lie half the address space apart. */
  ghost predicate Close(m: multiset<Desc>) {
    forall d, e :: d in m && e in m ==> d.start - e.start < TWO_63
  }

  ghost predicate Ascending(s: seq<Desc>) {
    forall k :: 0 <= k < |s| - 1 ==> s[k].start <= s[k + 1].start
  }

  lemma SortedAscends(s: seq<Desc>)
    requires AllFit(s) && Close(multiset(s)) && ShellSort.InOrder(CmpEntry, s, 1, |s|)
    ensures Ascending(s)
  {
    forall k | 0 <= k < |s| - 1
      ensures s[k].start <= s[k + 1].start
    {
      assert s[k] in multiset(s) && s[k + 1] in multiset(s);
      assert CmpEntry(s[k], s[k + 1]) <= 0;
      SignedValue(s[k].start - s[k + 1].start);
    }
  }

  lemma Ascends(s: seq<Desc>, i: nat, j: nat)
    requires Ascending(s) && i <= j < |s|
    ensures s[i].start <= s[j].start
    decreases j - i
  {
    if i < j { Ascends(s, i, j - 1); }
  }

  lemma SomePages(s: seq<Desc>) returns (i: nat)
    requires Pages(s) > 0
    ensures i < |s| && s[i].pages > 0
  {
    if s[|s| - 1].pages > 0 { i := |s| - 1; } else { i := SomePages(s[..|s| - 1]); }
  }

  /** A descriptor with the highest start. */
  lemma HighestStart(s: seq<Desc>) returns (i: nat)
    requires s != []
    ensures i < |s| && forall k :: 0 <= k < |s| ==> s[k].start <= s[i].start
  {
    if |s| == 1 {
      i := 0;
    } else {
      var n := |s| - 1;
      i := HighestStart(s[..n]);
      assert forall k :: 0 <= k < n ==> s[k] == s[..n][k];
      if s[n].start > s[i].start { i := n; }
    }
  }

  function Without<T>(s: seq<T>, i: nat): seq<T>
    requires i < |s|
  {
    s[..i] + s[i + 1..]
  }

  lemma WithoutItems<T>(s: seq<T>, i: nat)
    requires i < |s|
    ensures multiset(Without(s, i)) == multiset(s) - multiset{s[i]}
  {
    assert s == s[..i] + [s[i]] + s[i + 1..];
  }

  ghost predicate AllBelow(s: seq<Desc>, bound: nat) {
    forall d :: d in s && d.pages > 0 ==> Limit(d) <= bound
  }

  lemma OthersBelow(s: seq<Desc>, i: nat)
    requires i < |s| && NonOverlapping(multiset(s)) && s[i].pages > 0
    requires forall k :: 0 <= k < |s| ==> s[k].start <= s[i].start
    ensures AllBelow(Without(s, i), s[i].start)
  {
    WithoutItems(s, i);
    forall d | d in Without(s, i) && d.pages > 0
      ensures Limit(d) <= s[i].start
    {
      assert d in multiset(Without(s, i));
      assert s[i] in multiset(s) && Apart(s[i], d);
      assert d in s;
    }
  }

  lemma StaysApart(s: seq<Desc>, i: nat)
    requires i < |s| && NonOverlapping(multiset(s))
    ensures NonOverlapping(multiset(Without(s, i)))
  {
    WithoutItems(s, i);
  }

  /** Descriptors without overlap have no more pages than fit below them all. */
  lemma {:induction false} PagesBelow(s: seq<Desc>, bound: nat)
    requires NonOverlapping(multiset(s)) && AllBelow(s, bound)
    ensures Pages(s) * PAGE_SIZE <= bound
    decreases |s|
  {
    if s != [] {
      var i := HighestStart(s);
      StaysApart(s, i);
      PagesWithout(s, i);
      if s[i].pages > 0 {
        assert s[i] in s;
        OthersBelow(s, i);
        PagesBelow(Without(s, i), s[i].start);
      } else {
        assert forall d :: d in Without(s, i) ==> d in s;
        PagesBelow(Without(s, i), bound);
      }
    }
  }

  lemma TotalFits(s: seq<Desc>)
    requires AllFit(s) && NonOverlapping(multiset(s))
    ensures Pages(s) < TWO_64
  {
    PagesBelow(s, TWO_64);
  }

  /** On an ascending list without overlap nothing is lost. */
  lemma {:induction false} AscendingNoneLost(s: seq<Desc>, n: nat, skip: bool)
    requires n <= |s| && AllFit(s) && Ascending(s) && NonOverlapping(multiset(s))
    ensures NoneLost(s[..n], skip)
  {
    if n > 0 {
      AscendingNoneLost(s, n - 1, skip);
      forall i | 0 <= i < n
        ensures !Lost(s[..n], i, skip)
      {
        assert s[..n][..i] == s[..n - 1][..i];
        if i < n - 1 { assert !Lost(s[..n - 1], i, skip); } else { assert s[..n][..i] == s[..i]; NotLost(s, i, skip); }
      }
    }
  }

  lemma NotLost(s: seq<Desc>, i: nat, skip: bool)
    requires i < |s| && AllFit(s) && Ascending(s) && NonOverlapping(multiset(s)) && NoneLost(s[..i], skip)
    ensures !Lost(s, i, skip)
  {
    if Lost(s, i, skip) {
      LostNeedsPages(s, i, skip);
      var j := SomePages(s[..i]);
      Ascends(s, j, i);
      PairApart(s, j, i);
    }
  }

  lemma LostNeedsPages(s: seq<Desc>, i: nat, skip: bool)
    requires i < |s| && AllFit(s) && Ascending(s) && NonOverlapping(multiset(s)) && NoneLost(s[..i], skip)
    requires Lost(s, i, skip)
    ensures s[i].start == 0 && Pages(s[..i]) > 0
  {
    var table := Table(s[..i], skip);
    LastFits(s[..i], skip);
    LastEnd(s[..i], skip);
    TopEnd(table[|table| - 1]);
    TotalFits(s);
    PrefixPages(s, i);
    PagesKept(s[..i], skip);
    PagesLast(table);
  }

  lemma TopEnd(d: Desc)
    requires Fits(d) && Limit(d) >= TWO_64
    ensures End(d) == 0 && d.pages > 0
  {
  }

  lemma RemoveBoth<T>(s: seq<T>, t: seq<T>, i: nat)
    requires multiset(s) == multiset(t) && s != [] && i < |t| && t[i] == s[|s| - 1]
    ensures multiset(s[..|s| - 1]) == multiset(Without(t, i))
  {
    var n := |s| - 1;
    assert s == s[..n] + [s[n]] && t == t[..i] + [t[i]] + t[i + 1..];
    assert multiset(s[..n]) == multiset(s) - multiset{s[n]};
  }

  lemma Find<T>(t: seq<T>, x: T) returns (i: nat)
    requires x in multiset(t)
    ensures i < |t| && t[i] == x
  {
    i :| i < |t| && t[i] == x;
  }

  lemma {:induction false} PagesPermuted(s: seq<Desc>, t: seq<Desc>)
    requires multiset(s) == multiset(t)
    ensures Pages(s) == Pages(t)
  {
    if s == [] {
      assert |multiset(t)| == 0;
    } else {
      var n := |s| - 1;
      assert s[n] in multiset(s);
      var i := Find(t, s[n]);
      RemoveBoth(s, t, i);
      PagesPermuted(s[..n], Without(t, i));
      PagesWithout(t, i);
    }
  }

  lemma PagesConcat(s: seq<Desc>, t: seq<Desc>)
    ensures Pages(s + t) == Pages(s) + Pages(t)
  {
    if t == [] {
      assert s + t == s;
    } else {
      assert (s + t)[..|s + t| - 1] == s + t[..|t| - 1];
      PagesConcat(s, t[..|t| - 1]);
    }
  }

  lemma SplitAt<T>(t: seq<T>, i: nat)
    requires i < |t|
    ensures t == (t[..i] + [t[i]]) + t[i + 1..]
  {
  }

  lemma PagesWithout(t: seq<Desc>, i: nat)
    requires i < |t|
    ensures Pages(t) == Pages(Without(t, i)) + t[i].pages
  {
    SplitAt(t, i);
    var a, b := t[..i], t[i + 1..];
    PagesAppend(a, t[i]);
    PagesConcat(a + [t[i]], b);
    PagesConcat(a, b);
  }

  lemma MapsPermuted(s: seq<Desc>, t: seq<Desc>, skip: bool, x: nat, kind: nat)
    requires multiset(s) == multiset(t) && Maps(s, skip, x, kind)
    ensures Maps(t, skip, x, kind)
  {
    var d :| d in s && Covers(d, x) && Kind(d, skip) == kind;
    assert d in multiset(t);
  }

  /** For every map without overlap whose start addresses are close, whatever its order: the table is
      sorted, gives every address the kind it had, and has as many pages. */
  lemma TableOfMap(map_: seq<Desc>, s: seq<Desc>, skip: bool)
    requires multiset(s) == multiset(map_) && ShellSort.InOrder(CmpEntry, s, 1, |s|)
    requires AllFit(map_) && Close(multiset(map_)) && NonOverlapping(multiset(map_))
    ensures Ascending(Table(s, skip)) && Pages(Table(s, skip)) == Pages(map_)
    ensures forall x: nat, t: nat | x < TWO_64 :: Maps(Table(s, skip), false, x, t) <==> Maps(map_, skip, x, t)
  {
    forall d | d in s
      ensures Fits(d)
    {
      assert d in multiset(map_);
    }
    SortedAscends(s);
    TotalFits(s);
    AscendingNoneLost(s, |s|, skip);
    assert s[..|s|] == s;
    TableAscends(s, skip);
    PagesKept(s, skip);
    PagesPermuted(s, map_);
    NoneLostKeeps(s, skip);
    forall x: nat, t: nat | x < TWO_64
      ensures Maps(s, skip, x, t) <==> Maps(map_, skip, x, t)
    {
      if Maps(s, skip, x, t) { MapsPermuted(s, map_, skip, x, t); }
      if Maps(map_, skip, x, t) { MapsPermuted(map_, s, skip, x, t); }
    }
  }

  lemma {:induction false} TableAscends(s: seq<Desc>, skip: bool)
    requires Ascending(s)
    ensures Ascending(Table(s, skip))
    ensures Table(s, skip) == [] <==> s == []
    ensures s != [] ==> Table(s, skip)[|Table(s, skip)| - 1].start <= s[|s| - 1].start
  {
    if s != [] {
      TableAscends(s[..|s| - 1], skip);
    }
  }

  lemma TwoEntries(a: Desc, b: Desc)
    requires a.kind == CONVENTIONAL && b.kind == CONVENTIONAL && b.start == End(a)
    ensures Table([a, b], true) == [Grown(a, b)]
  {
    assert [a, b][..1] == [a] && [a][..0] == [];
    assert a.(kind := Kind(a, true)) == a;
    assert Table([a], true) == [a];
  }

  lemma OneMissing(d: Desc)
    requires d.start > 0
    ensures !Maps([d], false, 0, CONVENTIONAL)
  {
  }

  lemma HighFirst(x: int)
    requires TWO_63 < x < TWO_64
    ensures Signed(x) < 0 < Signed(-x)
  {
    SignedValue(x);
    SignedValue(-x);
  }

  /** More than half the address space apart, only the wrong order passes the comparison, and the two are joined
      into one region that runs past the top: address 0 is missing from the table. */
  lemma WrapExample(low: Desc, high: Desc)
    requires low.kind == CONVENTIONAL && low.start == 0 && low.pages == 1
    requires high.kind == CONVENTIONAL && high.start == TWO_63 + PAGE_SIZE && Limit(high) == TWO_64
    ensures CmpEntry(high, low) < 0 < CmpEntry(low, high)
    ensures |Table([high, low], true)| == 1
    ensures Maps([low, high], true, 0, CONVENTIONAL) && !Maps(Table([high, low], true), false, 0, CONVENTIONAL)
  {
    HighFirst(high.start);
    ReachesTop(high);
    TwoEntries(high, low);
    OneMissing(Grown(high, low));
    assert low in [low, high] && Covers(low, 0);
  }
}
