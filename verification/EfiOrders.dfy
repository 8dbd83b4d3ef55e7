/** What can be said of the memory table from the firmware's map alone, whatever order the sort leaves it in:
    the sort may return any rearrangement that the comparison accepts. */
module EfiOrders {
  import opened Machine
  import opened EfiMemTable
  import ShellSort

  /** The sort may turn the map into s. */
  ghost predicate Accepted(map_: seq<Desc>, s: seq<Desc>) {
    multiset(s) == multiset(map_) && ShellSort.InOrder(CmpEntry, s, 1, |s|)
  }

  /** The table of s gives every address the kind it has in the map. */
  ghost predicate Keeps(map_: seq<Desc>, s: seq<Desc>, skip: bool) {
    forall x: nat, t: nat | x < TWO_64 :: Maps(Table(s, skip), false, x, t) <==> Maps(map_, skip, x, t)
  }

  // ---------------------------------------------------------------- an ascending rearrangement

  function Settle(d: Desc, s: seq<Desc>): seq<Desc> {
    if s == [] || d.start <= s[0].start then [d] + s else [s[0]] + Settle(d, s[1..])
  }

  function Sorted(s: seq<Desc>): seq<Desc> {
    if s == [] then [] else Settle(s[0], Sorted(s[1..]))
  }

  lemma {:induction false} SettleKeeps(d: Desc, s: seq<Desc>)
    requires Ascending(s)
    ensures multiset(Settle(d, s)) == multiset(s) + multiset{d} && Ascending(Settle(d, s))
    ensures Settle(d, s) != [] && (Settle(d, s)[0] == d || (s != [] && Settle(d, s)[0] == s[0] && s[0].start < d.start))
  {
    if s != [] && d.start > s[0].start {
      SettleKeeps(d, s[1..]);
      assert s == [s[0]] + s[1..];
      AscendingCons(s[0], Settle(d, s[1..]));
    } else {
      AscendingCons(d, s);
    }
  }

  lemma AscendingCons(d: Desc, s: seq<Desc>)
    requires Ascending(s) && (s == [] || d.start <= s[0].start)
    ensures Ascending([d] + s)
  {
    forall k | 0 <= k < |s|
      ensures ([d] + s)[k].start <= ([d] + s)[k + 1].start
    {
      if k > 0 { assert s[k - 1].start <= s[k - 1 + 1].start; }
    }
  }

  lemma {:induction false} SortedIs(s: seq<Desc>)
    ensures multiset(Sorted(s)) == multiset(s) && Ascending(Sorted(s))
  {
    if s != [] {
      SortedIs(s[1..]);
      SettleKeeps(s[0], Sorted(s[1..]));
      assert s == [s[0]] + s[1..];
    }
  }

  // ---------------------------------------------------------------- its rotation

  /** How many descriptors of an ascending list start in the lower half of the address space. */
  function Lower(a: seq<Desc>): (k: nat)
    ensures k <= |a|
  {
    if a == [] || a[0].start >= TWO_63 then 0 else 1 + Lower(a[1..])
  }

  lemma {:induction false} LowerIs(a: seq<Desc>)
    requires Ascending(a)
    ensures forall j :: 0 <= j < |a| ==> (a[j].start < TWO_63 <==> j < Lower(a))
  {
    if a != [] {
      if a[0].start < TWO_63 {
        LowerIs(a[1..]);
        assert forall j :: 0 < j < |a| ==> a[j] == a[1..][j - 1];
      } else {
        forall j | 0 <= j < |a| ensures a[j].start >= TWO_63 { Ascends(a, 0, j); }
      }
    }
  }

  /** The upper half first. */
  function Rotated(a: seq<Desc>): seq<Desc> {
    a[Lower(a)..] + a[..Lower(a)]
  }

  /** Within one half the comparison is the order of the addresses. */
  lemma SameHalf(d: Desc, e: Desc)
    requires d.start <= e.start < TWO_64 && (e.start < TWO_63 || d.start >= TWO_63)
    ensures CmpEntry(d, e) <= 0
  {
    SignedValue(d.start - e.start);
  }

  /** From the highest to the lowest it is accepted when they are half the address space apart. */
  lemma AcrossTop(d: Desc, e: Desc)
    requires TWO_63 <= d.start - e.start && d.start < TWO_64
    ensures CmpEntry(d, e) <= 0
  {
    SignedValue(d.start - e.start);
  }

  /** Neighbours of the rotated list pass the comparison. */
  lemma RotatedPair(a: seq<Desc>, k: nat, r: seq<Desc>, i: nat)
    requires Ascending(a) && 0 < k < |a| && r == a[k..] + a[..k] && i + 1 < |a|
    requires forall j :: 0 <= j < |a| ==> a[j].start < TWO_64 && (a[j].start < TWO_63 <==> j < k)
    requires a[|a| - 1].start - a[0].start >= TWO_63
    ensures CmpEntry(r[i], r[i + 1]) <= 0
  {
    var n := |a|;
    if i < n - k - 1 {
      assert r[i] == a[k + i] && r[i + 1] == a[k + i + 1];
      SameHalf(a[k + i], a[k + i + 1]);
    } else if i == n - k - 1 {
      assert r[i] == a[n - 1] && r[i + 1] == a[0];
      AcrossTop(a[n - 1], a[0]);
    } else {
      var j := i - (n - k);
      assert r[i] == a[j] && r[i + 1] == a[j + 1];
      SameHalf(a[j], a[j + 1]);
    }
  }

  /** An ascending list that spans half the address space may also be left rotated. */
  lemma RotatedAccepted(map_: seq<Desc>, a: seq<Desc>)
    requires AllFit(map_) && multiset(a) == multiset(map_) && Ascending(a)
    requires a != [] && a[|a| - 1].start - a[0].start >= TWO_63
    ensures 0 < Lower(a) < |a| && Accepted(map_, Rotated(a))
  {
    var n, k, r := |a|, Lower(a), Rotated(a);
    LowerIs(a);
    FitsAll(map_, a);
    assert a[0].start < TWO_63 && a[n - 1].start >= TWO_63;
    RotatedItems(a, k);
    RotatedInOrder(a, k, r);
  }

  lemma RotatedItems<T>(a: seq<T>, k: nat)
    requires k <= |a|
    ensures multiset(a[k..] + a[..k]) == multiset(a)
  {
    assert a == a[..k] + a[k..];
  }

  lemma RotatedInOrder(a: seq<Desc>, k: nat, r: seq<Desc>)
    requires Ascending(a) && 0 < k < |a| && r == a[k..] + a[..k]
    requires forall j :: 0 <= j < |a| ==> a[j].start < TWO_64 && (a[j].start < TWO_63 <==> j < k)
    requires a[|a| - 1].start - a[0].start >= TWO_63
    ensures ShellSort.InOrder(CmpEntry, r, 1, |r|)
  {
    forall i | 0 <= i && i + 1 < |r|
      ensures CmpEntry(r[i], r[i + 1]) <= 0
    {
      RotatedPair(a, k, r, i);
    }
  }

  lemma FitsAll(map_: seq<Desc>, s: seq<Desc>)
    requires AllFit(map_) && multiset(s) == multiset(map_)
    ensures AllFit(s) && forall j :: 0 <= j < |s| ==> Fits(s[j])
  {
    forall d | d in s ensures Fits(d) { assert d in multiset(map_); }
  }

  // ---------------------------------------------------------------- sorted tables

  lemma CloseIsAscending(map_: seq<Desc>, s: seq<Desc>)
    requires AllFit(map_) && Close(multiset(map_)) && Accepted(map_, s)
    ensures Ascending(s)
  {
    FitsAll(map_, s);
    SortedAscends(s);
  }

  lemma Span(map_: seq<Desc>, a: seq<Desc>)
    requires multiset(a) == multiset(map_) && Ascending(a) && !Close(multiset(map_))
    ensures a != [] && a[|a| - 1].start - a[0].start >= TWO_63
  {
    var d, e :| d in multiset(map_) && e in multiset(map_) && d.start - e.start >= TWO_63;
    var i := Find(a, d);
    var j := Find(a, e);
    Ascends(a, i, |a| - 1);
    Ascends(a, 0, j);
  }

  /** The sort leaves every map ascending exactly when no two starts are half the address space apart. */
  lemma AlwaysSortedIff(map_: seq<Desc>)
    requires AllFit(map_)
    ensures (forall s | Accepted(map_, s) :: Ascending(s)) <==> Close(multiset(map_))
  {
    if Close(multiset(map_)) {
      forall s | Accepted(map_, s) ensures Ascending(s) { CloseIsAscending(map_, s); }
    } else {
      var a := Sorted(map_);
      SortedIs(map_);
      Span(map_, a);
      RotatedAccepted(map_, a);
      RotatedDescends(a);
    }
  }

  lemma RotatedDescends(a: seq<Desc>)
    requires Ascending(a) && 0 < Lower(a) < |a|
    ensures !Ascending(Rotated(a))
  {
    var k, n, r := Lower(a), |a|, Rotated(a);
    LowerIs(a);
    assert r[n - k - 1] == a[n - 1] && r[n - k] == a[0];
    assert r[n - k - 1].start > r[n - k - 1 + 1].start;
  }

  // ---------------------------------------------------------------- kinds

  /** Free memory from the upper half up to the very top, and free memory at 0. */
  ghost predicate Straddles(m: multiset<Desc>, skip: bool) {
    skip && exists d, e :: d in m && e in m && IsTop(d, skip) && IsBottom(e, skip)
  }

  predicate IsTop(d: Desc, skip: bool) {
    Kind(d, skip) == CONVENTIONAL && d.start >= TWO_63 && Limit(d) == TWO_64
  }

  predicate IsBottom(d: Desc, skip: bool) {
    Kind(d, skip) == CONVENTIONAL && d.start == 0 && d.pages > 0
  }

  lemma KeepsIff(map_: seq<Desc>, s: seq<Desc>, skip: bool)
    requires multiset(s) == multiset(map_)
    ensures Keeps(map_, s, skip) <==> KindsKept(s, skip)
  {
    forall x: nat, t: nat
      ensures Maps(s, skip, x, t) <==> Maps(map_, skip, x, t)
    {
      if Maps(s, skip, x, t) { MapsPermuted(s, map_, skip, x, t); }
      if Maps(map_, skip, x, t) { MapsPermuted(map_, s, skip, x, t); }
    }
  }

  /** The free memory up to the very top that AtTop speaks of, and the descriptor behind it, which is at 0. */
  lemma {:induction false} TopOf(s: seq<Desc>, n: nat, skip: bool) returns (k: nat)
    requires n < |s| && AtTop(s, n, skip) && s[n].start == 0
    ensures k < n && Limit(s[k]) == TWO_64 && Kind(s[k], skip) == CONVENTIONAL && s[k + 1].start == 0
    decreases n
  {
    k := n - 1;
    if Limit(s[k]) != TWO_64 { k := TopOf(s, n - 1, skip); }
  }

  lemma AcceptedAtZero(d: Desc, e: Desc)
    requires d.start < TWO_64 && e.start == 0 && CmpEntry(d, e) <= 0
    ensures d.start == 0 || d.start >= TWO_63
  {
    SignedValue(d.start);
  }

  /** Whatever the order, and with empty descriptors too, no kind is lost unless the map straddles the top. */
  lemma KeptUnlessStraddling(map_: seq<Desc>, s: seq<Desc>, skip: bool)
    requires AllFit(map_) && NonOverlapping(multiset(map_)) && Accepted(map_, s) && !Straddles(multiset(map_), skip)
    ensures Keeps(map_, s, skip)
  {
    FitsAll(map_, s);
    MapKeptIff(s, skip);
    KeepsIff(map_, s, skip);
    forall i: nat
      ensures !WrapsAt(s, i, skip)
    {
      if WrapsAt(s, i, skip) { WrapStraddles(map_, s, i, skip); }
    }
  }

  lemma WrapStraddles(map_: seq<Desc>, s: seq<Desc>, i: nat, skip: bool)
    requires AllFit(s) && NonOverlapping(multiset(map_)) && Accepted(map_, s) && WrapsAt(s, i, skip)
    ensures Straddles(multiset(map_), skip)
  {
    var k := TopOf(s, i, skip);
    assert s[k] in s && s[k] in multiset(s) && s[i] in multiset(s);
    assert CmpEntry(s[k], s[k + 1]) <= 0;
    AcceptedAtZero(s[k], s[k + 1]);
    PairApart(s, k, i);
    assert IsTop(s[k], skip) && IsBottom(s[i], skip);
  }

  ghost predicate NoneEmpty(s: seq<Desc>) {
    forall d :: d in s ==> d.pages > 0
  }

  /** Free memory up to the very top is the last of an ascending list without overlap, free memory at 0 the first. */
  lemma EndsOf(map_: seq<Desc>, a: seq<Desc>, d: Desc, e: Desc, skip: bool)
    requires AllFit(a) && NoneEmpty(a) && NonOverlapping(multiset(a)) && Ascending(a)
    requires d in multiset(a) && e in multiset(a) && IsTop(d, skip) && IsBottom(e, skip)
    ensures a != [] && a[|a| - 1] == d && a[0] == e
  {
    var i := Find(a, d);
    var j := Find(a, e);
    var n := |a|;
    assert a[n - 1] in a && a[0] in a;
    Ascends(a, i, n - 1);
    Ascends(a, 0, j);
    if i < n - 1 { PairApart(a, i, n - 1); }
    if 0 < j { PairApart(a, 0, j); }
  }

  /** For maps without overlap and without empty descriptors: every order the sort may leave keeps every kind
      exactly when the map does not straddle the top. */
  lemma AlwaysKeptIff(map_: seq<Desc>, skip: bool)
    requires AllFit(map_) && NonOverlapping(multiset(map_)) && NoneEmpty(map_)
    ensures (forall s | Accepted(map_, s) :: Keeps(map_, s, skip)) <==> !Straddles(multiset(map_), skip)
  {
    if !Straddles(multiset(map_), skip) {
      forall s | Accepted(map_, s) ensures Keeps(map_, s, skip) { KeptUnlessStraddling(map_, s, skip); }
    } else {
      var s := StraddlingOrder(map_, skip);
    }
  }

  lemma StraddlingOrder(map_: seq<Desc>, skip: bool) returns (s: seq<Desc>)
    requires AllFit(map_) && NonOverlapping(multiset(map_)) && NoneEmpty(map_) && Straddles(multiset(map_), skip)
    ensures Accepted(map_, s) && !Keeps(map_, s, skip)
  {
    var d, e :| d in multiset(map_) && e in multiset(map_) && IsTop(d, skip) && IsBottom(e, skip);
    var a := Sorted(map_);
    SortedIs(map_);
    FitsAll(map_, a);
    forall b | b in a ensures b.pages > 0 { assert b in multiset(map_); }
    EndsOf(map_, a, d, e, skip);
    RotatedAccepted(map_, a);
    s := Rotated(a);
    RotatedWraps(a, d, e, skip);
    FitsAll(map_, s);
    MapKeptIff(s, skip);
    KeepsIff(map_, s, skip);
  }

  lemma RotatedWraps(a: seq<Desc>, d: Desc, e: Desc, skip: bool)
    requires skip && 0 < Lower(a) < |a| && a[|a| - 1] == d && a[0] == e && IsTop(d, skip) && IsBottom(e, skip)
    ensures WrapsAt(Rotated(a), |a| - Lower(a), skip)
  {
    var k, n, r := Lower(a), |a|, Rotated(a);
    assert r[n - k - 1] == d && r[n - k] == e;
  }
}
