/** What the batched pin configuration amounts to: when it equals pin-by-pin configuration,
    which bits it leaves alone, and why registers may stand for addresses. */
module GpioTheorems {
  import opened Gpio

  // ---------------------------------------------------------------- bits of a run

  /** Setting pin p writes bit j of register r. */
  predicate Covers(c: Chip, p: Pin, always: bool, drive: Reg, r: Reg, j: nat) {
    match r.kind
    case Cfg => r == CfgReg(p) && (always || p.mulSel >= 0) && CfgShift(p) <= j < CfgShift(p) + c.cfgBits
    case Pull => r == PullReg(p) && p.pull >= 0 && PullShift(p) <= j < PullShift(p) + 2
    case Drive => r == drive && p.drive >= 0 && DriveShift(c, p) <= j < DriveShift(c, p) + 2
    case Data => r == DataReg(p) && WritesData(p) && j == p.num
  }

  /** The bit that pin p asks for at bit j of a register of the given kind. */
  predicate Asked(c: Chip, on: bool, p: Pin, kind: Kind, j: nat) {
    match kind
    case Cfg => j >= CfgShift(p) && Bit(if on then p.mulSel else 0, j - CfgShift(p))
    case Pull => j >= PullShift(p) && Bit(p.pull, j - PullShift(p))
    case Drive => j >= DriveShift(c, p) && Bit(p.drive, j - DriveShift(c, p))
    case Data => Bit(p.data, 0)
  }

  lemma PinBit(c: Chip, on: bool, p: Pin, always: bool, drive: Reg, r: Reg, w: Word, j: nat)
    requires j < |w|
    ensures |PinValue(c, on, p, always, drive, r, w)| == |w|
    ensures PinValue(c, on, p, always, drive, r, w)[j]
            == if Covers(c, p, always, drive, r, j) then Asked(c, on, p, r.kind, j) else w[j]
  {
  }

  predicate CoversAt(code: bool, c: Chip, pins: seq<Pin>, k: nat, r: Reg, j: nat)
    requires k < |pins|
  {
    Covers(c, pins[k], code && k == 0, DriveTarget(code, c, pins, k), r, j)
  }

  /** A bit that no pin of the run writes keeps its value. */
  lemma {:induction false} UntouchedBit(code: bool, c: Chip, on: bool, pins: seq<Pin>, n: nat, r: Reg, w: Word, j: nat)
    requires n <= |pins| && j < |w|
    requires forall k :: 0 <= k < n ==> !CoversAt(code, c, pins, k, r, j)
    ensures var v := Pinwise(code, c, on, pins, n, r, w); |v| == |w| && v[j] == w[j]
  {
    if n > 0 {
      UntouchedBit(code, c, on, pins, n - 1, r, w, j);
      assert !CoversAt(code, c, pins, n - 1, r, j);
      PinBit(c, on, pins[n - 1], code && n == 1, DriveTarget(code, c, pins, n - 1), r,
             Pinwise(code, c, on, pins, n - 1, r, w), j);
    }
  }

  /** A bit that pins of the run write ends as the last of them asks. */
  lemma {:induction false} LastPinWins(code: bool, c: Chip, on: bool, pins: seq<Pin>, n: nat, r: Reg, w: Word, j: nat,
                                       m: nat)
    requires m < n <= |pins| && j < |w|
    requires CoversAt(code, c, pins, m, r, j)
    requires forall k :: m < k < n ==> !CoversAt(code, c, pins, k, r, j)
    ensures var v := Pinwise(code, c, on, pins, n, r, w);
            |v| == |w| && v[j] == Asked(c, on, pins[m], r.kind, j)
  {
    var before := Pinwise(code, c, on, pins, n - 1, r, w);
    if n - 1 > m {
      LastPinWins(code, c, on, pins, n - 1, r, w, j, m);
      assert !CoversAt(code, c, pins, n - 1, r, j);
    } else {
      KeepsLength(code, c, on, pins, n - 1, r, w);
    }
    PinBit(c, on, pins[n - 1], code && n == 1, DriveTarget(code, c, pins, n - 1), r, before, j);
  }

  lemma {:induction false} KeepsLength(code: bool, c: Chip, on: bool, pins: seq<Pin>, n: nat, r: Reg, w: Word)
    requires n <= |pins|
    ensures |Pinwise(code, c, on, pins, n, r, w)| == |w|
  {
    if n > 0 { KeepsLength(code, c, on, pins, n - 1, r, w); }
  }

  // ---------------------------------------------------------------- where the fields of a pin sit

  /** Register r is one of the port: ports from 12 on belong to the second controller. */
  predicate OfPort(r: Reg, port: nat) {
    r.port == port && (r.Main? <==> port < 12)
  }

  /** Where bit j of register r is when the registers of its kind and port are put one behind the other. */
  function Position(r: Reg, j: nat): nat {
    32 * r.index + j
  }

  /** The first bit of a pin's field among the registers of a kind, and how many bits it has. */
  function FieldStart(c: Chip, num: nat, kind: Kind): nat {
    match kind
    case Cfg => 4 * num
    case Pull => 2 * num
    case Drive => if c.wideDrive then 4 * num else 2 * num
    case Data => num
  }

  function FieldSize(c: Chip, kind: Kind): nat {
    match kind
    case Cfg => c.cfgBits
    case Pull => 2
    case Drive => 2
    case Data => 1
  }

  /** Bit j of register r belongs to the pin. */
  predicate Belongs(c: Chip, port: nat, num: nat, r: Reg, j: nat) {
    && OfPort(r, port)
    && FieldStart(c, num, r.kind) <= Position(r, j) < FieldStart(c, num, r.kind) + FieldSize(c, r.kind)
  }

  /** The entry sets its field of the kind; the function in any case with `always`. */
  predicate SetsKind(p: Pin, always: bool, kind: Kind) {
    match kind
    case Cfg => always || p.mulSel >= 0
    case Pull => p.pull >= 0
    case Drive => p.drive >= 0
    case Data => p.mulSel == 1 && p.data >= 0
  }

  /** The number the entry puts into its field of the kind. */
  function Setting(on: bool, p: Pin, kind: Kind): int {
    match kind
    case Cfg => if on then p.mulSel else 0
    case Pull => p.pull
    case Drive => p.drive
    case Data => p.data
  }

  /** Bit d of a number, for the four bits a field can have. */
  predicate BitOf(v: int, d: nat) {
    (if d == 0 then v else if d == 1 then v / 2 else if d == 2 then v / 4 else v / 8) % 2 == 1
  }

  lemma BitIs(v: int, d: nat)
    requires d < 4
    ensures Bit(v, d) == BitOf(v, d)
  {
    assert Bit(v, 0) == (v % 2 == 1);
    assert Bit(v / 2, 0) == (v / 2 % 2 == 1);
    assert v / 2 / 2 == v / 4 && v / 4 / 2 == v / 8;
    if d == 2 { assert Bit(v, 2) == Bit(v / 2, 1) == Bit(v / 4, 0); }
    if d == 3 { assert Bit(v, 3) == Bit(v / 2, 2) == Bit(v / 4, 1) == Bit(v / 8, 0); }
  }

  /** What is covered, and with what, in absolute positions. */
  lemma CoversIff(c: Chip, on: bool, p: Pin, always: bool, r: Reg, j: nat)
    requires ValidPin(p) && c.cfgBits <= 4 && j < 32
    ensures Covers(c, p, always, DriveReg(c, p), r, j)
      <==> Belongs(c, p.port, p.num, r, j) && SetsKind(p, always, r.kind)
    ensures Belongs(c, p.port, p.num, r, j) ==>
      Asked(c, on, p, r.kind, j) == BitOf(Setting(on, p, r.kind), Position(r, j) - FieldStart(c, p.num, r.kind))
  {
    match r.kind
    case Cfg => CfgPosition(c, on, p, r, j);
    case Pull => PullPosition(c, on, p, r, j);
    case Drive => DrivePosition(c, on, p, r, j);
    case Data => BitIs(p.data, 0);
  }

  lemma CfgPosition(c: Chip, on: bool, p: Pin, r: Reg, j: nat)
    requires ValidPin(p) && c.cfgBits <= 4 && j < 32 && r.kind == Cfg
    ensures Belongs(c, p.port, p.num, r, j) <==> r == CfgReg(p) && CfgShift(p) <= j < CfgShift(p) + c.cfgBits
    ensures Belongs(c, p.port, p.num, r, j) ==>
      Asked(c, on, p, Cfg, j) == BitOf(Setting(on, p, Cfg), Position(r, j) - 4 * p.num)
  {
    if Belongs(c, p.port, p.num, r, j) { BitIs(Setting(on, p, Cfg), Position(r, j) - 4 * p.num); }
  }

  lemma PullPosition(c: Chip, on: bool, p: Pin, r: Reg, j: nat)
    requires ValidPin(p) && j < 32 && r.kind == Pull
    ensures Belongs(c, p.port, p.num, r, j) <==> r == PullReg(p) && PullShift(p) <= j < PullShift(p) + 2
    ensures Belongs(c, p.port, p.num, r, j) ==>
      Asked(c, on, p, Pull, j) == BitOf(p.pull, Position(r, j) - 2 * p.num)
  {
    if Belongs(c, p.port, p.num, r, j) { BitIs(p.pull, Position(r, j) - 2 * p.num); }
  }

  lemma DrivePosition(c: Chip, on: bool, p: Pin, r: Reg, j: nat)
    requires ValidPin(p) && j < 32 && r.kind == Drive
    ensures Belongs(c, p.port, p.num, r, j) <==> r == DriveReg(c, p) && DriveShift(c, p) <= j < DriveShift(c, p) + 2
    ensures Belongs(c, p.port, p.num, r, j) ==>
      Asked(c, on, p, Drive, j) == BitOf(p.drive, Position(r, j) - FieldStart(c, p.num, Drive))
  {
    if Belongs(c, p.port, p.num, r, j) { BitIs(p.drive, Position(r, j) - FieldStart(c, p.num, Drive)); }
  }

  /** Every bit after one entry: those of its fields are the bits of its settings, all others are as they were.
      This holds of the entry on its own and, with its function set in any case, of the code. */
  lemma OnePin(code: bool, c: Chip, on: bool, p: Pin, r: Reg, w: Word, j: nat)
    requires ValidPin(p) && c.cfgBits <= 4 && j < |w| == 32
    ensures var v := Pinwise(code, c, on, [p], 1, r, w);
      |v| == 32 && v[j] ==
        if Belongs(c, p.port, p.num, r, j) && SetsKind(p, code, r.kind)
        then BitOf(Setting(on, p, r.kind), Position(r, j) - FieldStart(c, p.num, r.kind))
        else w[j]
  {
    CoversIff(c, on, p, code, r, j);
    PinBit(c, on, p, code, DriveReg(c, p), r, w, j);
    assert Pinwise(code, c, on, [p], 0, r, w) == w;
    assert Pinwise(code, c, on, [p], 1, r, w) == PinValue(c, on, p, code, DriveReg(c, p), r, w);
  }

  /** Different pins share no bit of any register. */
  lemma PinsApart(c: Chip, port: nat, num: nat, port': nat, num': nat, r: Reg, j: nat)
    requires c.cfgBits <= 4 && (port != port' || num != num')
    ensures !(Belongs(c, port, num, r, j) && Belongs(c, port', num', r, j))
  {
  }

  /** Setting one pin leaves every field of every other pin as it was. */
  lemma OtherPinsKept(code: bool, c: Chip, on: bool, p: Pin, port: nat, num: nat, r: Reg, w: Word, j: nat)
    requires ValidPin(p) && c.cfgBits <= 4 && j < |w| == 32
    requires (port != p.port || num != p.num) && Belongs(c, port, num, r, j)
    ensures var v := Pinwise(code, c, on, [p], 1, r, w); |v| == 32 && v[j] == w[j]
  {
    PinsApart(c, port, num, p.port, p.num, r, j);
    OnePin(code, c, on, p, r, w, j);
  }

  /** Entry k of a run sets bit j of register r. */
  predicate SetsBit(c: Chip, pins: seq<Pin>, k: nat, r: Reg, j: nat)
    requires k < |pins|
  {
    Belongs(c, pins[k].port, pins[k].num, r, j) && SetsKind(pins[k], false, r.kind)
  }

  /** Every bit after a run that batching gets right: as the last entry that sets it asks, or as it was. */
  lemma BatchBit(c: Chip, on: bool, pins: seq<Pin>, r: Reg, w: Word, j: nat, m: nat)
    requires c.cfgBits <= 4 && (forall p :: p in pins ==> ValidPin(p)) && j < |w| == 32
    requires Clean(c, pins) && FirstAsks(c, pins) && m <= |pins|
    requires m < |pins| ==> SetsBit(c, pins, m, r, j)
    requires forall k :: 0 <= k < |pins| && (m == |pins| || m < k) ==> !SetsBit(c, pins, k, r, j)
    ensures var v := Pinwise(true, c, on, pins, |pins|, r, w);
      |v| == 32 && v[j] ==
        if m == |pins| then w[j]
        else BitOf(Setting(on, pins[m], r.kind), Position(r, j) - FieldStart(c, pins[m].num, r.kind))
  {
    CleanIsPinwise(c, on, pins, r, w);
    forall k | 0 <= k < |pins|
      ensures CoversAt(false, c, pins, k, r, j) == SetsBit(c, pins, k, r, j)
    {
      assert pins[k] in pins;
      CoversIff(c, on, pins[k], false, r, j);
    }
    if m == |pins| {
      UntouchedBit(false, c, on, pins, |pins|, r, w, j);
    } else {
      assert pins[m] in pins;
      CoversIff(c, on, pins[m], false, r, j);
      LastPinWins(false, c, on, pins, |pins|, r, w, j, m);
    }
  }

  // ---------------------------------------------------------------- batched against pin by pin

  /** Since the run entered the port and pull group of pin n, the drive group has changed. */
  predicate Switched(c: Chip, pins: seq<Pin>, n: nat)
    requires n < |pins|
  {
    && n > 0 && PullIndex(pins[n]) == PullIndex(pins[n - 1]) && pins[n].port == pins[n - 1].port
    && (DriveIndex(c, pins[n]) != DriveIndex(c, pins[n - 1]) || Switched(c, pins, n - 1))
  }

  /** No pin of the second controller sets a drive level after the drive group has changed inside its pull group. */
  predicate Clean(c: Chip, pins: seq<Pin>) {
    forall n :: 0 <= n < |pins| && pins[n].drive >= 0 && pins[n].port >= 12 ==> !Switched(c, pins, n)
  }

  /** The code uses a pin's own drive register except exactly in that case. */
  lemma {:induction false} DriveRegIff(c: Chip, pins: seq<Pin>, n: nat)
    requires n < |pins|
    ensures CodeDriveReg(c, pins, n) == DriveReg(c, pins[n]) <==> pins[n].port < 12 || !Switched(c, pins, n)
  {
    if n > 0 { DriveRegIff(c, pins, n - 1); }
  }

  /** A later pin of the first n with the port and number of the first one sets its function. */
  predicate Mended(pins: seq<Pin>, n: nat)
    requires n <= |pins|
  {
    exists k :: 0 < k < n && pins[k].port == pins[0].port && pins[k].num == pins[0].num && pins[k].mulSel >= 0
  }

  /** The first pin asks for a function, or a later entry for the same pin does. */
  predicate FirstAsks(c: Chip, pins: seq<Pin>) {
    pins == [] || pins[0].mulSel >= 0 || c.cfgBits == 0 || Mended(pins, |pins|)
  }

  /** Bit j of register r is in the function field of the first pin, which does not ask for a function. */
  predicate Forced(c: Chip, pins: seq<Pin>, r: Reg, j: nat)
    requires pins != []
  {
    pins[0].mulSel < 0 && r == CfgReg(pins[0]) && CfgShift(pins[0]) <= j < CfgShift(pins[0]) + c.cfgBits
  }

  /** On a clean run every bit is the pin-by-pin bit, but for a function field forced by the first pin and not
      mended yet. */
  lemma {:induction false} CleanBit(c: Chip, on: bool, pins: seq<Pin>, n: nat, r: Reg, w: Word, j: nat)
    requires Clean(c, pins) && n <= |pins| && j < |w|
    ensures var v, u := Pinwise(true, c, on, pins, n, r, w), Pinwise(false, c, on, pins, n, r, w);
      |v| == |u| == |w| && (v[j] == u[j] || (n > 0 && Forced(c, pins, r, j) && !Mended(pins, n)))
  {
    KeepsLength(true, c, on, pins, n, r, w);
    KeepsLength(false, c, on, pins, n, r, w);
    if n > 0 {
      var k := n - 1;
      CleanBit(c, on, pins, k, r, w, j);
      DriveRegIff(c, pins, k);
      KeepsLength(true, c, on, pins, k, r, w);
      KeepsLength(false, c, on, pins, k, r, w);
      PinBit(c, on, pins[k], k == 0, DriveTarget(true, c, pins, k), r, Pinwise(true, c, on, pins, k, r, w), j);
      PinBit(c, on, pins[k], false, DriveTarget(false, c, pins, k), r, Pinwise(false, c, on, pins, k, r, w), j);
      if k > 0 { MendsBit(c, pins, k, r, j); }
    }
  }

  /** Another entry for the first pin that sets its function sets all of the field. */
  lemma MendsBit(c: Chip, pins: seq<Pin>, k: nat, r: Reg, j: nat)
    requires 0 < k < |pins|
    ensures Forced(c, pins, r, j) && Mended(pins, k + 1)
      ==> Mended(pins, k) || Covers(c, pins[k], false, DriveTarget(true, c, pins, k), r, j)
  {
  }

  /** On a clean run whose first pin asks for a function the batched registers are the pin-by-pin registers. */
  lemma CleanIsPinwise(c: Chip, on: bool, pins: seq<Pin>, r: Reg, w: Word)
    requires Clean(c, pins) && FirstAsks(c, pins)
    ensures Pinwise(true, c, on, pins, |pins|, r, w) == Pinwise(false, c, on, pins, |pins|, r, w)
  {
    var n := |pins|;
    KeepsLength(true, c, on, pins, n, r, w);
    KeepsLength(false, c, on, pins, n, r, w);
    forall j | 0 <= j < |w|
      ensures Pinwise(true, c, on, pins, n, r, w)[j] == Pinwise(false, c, on, pins, n, r, w)[j]
    {
      CleanBit(c, on, pins, n, r, w, j);
    }
  }

  /** With fields of at most 4 bits only entries for the same pin share a function field. */
  lemma FieldOwner(c: Chip, p: Pin, q: Pin)
    requires c.cfgBits <= 4 && CfgReg(p) == CfgReg(q) && CfgShift(q) <= CfgShift(p) < CfgShift(q) + c.cfgBits
    ensures p.port == q.port && p.num == q.num
  {
  }

  /** A first pin that asks for no function, and is not mended, has its function field overwritten all the same. */
  lemma ForcedDiffers(c: Chip, on: bool, pins: seq<Pin>) returns (r: Reg, w: Word)
    requires c.cfgBits <= 4 && !FirstAsks(c, pins)
    ensures |w| == 32
    ensures Pinwise(true, c, on, pins, |pins|, r, w) != Pinwise(false, c, on, pins, |pins|, r, w)
  {
    var p := pins[0];
    r := CfgReg(p);
    var j := CfgShift(p);
    w := Zeros(32)[j := !Asked(c, on, p, Cfg, j)];
    forall k | 0 < k < |pins|
      ensures !CoversAt(true, c, pins, k, r, j) && !CoversAt(false, c, pins, k, r, j)
    {
      NotCovered(c, pins, k, DriveTarget(true, c, pins, k));
      NotCovered(c, pins, k, DriveTarget(false, c, pins, k));
    }
    assert CoversAt(true, c, pins, 0, r, j) && !CoversAt(false, c, pins, 0, r, j);
    LastPinWins(true, c, on, pins, |pins|, r, w, j, 0);
    UntouchedBit(false, c, on, pins, |pins|, r, w, j);
  }

  lemma NotCovered(c: Chip, pins: seq<Pin>, k: nat, drive: Reg)
    requires c.cfgBits <= 4 && 0 < k < |pins| && !Mended(pins, |pins|)
    ensures !Covers(c, pins[k], false, drive, CfgReg(pins[0]), CfgShift(pins[0]))
  {
    if Covers(c, pins[k], false, drive, CfgReg(pins[0]), CfgShift(pins[0])) {
      FieldOwner(c, pins[0], pins[k]);
    }
  }

  /** The code's drive register has the pin's port and index; it is off the pin's own controller
      only for ports of the second controller. */
  lemma {:induction false} WrongDriveReg(c: Chip, pins: seq<Pin>, n: nat)
    requires n < |pins|
    ensures var d := CodeDriveReg(c, pins, n); var p := pins[n];
            d == DriveReg(c, p) || (p.port >= 12 && d == Main(p.port, Drive, DriveIndex(c, p)))
  {
    if n > 0 { WrongDriveReg(c, pins, n - 1); }
  }

  /** The last pin of the first n that stores a drive level to d, if any. */
  function LastStore(c: Chip, pins: seq<Pin>, n: nat, d: Reg): (m: nat)
    requires n <= |pins|
    ensures m <= n
    ensures m < n ==> pins[m].drive >= 0 && CodeDriveReg(c, pins, m) == d
    ensures forall k :: m < k < n ==> !(pins[k].drive >= 0 && CodeDriveReg(c, pins, k) == d)
    ensures m == n ==> forall k :: 0 <= k < n ==> !(pins[k].drive >= 0 && CodeDriveReg(c, pins, k) == d)
  {
    if n == 0 then 0
    else if pins[n - 1].drive >= 0 && CodeDriveReg(c, pins, n - 1) == d then n - 1
    else
      var m := LastStore(c, pins, n - 1, d);
      if m == n - 1 then n else m
  }

  /** A stale run changes a register that pin-by-pin setting leaves alone. */
  lemma StaleDiffers(c: Chip, on: bool, pins: seq<Pin>, n: nat) returns (r: Reg, w: Word)
    requires (forall p :: p in pins ==> ValidPin(p)) && n < |pins| && pins[n].drive >= 0
    requires CodeDriveReg(c, pins, n) != DriveReg(c, pins[n])
    ensures |w| == 32
    ensures Pinwise(true, c, on, pins, |pins|, r, w) != Pinwise(false, c, on, pins, |pins|, r, w)
  {
    WrongDriveReg(c, pins, n);
    r := CodeDriveReg(c, pins, n);
    var m := LastStore(c, pins, |pins|, r);
    assert pins[m] in pins;
    var j := DriveShift(c, pins[m]);
    w := Zeros(32)[j := !Bit(pins[m].drive, 0)];
    assert CoversAt(true, c, pins, m, r, j);
    LastPinWins(true, c, on, pins, |pins|, r, w, j, m);
    UntouchedBit(false, c, on, pins, |pins|, r, w, j);
  }

  /** Batched configuration equals pin-by-pin configuration, for all register contents, exactly on
      clean runs whose first pin asks for a function. */
  lemma BatchIsPinwiseIff(c: Chip, on: bool, pins: seq<Pin>)
    requires c.cfgBits <= 4 && forall p :: p in pins ==> ValidPin(p)
    ensures Clean(c, pins) && FirstAsks(c, pins) <==>
              forall r: Reg, w: Word | |w| == 32 ::
                Pinwise(true, c, on, pins, |pins|, r, w) == Pinwise(false, c, on, pins, |pins|, r, w)
  {
    if !Clean(c, pins) {
      var n :| 0 <= n < |pins| && pins[n].drive >= 0 && pins[n].port >= 12 && Switched(c, pins, n);
      DriveRegIff(c, pins, n);
      var r, w := StaleDiffers(c, on, pins, n);
    } else if !FirstAsks(c, pins) {
      var r, w := ForcedDiffers(c, on, pins);
    } else {
      forall r: Reg, w: Word | |w| == 32
        ensures Pinwise(true, c, on, pins, |pins|, r, w) == Pinwise(false, c, on, pins, |pins|, r, w)
      {
        CleanIsPinwise(c, on, pins, r, w);
      }
    }
  }

  predicate FirstBit(w: Word, b: bool) {
    w != [] && w[0] == b
  }

  /** A lone entry that asks for nothing at all still sets its pin's function field; as a second entry it would not. */
  lemma ForcedExample(c: Chip, w: Word)
    requires c.cfgBits == 4 && |w| == 32 && !w[0]
    ensures var p := Pin(1, 0, -1, -1, -1, -1); var q := Pin(1, 1, 0, -1, -1, -1);
      && Clean(c, [p]) && FirstBit(Pinwise(true, c, true, [p], 1, Main(1, Cfg, 0), w), true)
      && FirstBit(Pinwise(false, c, true, [p], 1, Main(1, Cfg, 0), w), false)
      && FirstBit(Pinwise(true, c, true, [q, p], 2, Main(1, Cfg, 0), w), false)
  {
    var p, q := Pin(1, 0, -1, -1, -1, -1), Pin(1, 1, 0, -1, -1, -1);
    var r := Main(1, Cfg, 0);
    LastPinWins(true, c, true, [p], 1, r, w, 0, 0);
    UntouchedBit(false, c, true, [p], 1, r, w, 0);
    UntouchedBit(true, c, true, [q, p], 2, r, w, 0);
  }

  /** Runs on the main controller, and chips whose drive and pull groups coincide, are clean. */
  lemma CleanEnough(c: Chip, pins: seq<Pin>)
    requires (forall p :: p in pins ==> p.port < 12) || !c.wideDrive
    ensures Clean(c, pins)
  {
    if c.wideDrive {
      assert forall n :: 0 <= n < |pins| ==> pins[n] in pins;
    } else {
      forall n | 0 <= n < |pins|
        ensures !Switched(c, pins, n)
      {
        NarrowNeverSwitches(c, pins, n);
      }
    }
  }

  lemma {:induction false} NarrowNeverSwitches(c: Chip, pins: seq<Pin>, n: nat)
    requires !c.wideDrive && n < |pins|
    ensures !Switched(c, pins, n)
  {
    if n > 0 { NarrowNeverSwitches(c, pins, n - 1); }
  }

  /** Two neighbouring pins of port 12 with 4-bit drive fields already go wrong. */
  lemma StaleExample()
    ensures var c := Chip(true, 4);
            !Clean(c, [Pin(12, 7, 2, 0, 1, -1), Pin(12, 8, 2, 0, 1, -1)])
  {
    var c := Chip(true, 4);
    var pins := [Pin(12, 7, 2, 0, 1, -1), Pin(12, 8, 2, 0, 1, -1)];
    assert Switched(c, pins, 1);
  }

  // ---------------------------------------------------------------- registers as addresses

  /** The three register layouts of the address macros. */
  datatype Layout = V1 | V2 | V3

  /** A board: its layout, whether the macros of `boot_set_gpio_new` are used, which number ports from 0, the
      bases of the two controllers, and how many ports the main one has. */
  datatype Board = Board(layout: Layout, fromZero: bool, main: nat, aux: nat, ports: nat)

  /** Whether the second controller has offsets of its own. */
  predicate OwnOffsets(b: Board, aux: bool) {
    b.layout == V3 && aux && !b.fromZero
  }

  /** Offset of a register kind; `aux` for the second controller.  In the third layout the data macro of the
      second controller uses the offset of the main one even where the others do not. */
  function Offset(b: Board, aux: bool, k: Kind): nat {
    if b.layout == V3 && (k == Data || !OwnOffsets(b, aux)) then
      match k
      case Cfg => 0x80
      case Data => 0x90
      case Drive => 0xA0
      case Pull => 0xB0
    else
      match k
      case Cfg => 0x00
      case Data => 0x10
      case Drive => 0x14
      case Pull => if b.layout == V1 then 0x1C else 0x24
  }

  function Stride(b: Board, aux: bool): nat {
    match b.layout
    case V1 => 0x24
    case V2 => 0x30
    case V3 => if OwnOffsets(b, aux) then 0x30 else 0x80
  }

  /** The number of the first port of the main controller. */
  function FirstPort(b: Board): nat {
    if b.fromZero then 0 else 1
  }

  function Address(b: Board, r: Reg): int {
    match r
    case Main(port, kind, index) =>
      b.main + (port - FirstPort(b)) * Stride(b, false) + index * 4 + Offset(b, false, kind)
    case Aux(port, kind, index) =>
      b.aux + (port - 11 - FirstPort(b)) * Stride(b, true) + index * 4 + Offset(b, true, kind)
  }

  /** The registers of a board; where the second controller has offsets of its own it has three ports at most. */
  predicate Exists(b: Board, r: Reg) {
    && (if r.Main? then FirstPort(b) <= r.port < FirstPort(b) + b.ports
        else 12 <= r.port && (OwnOffsets(b, true) ==> r.port <= 14))
    && r.index < (match r.kind
                  case Cfg => 4
                  case Data => 1
                  case Drive => if b.layout == V1 then 2 else 4
                  case Pull => 2)
  }

  /** Offset of a register from the base of its port. */
  function Within(b: Board, r: Reg): nat {
    r.index * 4 + Offset(b, r.Aux?, r.kind)
  }

  /** The lowest such offset, but for registers with offsets of their own. */
  function Lowest(b: Board, aux: bool): nat {
    if b.layout == V3 && !OwnOffsets(b, aux) then 0x80 else 0
  }

  /** The ports of the main controller end below the first port of the second one. */
  predicate Separate(b: Board) {
    b.main + b.ports * Stride(b, false) + Lowest(b, false)
      <= b.aux + (1 - FirstPort(b)) * Stride(b, true) + Lowest(b, true)
  }

  lemma WithinInjective(b: Board, r: Reg, s: Reg)
    requires Exists(b, r) && Exists(b, s) && r.Main? == s.Main? && Within(b, r) == Within(b, s)
    ensures r.kind == s.kind && r.index == s.index
  {
  }

  lemma WithinBounds(b: Board, r: Reg)
    requires Exists(b, r)
    ensures Lowest(b, r.Aux?) <= Within(b, r)
    ensures !OwnOffsets(b, r.Aux?) ==> Within(b, r) < Lowest(b, r.Aux?) + Stride(b, r.Aux?)
  {
  }

  /** Port and offset are the quotient and remainder of an address by the stride. */
  lemma PortUnique(k: nat, p: int, a: int, q: int, b: int, low: int)
    requires k == 0x24 || k == 0x30 || k == 0x80
    requires low <= a < low + k && low <= b < low + k && p * k + a == q * k + b
    ensures p == q && a == b
  {
    if k == 0x24 {
      assert p * 0x24 + a == q * 0x24 + b;
    } else if k == 0x30 {
      assert p * 0x30 + a == q * 0x30 + b;
    } else {
      assert p * 0x80 + a == q * 0x80 + b;
    }
  }

  /** On a board whose controllers are separate, distinct registers have distinct addresses, so the model may
      name registers. */
  lemma AddressInjective(b: Board, r: Reg, s: Reg)
    requires Separate(b) && Exists(b, r) && Exists(b, s) && Address(b, r) == Address(b, s)
    ensures r == s
  {
    SameController(b, r, s);
    if OwnOffsets(b, r.Aux?) {
      SmallAux(b, r, s);
    } else {
      var base := FirstPort(b) + if r.Main? then 0 else 11;
      WithinBounds(b, r);
      WithinBounds(b, s);
      PortUnique(Stride(b, r.Aux?), r.port - base, Within(b, r), s.port - base, Within(b, s), Lowest(b, r.Aux?));
    }
    WithinInjective(b, r, s);
  }

  lemma SameController(b: Board, r: Reg, s: Reg)
    requires Separate(b) && Exists(b, r) && Exists(b, s) && Address(b, r) == Address(b, s)
    ensures r.Main? == s.Main?
  {
    Side(b, r);
    Side(b, s);
  }

  lemma ScaleMonotone(k: nat, x: int, y: int)
    requires x <= y
    ensures x * k <= y * k
  {
  }

  lemma Side(b: Board, r: Reg)
    requires Separate(b) && Exists(b, r)
    ensures r.Main? <==> Address(b, r) < b.aux + (1 - FirstPort(b)) * Stride(b, true) + Lowest(b, true)
  {
    WithinBounds(b, r);
    var k := Stride(b, r.Aux?);
    if r.Main? {
      ScaleMonotone(k, r.port - FirstPort(b), b.ports - 1);
      assert (b.ports - 1) * k == b.ports * k - k;
    } else {
      ScaleMonotone(k, 1 - FirstPort(b), r.port - 11 - FirstPort(b));
    }
  }

  lemma SmallAux(b: Board, r: Reg, s: Reg)
    requires Exists(b, r) && Exists(b, s) && r.Aux? && s.Aux? && OwnOffsets(b, true) && Address(b, r) == Address(b, s)
    ensures r.port == s.port && Within(b, r) == Within(b, s)
  {
    assert r.kind != Data ==> Within(b, r) < 0x30;
    assert s.kind != Data ==> Within(b, s) < 0x30;
    assert r.port == 12 || r.port == 13 || r.port == 14;
    assert s.port == 12 || s.port == 13 || s.port == 14;
  }

  /** With a fourth port of the second controller the third layout would not be injective. */
  lemma FourthPortAliases(b: Board)
    requires OwnOffsets(b, true)
    ensures Address(b, Aux(12, Data, 0)) == Address(b, Aux(15, Cfg, 0))
  {
  }

  /** The base pairs of the chip headers that keep the controllers apart for all 255 port numbers. */
  lemma FarBases(b: Board)
    requires b.ports <= 255
    requires || ((b.main == 0x0200_0000 || b.main == 0x0200_0400 || b.main == 0x0300_B000) && b.aux == 0x0702_2000)
             || (b.main == 0x01C2_0800 && b.aux == 0x01F0_2C00)
    ensures Separate(b)
  {
  }

  /** The bases of sun300iw1p1, whose layout is the second. */
  predicate IsSun300(b: Board) {
    b.layout == V2 && b.main == 0x4200_0000 && b.aux == 0x4200_0540
  }

  /** There the addresses are distinct exactly for up to 28 ports of the main controller, 29 when numbered from 0:
      the next port is the first of the second controller. */
  lemma Sun300Iff(b: Board)
    requires IsSun300(b)
    ensures (forall r, s :: Exists(b, r) && Exists(b, s) && Address(b, r) == Address(b, s) ==> r == s)
      <==> b.ports <= 29 - FirstPort(b)
  {
    if b.ports <= 29 - FirstPort(b) {
      forall r, s | Exists(b, r) && Exists(b, s) && Address(b, r) == Address(b, s)
        ensures r == s
      {
        AddressInjective(b, r, s);
      }
    } else {
      var r, s := Main(29, Cfg, 0), Aux(12, Cfg, 0);
      assert Exists(b, r) && Exists(b, s) && Address(b, r) == Address(b, s);
    }
  }
}
