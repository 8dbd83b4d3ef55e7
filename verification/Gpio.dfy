/** Batched pin configuration of boot0: `boot_set_gpio` keeps four register words of the
    current pin group in local variables and writes them back only when a pin of another
    group comes up.  The batched form is compared with setting each pin on its own. */
module Gpio {

  /** A register word as its 32 bits, bit 0 first. */
  type Word = seq<bool>

  function Zeros(n: nat): (w: Word)
    ensures |w| == n
  {
    if n == 0 then [] else Zeros(n - 1) + [false]
  }

  /** The four register kinds of a port. */
  datatype Kind = Cfg | Pull | Drive | Data

  /** A register of the main controller (the PIO_REG macros) or of the second one (R_PIO_REG). */
  datatype Reg = Main(port: nat, kind: Kind, index: nat) | Aux(port: nat, kind: Kind, index: nat)

  type RegFile = map<Reg, Word>

  function Read(regs: RegFile, r: Reg): Word {
    if r in regs then regs[r] else Zeros(32)
  }

  /** Chip generation: whether drive fields are 4 or 2 bits wide, and how many bits of a 4-bit
      function field the function mask covers (4 for mask 0xF, 3 for mask 0x7). */
  datatype Chip = Chip(wideDrive: bool, cfgBits: nat)

  /** One entry of a pin list; the last four fields are signed. */
  datatype Pin = Pin(port: nat, num: nat, mulSel: int, pull: int, drive: int, data: int)

  predicate ValidPin(p: Pin) {
    p.num < 32
  }

  function CfgIndex(p: Pin): nat { p.num / 8 }
  function PullIndex(p: Pin): nat { p.num / 16 }
  function DriveIndex(c: Chip, p: Pin): nat { if c.wideDrive then p.num / 8 else p.num / 16 }

  function CfgShift(p: Pin): nat { p.num % 8 * 4 }
  function PullShift(p: Pin): nat { p.num % 16 * 2 }
  function DriveShift(c: Chip, p: Pin): nat { if c.wideDrive then p.num % 8 * 4 else p.num % 16 * 2 }

  /** The register of the controller a port belongs to. */
  function BankReg(port: nat, kind: Kind, index: nat): Reg {
    if port < 12 then Main(port, kind, index) else Aux(port, kind, index)
  }

  function CfgReg(p: Pin): Reg { BankReg(p.port, Cfg, CfgIndex(p)) }
  function PullReg(p: Pin): Reg { BankReg(p.port, Pull, PullIndex(p)) }
  function DriveReg(c: Chip, p: Pin): Reg { BankReg(p.port, Drive, DriveIndex(c, p)) }
  function DataReg(p: Pin): Reg { BankReg(p.port, Data, 0) }

  /** Bit k of the two's complement of v. */
  predicate Bit(v: int, k: nat)
    decreases k
  {
    if k == 0 then v % 2 == 1 else Bit(v / 2, k - 1)
  }

  /** Replace `bits` bits of w from `shift` up by the low bits of v. */
  function SetField(w: Word, shift: nat, bits: nat, v: int): (r: Word)
    ensures |r| == |w|
    ensures forall j :: 0 <= j < |w| ==> r[j] == if shift <= j < shift + bits then Bit(v, j - shift) else w[j]
    decreases bits
  {
    if bits == 0 || shift >= |w| then w
    else SetField(w[shift := v % 2 == 1], shift + 1, bits - 1, v / 2)
  }

  function SetCfg(c: Chip, on: bool, p: Pin, w: Word): Word {
    SetField(w, CfgShift(p), c.cfgBits, if on then p.mulSel else 0)
  }

  function SetPull(p: Pin, w: Word): Word {
    SetField(w, PullShift(p), 2, p.pull)
  }

  function SetDrive(c: Chip, p: Pin, w: Word): Word {
    SetField(w, DriveShift(c, p), 2, p.drive)
  }

  function SetData(p: Pin, w: Word): Word {
    SetField(w, p.num, 1, p.data)
  }

  /** A pin writes its data bit only when it is configured as an output. */
  predicate WritesData(p: Pin) {
    p.mulSel == 1 && p.data >= 0
  }

  // ---------------------------------------------------------------- one pin at a time

  /** Value of register r after pin p is set on its own, from value w; `drive` names the register
      that takes the pin's drive level.  With `always` the function is set even when it is negative. */
  function PinValue(c: Chip, on: bool, p: Pin, always: bool, drive: Reg, r: Reg, w: Word): Word {
    match r.kind
    case Cfg => if r == CfgReg(p) && (always || p.mulSel >= 0) then SetCfg(c, on, p, w) else w
    case Pull => if r == PullReg(p) && p.pull >= 0 then SetPull(p, w) else w
    case Drive => if r == drive && p.drive >= 0 then SetDrive(c, p, w) else w
    case Data => if r == DataReg(p) && WritesData(p) then SetData(p, w) else w
  }

  /** The register the batched code uses for the drive level of pin n of a run: within a pull group,
      a change of drive group always switches to the main controller. */
  function CodeDriveReg(c: Chip, pins: seq<Pin>, n: nat): Reg
    requires n < |pins|
  {
    var p := pins[n];
    if n == 0 || PullIndex(p) != PullIndex(pins[n - 1]) || p.port != pins[n - 1].port then DriveReg(c, p)
    else if DriveIndex(c, p) != DriveIndex(c, pins[n - 1]) then Main(p.port, Drive, DriveIndex(c, p))
    else CodeDriveReg(c, pins, n - 1)
  }

  lemma {:induction false} DriveRegPrefix(c: Chip, pins: seq<Pin>, more: seq<Pin>, n: nat)
    requires n < |pins|
    ensures CodeDriveReg(c, pins + more, n) == CodeDriveReg(c, pins, n)
  {
    assert (pins + more)[n] == pins[n];
    if n > 0 {
      assert (pins + more)[n - 1] == pins[n - 1];
      DriveRegPrefix(c, pins, more, n - 1);
    }
  }

  /** Drive registers of a run: those of the code, or those the pins belong to. */
  function DriveTarget(code: bool, c: Chip, pins: seq<Pin>, n: nat): Reg
    requires n < |pins|
  {
    if code then CodeDriveReg(c, pins, n) else DriveReg(c, pins[n])
  }

  /** Value of register r after the first n pins of a run, set one at a time, from value w: as the batched code
      sets them, with its drive registers and the first pin's function set in any case, or each as it asks. */
  function Pinwise(code: bool, c: Chip, on: bool, pins: seq<Pin>, n: nat, r: Reg, w: Word): Word
    requires n <= |pins|
  {
    if n == 0 then w
    else PinValue(c, on, pins[n - 1], code && n == 1, DriveTarget(code, c, pins, n - 1), r,
                  Pinwise(code, c, on, pins, n - 1, r, w))
  }

  // ---------------------------------------------------------------- the batched code

  class PinWriter {
    const chip: Chip
    const on: bool
    var regs: RegFile

    // register words of the current group and where they came from
    var cfgReg: Reg
    var pullReg: Reg
    var driveReg: Reg
    var dataReg: Reg
    var cfgWord: Word
    var pullWord: Word
    var driveWord: Word
    var dataWord: Word
    var dataChange: bool
    var prePort: nat
    var preCfg: nat
    var prePull: nat
    var preDrive: nat

    /** What register r will hold once the words are written back. */
    ghost function Pending(r: Reg): Word
      reads this
    {
      if r == cfgReg then cfgWord
      else if r == pullReg then pullWord
      else if r == driveReg then driveWord
      else if r == dataReg && dataChange then dataWord
      else Read(regs, r)
    }

    ghost predicate Valid()
      reads this
    {
      && cfgReg == BankReg(prePort, Cfg, preCfg)
      && pullReg == BankReg(prePort, Pull, prePull)
      && driveReg.kind == Drive && driveReg.port == prePort && driveReg.index == preDrive
      && dataReg == BankReg(prePort, Data, 0)
      && (!dataChange ==> dataWord == Read(regs, dataReg))
    }

    /** The group of the last pin handled is the group whose words are held. */
    ghost predicate Holds(p: Pin)
      reads this
    {
      && prePort == p.port && preCfg == CfgIndex(p) && prePull == PullIndex(p)
      && preDrive == DriveIndex(chip, p)
    }

    constructor (chip: Chip, on: bool, regs: RegFile)
      ensures this.regs == regs && this.chip == chip && this.on == on && !dataChange
    {
      this.chip, this.on, this.regs := chip, on, regs;
      dataChange := false;
    }

    /** Write all held words back; the data word only when it was changed. */
    method Flush()
      requires Valid()
      modifies this
      ensures forall r :: Read(regs, r) == old(Pending(r))
      ensures !dataChange && prePort == old(prePort) && preCfg == old(preCfg)
      ensures prePull == old(prePull) && preDrive == old(preDrive)
    {
      regs := regs[cfgReg := cfgWord][pullReg := pullWord][driveReg := driveWord];
      if dataChange {
        dataChange := false;
        regs := regs[dataReg := dataWord];
      }
    }

    /** Read the four words of the group of pin p. */
    method Load(p: Pin)
      requires !dataChange
      modifies this
      ensures Valid() && Holds(p) && !dataChange && regs == old(regs)
      ensures driveReg == DriveReg(chip, p)
      ensures forall r :: Pending(r) == Read(old(regs), r)
    {
      LoadWords(CfgReg(p), PullReg(p), DriveReg(chip, p), DataReg(p));
      Remember(p);
    }

    method LoadWords(c: Reg, u: Reg, d: Reg, a: Reg)
      modifies this`cfgReg, this`pullReg, this`driveReg, this`dataReg
      modifies this`cfgWord, this`pullWord, this`driveWord, this`dataWord
      ensures cfgReg == c && pullReg == u && driveReg == d && dataReg == a
      ensures cfgWord == Read(regs, c) && pullWord == Read(regs, u)
      ensures driveWord == Read(regs, d) && dataWord == Read(regs, a)
    {
      cfgReg, pullReg, driveReg, dataReg := c, u, d, a;
      cfgWord, pullWord := Read(regs, c), Read(regs, u);
      driveWord, dataWord := Read(regs, d), Read(regs, a);
    }

    method Remember(p: Pin)
      modifies this`prePort, this`preCfg, this`prePull, this`preDrive
      ensures Holds(p)
    {
      prePort, preCfg, prePull, preDrive := p.port, CfgIndex(p), PullIndex(p), DriveIndex(chip, p);
    }

    /** Bring the held words to the group of pin p, writing back what is left behind. */
    method Switch(p: Pin, ghost pins: seq<Pin>)
      requires Valid() && pins != [] && Holds(pins[|pins| - 1])
      requires driveReg == CodeDriveReg(chip, pins, |pins| - 1)
      modifies this
      ensures Valid() && Holds(p)
      ensures driveReg == CodeDriveReg(chip, pins + [p], |pins|)
      ensures forall r :: Pending(r) == old(Pending(r))
    {
      DriveRegPrefix(chip, pins, [p], |pins| - 1);
      if PullIndex(p) != prePull || p.port != prePort {
        Flush();
        Load(p);
      } else if preCfg != CfgIndex(p) || preDrive != DriveIndex(chip, p) {
        SwitchWithin(p);
      }
      Remember(p);
    }

    /** Within a port and pull group: change the function and drive registers as needed. */
    method SwitchWithin(p: Pin)
      requires Valid() && p.port == prePort && PullIndex(p) == prePull
      modifies this
      ensures Valid() && Holds(p)
      ensures driveReg == if old(preDrive) == DriveIndex(chip, p) then old(driveReg)
                          else Main(p.port, Drive, DriveIndex(chip, p))
      ensures forall r :: Pending(r) == old(Pending(r))
    {
      if preCfg != CfgIndex(p) {
        MoveCfg(p);
      }
      if preDrive != DriveIndex(chip, p) {
        MoveDrive(p);
      }
    }

    method MoveCfg(p: Pin)
      requires Valid() && p.port == prePort
      modifies this`regs, this`cfgReg, this`cfgWord, this`preCfg
      ensures Valid() && preCfg == CfgIndex(p)
      ensures forall r :: Pending(r) == old(Pending(r))
    {
      StoreCfg();
      cfgReg := CfgReg(p);
      cfgWord := Read(regs, cfgReg);
      preCfg := CfgIndex(p);
    }

    method StoreCfg()
      requires Valid()
      modifies this`regs
      ensures Valid() && Read(regs, cfgReg) == cfgWord
      ensures forall r :: Pending(r) == old(Pending(r))
    {
      regs := regs[cfgReg := cfgWord];
    }

    /** Both arms of the source select the main controller here. */
    method MoveDrive(p: Pin)
      requires Valid() && p.port == prePort
      modifies this`regs, this`driveReg, this`driveWord, this`preDrive
      ensures Valid() && preDrive == DriveIndex(chip, p) && driveReg == Main(p.port, Drive, DriveIndex(chip, p))
      ensures forall r :: Pending(r) == old(Pending(r))
    {
      regs := regs[driveReg := driveWord];
      driveReg := Main(p.port, Drive, DriveIndex(chip, p));
      driveWord := Read(regs, driveReg);
      preDrive := DriveIndex(chip, p);
    }

    /** Apply the settings of pin p to the held words. */
    method Update(p: Pin, first: bool)
      requires Valid() && Holds(p)
      modifies this`cfgWord, this`pullWord, this`driveWord, this`dataWord, this`dataChange
      ensures Valid()
      ensures forall r :: Pending(r) == PinValue(chip, on, p, first, driveReg, r, old(Pending(r)))
    {
      assert cfgReg == CfgReg(p) && pullReg == PullReg(p) && dataReg == DataReg(p);
      UpdateWords(p, first);
      forall r
        ensures Pending(r) == PinValue(chip, on, p, first, driveReg, r, old(Pending(r)))
      {
        match r.kind
        case Cfg => assert r != pullReg && r != driveReg && r != dataReg;
        case Pull => assert r != cfgReg && r != driveReg && r != dataReg;
        case Drive => assert r != cfgReg && r != pullReg && r != dataReg;
        case Data => assert r != cfgReg && r != pullReg && r != driveReg;
      }
    }

    method UpdateWords(p: Pin, first: bool)
      modifies this`cfgWord, this`pullWord, this`driveWord, this`dataWord, this`dataChange
      ensures cfgWord == if first || p.mulSel >= 0 then SetCfg(chip, on, p, old(cfgWord)) else old(cfgWord)
      ensures pullWord == if p.pull >= 0 then SetPull(p, old(pullWord)) else old(pullWord)
      ensures driveWord == if p.drive >= 0 then SetDrive(chip, p, old(driveWord)) else old(driveWord)
      ensures dataWord == if WritesData(p) then SetData(p, old(dataWord)) else old(dataWord)
      ensures dataChange == (old(dataChange) || WritesData(p))
    {
      if first || p.mulSel >= 0 {
        cfgWord := SetCfg(chip, on, p, cfgWord);
      }
      if p.pull >= 0 {
        pullWord := SetPull(p, pullWord);
      }
      if p.drive >= 0 {
        driveWord := SetDrive(chip, p, driveWord);
      }
      if p.mulSel == 1 {
        if p.data >= 0 {
          dataWord := SetData(p, dataWord);
          dataChange := true;
        }
      }
    }

    /** The register file before the run, after the pins of the run were set one by one. */
    ghost predicate Caught(pins: seq<Pin>, start: RegFile)
      reads this
    {
      && Valid() && pins != [] && Holds(pins[|pins| - 1])
      && driveReg == CodeDriveReg(chip, pins, |pins| - 1)
      && forall r :: Pending(r) == Pinwise(true, chip, on, pins, |pins|, r, Read(start, r))
    }

    /** First pin of a run. */
    method Begin(p: Pin)
      requires !dataChange
      modifies this
      ensures Caught([p], old(regs))
    {
      Load(p);
      Update(p, true);
    }

    /** A later pin of a run. */
    method Extend(p: Pin, ghost pins: seq<Pin>, ghost start: RegFile)
      requires Caught(pins, start)
      modifies this
      ensures Caught(pins + [p], start)
    {
      Switch(p, pins);
      Update(p, false);
      forall r
        ensures Pending(r) == Pinwise(true, chip, on, pins + [p], |pins| + 1, r, Read(start, r))
      {
        PinwisePrefix(true, chip, on, pins, [p], |pins|, r, Read(start, r));
      }
    }

    /** Write the last group back. */
    method Finish(ghost pins: seq<Pin>, ghost start: RegFile)
      requires Caught(pins, start)
      modifies this
      ensures forall r :: Read(regs, r) == Pinwise(true, chip, on, pins, |pins|, r, Read(start, r))
    {
      Flush();
    }

    /** `boot_set_gpio`: handles the first run of entries with a non-zero port. */
    method BootSetGpio(list: seq<Pin>) returns (ret: int)
      requires !dataChange && forall p :: p in list ==> ValidPin(p)
      modifies this
      ensures ret == -1 <==> FirstRun(list) == []
      ensures ret == 0 || ret == -1
      ensures forall r :: Read(regs, r)
                == Pinwise(true, chip, on, FirstRun(list), |FirstRun(list)|, r, Read(old(regs), r))
    {
      var first := FindFirst(list);
      if first >= |list| { return -1; }
      ghost var start := regs;
      Begin(list[first]);
      ghost var n := RunRest(list[first..], start);
      RunIs(list[first..], n);
      Finish(list[first..][..n], start);
      return 0;
    }

    /** The first loop of `boot_set_gpio`: skips entries with port 0. */
    method FindFirst(list: seq<Pin>) returns (first: nat)
      ensures first <= |list| && FirstRun(list) == FirstRun(list[first..])
      ensures first < |list| ==> list[first].port != 0
      ensures first == |list| <==> FirstRun(list) == []
    {
      first := 0;
      while first < |list| && list[first].port == 0
        invariant first <= |list| && FirstRun(list) == FirstRun(list[first..])
      {
        assert list[first..][1..] == list[first + 1..];
        first := first + 1;
      }
    }

    /** The second loop of `boot_set_gpio`: stops at the next entry with port 0. */
    method RunRest(list: seq<Pin>, ghost start: RegFile) returns (ghost n: nat)
      requires list != [] && list[0].port != 0 && Caught([list[0]], start)
      modifies this
      ensures 0 < n <= |list| && (forall k :: 0 <= k < n ==> list[k].port != 0)
      ensures n == |list| || list[n].port == 0
      ensures Caught(list[..n], start)
    {
      ghost var done := [list[0]];
      var i := 1;
      while i < |list| && list[i].port != 0
        invariant 1 <= i <= |list| && done == list[..i]
        invariant forall k :: 0 <= k < i ==> list[k].port != 0
        invariant Caught(done, start)
      {
        Extend(list[i], done, start);
        done := done + [list[i]];
        i := i + 1;
      }
      n := i;
    }

    /** `boot_set_gpio_new`: handles every entry whose port and pin number are in use. */
    method BootSetGpioNew(list: seq<Pin>) returns (ret: int)
      requires !dataChange && forall p :: p in list && InUse(p) ==> ValidPin(p)
      modifies this
      ensures ret == -1 <==> Used(list) == []
      ensures ret == 0 || ret == -1
      ensures forall r :: Read(regs, r)
                == Pinwise(true, chip, on, Used(list), |Used(list)|, r, Read(old(regs), r))
    {
      var first := FindFirstUsed(list);
      if first >= |list| { return -1; }
      ghost var start := regs;
      Begin(list[first]);
      UsedRest(list, first, start);
      Finish(Used(list), start);
      return 0;
    }

    /** The first loop of `boot_set_gpio_new`. */
    method FindFirstUsed(list: seq<Pin>) returns (first: nat)
      ensures first <= |list| && Used(list) == Used(list[first..])
      ensures first < |list| ==> InUse(list[first])
      ensures first == |list| <==> Used(list) == []
    {
      first := 0;
      while first < |list| && !InUse(list[first])
        invariant first <= |list| && Used(list) == Used(list[first..])
      {
        UsedStep(list, first);
        first := first + 1;
      }
    }

    /** The second loop of `boot_set_gpio_new`: passes over unused entries. */
    method UsedRest(list: seq<Pin>, first: nat, ghost start: RegFile)
      requires first < |list| && InUse(list[first]) && Used(list) == Used(list[first..])
      requires Caught([list[first]], start)
      modifies this
      ensures Caught(Used(list), start)
    {
      ghost var done := [list[first]];
      var i := first + 1;
      UsedAdvance(list, [], first);
      while i < |list|
        invariant first < i <= |list| && done + Used(list[i..]) == Used(list)
        invariant Caught(done, start)
      {
        UsedAdvance(list, done, i);
        if InUse(list[i]) {
          Extend(list[i], done, start);
          done := done + [list[i]];
        }
        i := i + 1;
      }
      assert done == Used(list);
    }
  }

  /** The first maximal run of entries with a non-zero port. */
  function FirstRun(list: seq<Pin>): seq<Pin> {
    if list == [] then []
    else if list[0].port == 0 then FirstRun(list[1..])
    else TakeRun(list)
  }

  function TakeRun(list: seq<Pin>): seq<Pin> {
    if list == [] || list[0].port == 0 then [] else [list[0]] + TakeRun(list[1..])
  }

  /** A prefix of non-zero ports that stops at the end or at a zero port is the run. */
  lemma {:induction false} TakeRunIs(list: seq<Pin>, n: nat)
    requires n <= |list| && (forall k :: 0 <= k < n ==> list[k].port != 0)
    requires n == |list| || list[n].port == 0
    ensures TakeRun(list) == list[..n]
  {
    if n > 0 {
      TakeRunIs(list[1..], n - 1);
      assert [list[0]] + list[1..][..n - 1] == list[..n];
    }
  }

  lemma RunIs(list: seq<Pin>, n: nat)
    requires 0 < n <= |list| && (forall k :: 0 <= k < n ==> list[k].port != 0)
    requires n == |list| || list[n].port == 0
    ensures FirstRun(list) == list[..n]
  {
    TakeRunIs(list, n);
  }

  /** Entries marked unused carry 0xFF as port or pin number. */
  predicate InUse(p: Pin) {
    p.port != 0xFF && p.num != 0xFF
  }

  function Used(list: seq<Pin>): seq<Pin> {
    if list == [] then []
    else (if InUse(list[0]) then [list[0]] else []) + Used(list[1..])
  }

  /** The first run starts behind entries with port 0 and ends at the next of them, or at the end of the list. */
  lemma {:induction false} FirstRunIs(list: seq<Pin>) returns (a: nat, b: nat)
    ensures a <= b <= |list| && FirstRun(list) == list[a..b]
    ensures forall k :: 0 <= k < a ==> list[k].port == 0
    ensures forall k :: a <= k < b ==> list[k].port != 0
    ensures (b < |list| ==> list[b].port == 0) && (a == b ==> b == |list|)
  {
    if list == [] {
      a, b := 0, 0;
    } else if list[0].port == 0 {
      a, b := FirstRunIs(list[1..]);
      assert list[1..][a..b] == list[a + 1..b + 1];
      assert forall k :: 0 < k < |list| ==> list[k] == list[1..][k - 1];
      a, b := a + 1, b + 1;
    } else {
      a := 0;
      b := RunLength(list);
      TakeRunIs(list, b);
    }
  }

  lemma {:induction false} RunLength(list: seq<Pin>) returns (n: nat)
    ensures n <= |list| && (forall k :: 0 <= k < n ==> list[k].port != 0) && (n < |list| ==> list[n].port == 0)
    ensures list != [] && list[0].port != 0 ==> n > 0
  {
    if list == [] || list[0].port == 0 {
      n := 0;
    } else {
      n := RunLength(list[1..]);
      assert forall k :: 0 < k < |list| ==> list[k] == list[1..][k - 1];
      n := n + 1;
    }
  }

  /** An entry is in use unless its port or its number is 0xFF. */
  lemma UsedOne(p: Pin)
    ensures Used([]) == [] && Used([p]) == if p.port == 0xFF || p.num == 0xFF then [] else [p]
  {
    assert [p][1..] == [];
  }

  /** The entries in use stay in the order of the list. */
  lemma {:induction false} UsedConcat(a: seq<Pin>, b: seq<Pin>)
    ensures Used(a + b) == Used(a) + Used(b)
    decreases |a|
  {
    if a == [] {
      assert a + b == b;
    } else {
      UsedConcat(a[1..], b);
      assert (a + b)[0] == a[0] && (a + b)[1..] == a[1..] + b;
      Assoc(if InUse(a[0]) then [a[0]] else [], Used(a[1..]), Used(b));
    }
  }

  lemma UsedStep(list: seq<Pin>, i: nat)
    requires i < |list|
    ensures Used(list[i..]) == (if InUse(list[i]) then [list[i]] else []) + Used(list[i + 1..])
  {
    assert list[i..][1..] == list[i + 1..];
  }

  lemma Assoc<T>(a: seq<T>, b: seq<T>, c: seq<T>)
    ensures (a + b) + c == a + (b + c)
  {
  }

  lemma UsedAdvance(list: seq<Pin>, done: seq<Pin>, i: nat)
    requires i < |list| && done + Used(list[i..]) == Used(list)
    ensures InUse(list[i]) ==> (done + [list[i]]) + Used(list[i + 1..]) == Used(list)
    ensures !InUse(list[i]) ==> done + Used(list[i + 1..]) == Used(list)
  {
    var rest := Used(list[i + 1..]);
    var here := if InUse(list[i]) then [list[i]] else [];
    assert Used(list[i..]) == here + rest by { UsedStep(list, i); }
    Assoc(done, here, rest);
    assert done + [] == done;
  }

  lemma {:induction false} PinwisePrefix(code: bool, c: Chip, on: bool, pins: seq<Pin>, more: seq<Pin>, n: nat,
                                         r: Reg, w: Word)
    requires n <= |pins|
    ensures Pinwise(code, c, on, pins + more, n, r, w) == Pinwise(code, c, on, pins, n, r, w)
  {
    if n > 0 {
      PinwisePrefix(code, c, on, pins, more, n - 1, r, w);
      DriveRegPrefix(c, pins, more, n - 1);
      assert (pins + more)[n - 1] == pins[n - 1];
    }
  }
}
