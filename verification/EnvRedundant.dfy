/** The redundant environment: two copies on flash, each with a CRC and an 8-bit counter. `fw_env_open`
    chooses the copy to use; the writer rewrites the other copy with the counter one higher. */
module EnvRedundant {
  import opened Wrappers
  import Crc32

  type Flag = f: int | 0 <= f < 256
  type Index = i: int | 0 <= i < 2

  datatype Copy = Copy(crc: bv32, flag: Flag, data: seq<bv8>)

  datatype Flash = Flash(copy0: Copy, copy1: Copy) {
    function Get(i: Index): Copy {
      if i == 0 then copy0 else copy1
    }

    function Put(i: Index, c: Copy): Flash {
      if i == 0 then Flash(c, copy1) else Flash(copy0, c)
    }
  }

  predicate Good(c: Copy) {
    Crc32.Crc(c.data) == c.crc
  }

  function Bump(f: Flag): Flag {
    if f == 255 then 0 else f + 1
  }

  // ---------------------------------------------------------------- the choice

  /** The choice between two good copies. */
  function Newer(flag0: Flag, flag1: Flag): Index {
    if flag0 == 255 && flag1 == 0 then 1
    else if (flag1 == 255 && flag0 == 0) || flag0 >= flag1 then 0
    else 1
  }

  function Select(f: Flash): Option<Index> {
    if Good(f.copy0) && !Good(f.copy1) then Some(0)
    else if !Good(f.copy0) && Good(f.copy1) then Some(1)
    else if !Good(f.copy0) && !Good(f.copy1) then None
    else Some(Newer(f.copy0.flag, f.copy1.flag))
  }

  /** There is a choice exactly when a copy is good, and the copy chosen is good. */
  lemma SelectIsGood(f: Flash)
    ensures Select(f).Some? <==> Good(f.copy0) || Good(f.copy1)
    ensures Select(f).Some? ==> Good(f.Get(Select(f).value))
  {
  }

  /** A lone good copy is chosen; of two good ones with counters a and b, copy 1 exactly when b is 0 after 255, or
      higher than a but not 255 after 0. */
  lemma SelectIs(f: Flash)
    ensures Good(f.copy0) && !Good(f.copy1) ==> Select(f) == Some(0)
    ensures !Good(f.copy0) && Good(f.copy1) ==> Select(f) == Some(1)
    ensures Good(f.copy0) && Good(f.copy1) ==>
      var a, b := f.copy0.flag, f.copy1.flag;
      Select(f) == Some(if (a == 255 && b == 0) || (a < b && !(a == 0 && b == 255)) then 1 else 0)
  {
  }

  /** Which steps of opening succeed: finding the partitions, and allocating and reading each copy. */
  datatype Steps = Steps(partition: bool, memory0: bool, read0: bool, memory1: bool, read1: bool)

  predicate AllSucceed(s: Steps) {
    s == Steps(true, true, true, true, true)
  }

  /** The environment in memory. */
  class FwEnv {
    var devCurrent: Index
    var isOpen: bool
    var image: Copy

    constructor ()
      ensures !isOpen
    {
      devCurrent, isOpen := 0, false;
      image := Copy(0, 0, []);
    }

    method CheckCrc(c: Copy) returns (ok: bool)
      ensures ok == Good(c)
    {
      var crc := Crc32.Crc32(c.data);
      ok := crc == c.crc;
    }

    /** `fw_env_open`: a second open changes nothing; when a step fails or there is no good copy the environment
        stays closed. */
    method Open(flash: Flash, steps: Steps) returns (ret: int)
      modifies this
      ensures old(isOpen) ==> ret == 0 && isOpen && devCurrent == old(devCurrent) && image == old(image)
      ensures !old(isOpen) ==>
        && (ret == 0 <==> AllSucceed(steps) && (Good(flash.copy0) || Good(flash.copy1)))
        && isOpen == (ret == 0)
      ensures ret == 0 || ret == -1
      ensures !old(isOpen) && ret == 0 ==> image == flash.Get(devCurrent) && Good(image)
      ensures !old(isOpen) && ret == 0 ==> Select(flash) == Some(devCurrent)
    {
      SelectIsGood(flash);
      if isOpen {
        return 0;
      }
      if !steps.partition || !steps.memory0 {
        return -1;
      }
      devCurrent := 0;
      if !steps.read0 {
        return -1;
      }
      image := flash.copy0;
      var ok0 := CheckCrc(flash.copy0);
      var flag0 := image.flag;
      devCurrent := 1;
      if !steps.memory1 || !steps.read1 {
        return -1;
      }
      var ok1 := CheckCrc(flash.copy1);
      var flag1 := flash.copy1.flag;
      if ok0 && !ok1 {
        devCurrent := 0;
      } else if !ok0 && ok1 {
        devCurrent := 1;
      } else if !ok0 && !ok1 {
        return -1;
      } else if flag0 == 255 && flag1 == 0 {
        devCurrent := 1;
      } else if (flag1 == 255 && flag0 == 0) || flag0 >= flag1 {
        devCurrent := 0;
      } else {
        devCurrent := 1;
      }
      if devCurrent == 1 {
        image := flash.copy1;
      }
      isOpen := true;
      return 0;
    }

    method Close()
      modifies this
      ensures !isOpen
    {
      isOpen := false;
    }
  }

  /** A good copy damaged within any four consecutive bytes is bad. */
  lemma DamagedIsBad(c: Copy, before: seq<bv8>, a: seq<bv8>, b: seq<bv8>, after: seq<bv8>)
    requires Good(c) && c.data == before + a + after && |a| == |b| <= 4 && a != b
    ensures !Good(c.(data := before + b + after))
  {
    Crc32.DetectsBurst(before, a, b, after);
  }

  // ---------------------------------------------------------------- runs

  /** What the device holds in memory: nothing, or the copy it opened, with the counter
      written last. */
  datatype Session = Closed | Opened(current: Index, flag: Flag, writes: nat)

  datatype State = State(flash: Flash, session: Session)

  /** Opening, a complete write, a write cut short that leaves `torn` on flash, and closing or a power cut. */
  datatype Event = Open | Write(data: seq<bv8>) | Crash(torn: Copy) | Close

  function Step(st: State, e: Event): State {
    match e
    case Open =>
      if st.session.Opened? || Select(st.flash).None? then st
      else
        var i := Select(st.flash).value;
        st.(session := Opened(i, st.flash.Get(i).flag, 0))
    case Write(data) =>
      if st.session.Closed? then st
      else
        var flag := Bump(st.session.flag);
        State(st.flash.Put(1 - st.session.current, Copy(Crc32.Crc(data), flag, data)),
              st.session.(flag := flag, writes := st.session.writes + 1))
    case Crash(torn) =>
      if st.session.Closed? then st else State(st.flash.Put(1 - st.session.current, torn), Closed)
    case Close => st.(session := Closed)
  }

  /** Writing needs an open environment and happens at most once per open; a torn copy fails its CRC. */
  predicate Allowed(st: State, e: Event) {
    match e
    case Write(_) => st.session.Opened? && st.session.writes == 0
    case Crash(torn) => st.session.Opened? && st.session.writes == 0 && !Good(torn)
    case _ => true
  }

  function Run(st: State, events: seq<Event>): State
    decreases |events|
  {
    if events == [] then st else Run(Step(st, events[0]), events[1..])
  }

  predicate Possible(st: State, events: seq<Event>)
    decreases |events|
  {
    events == [] || (Allowed(st, events[0]) && Possible(Step(st, events[0]), events[1..]))
  }

  /** The contents written completely last, `data` being those before the first event. */
  function LastWritten(data: seq<bv8>, events: seq<Event>): seq<bv8>
    decreases |events|
  {
    if events == [] then data
    else LastWritten(if events[0].Write? then events[0].data else data, events[1..])
  }

  /** Copy i is the latest: it is good, and the other is bad or one step behind; two equal counters mean copy 0. */
  predicate Latest(f: Flash, i: Index) {
    && Good(f.Get(i))
    && (Good(f.Get(1 - i)) ==>
          f.Get(i).flag == Bump(f.Get(1 - i).flag) || (i == 0 && f.copy0.flag == f.copy1.flag))
  }

  /** While nothing was written in this session, it is the latest copy that is open. */
  predicate Inv(st: State, i: Index) {
    && Latest(st.flash, i)
    && (st.session.Opened? && st.session.writes == 0 ==>
          st.session.current == i && st.session.flag == st.flash.Get(i).flag)
  }

  /** The latest copy is chosen, across the wrap of the counter too. */
  lemma LatestIsSelected(f: Flash, i: Index)
    requires Latest(f, i)
    ensures Select(f) == Some(i)
  {
  }

  lemma StepKeepsLatest(st: State, i: Index, e: Event) returns (j: Index)
    requires Inv(st, i) && Allowed(st, e)
    ensures Inv(Step(st, e), j)
    ensures Step(st, e).flash.Get(j).data == if e.Write? then e.data else st.flash.Get(i).data
  {
    LatestIsSelected(st.flash, i);
    j := if e.Write? then 1 - i else i;
  }

  /** In every run the copy chosen at any time holds what was written completely last. */
  lemma {:induction false} RunSelectsLastWritten(st: State, i: Index, events: seq<Event>)
    requires Inv(st, i) && Possible(st, events)
    ensures var f := Run(st, events).flash;
      && Select(f).Some?
      && f.Get(Select(f).value).data == LastWritten(st.flash.Get(i).data, events)
    decreases |events|
  {
    if events == [] {
      LatestIsSelected(st.flash, i);
    } else {
      var j := StepKeepsLatest(st, i, events[0]);
      RunSelectsLastWritten(Step(st, events[0]), j, events[1..]);
    }
  }

  // ---------------------------------------------------------------- several writes per open

  /** The counter after k steps. */
  function Ahead(f: Flag, k: nat): Flag {
    (f + k) % 256
  }

  /** When the copy written k times in one session is chosen over copy i, whose counter is f. */
  predicate Overtakes(i: Index, f: Flag, k: nat) {
    var r := k % 256;
    if r == 0 then i == 1 else (f + r <= 255 && !(f == 0 && r == 255)) || (f == 255 && r == 1)
  }

  function Writes(contents: seq<seq<bv8>>): seq<Event> {
    if contents == [] then [] else [Write(contents[0])] + Writes(contents[1..])
  }

  /** One session that has written w times already. */
  predicate Writing(st: State, i: Index, f: Flag, w: nat) {
    && st.session == Opened(i, Ahead(f, w), w) && Good(st.flash.Get(i)) && st.flash.Get(i).flag == f
    && (w > 0 ==> Good(st.flash.Get(1 - i)) && st.flash.Get(1 - i).flag == Ahead(f, w))
  }

  lemma AheadNext(f: Flag, w: nat)
    ensures Bump(Ahead(f, w)) == Ahead(f, w + 1)
  {
  }

  lemma WriteOnce(st: State, i: Index, f: Flag, w: nat, data: seq<bv8>)
    requires Writing(st, i, f, w)
    ensures Writing(Step(st, Write(data)), i, f, w + 1)
  {
    AheadNext(f, w);
  }

  lemma {:induction false} WriteMany(st: State, i: Index, f: Flag, w: nat, contents: seq<seq<bv8>>)
    requires Writing(st, i, f, w)
    ensures Writing(Run(st, Writes(contents)), i, f, w + |contents|)
    decreases |contents|
  {
    if contents != [] {
      var events := Writes(contents);
      assert events[1..] == Writes(contents[1..]);
      WriteOnce(st, i, f, w, contents[0]);
      WriteMany(Step(st, Write(contents[0])), i, f, w + 1, contents[1..]);
    }
  }

  lemma AheadValue(f: Flag, k: nat, r: nat)
    requires r == k % 256
    ensures Ahead(f, k) == if f + r < 256 then f + r else f + r - 256
  {
    assert k == r + 256 * (k / 256);
  }

  /** The choice between a copy with counter f and one with counter g. */
  lemma ChoiceIff(f: Flash, i: Index, k: nat, g: Flag)
    requires Good(f.copy0) && Good(f.copy1) && g == f.Get(i).flag && f.Get(1 - i).flag == Ahead(g, k)
    ensures Select(f) == Some(1 - i) <==> Overtakes(i, g, k)
  {
    AheadValue(g, k, k % 256);
    FlagsIff(i, g, k % 256, Ahead(g, k));
  }

  lemma FlagsIff(i: Index, f: Flag, r: nat, g: Flag)
    requires r < 256 && g == if f + r < 256 then f + r else f + r - 256
    ensures (if i == 0 then Newer(f, g) == 1 else Newer(g, f) == 0)
      <==> if r == 0 then i == 1 else (f + r <= 255 && !(f == 0 && r == 255)) || (f == 255 && r == 1)
  {
  }

  /** Writing any number of times in one session: the next open chooses the new copy exactly when the counter
      has not passed its wrap, except from 255 by one, and has not gone from 0 to 255. */
  lemma SeveralWritesIff(st: State, i: Index, contents: seq<seq<bv8>>)
    requires Inv(st, i) && st.session == Opened(i, st.flash.Get(i).flag, 0) && contents != []
    ensures Select(Run(st, Writes(contents)).flash) == Some(1 - i)
      <==> Overtakes(i, st.flash.Get(i).flag, |contents|)
  {
    var f := st.flash.Get(i).flag;
    AheadValue(f, 0, 0);
    WriteMany(st, i, f, 0, contents);
    WrittenChoice(Run(st, Writes(contents)), i, f, |contents|);
  }

  lemma WrittenChoice(st: State, i: Index, f: Flag, k: nat)
    requires Writing(st, i, f, k) && k > 0
    ensures Select(st.flash) == Some(1 - i) <==> Overtakes(i, f, k)
  {
    ChoiceIff(st.flash, i, k, f);
  }
}
