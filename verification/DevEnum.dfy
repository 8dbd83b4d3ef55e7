/** `API_dev_enum`: storage devices of several groups are handed out one per call, the caller passing back the
    cookie of the last one. */
module DevEnum {

  /** A slot of a group: empty, or a device that is active or not. */
  datatype Slot = Empty | Present(active: bool)

  /** A storage group, if it is configured. */
  datatype Group = Unconfigured | Configured(slots: seq<Slot>)

  /** The pointer in `device_info`: none, the network device, or the device in slot i of group g. */
  datatype Cookie = Null | Net | Dev(g: nat, i: nat)

  function Max(group: Group): nat {
    if group.Configured? then |group.slots| else 0
  }

  // ---------------------------------------------------------------- what a round hands out

  /** The devices still to come when group g is entered at slot i; a foreign cookie makes a group be passed over. */
  function From(groups: seq<Group>, g: nat, i: nat, foreign: bool): seq<Cookie>
    decreases |groups| - g, if g < |groups| then Max(groups[g]) - i else 0
  {
    if g >= |groups| then []
    else if groups[g].Unconfigured? then From(groups, g + 1, 0, foreign)
    else if foreign || i >= |groups[g].slots| then From(groups, g + 1, 0, false)
    else
      match groups[g].slots[i]
      case Empty => From(groups, g, i + 1, false)
      case Present(active) =>
        if active then [Dev(g, i)] + From(groups, g, i + 1, false) else From(groups, g + 1, 0, true)
  }

  /** The devices still to come after the one the cookie names. */
  function Rest(groups: seq<Group>, net: bool, cookie: Cookie): seq<Cookie> {
    match cookie
    case Null => if net then [Net] + From(groups, 0, 0, true) else From(groups, 0, 0, false)
    case Net => From(groups, 0, 0, true)
    case Dev(g, i) => From(groups, g, i + 1, false)
  }

  /** The first slot from i on that is not empty. */
  function Next(slots: seq<Slot>, i: nat): (j: nat)
    requires i <= |slots|
    ensures i <= j <= |slots| && (j < |slots| ==> slots[j].Present?)
    decreases |slots| - i
  {
    if i == |slots| || slots[i].Present? then i else Next(slots, i + 1)
  }

  lemma {:induction false} FromNext(groups: seq<Group>, g: nat, i: nat)
    requires g < |groups| && groups[g].Configured? && i <= |groups[g].slots|
    ensures From(groups, g, i, false) == From(groups, g, Next(groups[g].slots, i), false)
    decreases |groups[g].slots| - i
  {
    if i < |groups[g].slots| && groups[g].slots[i].Empty? { FromNext(groups, g, i + 1); }
  }

  /** What the search from slot i on contributes. */
  lemma FromSearch(groups: seq<Group>, g: nat, i: nat, j: nat)
    requires g < |groups| && groups[g].Configured? && i <= |groups[g].slots| && j == Next(groups[g].slots, i)
    ensures From(groups, g, i, false) ==
      if j == |groups[g].slots| then From(groups, g + 1, 0, false)
      else if groups[g].slots[j].active then [Dev(g, j)] + From(groups, g, j + 1, false)
      else From(groups, g + 1, 0, true)
  {
    FromNext(groups, g, i);
  }

  // ---------------------------------------------------------------- the code

  class Enumerator {
    const groups: seq<Group>
    const net: bool
    var started: seq<bool>
    var ended: seq<bool>

    constructor (groups: seq<Group>, net: bool)
      ensures this.groups == groups && this.net == net && Sized() && Fresh(0)
    {
      this.groups, this.net := groups, net;
      started, ended := seq(|groups|, _ => false), seq(|groups|, _ => false);
    }

    predicate Sized()
      reads this
    {
      |started| == |groups| == |ended|
    }

    /** Groups from h on have not been visited in this round. */
    predicate Fresh(h: nat)
      reads this
    {
      Sized() && forall k :: h <= k < |groups| ==> !started[k] && !ended[k]
    }

    predicate Visited(h: nat)
      reads this
    {
      Sized() && h <= |groups| && forall k :: 0 <= k < h ==> started[k]
    }

    predicate Exists(cookie: Cookie) {
      cookie.Dev? ==>
        cookie.g < |groups| && cookie.i < Max(groups[cookie.g]) && groups[cookie.g].slots[cookie.i].Present?
    }

    /** `dev_stor_get`: from behind the cookie if it is of this group, from the start if there is none,
        and not at all if it is of another group. */
    method StorGet(g: nat, cookie: Cookie) returns (found: bool, more: bool, cookie': Cookie)
      requires g < |groups| && Exists(cookie)
      ensures groups[g].Unconfigured? ==> !found && !more && cookie' == cookie
      ensures groups[g].Configured? ==>
        var slots := groups[g].slots;
        var i := if cookie.Null? then 0 else if cookie.Dev? && cookie.g == g then cookie.i + 1 else |slots|;
        var j := Next(slots, i);
        && more == (j < |slots|)
        && cookie' == (if more then Dev(g, j) else Null)
        && found == (more && slots[j].active)
    {
      if groups[g].Unconfigured? {
        return false, false, cookie;
      }
      var slots := groups[g].slots;
      var i: nat := 0;
      if !cookie.Null? {
        i := Behind(g, cookie);
      }
      ghost var first := i;
      while i < |slots| && slots[i].Empty?
        invariant i <= |slots| && Next(slots, i) == Next(slots, first)
      {
        i := i + 1;
      }
      more := i < |slots|;
      cookie' := if more then Dev(g, i) else Null;
      found := more && slots[i].active;
    }

    /** The slot behind the cookie; the end of the group if the cookie is not found in it. */
    method Behind(g: nat, cookie: Cookie) returns (i: nat)
      requires g < |groups| && groups[g].Configured? && Exists(cookie) && !cookie.Null?
      ensures i == if cookie.Dev? && cookie.g == g then cookie.i + 1 else |groups[g].slots|
    {
      i := 0;
      while i < |groups[g].slots|
        invariant i <= |groups[g].slots| && (cookie.Dev? && cookie.g == g ==> i <= cookie.i)
      {
        if groups[g].slots[i].Present? && cookie == Dev(g, i) {
          return i + 1;
        }
        i := i + 1;
      }
    }

    /** `dev_stor_type`: the group of a device. */
    method StorType(cookie: Cookie) returns (g: nat)
      requires Exists(cookie) && !cookie.Null?
      ensures g == if cookie.Dev? then cookie.g else |groups|
    {
      g := 0;
      while g < |groups|
        invariant g <= |groups| && (cookie.Dev? ==> g <= cookie.g)
      {
        var here := IsIn(g, cookie);
        if here {
          return;
        }
        g := g + 1;
      }
    }

    method IsIn(g: nat, cookie: Cookie) returns (here: bool)
      requires g < |groups| && Exists(cookie) && !cookie.Null?
      ensures here == (cookie.Dev? && cookie.g == g)
    {
      var j: nat := 0;
      while j < Max(groups[g])
        invariant j <= Max(groups[g]) && (cookie.Dev? && cookie.g == g ==> j <= cookie.i)
      {
        if groups[g].slots[j].Present? && cookie == Dev(g, j) {
          return true;
        }
        j := j + 1;
      }
      return false;
    }

    // ---------------------------------------------------------------- one call

    /** Groups below h were visited in this round, the others not. */
    predicate Split(h: nat)
      reads this
    {
      Visited(h) && Fresh(h)
    }

    /** The cookie names a device of group h or above, which is where this call goes on. */
    predicate Ahead(h: nat, cookie: Cookie) {
      cookie.Dev? && h <= cookie.g
    }

    /** Group h is about to be asked, and `rest` is what is still to come. */
    predicate Arrives(h: nat, cookie: Cookie, rest: seq<Cookie>)
      reads this
    {
      && Exists(cookie) && h <= |groups| && Sized()
      && (if Ahead(h, cookie) then
            Split(cookie.g + 1) && !ended[cookie.g] && rest == From(groups, cookie.g, cookie.i + 1, false)
          else Split(h) && rest == From(groups, h, 0, !cookie.Null?))
    }

    /** The cookie is what the last call returned. */
    predicate Ready(cookie: Cookie)
      reads this
    {
      && Exists(cookie) && Sized()
      && (cookie.Net? ==> Fresh(0))
      && (cookie.Dev? ==> Split(cookie.g + 1) && !ended[cookie.g])
    }

    /** A device was found: it is the first of `rest`, and the others are still to come. */
    predicate Found(cookie: Cookie, rest: seq<Cookie>)
      reads this
    {
      cookie.Dev? && Ready(cookie) && rest == [cookie] + From(groups, cookie.g, cookie.i + 1, false)
    }

    /** `dev_enum_stor`: one group is asked. */
    method EnumStor(h: nat, cookie: Cookie, ghost rest: seq<Cookie>) returns (found: bool, cookie': Cookie)
      requires h < |groups| && Arrives(h, cookie, rest)
      modifies this
      ensures if found then Found(cookie', rest) else Arrives(h + 1, cookie', rest)
    {
      var more;
      if cookie.Null? {
        found, more, cookie' := StorGet(h, cookie);
        started := started[h := true];
      } else {
        var g := StorType(cookie);
        if g == h {
          if ended[h] {
            return false, cookie;
          }
          found, more, cookie' := StorGet(h, cookie);
        } else if ended[h] {
          return false, cookie;
        } else if !started[h] {
          started := started[h := true];
          found, more, cookie' := StorGet(h, cookie);
        } else {
          found, more, cookie' := false, false, cookie;
        }
      }
      ended := ended[h := !more];
      if groups[h].Configured? && (cookie.Null? || (cookie.Dev? && cookie.g == h)) {
        ghost var i := if cookie.Null? then 0 else cookie.i + 1;
        FromSearch(groups, h, i, Next(groups[h].slots, i));
      }
    }

    method Reset()
      modifies this
      requires Sized()
      ensures Fresh(0)
    {
      var i := 0;
      while i < |groups|
        invariant i <= |groups| && Sized() && forall k :: 0 <= k < i ==> !started[k] && !ended[k]
      {
        started, ended := started[i := false], ended[i := false];
        i := i + 1;
      }
    }

    /** `dev_enum_storage`: the groups in turn, until one has a device. */
    method EnumStorage(cookie: Cookie, ghost rest: seq<Cookie>) returns (found: bool, cookie': Cookie)
      requires Arrives(0, cookie, rest)
      modifies this
      ensures Sized() && if found then Found(cookie', rest) else rest == []
    {
      var h: nat := 0;
      cookie' := cookie;
      while h < |groups|
        invariant h <= |groups| && Arrives(h, cookie', rest)
      {
        found, cookie' := EnumStor(h, cookie', rest);
        if found {
          return;
        }
        h := h + 1;
      }
      found := false;
    }

    /** `API_dev_enum`: the next device of the round, and no device when there is none left. */
    method DevEnum(cookie: Cookie) returns (cookie': Cookie)
      requires Ready(cookie)
      modifies this
      ensures Ready(cookie')
      ensures var rest := Rest(groups, net, cookie);
        if rest == [] then cookie' == Null else cookie' == rest[0] && Rest(groups, net, cookie') == rest[1..]
    {
      cookie' := cookie;
      if cookie.Null? {
        Reset();
        if net {
          return Net;
        }
      }
      var found;
      found, cookie' := EnumStorage(cookie', Rest(groups, net, cookie));
      if !found {
        cookie' := Null;
      }
    }
  }

  // ---------------------------------------------------------------- whole rounds

  /** A caller that starts without a cookie and passes back each one it gets: the round ends, and hands out
      exactly its devices in order; as it ends without a cookie, the next round hands out the same. */
  method Round(e: Enumerator) returns (list: seq<Cookie>)
    requires e.Ready(Null)
    modifies e
    ensures e.Ready(Null) && list == Rest(e.groups, e.net, Null)
  {
    list := [];
    ghost var left := Rest(e.groups, e.net, Null);
    var cookie := e.DevEnum(Null);
    while !cookie.Null?
      invariant e.Ready(cookie)
      invariant cookie.Null? <==> left == []
      invariant left != [] ==> left[0] == cookie && Rest(e.groups, e.net, cookie) == left[1..]
      invariant list + left == Rest(e.groups, e.net, Null)
      decreases |left|
    {
      list := list + [cookie];
      left := left[1..];
      NoNull(e.groups, e.net, cookie);
      cookie := e.DevEnum(cookie);
    }
  }

  lemma {:induction false} FromNoNull(groups: seq<Group>, g: nat, i: nat, foreign: bool)
    ensures forall c :: c in From(groups, g, i, foreign) ==> c.Dev?
    decreases |groups| - g, if g < |groups| then Max(groups[g]) - i else 0
  {
    if g < |groups| {
      if groups[g].Unconfigured? { FromNoNull(groups, g + 1, 0, foreign); }
      else if foreign || i >= |groups[g].slots| { FromNoNull(groups, g + 1, 0, false); }
      else if groups[g].slots[i] == Present(false) { FromNoNull(groups, g + 1, 0, true); }
      else { FromNoNull(groups, g, i + 1, false); }
    }
  }

  lemma NoNull(groups: seq<Group>, net: bool, cookie: Cookie)
    ensures Rest(groups, net, cookie) != [] ==> Rest(groups, net, cookie)[0] != Null
  {
    FromNoNull(groups, 0, 0, true);
    FromNoNull(groups, 0, 0, false);
    if cookie.Dev? { FromNoNull(groups, cookie.g, cookie.i + 1, false); }
    var rest := Rest(groups, net, cookie);
    if rest != [] { assert rest[0] in rest; }
  }

  /** Every active device of every group, in order. */
  function All(groups: seq<Group>, g: nat, i: nat): seq<Cookie>
    decreases |groups| - g, if g < |groups| then Max(groups[g]) - i else 0
  {
    if g >= |groups| then []
    else if i >= Max(groups[g]) then All(groups, g + 1, 0)
    else (if groups[g].slots[i] == Present(true) then [Dev(g, i)] else []) + All(groups, g, i + 1)
  }

  /** Device c comes before device d. */
  predicate Before(c: Cookie, d: Cookie) {
    c.Dev? && d.Dev? && (c.g < d.g || (c.g == d.g && c.i < d.i))
  }

  ghost predicate InOrder(list: seq<Cookie>) {
    forall k :: 0 <= k < |list| - 1 ==> Before(list[k], list[k + 1])
  }

  predicate Active(groups: seq<Group>, c: Cookie) {
    c.Dev? && c.g < |groups| && c.i < Max(groups[c.g]) && groups[c.g].slots[c.i] == Present(true)
  }

  /** The list of all active devices holds each of them, nothing else, and is in order, so it holds each once. */
  lemma {:induction false} AllIsAll(groups: seq<Group>, g: nat, i: nat)
    ensures forall c :: c in All(groups, g, i) <==> Active(groups, c) && (c.g > g || (c.g == g && c.i >= i))
    ensures InOrder(All(groups, g, i))
    decreases |groups| - g, if g < |groups| then Max(groups[g]) - i else 0
  {
    if g < |groups| {
      if i >= Max(groups[g]) {
        AllIsAll(groups, g + 1, 0);
        assert All(groups, g, i) == All(groups, g + 1, 0);
      } else {
        AllIsAll(groups, g, i + 1);
        var rest := All(groups, g, i + 1);
        if groups[g].slots[i] == Present(true) && rest != [] { assert rest[0] in rest; }
      }
    }
  }

  /** The active devices of group g from slot i on. */
  function InGroup(groups: seq<Group>, g: nat, i: nat): seq<Cookie>
    requires g < |groups|
    decreases Max(groups[g]) - i
  {
    if i >= Max(groups[g]) then []
    else (if groups[g].slots[i] == Present(true) then [Dev(g, i)] else []) + InGroup(groups, g, i + 1)
  }

  lemma {:induction false} AllSplit(groups: seq<Group>, g: nat, i: nat)
    requires g < |groups|
    ensures All(groups, g, i) == InGroup(groups, g, i) + All(groups, g + 1, 0)
    decreases Max(groups[g]) - i
  {
    if i < Max(groups[g]) { AllSplit(groups, g, i + 1); }
  }

  /** A round hands out no more than the active devices. */
  lemma {:induction false} FromBound(groups: seq<Group>, g: nat, i: nat, foreign: bool)
    ensures |From(groups, g, i, foreign)| <= |All(groups, g, i)|
    decreases |groups| - g, if g < |groups| then Max(groups[g]) - i else 0
  {
    if g < |groups| {
      AllSplit(groups, g, i);
      if groups[g].Unconfigured? { FromBound(groups, g + 1, 0, foreign); }
      else if foreign || i >= |groups[g].slots| { FromBound(groups, g + 1, 0, false); }
      else if groups[g].slots[i] == Present(false) { FromBound(groups, g + 1, 0, true); }
      else { FromBound(groups, g, i + 1, false); }
    }
  }

  /** No active device of group g from slot i on. */
  predicate NoneActive(groups: seq<Group>, g: nat, i: nat)
    requires g < |groups|
  {
    forall k :: i <= k < Max(groups[g]) ==> groups[g].slots[k] != Present(true)
  }

  lemma {:induction false} NoneActiveIff(groups: seq<Group>, g: nat, i: nat)
    requires g < |groups|
    ensures NoneActive(groups, g, i) <==> InGroup(groups, g, i) == []
    decreases Max(groups[g]) - i
  {
    if i < Max(groups[g]) { NoneActiveIff(groups, g, i + 1); }
  }

  /** No active device stands behind an inactive one of its group, or in the configured group after such a group,
      or in the first configured group after the network device. */
  predicate NoneHidden(groups: seq<Group>, g: nat, i: nat, foreign: bool)
    decreases |groups| - g, if g < |groups| then Max(groups[g]) - i else 0
  {
    if g >= |groups| then true
    else if groups[g].Unconfigured? then NoneHidden(groups, g + 1, 0, foreign)
    else if foreign then NoneActive(groups, g, i) && NoneHidden(groups, g + 1, 0, false)
    else if i >= |groups[g].slots| then NoneHidden(groups, g + 1, 0, false)
    else if groups[g].slots[i] == Present(false) then NoneActive(groups, g, i) && NoneHidden(groups, g + 1, 0, true)
    else NoneHidden(groups, g, i + 1, false)
  }

  lemma EmptyPrefix<T>(a: seq<T>, b: seq<T>, c: seq<T>)
    requires |c| <= |b|
    ensures c == a + b <==> a == [] && c == b
  {
    assert [] + b == b;
    if c == a + b { assert |c| == |a| + |b|; }
  }

  lemma SameHead<T>(x: T, a: seq<T>, b: seq<T>)
    ensures [x] + a == [x] + b <==> a == b
  {
    assert ([x] + a)[1..] == a && ([x] + b)[1..] == b;
  }

  lemma {:induction false} FromCompleteIff(groups: seq<Group>, g: nat, i: nat, foreign: bool)
    ensures From(groups, g, i, foreign) == All(groups, g, i) <==> NoneHidden(groups, g, i, foreign)
    decreases |groups| - g, if g < |groups| then Max(groups[g]) - i else 0, 1
  {
    if g < |groups| {
      if groups[g].Unconfigured? {
        FromCompleteIff(groups, g + 1, 0, foreign);
      } else if foreign || (i < |groups[g].slots| && groups[g].slots[i] == Present(false)) {
        Passed(groups, g, i, !foreign);
      } else if i >= |groups[g].slots| {
        FromCompleteIff(groups, g + 1, 0, false);
      } else {
        FromCompleteIff(groups, g, i + 1, false);
        SameHead(Dev(g, i), From(groups, g, i + 1, false), All(groups, g, i + 1));
        assert [] + All(groups, g, i + 1) == All(groups, g, i + 1);
      }
    }
  }

  /** The rest of group g is passed over, and the next group is entered with or without a foreign cookie. */
  lemma Passed(groups: seq<Group>, g: nat, i: nat, foreign: bool)
    requires g < |groups|
    ensures From(groups, g + 1, 0, foreign) == All(groups, g, i)
      <==> NoneActive(groups, g, i) && NoneHidden(groups, g + 1, 0, foreign)
    decreases |groups| - g, Max(groups[g]) - i, 0
  {
    AllSplit(groups, g, i);
    FromBound(groups, g + 1, 0, foreign);
    EmptyPrefix(InGroup(groups, g, i), All(groups, g + 1, 0), From(groups, g + 1, 0, foreign));
    NoneActiveIff(groups, g, i);
    FromCompleteIff(groups, g + 1, 0, foreign);
  }

  /** A round hands out the network device and every active storage device exactly when none is hidden. */
  lemma RoundCompleteIff(groups: seq<Group>, net: bool)
    ensures Rest(groups, net, Null) == (if net then [Net] else []) + All(groups, 0, 0)
      <==> NoneHidden(groups, 0, 0, net)
  {
    FromCompleteIff(groups, 0, 0, net);
    SameHead(Net, From(groups, 0, 0, true), All(groups, 0, 0));
    assert [] + All(groups, 0, 0) == All(groups, 0, 0);
  }

  /** An inactive device hides the whole next group. */
  lemma HiddenByInactive()
    ensures var groups := [Configured([Present(false)]), Configured([Present(true)])];
      Rest(groups, false, Null) == [] && All(groups, 0, 0) == [Dev(1, 0)]
  {
    var groups := [Configured([Present(false)]), Configured([Present(true)])];
    assert From(groups, 1, 0, true) == From(groups, 2, 0, false) == [];
    assert All(groups, 1, 0) == [Dev(1, 0)] + All(groups, 1, 1);
    assert All(groups, 0, 0) == [] + All(groups, 0, 1);
  }

  /** The network device hides the whole first group. */
  lemma HiddenByNet()
    ensures var groups := [Configured([Present(true)])];
      Rest(groups, true, Null) == [Net] && All(groups, 0, 0) == [Dev(0, 0)]
  {
    var groups := [Configured([Present(true)])];
    assert From(groups, 0, 0, true) == From(groups, 1, 0, false) == [];
    assert All(groups, 0, 0) == [Dev(0, 0)] + All(groups, 0, 1);
  }

  ghost predicate AllActive(groups: seq<Group>) {
    forall g, i :: 0 <= g < |groups| && 0 <= i < Max(groups[g]) ==> groups[g].slots[i] != Present(false)
  }

  lemma {:induction false} ActiveHidesNone(groups: seq<Group>, g: nat, i: nat)
    requires AllActive(groups)
    ensures NoneHidden(groups, g, i, false)
    decreases |groups| - g, if g < |groups| then Max(groups[g]) - i else 0
  {
    if g < |groups| {
      if i >= Max(groups[g]) { ActiveHidesNone(groups, g + 1, 0); } else { ActiveHidesNone(groups, g, i + 1); }
    }
  }

  /** Without a network device and with every present device active, a round hands out every device once, in order. */
  lemma RoundIsComplete(groups: seq<Group>)
    requires AllActive(groups)
    ensures var list := Rest(groups, false, Null);
      InOrder(list) && forall c :: c in list <==> Active(groups, c)
  {
    ActiveHidesNone(groups, 0, 0);
    FromCompleteIff(groups, 0, 0, false);
    AllIsAll(groups, 0, 0);
  }
}
