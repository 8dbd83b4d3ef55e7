/** `envmatch` and `fw_getenv`: looking a name up in a block of `key=value` strings, each closed by a NUL,
    the last one followed by an empty string. */
module EnvLookup {
  import opened Wrappers
  import opened CString

  // ---------------------------------------------------------------- one entry

  /** The key of a name or of an entry: what precedes the first equals sign. */
  function Key(s: string): string {
    if s == [] || s[0] == '=' then [] else [s[0]] + Key(s[1..])
  }

  /** Where the value of an entry starts, if its key is the one asked for. */
  function Match(key: string, entry: string): Option<nat> {
    if key + "=" <= entry then Some(|key| + 1) else None
  }

  lemma {:induction false} KeyAt(s: string, i: nat)
    requires i <= |s| && forall k :: 0 <= k < i ==> s[k] != '='
    ensures |Key(s)| >= i && Key(s)[..i] == s[..i]
    ensures (i == |s| || s[i] == '=') ==> Key(s) == s[..i]
  {
    if i > 0 {
      KeyAt(s[1..], i - 1);
    }
  }

  /** The name and the text at env, each closed by a NUL, are compared up to the first difference. */
  method EnvMatch(name: string, buf: string, env: nat, end: nat) returns (r: Option<nat>)
    requires NUL !in name && env <= end < |buf| && buf[end] == NUL && NUL !in buf[env..end]
    requires '=' in buf[env..end] || buf[env..end] != name
    ensures r == match Match(Key(name), buf[env..end]) case None => None case Some(k) => Some(env + k)
  {
    ghost var entry := buf[env..end];
    var i: nat := 0;
    while CharAt(name, i) == buf[env + i]
      invariant i <= |name| && env + i <= end
      invariant forall k :: 0 <= k < i ==> name[k] == entry[k] && name[k] != '='
      decreases |name| - i
    {
      assert buf[env + i] == CharAt(entry, i) by { if env + i < end { assert buf[env + i] == entry[i]; } }
      NotOver(name, entry, i);
      assert env + i < end;
      assert buf[env + i] == entry[i];
      if name[i] == '=' {
        KeyAt(name, i);
        assert entry[..i] == name[..i];
        assert Key(name) + "=" == entry[..i + 1];
        return Some(env + i + 1);
      }
      i := i + 1;
    }
    Differs(name, entry, i, buf[env + i]);
    if i == |name| && buf[env + i] == '=' {
      return Some(env + i + 1);
    }
    return None;
  }

  /** The comparison stops at character i, with a difference or with an equals sign. */
  predicate StopsAt(name: string, entry: string, i: nat) {
    i <= |name| && i <= |entry| && (CharAt(name, i) != CharAt(entry, i) || CharAt(name, i) == '=')
  }

  /** It stops inside both strings unless the entry is exactly the name, without an equals sign; then it would run
      on behind both of them. */
  lemma StopsInsideIff(name: string, entry: string)
    requires NUL !in name && NUL !in entry
    ensures (exists i: nat :: StopsAt(name, entry, i)) <==> '=' in entry || entry != name
  {
    if entry == name {
      if '=' in entry {
        var i :| 0 <= i < |entry| && entry[i] == '=';
        assert StopsAt(name, entry, i);
      }
    } else if |name| < |entry| {
      assert entry[|name|] in entry;
      assert StopsAt(name, entry, |name|);
    } else if |entry| < |name| {
      assert name[|entry|] in name;
      assert StopsAt(name, entry, |entry|);
    } else {
      var i :| 0 <= i < |name| && name[i] != entry[i];
      assert StopsAt(name, entry, i);
    }
  }

  lemma NotOver(name: string, entry: string, i: nat)
    requires i <= |name| && i <= |entry| && NUL !in name && NUL !in entry
    requires '=' in entry || entry != name
    requires forall k :: 0 <= k < i ==> name[k] == entry[k] && name[k] != '='
    requires CharAt(name, i) == CharAt(entry, i)
    ensures i < |name| && i < |entry|
  {
    assert i < |name| <==> i < |entry|;
    assert i == |entry| ==> '=' !in entry;
  }

  lemma MatchAll(key: string, entry: string)
    requires |key| <= |entry| && entry[..|key|] == key
    ensures Match(key, entry) == if CharAt(entry, |key|) == '=' then Some(|key| + 1) else None
  {
    assert (key + "=")[|key|] == '=';
    if |key| < |entry| && entry[|key|] == '=' {
      assert key + "=" == entry[..|key| + 1];
    }
  }

  lemma NoMatch(key: string, entry: string, i: nat)
    requires i <= |key| && (key + "=")[i] != CharAt(entry, i)
    ensures Match(key, entry) == None
  {
  }

  lemma Differs(name: string, entry: string, i: nat, c: char)
    requires i <= |name| && i <= |entry| && c == CharAt(entry, i) && NUL !in name && NUL !in entry
    requires forall k :: 0 <= k < i ==> name[k] == entry[k] && name[k] != '='
    requires CharAt(name, i) != c
    ensures Match(Key(name), entry) == if i == |name| && c == '=' then Some(i + 1) else None
  {
    KeyAt(name, i);
    if i == |name| {
      assert entry[..i] == name[..i] == name;
      MatchAll(name, entry);
    } else {
      KeyChar(name, i);
      NoMatch(Key(name), entry, i);
    }
  }

  lemma KeyChar(name: string, i: nat)
    requires i < |name| && forall k :: 0 <= k < i ==> name[k] != '='
    ensures i <= |Key(name)| && (Key(name) + "=")[i] == name[i]
  {
    KeyAt(name, i);
    if name[i] != '=' {
      KeyAt(name, i + 1);
      assert Key(name)[i] == Key(name)[..i + 1][i];
    }
  }

  // ---------------------------------------------------------------- the block

  /** The next NUL. */
  function End(buf: string, i: nat): (e: nat)
    requires i <= |buf|
    ensures i <= e <= |buf| && (e < |buf| ==> buf[e] == NUL) && forall k :: i <= k < e ==> buf[k] != NUL
    decreases |buf| - i
  {
    if i == |buf| || buf[i] == NUL then i else End(buf, i + 1)
  }

  /** The first character that is not a NUL. */
  function Start(buf: string, i: nat): (s: nat)
    requires i <= |buf|
    ensures i <= s <= |buf| && (s < |buf| ==> buf[s] != NUL) && forall k :: i <= k < s ==> buf[k] == NUL
    decreases |buf| - i
  {
    if i == |buf| || buf[i] != NUL then i else Start(buf, i + 1)
  }

  /** The entries from position env on, looked up in turn; an entry that runs past the block ends the search. */
  function Scan(buf: string, size: nat, env: nat, key: string): Option<nat>
    decreases |buf| - env
  {
    if env >= |buf| || buf[env] == NUL || End(buf, env) > size then None
    else
      var e := End(buf, env);
      match Match(key, buf[env..e])
      case Some(k) => Some(env + k)
      case None => Scan(buf, size, e + 1, key)
  }

  /** No entry that the search visits is the bare name without an equals sign. */
  predicate NeverBare(buf: string, size: nat, env: nat, name: string)
    decreases |buf| - env
  {
    env >= |buf| || buf[env] == NUL || End(buf, env) > size ||
    var e := End(buf, env);
    ('=' in buf[env..e] || buf[env..e] != name) && NeverBare(buf, size, e + 1, name)
  }

  /** Where the search starts: leading NULs are skipped, and a block of nothing else holds no entry. */
  function First(buf: string, size: nat): Option<nat>
    requires size < |buf|
  {
    var s := Start(buf, 0);
    if s <= size then Some(s) else None
  }

  function Get(buf: string, size: nat, name: string): Option<nat>
    requires size < |buf|
  {
    match First(buf, size)
    case None => None
    case Some(s) => Scan(buf, size, s, Key(name))
  }

  method SkipNuls(buf: string, size: nat) returns (r: Option<nat>)
    requires size < |buf|
    ensures r == First(buf, size)
  {
    var nxt: nat := 0;
    while buf[nxt] == NUL
      invariant nxt <= size && Start(buf, nxt) == Start(buf, 0)
      decreases size - nxt
    {
      if nxt >= size {
        return None;
      }
      nxt := nxt + 1;
    }
    return Some(nxt);
  }

  /** The end of the entry at env, unless it runs past the block. */
  method FindEnd(buf: string, size: nat, env: nat) returns (r: Option<nat>)
    requires size + 1 < |buf| && env <= size + 1
    ensures r == if End(buf, env) > size && buf[env] != NUL then None else Some(End(buf, env))
  {
    var nxt: nat := env;
    while buf[nxt] != NUL
      invariant env <= nxt <= size + 1 && End(buf, nxt) == End(buf, env)
      invariant nxt > env ==> buf[env] != NUL && nxt <= size
      decreases size + 1 - nxt
    {
      if nxt >= size {
        return None;
      }
      nxt := nxt + 1;
    }
    return Some(nxt);
  }

  lemma ScanStep(buf: string, size: nat, env: nat, key: string, e: nat)
    requires env < |buf| && buf[env] != NUL && e == End(buf, env) && e <= size < |buf|
    ensures Scan(buf, size, env, key) ==
      match Match(key, buf[env..e]) case None => Scan(buf, size, e + 1, key) case Some(k) => Some(env + k)
  {
  }

  lemma BareStep(buf: string, size: nat, env: nat, name: string, e: nat)
    requires env < |buf| && buf[env] != NUL && e == End(buf, env) && e <= size < |buf|
    ensures NeverBare(buf, size, env, name)
      <==> ('=' in buf[env..e] || buf[env..e] != name) && NeverBare(buf, size, e + 1, name)
  {
  }

  /** `fw_getenv`: `size` characters of the buffer belong to the block, and two more can be read. */
  method FwGetenv(buf: string, size: nat, name: string) returns (r: Option<nat>)
    requires size + 1 < |buf| && NUL !in name
    requires First(buf, size).Some? ==> NeverBare(buf, size, First(buf, size).value, name)
    ensures r == Get(buf, size, name)
  {
    var start := SkipNuls(buf, size);
    if start == None {
      return None;
    }
    r := Search(buf, size, start.value, name, Key(name), Get(buf, size, name));
  }

  /** One entry of the search: it is the answer, or the search goes on behind it. */
  method Visit(buf: string, size: nat, env: nat, name: string, ghost key: string)
    returns (next: Option<nat>, r: Option<nat>)
    requires size + 1 < |buf| && NUL !in name && key == Key(name)
    requires env <= size + 1 && buf[env] != NUL && NeverBare(buf, size, env, name)
    ensures next.None? ==> r == Scan(buf, size, env, key)
    ensures next.Some? ==> env < next.value <= size + 1 && NeverBare(buf, size, next.value, name)
    ensures next.Some? ==> Scan(buf, size, next.value, key) == Scan(buf, size, env, key)
  {
    var nxt := FindEnd(buf, size, env);
    if nxt == None {
      return None, None;
    }
    ScanStep(buf, size, env, key, nxt.value);
    BareStep(buf, size, env, name, nxt.value);
    r := EnvMatch(name, buf, env, nxt.value);
    next := if r == None then Some(nxt.value + 1) else None;
  }

  method Search(buf: string, size: nat, start: nat, name: string, ghost key: string, ghost goal: Option<nat>)
    returns (r: Option<nat>)
    requires size + 1 < |buf| && NUL !in name && key == Key(name)
    requires start <= size && NeverBare(buf, size, start, name) && goal == Scan(buf, size, start, key)
    ensures r == goal
  {
    var env: nat := start;
    while buf[env] != NUL
      invariant env <= size + 1 && NeverBare(buf, size, env, name) && Scan(buf, size, env, key) == goal
      decreases size + 1 - env
    {
      var next, val := Visit(buf, size, env, name, key);
      if next == None {
        return val;
      }
      env := next.value;
    }
    return None;
  }

  // ---------------------------------------------------------------- the block as an association list

  datatype Pair = Pair(key: string, value: string)

  predicate WellFormed(p: Pair) {
    '=' !in p.key && NUL !in p.key && NUL !in p.value
  }

  function Text(p: Pair): string {
    p.key + "=" + p.value
  }

  function Render(list: seq<Pair>): string {
    if list == [] then [] else Text(list[0]) + [NUL] + Render(list[1..])
  }

  function Assoc(list: seq<Pair>, key: string): Option<string> {
    if list == [] then None
    else if list[0].key == key then Some(list[0].value)
    else Assoc(list[1..], key)
  }

  lemma {:induction false} KeyHasNone(s: string)
    ensures '=' !in Key(s)
  {
    if s != [] && s[0] != '=' { KeyHasNone(s[1..]); }
  }

  lemma SameKey(a: string, b: string, v: string)
    requires '=' !in a && '=' !in b && a + "=" <= b + "=" + v
    ensures a == b
  {
    var n, t := a + "=", b + "=" + v;
    assert forall k :: 0 <= k < |b| ==> t[k] == b[k];
    assert n[|a|] == '=' && t[|b|] == '=';
    assert n == t[..|n|];
    assert |a| == |b|;
    assert a == n[..|a|] && b == t[..|b|];
  }

  /** A key matches an entry exactly when it is the entry's key: never a part of it, never more. */
  lemma MatchIff(key: string, p: Pair)
    requires WellFormed(p) && '=' !in key
    ensures Match(key, Text(p)) == if key == p.key then Some(|p.key| + 1) else None
  {
    if key + "=" <= Text(p) {
      SameKey(key, p.key, p.value);
    } else {
      assert p.key + "=" == Text(p)[..|p.key| + 1];
    }
  }

  lemma {:induction false} EndIs(buf: string, i: nat, e: nat)
    requires i <= e < |buf| && buf[e] == NUL && forall k :: i <= k < e ==> buf[k] != NUL
    ensures End(buf, i) == e
    decreases e - i
  {
    if i < e { EndIs(buf, i + 1, e); }
  }

  /** The text `s` followed by a NUL stands at position i. */
  ghost predicate Holds(buf: string, i: nat, s: string) {
    i + |s| < |buf| && buf[i..i + |s|] == s && buf[i + |s|] == NUL
  }

  lemma HoldsEnd(buf: string, i: nat, s: string)
    requires Holds(buf, i, s) && NUL !in s
    ensures End(buf, i) == i + |s| && buf[i..End(buf, i)] == s
  {
    forall k | i <= k < i + |s|
      ensures buf[k] != NUL
    {
      assert buf[k] == s[k - i];
    }
    EndIs(buf, i, i + |s|);
  }

  lemma HoldsPart(buf: string, i: nat, a: string, b: string)
    requires Holds(buf, i, a + [NUL] + b)
    ensures Holds(buf, i, a) && Holds(buf, i + |a| + 1, b)
  {
    var s := a + [NUL] + b;
    var all := buf[i..i + |s|];
    assert buf[i..i + |a|] == all[..|a|];
    assert buf[i + |a|] == all[|a|];
    assert buf[i + |a| + 1..i + |s|] == all[|a| + 1..];
  }

  lemma HoldsValue(buf: string, i: nat, p: Pair)
    requires Holds(buf, i, Text(p))
    ensures Holds(buf, i + |p.key| + 1, p.value)
  {
    var t := Text(p);
    assert buf[i + |p.key| + 1..i + |t|] == buf[i..i + |t|][|p.key| + 1..];
  }

  /** A position of the buffer where the value v stands, if there is one. */
  ghost predicate Returns(buf: string, r: Option<nat>, v: Option<string>) {
    (r.None? && v.None?) || (r.Some? && v.Some? && Holds(buf, r.value, v.value))
  }

  lemma EntryAt(buf: string, env: nat, p: Pair, e: nat)
    requires WellFormed(p) && Holds(buf, env, Text(p)) && e == env + |Text(p)|
    ensures End(buf, env) == e && buf[env] != NUL && buf[env..e] == Text(p)
  {
    HoldsEnd(buf, env, Text(p));
    FirstChar(buf, env, p);
  }

  /** What the search does with one well-formed entry. */
  lemma ScanEntry(buf: string, size: nat, env: nat, p: Pair, key: string, e: nat)
    requires WellFormed(p) && '=' !in key && Holds(buf, env, Text(p)) && e == env + |Text(p)| && e <= size < |buf|
    ensures Scan(buf, size, env, key) == if key == p.key then Some(env + |p.key| + 1) else Scan(buf, size, e + 1, key)
  {
    EntryAt(buf, env, p, e);
    MatchIff(key, p);
    ScanStep(buf, size, env, key, e);
  }

  lemma BareEntry(buf: string, size: nat, env: nat, p: Pair, name: string, e: nat)
    requires WellFormed(p) && Holds(buf, env, Text(p)) && e == env + |Text(p)| && e <= size < |buf|
    ensures NeverBare(buf, size, env, name) == NeverBare(buf, size, e + 1, name)
  {
    EntryAt(buf, env, p, e);
    assert Text(p)[|p.key|] == '=';
    BareStep(buf, size, env, name, e);
  }

  ghost predicate AllWellFormed(list: seq<Pair>) {
    forall p :: p in list ==> WellFormed(p)
  }

  /** A block stands at env and ends inside the size. */
  ghost predicate Block(buf: string, size: nat, env: nat, list: seq<Pair>) {
    AllWellFormed(list) && Holds(buf, env, Render(list)) && env + |Render(list)| <= size < |buf|
  }

  /** The same, entry by entry. */
  ghost predicate Laid(buf: string, size: nat, env: nat, list: seq<Pair>)
    decreases |list|
  {
    if list == [] then env < |buf| && buf[env] == NUL
    else
      && WellFormed(list[0]) && Holds(buf, env, Text(list[0])) && env + |Text(list[0])| <= size < |buf|
      && Laid(buf, size, env + |Text(list[0])| + 1, list[1..])
  }

  lemma {:induction false} BlockIsLaid(buf: string, size: nat, env: nat, list: seq<Pair>)
    requires Block(buf, size, env, list)
    ensures Laid(buf, size, env, list)
    decreases |list|
  {
    if list != [] {
      assert list[0] in list;
      HoldsPart(buf, env, Text(list[0]), Render(list[1..]));
      BlockIsLaid(buf, size, env + |Text(list[0])| + 1, list[1..]);
    }
  }

  lemma ReturnsHead(buf: string, env: nat, p: Pair, same: bool, r: Option<nat>, v: Option<string>)
    requires Holds(buf, env, Text(p)) && Returns(buf, r, v)
    ensures Returns(buf, if same then Some(env + |p.key| + 1) else r, if same then Some(p.value) else v)
  {
    HoldsValue(buf, env, p);
  }

  lemma {:induction false} ScanIsAssoc(buf: string, size: nat, env: nat, list: seq<Pair>, key: string)
    requires Laid(buf, size, env, list) && '=' !in key
    ensures Returns(buf, Scan(buf, size, env, key), Assoc(list, key))
    decreases |list|
  {
    if list != [] {
      var p := list[0];
      var e := env + |Text(p)|;
      ScanIsAssoc(buf, size, e + 1, list[1..], key);
      ScanEntry(buf, size, env, p, key, e);
      ReturnsHead(buf, env, p, key == p.key, Scan(buf, size, e + 1, key), Assoc(list[1..], key));
    }
  }

  lemma {:induction false} LaidNeverBare(buf: string, size: nat, env: nat, list: seq<Pair>, name: string)
    requires Laid(buf, size, env, list)
    ensures NeverBare(buf, size, env, name)
    decreases |list|
  {
    if list != [] {
      var e := env + |Text(list[0])|;
      LaidNeverBare(buf, size, e + 1, list[1..], name);
      BareEntry(buf, size, env, list[0], name, e);
    }
  }

  lemma FirstChar(buf: string, env: nat, p: Pair)
    requires WellFormed(p) && Holds(buf, env, Text(p))
    ensures buf[env] != NUL
  {
    assert buf[env] == buf[env..env + |Text(p)|][0] == Text(p)[0];
  }

  lemma {:induction false} StartIs(buf: string, i: nat, s: nat)
    requires i <= s < |buf| && buf[s] != NUL && forall k :: i <= k < s ==> buf[k] == NUL
    ensures Start(buf, i) == s
    decreases s - i
  {
    if i < s { StartIs(buf, i + 1, s); }
  }

  /** In every well-formed block with at least one entry, after any number of NULs, the look-up gives the value
      of the first entry with the key, and nothing if there is none. */
  lemma GetIsAssoc(buf: string, size: nat, z: nat, list: seq<Pair>, name: string)
    requires size < |buf| && list != [] && Block(buf, size, z, list)
    requires forall k :: 0 <= k < z && k < |buf| ==> buf[k] == NUL
    ensures First(buf, size) == Some(z) && NeverBare(buf, size, z, name)
    ensures Returns(buf, Get(buf, size, name), Assoc(list, Key(name)))
  {
    BlockIsLaid(buf, size, z, list);
    FirstChar(buf, z, list[0]);
    StartIs(buf, 0, z);
    KeyHasNone(name);
    ScanIsAssoc(buf, size, z, list, Key(name));
    LaidNeverBare(buf, size, z, list, name);
  }

  // ---------------------------------------------------------------- any block

  /** The value at p is inside the block, and so is its NUL; the key and an equals sign stand before it, from position
      a on, and a NUL before them unless a is where the search started. */
  ghost predicate Sound(buf: string, size: nat, start: nat, key: string, p: nat, a: nat) {
    && start <= a && a + |key| + 1 == p <= |buf| && End(buf, p) <= size < |buf|
    && buf[a..p] == key + "=" && (a == start || buf[a - 1] == NUL)
  }

  lemma {:induction false} EndAbove(buf: string, i: nat, p: nat)
    requires i <= |buf| && i <= p <= End(buf, i)
    ensures End(buf, p) == End(buf, i)
    decreases p - i
  {
    if i < p { EndAbove(buf, i + 1, p); }
  }

  lemma EntrySound(buf: string, size: nat, env: nat, key: string, e: nat)
    requires env < |buf| && e == End(buf, env) && e <= size < |buf| && key + "=" <= buf[env..e]
    ensures Sound(buf, size, env, key, env + |key| + 1, env)
  {
    var p := env + |key| + 1;
    assert buf[env..p] == buf[env..e][..|key| + 1];
    EndAbove(buf, env, p);
  }

  /** In every block, well formed or not, a value that is found is the value of an entry with that key. */
  lemma {:induction false} ScanSound(buf: string, size: nat, env: nat, key: string) returns (a: nat)
    requires size < |buf| && Scan(buf, size, env, key).Some?
    ensures Sound(buf, size, env, key, Scan(buf, size, env, key).value, a)
    decreases |buf| - env
  {
    var e := End(buf, env);
    ScanStep(buf, size, env, key, e);
    if key + "=" <= buf[env..e] {
      EntrySound(buf, size, env, key, e);
      a := env;
    } else {
      a := ScanSound(buf, size, e + 1, key);
    }
  }

  // ---------------------------------------------------------------- the empty block

  /** No text the search reaches from env on has an equals sign. */
  predicate NoEquals(buf: string, size: nat, env: nat)
    decreases |buf| - env
  {
    env >= |buf| || buf[env] == NUL || End(buf, env) > size ||
    ('=' !in buf[env..End(buf, env)] && NoEquals(buf, size, End(buf, env) + 1))
  }

  lemma NeedsEquals(n: string, e: string)
    ensures n + "=" <= e ==> '=' in e
  {
    assert (n + "=")[|n|] == '=';
  }

  lemma {:induction false} NoEqualsFindsNone(buf: string, size: nat, env: nat, key: string)
    requires NoEquals(buf, size, env)
    ensures Scan(buf, size, env, key) == None
    decreases |buf| - env
  {
    if env < |buf| && buf[env] != NUL && End(buf, env) <= size {
      var e := buf[env..End(buf, env)];
      NeedsEquals(key, e);
      NoEqualsFindsNone(buf, size, End(buf, env) + 1, key);
    }
  }

  lemma KeySplits(s: string)
    requires '=' in s
    ensures Key(Key(s)) == Key(s) && Key(s) + "=" <= s
  {
    if s[0] != '=' { KeySplits(s[1..]); }
  }

  lemma {:induction false} EqualsFinds(buf: string, size: nat, env: nat) returns (name: string)
    requires !NoEquals(buf, size, env)
    ensures Key(name) == name && Scan(buf, size, env, name) != None
    decreases |buf| - env
  {
    var e := buf[env..End(buf, env)];
    if '=' in e {
      name := Key(e);
      KeySplits(e);
    } else {
      name := EqualsFinds(buf, size, End(buf, env) + 1);
    }
  }

  /** A block whose first string is empty holds nothing, yet the search skips that NUL: no name is found in it
      exactly when what follows the NULs has no equals sign. */
  lemma EmptyBlockIff(buf: string, size: nat)
    requires size < |buf| && buf[0] == NUL
    ensures (forall name: string :: Get(buf, size, name) == None)
      <==> First(buf, size) == None || NoEquals(buf, size, First(buf, size).value)
  {
    if First(buf, size) != None {
      var s := First(buf, size).value;
      if NoEquals(buf, size, s) {
        forall name: string
          ensures Get(buf, size, name) == None
        {
          NoEqualsFindsNone(buf, size, s, Key(name));
        }
      } else {
        var name := EqualsFinds(buf, size, s);
        assert Get(buf, size, name) != None;
      }
    }
  }

  /** Left-over text behind an empty block is found. */
  lemma StaleExample(buf: string, p: Pair)
    requires WellFormed(p) && |buf| > |Text(p)| + 2 && buf[0] == NUL && Holds(buf, 1, Text(p))
    ensures Get(buf, |buf| - 1, p.key) == Some(|p.key| + 2)
  {
    FirstChar(buf, 1, p);
    StartIs(buf, 0, 1);
    KeyAt(p.key, |p.key|);
    assert p.key[..|p.key|] == p.key;
    ScanEntry(buf, |buf| - 1, 1, p, p.key, 1 + |Text(p)|);
  }
}
