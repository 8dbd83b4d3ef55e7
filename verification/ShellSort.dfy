/** `qsort`: a shell sort in place, with the gaps 1, 4, 13, 40, ... */
module ShellSort {

  /** The gaps the sort uses. The last of them is 1 and each is a third of the next. */
  predicate Gap(g: nat) {
    g == 1 || (g > 1 && g % 3 == 1 && Gap(g / 3))
  }

  /** All the sort needs of a comparison: two items are not both out of order either way round. */
  ghost predicate Flips<T(!new)>(comp: (T, T) -> int) {
    forall x, y :: comp(x, y) > 0 ==> comp(y, x) <= 0
  }

  /** Neighbours at distance g are in order up to position n. */
  ghost predicate InOrder<T>(comp: (T, T) -> int, s: seq<T>, g: nat, n: nat) {
    forall k :: 0 <= k && k + g < n && k + g < |s| ==> comp(s[k], s[k + g]) <= 0
  }

  method FirstGap(n: nat) returns (g: nat)
    requires n > 1
    ensures Gap(g) && (n - 1) / 3 <= g < n
  {
    g := 1;
    while g < (n - 1) / 3
      invariant Gap(g) && g < n
    {
      g := 3 * g + 1;
    }
  }

  lemma SwapKeepsItems<T>(s: seq<T>, i: nat, j: nat)
    requires i < j < |s|
    ensures multiset(s[i := s[j]][j := s[i]]) == multiset(s)
  {
  }

  method Swap<T>(a: array<T>, n: nat, i: nat, j: nat)
    requires i < j < n <= a.Length
    modifies a
    ensures a[..n] == old(a[..n])[i := old(a[j])][j := old(a[i])] && a[n..] == old(a[n..])
    ensures multiset(a[..n]) == multiset(old(a[..n]))
  {
    SwapKeepsItems(a[..n], i, j);
    a[i], a[j] := a[j], a[i];
    assert a[..n] == old(a[..n])[i := old(a[j])][j := old(a[i])];
  }

  /** While the item at p moves down its chain: every other pair is in order, and so is the pair around it. */
  ghost predicate Moving<T>(comp: (T, T) -> int, s: seq<T>, g: nat, i: nat, p: nat) {
    && g > 0 && p <= i < |s|
    && (forall k :: 0 <= k && k + g <= i && k + g != p ==> comp(s[k], s[k + g]) <= 0)
    && (g <= p && p + g <= i ==> comp(s[p - g], s[p + g]) <= 0)
  }

  lemma MoveDown<T(!new)>(comp: (T, T) -> int, s: seq<T>, g: nat, i: nat, p: nat)
    requires Flips(comp) && Moving(comp, s, g, i, p) && g <= p && comp(s[p - g], s[p]) > 0
    ensures Moving(comp, s[p - g := s[p]][p := s[p - g]], g, i, p - g)
  {
    var t := s[p - g := s[p]][p := s[p - g]];
    forall k | 0 <= k && k + g <= i && k + g != p - g
      ensures comp(t[k], t[k + g]) <= 0
    {
      if k == p - g {
        assert t[k] == s[p] && t[k + g] == s[p - g];
      } else if k == p {
        assert t[k] == s[p - g] && t[k + g] == s[p + g];
      } else {
        assert t[k] == s[k] && t[k + g] == s[k + g];
      }
    }
    if g <= p - g {
      assert t[p - g - g] == s[p - g - g] && t[p] == s[p - g];
      assert comp(s[p - g - g], s[p - g - g + g]) <= 0;
    }
  }

  lemma Settled<T>(comp: (T, T) -> int, s: seq<T>, g: nat, i: nat, p: nat)
    requires Moving(comp, s, g, i, p) && (g <= p ==> comp(s[p - g], s[p]) <= 0)
    ensures InOrder(comp, s, g, i + 1)
  {
    forall k | 0 <= k && k + g < i + 1 && k + g < |s|
      ensures comp(s[k], s[k + g]) <= 0
    {
      if k + g == p { assert k == p - g; }
    }
  }

  /** Moves item i down its chain to its place. */
  method Insert<T(!new)>(comp: (T, T) -> int, a: array<T>, n: nat, g: nat, i: nat)
    requires Flips(comp) && 0 < g <= i < n <= a.Length && InOrder(comp, a[..n], g, i)
    modifies a
    ensures InOrder(comp, a[..n], g, i + 1)
    ensures multiset(a[..n]) == multiset(old(a[..n])) && a[n..] == old(a[n..])
  {
    var p: nat := i;
    while p >= g && comp(a[p - g], a[p]) > 0
      invariant p <= i && Moving(comp, a[..n], g, i, p)
      invariant multiset(a[..n]) == multiset(old(a[..n])) && a[n..] == old(a[n..])
    {
      MoveDown(comp, a[..n], g, i, p);
      Swap(a, n, p - g, p);
      p := p - g;
    }
    Settled(comp, a[..n], g, i, p);
  }

  /** One pass: every chain of items at distance g becomes ordered. */
  method Pass<T(!new)>(comp: (T, T) -> int, a: array<T>, n: nat, g: nat)
    requires Flips(comp) && 0 < g < n <= a.Length
    modifies a
    ensures InOrder(comp, a[..n], g, n)
    ensures multiset(a[..n]) == multiset(old(a[..n])) && a[n..] == old(a[n..])
  {
    var i: nat := g;
    while i < n
      invariant g <= i <= n && InOrder(comp, a[..n], g, i)
      invariant multiset(a[..n]) == multiset(old(a[..n])) && a[n..] == old(a[n..])
    {
      Insert(comp, a, n, g, i);
      i := i + 1;
    }
  }

  /** `qsort` of the first n items: a rearrangement of them in which no neighbours are out of order. */
  method Qsort<T(!new)>(comp: (T, T) -> int, a: array<T>, n: nat)
    requires Flips(comp) && n <= a.Length
    modifies a
    ensures InOrder(comp, a[..n], 1, n)
    ensures multiset(a[..n]) == multiset(old(a[..n])) && a[n..] == old(a[n..])
  {
    if n > 1 {
      var g: nat := FirstGap(n);
      while g != 0
        invariant g == 0 || (Gap(g) && g < n)
        invariant g == 0 ==> InOrder(comp, a[..n], 1, n)
        invariant multiset(a[..n]) == multiset(old(a[..n])) && a[n..] == old(a[n..])
      {
        Pass(comp, a, n, g);
        g := (g - 1) / 3;
      }
    }
  }
}
