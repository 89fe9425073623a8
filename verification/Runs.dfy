/** Runs of consecutive blocks, as sets and as multisets, and ownership counted with multiplicity. */
module Runs {
  predicate InRun(b: nat, p: nat, n: nat) {
    p <= b < p + n
  }

  /** The blocks p, ..., p + n - 1. */
  function RunSet(p: nat, n: nat): set<nat> {
    set b: nat | p <= b < p + n && InRun(b, p, n)
  }

  function Run(p: nat, n: nat): multiset<nat> {
    multiset(RunSet(p, n))
  }

  lemma RunSplit(p: nat, m: nat, n: nat)
    ensures Run(p, m + n) == Run(p, m) + Run(p + m, n)
  {
    assert RunSet(p, m + n) == RunSet(p, m) + RunSet(p + m, n);
  }

  ghost predicate Once(m: multiset<nat>) {
    forall b: nat :: m[b] <= 1
  }

  ghost predicate Apart(s: multiset<nat>, t: multiset<nat>) {
    forall b :: !(b in s && b in t)
  }

  lemma SizeLe(a: multiset<nat>, b: multiset<nat>)
    requires a <= b
    ensures |a| <= |b|
  {
    assert b == a + (b - a);
  }

  lemma OnceParts(s: multiset<nat>, t: multiset<nat>)
    requires Once(s + t)
    ensures Once(s) && Once(t) && Apart(s, t)
  {
    forall b
      ensures s[b] <= 1 && t[b] <= 1 && !(b in s && b in t)
    {
      assert (s + t)[b] == s[b] + t[b];
    }
  }
}
