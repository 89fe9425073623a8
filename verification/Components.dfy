/**
 The components of a path (lines 18-68 of fs/namei.c): the names between the slashes.
 */
module Components {
  import opened Wrappers

  function SkipSlashes(path: string, p: nat): (q: nat)
    requires p <= |path|
    ensures p <= q <= |path| && (q < |path| ==> path[q] != '/')
    decreases |path| - p
  {
    if p < |path| && path[p] == '/' then SkipSlashes(path, p + 1) else p
  }

  function EndOfName(path: string, p: nat): (q: nat)
    requires p <= |path|
    ensures p <= q <= |path| && (p < |path| && path[p] != '/' ==> p < q)
    decreases |path| - p
  {
    if p < |path| && path[p] != '/' then EndOfName(path, p + 1) else p
  }

  /** The names between the slashes, from p on. */
  function Names(path: string, p: nat): seq<string>
    requires p <= |path|
    decreases |path| - p
  {
    var q := SkipSlashes(path, p);
    if q == |path| then [] else [path[q..EndOfName(path, q)]] + Names(path, EndOfName(path, q))
  }

  method Skip(path: string, p: nat) returns (q: nat)
    requires p <= |path|
    ensures q == SkipSlashes(path, p)
  {
    q := p;
    while q < |path| && path[q] == '/'
      invariant p <= q <= |path| && SkipSlashes(path, q) == SkipSlashes(path, p)
    {
      q := q + 1;
    }
  }

  /** next_component */
  method NextName(path: string, p: nat) returns (name: Option<string>, q: nat)
    requires p <= |path|
    ensures q <= |path|
    ensures name.None? ==> Names(path, p) == []
    ensures name.Some? ==> p < q && Names(path, p) == [name.value] + Names(path, q)
    ensures name.None? <==> OnlySlashes(path[p..])
    ensures name.Some? ==>
      && name.value != "" && '/' !in name.value && |name.value| <= q - p
      && path[q - |name.value|..q] == name.value && OnlySlashes(path[p..q - |name.value|])
      && (q < |path| ==> path[q] == '/')
  {
    NoNames(path, p);
    SkipPast(path, p);
    var from := Skip(path, p);
    if from == |path| {
      return None, from;
    }
    q := from;
    while q < |path| && path[q] != '/'
      invariant from <= q <= |path| && EndOfName(path, q) == EndOfName(path, from)
      invariant '/' !in path[from..q]
    {
      assert path[from..q + 1] == path[from..q] + [path[q]];
      q := q + 1;
    }
    name := Some(path[from..q]);
    assert q - |path[from..q]| == from;
  }

  lemma SkipNames(path: string, p: nat)
    requires p <= |path|
    ensures Names(path, SkipSlashes(path, p)) == Names(path, p)
    ensures SkipSlashes(path, p) == |path| ==> Names(path, p) == []
  {
    SkipTwice(path, p);
  }

  lemma {:induction false} SkipTwice(path: string, p: nat)
    requires p <= |path|
    ensures SkipSlashes(path, SkipSlashes(path, p)) == SkipSlashes(path, p)
    decreases |path| - p
  {
    if p < |path| && path[p] == '/' {
      SkipTwice(path, p + 1);
    }
  }

  // ---------- what the names of a path are ----------

  predicate OnlySlashes(s: string) {
    forall i :: 0 <= i < |s| ==> s[i] == '/'
  }

  lemma {:induction false} SkipPast(path: string, p: nat)
    requires p <= |path|
    ensures OnlySlashes(path[p..SkipSlashes(path, p)])
    decreases |path| - p
  {
    if p < |path| && path[p] == '/' {
      SkipPast(path, p + 1);
      assert path[p..SkipSlashes(path, p)] == [path[p]] + path[p + 1..SkipSlashes(path, p)];
    }
  }

  lemma {:induction false} NameStops(path: string, p: nat)
    requires p <= |path|
    ensures var e := EndOfName(path, p); '/' !in path[p..e] && (e < |path| ==> path[e] == '/')
    decreases |path| - p
  {
    if p < |path| && path[p] != '/' {
      NameStops(path, p + 1);
      assert path[p..EndOfName(path, p)] == [path[p]] + path[p + 1..EndOfName(path, p)];
    }
  }

  /** No name is empty or holds a slash. */
  lemma {:induction false} CleanNames(path: string, p: nat)
    requires p <= |path|
    ensures forall i :: 0 <= i < |Names(path, p)| ==> Names(path, p)[i] != "" && '/' !in Names(path, p)[i]
    decreases |path| - p
  {
    var q := SkipSlashes(path, p);
    if q < |path| {
      NameStops(path, q);
      CleanNames(path, EndOfName(path, q));
    }
  }

  /** A path of slashes only has no names, and no other path has none. */
  lemma {:induction false} NoNames(path: string, p: nat)
    requires p <= |path|
    ensures Names(path, p) == [] <==> OnlySlashes(path[p..])
    decreases |path| - p
  {
    SkipPast(path, p);
    var q := SkipSlashes(path, p);
    if q < |path| {
      assert path[p..][q - p] == path[q];
    } else {
      assert path[p..q] == path[p..];
    }
  }

  /** What stands before p has no part in the names from p on. */
  lemma {:induction false} Behind(a: string, b: string, p: nat)
    requires p <= |b|
    ensures SkipSlashes(a + b, |a| + p) == |a| + SkipSlashes(b, p)
    ensures EndOfName(a + b, |a| + p) == |a| + EndOfName(b, p)
    decreases |b| - p
  {
    if p < |b| {
      assert (a + b)[|a| + p] == b[p];
      Behind(a, b, p + 1);
    }
  }

  lemma SlicedBehind(a: string, b: string, q: nat, e: nat)
    requires q <= e <= |b|
    ensures (a + b)[|a| + q..|a| + e] == b[q..e]
  {
    assert (a + b)[|a|..] == b && (a + b)[|a| + q..|a| + e] == (a + b)[|a|..][q..e];
  }

  lemma {:induction false} NamesBehind(a: string, b: string, p: nat)
    requires p <= |b|
    ensures Names(a + b, |a| + p) == Names(b, p)
    decreases |b| - p
  {
    Behind(a, b, p);
    var q := SkipSlashes(b, p);
    if q < |b| {
      Behind(a, b, q);
      var e := EndOfName(b, q);
      SlicedBehind(a, b, q, e);
      NamesBehind(a, b, e);
    }
  }

  /** A name in front of the slash ends where it ended. */
  lemma {:induction false} NameInFront(s: string, t: string, p: nat)
    requires p <= |s|
    ensures EndOfName(s + "/" + t, p) == EndOfName(s, p)
    decreases |s| - p
  {
    if p < |s| {
      NameInFront(s, t, p + 1);
    }
  }

  lemma FirstStep(path: string, p: nat)
    requires p <= |path|
    ensures p == |path| ==> Names(path, p) == []
    ensures p < |path| && path[p] == '/' ==> Names(path, p) == Names(path, p + 1)
    ensures p < |path| && path[p] != '/' ==>
              Names(path, p) == [path[p..EndOfName(path, p)]] + Names(path, EndOfName(path, p))
  {
  }

  /** A path joined with a slash has the names of both parts, in order. */
  lemma {:induction false} NamesJoin(s: string, t: string, p: nat)
    requires p <= |s|
    ensures Names(s + "/" + t, p) == Names(s, p) + Names(t, 0)
    decreases |s| - p
  {
    hide Names, EndOfName, SkipSlashes;
    var u := s + "/" + t;
    FirstStep(u, p);
    FirstStep(s, p);
    if p == |s| {
      NamesBehind(s + "/", t, 0);
    } else if s[p] == '/' {
      NamesJoin(s, t, p + 1);
    } else {
      NameInFront(s, t, p);
      var e := EndOfName(s, p);
      NamesJoin(s, t, e);
      assert u[p..e] == s[p..e];
    }
  }

  lemma {:induction false} WholeName(path: string, p: nat)
    requires p <= |path| && '/' !in path
    ensures EndOfName(path, p) == |path|
    decreases |path| - p
  {
    if p < |path| {
      WholeName(path, p + 1);
    }
  }

  lemma OneName(path: string)
    requires path != [] && '/' !in path
    ensures Names(path, 0) == [path]
  {
    WholeName(path, 0);
    assert Names(path, |path|) == [] && path[0..|path|] == path;
  }
}
