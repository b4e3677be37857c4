/** Sequence helpers: concatenation of a list of lists, element-wise mapping, both
    insensitive to reordering up to a permutation, and `random.shuffle`. */
module Seqs {

  /** Concatenation of the lists in order (the job generators' nested `for`/`append`). */
  function Flatten<T>(xss: seq<seq<T>>): seq<T> {
    if |xss| == 0 then [] else Flatten(xss[..|xss| - 1]) + xss[|xss| - 1]
  }

  /** `[f(x) for x in s]`, where `f` is defined on every element. */
  function Map<A, B>(f: A --> B, s: seq<A>): (r: seq<B>)
    requires forall x :: x in s ==> f.requires(x)
    ensures |r| == |s| && forall i :: 0 <= i < |s| ==> r[i] == f(s[i])
  {
    seq(|s|, i requires 0 <= i < |s| => f(s[i]))
  }

  lemma {:induction false} FlattenAppend<T>(a: seq<seq<T>>, b: seq<seq<T>>)
    ensures Flatten(a + b) == Flatten(a) + Flatten(b)
  {
    if |b| > 0 {
      FlattenAppend(a, b[..|b| - 1]);
      assert (a + b)[..|a + b| - 1] == a + b[..|b| - 1];
    } else {
      assert a + b == a;
    }
  }

  lemma MapAppend<A, B>(f: A --> B, a: seq<A>, b: seq<A>)
    requires forall x :: x in a + b ==> f.requires(x)
    ensures Map(f, a + b) == Map(f, a) + Map(f, b)
  {
  }

  /** Reordering the lists reorders the concatenation's elements and nothing else. */
  lemma {:induction false} FlattenPermutation<T>(xs: seq<seq<T>>, ys: seq<seq<T>>)
    requires multiset(xs) == multiset(ys)
    ensures multiset(Flatten(xs)) == multiset(Flatten(ys))
    decreases |xs|
  {
    if |xs| == 0 {
      assert |ys| == |multiset(ys)| == 0;
    } else {
      var n := |xs| - 1;
      var x := xs[n];
      assert xs == xs[..n] + [x];
      assert x in multiset(ys);
      var k :| 0 <= k < |ys| && ys[k] == x;
      var ys' := ys[..k] + ys[k + 1..];
      assert ys == ys[..k] + [x] + ys[k + 1..];
      assert multiset(ys') == multiset(ys) - multiset{x};
      assert multiset(xs[..n]) == multiset(xs) - multiset{x};
      FlattenPermutation(xs[..n], ys');
      calc {
        multiset(Flatten(ys));
        { FlattenAppend(ys[..k] + [x], ys[k + 1..]); }
        multiset(Flatten(ys[..k] + [x]) + Flatten(ys[k + 1..]));
        { FlattenAppend(ys[..k], [x]); FlattenOne(x); }
        multiset(Flatten(ys[..k]) + x + Flatten(ys[k + 1..]));
        multiset(Flatten(ys[..k]) + Flatten(ys[k + 1..])) + multiset(x);
        { FlattenAppend(ys[..k], ys[k + 1..]); }
        multiset(Flatten(ys')) + multiset(x);
        multiset(Flatten(xs[..n])) + multiset(x);
        multiset(Flatten(xs[..n]) + x);
        { FlattenAppend(xs[..n], [x]); FlattenOne(x); }
        multiset(Flatten(xs));
      }
    }
  }

  lemma FlattenOne<T>(x: seq<T>)
    ensures Flatten([x]) == x
  {
    assert [x][..0] == [];
  }

  /** Reordering the input reorders the mapped elements and nothing else. */
  lemma {:induction false} MapPermutation<A, B>(f: A --> B, xs: seq<A>, ys: seq<A>)
    requires multiset(xs) == multiset(ys)
    requires forall x :: x in xs ==> f.requires(x)
    requires forall y :: y in ys ==> f.requires(y)
    ensures multiset(Map(f, xs)) == multiset(Map(f, ys))
    decreases |xs|
  {
    if |xs| == 0 {
      assert |ys| == |multiset(ys)| == 0;
    } else {
      var n := |xs| - 1;
      var x := xs[n];
      assert xs == xs[..n] + [x];
      assert x in multiset(ys);
      var k :| 0 <= k < |ys| && ys[k] == x;
      var ys' := ys[..k] + ys[k + 1..];
      assert ys == ys[..k] + [x] + ys[k + 1..];
      assert multiset(ys') == multiset(ys) - multiset{x};
      assert multiset(xs[..n]) == multiset(xs) - multiset{x};
      MapPermutation(f, xs[..n], ys');
      MapAppend(f, xs[..n], [x]);
      MapAppend(f, ys[..k] + [x], ys[k + 1..]);
      MapAppend(f, ys[..k], [x]);
      MapAppend(f, ys[..k], ys[k + 1..]);
    }
  }

  /** An element of the concatenation comes from one of the lists, and conversely. */
  lemma {:induction false} FlattenMember<T>(xss: seq<seq<T>>, x: T)
    ensures x in Flatten(xss) <==> exists i :: 0 <= i < |xss| && x in xss[i]
  {
    if |xss| > 0 {
      var n := |xss| - 1;
      FlattenMember(xss[..n], x);
      if x in Flatten(xss[..n]) {
        var i :| 0 <= i < n && x in xss[..n][i];
        assert x in xss[i];
      }
      if exists i :: 0 <= i < |xss| && x in xss[i] {
        var i :| 0 <= i < |xss| && x in xss[i];
        if i < n { assert x in xss[..n][i]; }
      }
    }
  }

  /** `[x for x in s if p(x)]`. */
  function Filter<T>(p: T -> bool, s: seq<T>): (r: seq<T>)
    ensures |r| <= |s|
  {
    if |s| == 0 then [] else Filter(p, s[..|s| - 1]) + (if p(s[|s| - 1]) then [s[|s| - 1]] else [])
  }

  lemma {:induction false} FilterMember<T>(p: T -> bool, s: seq<T>, x: T)
    ensures x in Filter(p, s) <==> x in s && p(x)
  {
    if |s| > 0 {
      FilterMember(p, s[..|s| - 1], x);
      assert s == s[..|s| - 1] + [s[|s| - 1]];
    }
  }

  lemma FilterSnoc<T>(p: T -> bool, s: seq<T>, x: T)
    ensures Filter(p, s + [x]) == Filter(p, s) + (if p(x) then [x] else [])
  {
    assert (s + [x])[..|s|] == s;
  }

  /** Python's `random.shuffle`: Fisher-Yates from the last position down, where the `k`-th
      call of `randbelow(i + 1)` is given as `rand[k] % (i + 1)` (0 once `rand` runs out).
      Whatever the random numbers, the result is a permutation of the input. */
  method Shuffle<T>(s: seq<T>, rand: seq<nat>) returns (r: seq<T>)
    ensures multiset(r) == multiset(s)
  {
    r := s;
    var i := |r| - 1;
    while i > 0
      invariant |r| == |s| && -1 <= i < |r|
      invariant multiset(r) == multiset(s)
    {
      var k := |r| - 1 - i;
      var j := (if k < |rand| then rand[k] else 0) % (i + 1);
      r := r[i := r[j]][j := r[i]];
      i := i - 1;
    }
  }
}
