/** Ordering and filtering of candidate patterns, and the results `run`
    collects from the regex engine. The engine is a function parameter
    `(pattern, text) -> Option<match>`: `None` when the pattern does not match. */
module Selection {
  import opened Wrappers

  /** `a` is `b` with some elements left out, order kept. */
  predicate IsSubsequence<T(==)>(a: seq<T>, b: seq<T>)
    decreases |b|
  {
    a == [] ||
    (b != [] &&
     ((a[|a| - 1] == b[|b| - 1] && IsSubsequence(a[..|a| - 1], b[..|b| - 1])) ||
      IsSubsequence(a, b[..|b| - 1])))
  }

  /** The pairs `(i, xs[i])` with `i` in `keep`, by increasing `i`. */
  function PickIndexed<T>(xs: seq<T>, keep: set<nat>): (r: seq<(nat, T)>)
    ensures forall k :: 0 <= k < |r| ==> r[k].0 < |xs| && r[k].1 == xs[r[k].0] && r[k].0 in keep
    ensures forall k, l :: 0 <= k < l < |r| ==> r[k].0 < r[l].0
    ensures forall i :: 0 <= i < |xs| && i in keep ==> (i, xs[i]) in r
  {
    if xs == [] then []
    else
      var n := |xs| - 1;
      var init := PickIndexed(xs[..n], keep);
      assert forall k :: 0 <= k < |init| ==> init[k].0 < n && init[k].1 == xs[init[k].0];
      init + (if n in keep then [(n, xs[n])] else [])
  }

  /** The second components, in order. */
  function Seconds<T>(ps: seq<(nat, T)>): (r: seq<T>)
    ensures |r| == |ps|
    ensures forall k :: 0 <= k < |ps| ==> r[k] == ps[k].1
  {
    seq(|ps|, k requires 0 <= k < |ps| => ps[k].1)
  }

  /** The elements of `xs` whose index is in `keep`, in their order in `xs`. */
  function Pick<T>(xs: seq<T>, keep: set<nat>): seq<T> {
    Seconds(PickIndexed(xs, keep))
  }

  /** `sorted(u, key=lambda x: x[0])` for a set whose indices are distinct:
      its elements by increasing index. */
  function SortByIndex<T(==,!new)>(u: set<(nat, T)>, n: nat): (r: seq<(nat, T)>)
    requires forall x :: x in u ==> 0 <= x.0 < n
    requires forall x, y :: x in u && y in u && x.0 == y.0 ==> x == y
    ensures forall x :: x in r <==> x in u
    ensures forall k, l :: 0 <= k < l < |r| ==> r[k].0 < r[l].0
  {
    if n == 0 then []
    else
      var lower := set x | x in u && x.0 < n - 1;
      var init := SortByIndex(lower, n - 1);
      if exists x :: x in u && x.0 == n - 1 then
        var x :| x in u && x.0 == n - 1;
        init + [x]
      else
        init
  }

  /** The indexed elements of `xs` whose index is in `keep`, as a set. */
  ghost function PickedSet<T>(xs: seq<T>, keep: set<nat>): set<(nat, T)> {
    set i: nat | i < |xs| && i in keep :: (i, xs[i])
  }

  lemma PickedSetInit<T>(xs: seq<T>, keep: set<nat>)
    requires xs != []
    ensures (set x | x in PickedSet(xs, keep) && x.0 < |xs| - 1) == PickedSet(xs[..|xs| - 1], keep)
  {
    var n := |xs| - 1;
    var lower := set x | x in PickedSet(xs, keep) && x.0 < n;
    var init := PickedSet(xs[..n], keep);
    forall x | x in lower ensures x in init {
      assert xs[..n][x.0] == xs[x.0];
    }
    forall x | x in init ensures x in lower {
      assert xs[..n][x.0] == xs[x.0];
    }
  }

  /** Sorting the indexed elements picked from `xs` gives them back in the order `PickIndexed` lists them. */
  lemma {:induction false} SortPicked<T(!new)>(xs: seq<T>, keep: set<nat>)
    ensures SortByIndex(PickedSet(xs, keep), |xs|) == PickIndexed(xs, keep)
  {
    if xs != [] {
      var n := |xs| - 1;
      PickedSetInit(xs, keep);
      SortPicked(xs[..n], keep);
      var u := PickedSet(xs, keep);
      if n in keep {
        assert (n, xs[n]) in u;
      } else {
        assert !exists x :: x in u && x.0 == n;
      }
    }
  }

  /** Indices kept from the end of `xs` map to the same elements of any extension. */
  lemma PickIndexedIsSubsequence<T>(xs: seq<T>, keep: set<nat>)
    ensures IsSubsequence(Pick(xs, keep), xs)
    decreases |xs|
  {
    if xs != [] {
      var n := |xs| - 1;
      PickIndexedIsSubsequence(xs[..n], keep);
      var a, init := Pick(xs, keep), Pick(xs[..n], keep);
      if n in keep {
        assert a == init + [xs[n]];
        assert a[..|a| - 1] == init;
      } else {
        assert a == init;
      }
    }
  }

  /** `[p for p in xs if p in s]`. */
  function FilterMember<T(==,!new)>(xs: seq<T>, s: set<T>): (r: seq<T>)
    ensures forall x :: x in r <==> x in xs && x in s
    ensures |r| <= |xs|
  {
    if xs == [] then []
    else
      var n := |xs| - 1;
      FilterMember(xs[..n], s) + (if xs[n] in s then [xs[n]] else [])
  }

  lemma FilterMemberIsSubsequence<T(!new)>(xs: seq<T>, s: set<T>)
    ensures IsSubsequence(FilterMember(xs, s), xs)
    decreases |xs|
  {
    if xs != [] {
      var n := |xs| - 1;
      FilterMemberIsSubsequence(xs[..n], s);
      var a := FilterMember(xs, s);
      if xs[n] in s {
        assert a == FilterMember(xs[..n], s) + [xs[n]];
        assert a[..|a| - 1] == FilterMember(xs[..n], s);
      } else {
        assert a == FilterMember(xs[..n], s);
      }
    }
  }

  /** Picking from one more element appends it when its index is kept. */
  lemma PickSnoc<T>(xs: seq<T>, keep: set<nat>)
    requires xs != []
    ensures Pick(xs, keep) == Pick(xs[..|xs| - 1], keep) + (if |xs| - 1 in keep then [xs[|xs| - 1]] else [])
  {
  }

  /** The elements of `xs` whose index is in `keep`, as a set. */
  ghost function PickedElems<T>(xs: seq<T>, keep: set<nat>): set<T> {
    set i | 0 <= i < |xs| && i in keep :: xs[i]
  }

  /** On a list without repeats, filtering by the set of picked elements is picking. */
  lemma {:induction false} FilterPickedDistinct<T(!new)>(xs: seq<T>, keep: set<nat>)
    requires forall i, j :: 0 <= i < j < |xs| ==> xs[i] != xs[j]
    ensures FilterMember(xs, PickedElems(xs, keep)) == Pick(xs, keep)
  {
    if xs != [] {
      var n := |xs| - 1;
      var init := xs[..n];
      var s, s' := PickedElems(xs, keep), PickedElems(init, keep);
      assert forall j :: 0 <= j < n ==> init[j] == xs[j];
      FilterPickedDistinct(init, keep);
      forall x | x in init ensures x in s <==> x in s' {
        var j :| 0 <= j < n && init[j] == x;
        if x in s {
          var i :| 0 <= i < |xs| && i in keep && xs[i] == x;
          assert i == j;
        }
        if x in s' {
          var i :| 0 <= i < n && i in keep && init[i] == x;
          assert xs[i] == x;
        }
      }
      FilterMemberAgree(init, s, s');
      assert xs[n] in s <==> n in keep by {
        if xs[n] in s {
          var i :| 0 <= i < |xs| && i in keep && xs[i] == xs[n];
          assert i == n;
        }
      }
      PickSnoc(xs, keep);
    }
  }

  /** Filtering only looks at the elements of the list. */
  lemma FilterMemberAgree<T(!new)>(xs: seq<T>, s: set<T>, s': set<T>)
    requires forall x :: x in xs ==> (x in s <==> x in s')
    ensures FilterMember(xs, s) == FilterMember(xs, s')
  {
    if xs != [] {
      FilterMemberAgree(xs[..|xs| - 1], s, s');
    }
  }

  /** The `(pattern, result)` pairs `run` collects, one per attempted pattern. */
  function Attempt<P(!new), M(!new)>(candidates: seq<P>, matchFunc: (P, string) -> Option<M>, s: string): (r: seq<(P, Option<M>)>)
    ensures |r| == |candidates|
    ensures forall k :: 0 <= k < |r| ==> r[k] == (candidates[k], matchFunc(candidates[k], s))
  {
    seq(|candidates|, k requires 0 <= k < |candidates| => (candidates[k], matchFunc(candidates[k], s)))
  }

  /** The pairs whose result is not `None`, with the match unwrapped. */
  function Successes<P(!new), M(!new)>(results: seq<(P, Option<M>)>): (r: seq<(P, M)>)
    ensures forall p, m :: (p, m) in r <==> (p, Some(m)) in results
    ensures |r| <= |results|
  {
    if results == [] then []
    else
      var n := |results| - 1;
      var init := Successes(results[..n]);
      assert forall x :: x in results <==> x in results[..n] || x == results[n];
      init + (if results[n].1.Some? then [(results[n].0, results[n].1.value)] else [])
  }

  /** What `run` returns for the attempted `candidates`. */
  function Matches<P(!new), M(!new)>(candidates: seq<P>, matchFunc: (P, string) -> Option<M>, s: string): seq<(P, M)> {
    Successes(Attempt(candidates, matchFunc, s))
  }

  /** A pattern is reported with match `m` exactly when it was attempted and the engine returned `m`. */
  lemma MatchesMembership<P(!new), M(!new)>(candidates: seq<P>, matchFunc: (P, string) -> Option<M>, s: string)
    ensures forall p, m :: (p, m) in Matches(candidates, matchFunc, s) <==> p in candidates && matchFunc(p, s) == Some(m)
  {
    var results := Attempt(candidates, matchFunc, s);
    forall p, m ensures (p, Some(m)) in results <==> p in candidates && matchFunc(p, s) == Some(m) {
      if p in candidates && matchFunc(p, s) == Some(m) {
        var k :| 0 <= k < |candidates| && candidates[k] == p;
        assert results[k] == (p, Some(m));
      }
    }
  }

  /** Attempting one more pattern at the end adds its match, if any, at the end. */
  lemma MatchesSnoc<P(!new), M(!new)>(candidates: seq<P>, p: P, matchFunc: (P, string) -> Option<M>, s: string)
    ensures Matches(candidates + [p], matchFunc, s) ==
      Matches(candidates, matchFunc, s) + (if matchFunc(p, s).Some? then [(p, matchFunc(p, s).value)] else [])
  {
    var results := Attempt(candidates + [p], matchFunc, s);
    assert results[..|results| - 1] == Attempt(candidates, matchFunc, s);
  }

  /** Attempting a subsequence of the patterns reports a subsequence of the matches. */
  lemma {:induction false} MatchesOfSubsequence<P(!new), M(!new)>(a: seq<P>, b: seq<P>, matchFunc: (P, string) -> Option<M>, s: string)
    requires IsSubsequence(a, b)
    ensures IsSubsequence(Matches(a, matchFunc, s), Matches(b, matchFunc, s))
    decreases |b|
  {
    if a == [] {
      assert Matches(a, matchFunc, s) == [];
    } else {
      var a', b' := a[..|a| - 1], b[..|b| - 1];
      assert a == a' + [a[|a| - 1]] && b == b' + [b[|b| - 1]];
      MatchesSnoc(a', a[|a| - 1], matchFunc, s);
      MatchesSnoc(b', b[|b| - 1], matchFunc, s);
      if a[|a| - 1] == b[|b| - 1] && IsSubsequence(a', b') {
        MatchesOfSubsequence(a', b', matchFunc, s);
        SubsequenceSnoc(Matches(a', matchFunc, s), Matches(b', matchFunc, s),
          if matchFunc(b[|b| - 1], s).Some? then [(b[|b| - 1], matchFunc(b[|b| - 1], s).value)] else []);
      } else {
        MatchesOfSubsequence(a, b', matchFunc, s);
        SubsequenceExtend(Matches(a, matchFunc, s), Matches(b', matchFunc, s),
          if matchFunc(b[|b| - 1], s).Some? then [(b[|b| - 1], matchFunc(b[|b| - 1], s).value)] else []);
      }
    }
  }

  lemma SubsequenceSnoc<T>(a: seq<T>, b: seq<T>, tail: seq<T>)
    requires IsSubsequence(a, b) && |tail| <= 1
    ensures IsSubsequence(a + tail, b + tail)
  {
    if tail != [] {
      assert (a + tail)[..|a + tail| - 1] == a;
      assert (b + tail)[..|b + tail| - 1] == b;
    } else {
      assert a + tail == a && b + tail == b;
    }
  }

  lemma SubsequenceExtend<T>(a: seq<T>, b: seq<T>, tail: seq<T>)
    requires IsSubsequence(a, b) && |tail| <= 1
    ensures IsSubsequence(a, b + tail)
  {
    if tail != [] {
      assert (b + tail)[..|b + tail| - 1] == b;
    } else {
      assert b + tail == b;
    }
  }

  /** Picking loses no match when every pattern the engine matches has its index kept. */
  lemma {:induction false} MatchesOfPickComplete<P(!new), M(!new)>(xs: seq<P>, keep: set<nat>, matchFunc: (P, string) -> Option<M>, s: string)
    requires forall i :: 0 <= i < |xs| && matchFunc(xs[i], s).Some? ==> i in keep
    ensures Matches(Pick(xs, keep), matchFunc, s) == Matches(xs, matchFunc, s)
  {
    if xs != [] {
      var n := |xs| - 1;
      assert xs == xs[..n] + [xs[n]];
      MatchesOfPickComplete(xs[..n], keep, matchFunc, s);
      MatchesSnoc(xs[..n], xs[n], matchFunc, s);
      PickSnoc(xs, keep);
      if n in keep {
        assert Pick(xs, keep) == Pick(xs[..n], keep) + [xs[n]];
        MatchesSnoc(Pick(xs[..n], keep), xs[n], matchFunc, s);
      } else {
        assert Pick(xs, keep) == Pick(xs[..n], keep);
      }
    }
  }

  /** Filtering loses no match when every pattern the engine matches is in the set. */
  lemma {:induction false} MatchesOfFilterComplete<P(!new), M(!new)>(xs: seq<P>, keep: set<P>, matchFunc: (P, string) -> Option<M>, s: string)
    requires forall i :: 0 <= i < |xs| && matchFunc(xs[i], s).Some? ==> xs[i] in keep
    ensures Matches(FilterMember(xs, keep), matchFunc, s) == Matches(xs, matchFunc, s)
  {
    if xs != [] {
      var n := |xs| - 1;
      assert xs == xs[..n] + [xs[n]];
      MatchesOfFilterComplete(xs[..n], keep, matchFunc, s);
      MatchesSnoc(xs[..n], xs[n], matchFunc, s);
      if xs[n] in keep {
        assert FilterMember(xs, keep) == FilterMember(xs[..n], keep) + [xs[n]];
        MatchesSnoc(FilterMember(xs[..n], keep), xs[n], matchFunc, s);
      } else {
        assert FilterMember(xs, keep) == FilterMember(xs[..n], keep);
      }
    }
  }
}
