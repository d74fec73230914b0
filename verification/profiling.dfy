/** Prematcher profiling: the per-pattern counters that `run` updates and the
    false-positive report built from them. */
module Profiling {
  import opened Wrappers

  /** The `{"positives": .., "false_positives": ..}` counter of one pattern:
      how often the pattern was attempted, and how often the attempt found no match. */
  datatype Counter = Counter(positives: nat, falsePositives: nat)

  /** One iteration of the profiling loop in `run`. */
  function Bump<P, M>(counters: map<P, Counter>, result: (P, Option<M>)): (r: map<P, Counter>)
    requires result.0 in counters
    ensures r.Keys == counters.Keys
  {
    var c := counters[result.0];
    counters[result.0 := Counter(c.positives + 1, c.falsePositives + if result.1.None? then 1 else 0)]
  }

  /** Every attempted pattern has a counter. */
  predicate Counted<P, M>(counters: map<P, Counter>, results: seq<(P, Option<M>)>) {
    forall k :: 0 <= k < |results| ==> results[k].0 in counters
  }

  /** The counters after the profiling loop has gone over `results` in order. */
  function Tally<P, M>(counters: map<P, Counter>, results: seq<(P, Option<M>)>): (r: map<P, Counter>)
    requires Counted(counters, results)
    ensures r.Keys == counters.Keys
    decreases |results|
  {
    if results == [] then counters
    else
      var n := |results| - 1;
      Bump(Tally(counters, results[..n]), results[n])
  }

  /** One more iteration of the profiling loop is one more `Bump`. */
  lemma TallyStep<P, M>(counters: map<P, Counter>, results: seq<(P, Option<M>)>, k: nat)
    requires Counted(counters, results) && k < |results|
    ensures Counted(counters, results[..k]) && Counted(counters, results[..k + 1])
    ensures Tally(counters, results[..k + 1]) == Bump(Tally(counters, results[..k]), results[k])
  {
    assert results[..k + 1][..k] == results[..k];
    assert forall j :: 0 <= j <= k ==> results[..k + 1][j] == results[j];
  }

  /** How often `p` was attempted. */
  ghost function Attempts<P, M>(results: seq<(P, Option<M>)>, p: P): nat {
    if results == [] then 0
    else
      var n := |results| - 1;
      Attempts(results[..n], p) + if results[n].0 == p then 1 else 0
  }

  /** How often an attempt of `p` found no match. */
  ghost function Misses<P, M>(results: seq<(P, Option<M>)>, p: P): nat {
    if results == [] then 0
    else
      var n := |results| - 1;
      Misses(results[..n], p) + if results[n].0 == p && results[n].1.None? then 1 else 0
  }

  lemma {:induction false} MissesAtMostAttempts<P, M>(results: seq<(P, Option<M>)>, p: P)
    ensures Misses(results, p) <= Attempts(results, p)
    ensures Attempts(results, p) == 0 <==> forall k :: 0 <= k < |results| ==> results[k].0 != p
  {
    if results != [] {
      var n := |results| - 1;
      MissesAtMostAttempts(results[..n], p);
      assert forall k :: 0 <= k < n ==> results[..n][k] == results[k];
    }
  }

  /** Each pattern's `positives` goes up by the number of times it was
      attempted and its `false_positives` by the number of those attempts that
      found no match. */
  lemma {:induction false} TallyCounts<P, M>(counters: map<P, Counter>, results: seq<(P, Option<M>)>)
    requires Counted(counters, results)
    ensures forall p :: p in counters ==>
      Tally(counters, results)[p].positives == counters[p].positives + Attempts(results, p) &&
      Tally(counters, results)[p].falsePositives == counters[p].falsePositives + Misses(results, p)
  {
    if results != [] {
      var n := |results| - 1;
      assert Counted(counters, results[..n]) by {
        forall k | 0 <= k < n ensures results[..n][k].0 in counters {
          assert results[..n][k] == results[k];
        }
      }
      TallyCounts(counters, results[..n]);
    }
  }

  /** The counters of patterns that were not attempted do not change. */
  lemma TallyUnattempted<P, M>(counters: map<P, Counter>, results: seq<(P, Option<M>)>, p: P)
    requires Counted(counters, results)
    requires p in counters && forall k :: 0 <= k < |results| ==> results[k].0 != p
    ensures Tally(counters, results)[p] == counters[p]
  {
    TallyCounts(counters, results);
    MissesAtMostAttempts(results, p);
  }

  /** No pattern has more false positives than positives. */
  predicate Consistent<P>(counters: map<P, Counter>) {
    forall p :: p in counters ==> counters[p].falsePositives <= counters[p].positives
  }

  /** Profiling keeps `false_positives <= positives` for every pattern. */
  lemma TallyConsistent<P, M>(counters: map<P, Counter>, results: seq<(P, Option<M>)>)
    requires Counted(counters, results) && Consistent(counters)
    ensures Consistent(Tally(counters, results))
  {
    TallyCounts(counters, results);
    forall p | p in counters ensures Misses(results, p) <= Attempts(results, p) {
      MissesAtMostAttempts(results, p);
    }
  }

  /** Where `x` first occurs in `xs`. */
  function FirstIndex<P(==)>(xs: seq<P>, x: P): (i: nat)
    requires x in xs
    ensures i < |xs| && xs[i] == x
    ensures forall k :: 0 <= k < i ==> xs[k] != x
  {
    if xs[0] == x then 0 else 1 + FirstIndex(xs[1..], x)
  }

  /** An occurrence with none before it is the first one. */
  lemma FirstIndexAt<P>(xs: seq<P>, x: P, i: nat)
    requires i < |xs| && xs[i] == x
    requires forall k :: 0 <= k < i ==> xs[k] != x
    ensures FirstIndex(xs, x) == i
  {
    var f := FirstIndex(xs, x);
    assert f <= i;
    assert i <= f;
  }

  /** Elements of a prefix first occur where they first occur in the prefix. */
  lemma FirstIndexPrefix<P>(xs: seq<P>, n: nat)
    requires n <= |xs|
    ensures forall y :: y in xs[..n] ==> FirstIndex(xs, y) == FirstIndex(xs[..n], y)
  {
    forall y | y in xs[..n] ensures FirstIndex(xs, y) == FirstIndex(xs[..n], y) {
      var f := FirstIndex(xs[..n], y);
      assert forall k :: 0 <= k < f ==> xs[k] == xs[..n][k];
      FirstIndexAt(xs, y, f);
    }
  }

  /** The element at `n` first occurs there when the prefix before it does not hold it. */
  lemma FirstIndexNew<P>(xs: seq<P>, n: nat)
    requires n < |xs| && xs[n] !in xs[..n]
    ensures FirstIndex(xs, xs[n]) == n
  {
    assert forall k :: 0 <= k < n ==> xs[..n][k] == xs[k];
    FirstIndexAt(xs, xs[n], n);
  }

  /** The iteration order of a dictionary built from `xs`: each element once,
      at its first occurrence. */
  function Distinct<P(==,!new)>(xs: seq<P>): (r: seq<P>)
    ensures forall x :: x in r <==> x in xs
    ensures forall i, j :: 0 <= i < j < |r| ==> FirstIndex(xs, r[i]) < FirstIndex(xs, r[j])
  {
    if xs == [] then []
    else
      var n := |xs| - 1;
      var init := Distinct(xs[..n]);
      assert forall x :: x in xs <==> x in xs[..n] || x == xs[n];
      FirstIndexPrefix(xs, n);
      if xs[n] in xs[..n] then
        init
      else
        FirstIndexNew(xs, n);
        init + [xs[n]]
  }

  /** Elements ordered by strictly increasing first occurrence in `xs` are pairwise different. */
  lemma OrderedIsDistinct<P>(ys: seq<P>, xs: seq<P>)
    requires forall k :: 0 <= k < |ys| ==> ys[k] in xs
    requires forall i, j :: 0 <= i < j < |ys| ==> FirstIndex(xs, ys[i]) < FirstIndex(xs, ys[j])
    ensures forall i, j :: 0 <= i < j < |ys| ==> ys[i] != ys[j]
  {
  }

  type Item<P> = (P, Counter)

  /** The dictionary items, in `order`, whose false-positive count is non-zero.
      When `order` lists each pattern once, so do the items, in the same order. */
  function FalsePositiveItems<P(==,!new)>(counters: map<P, Counter>, order: seq<P>): (r: seq<Item<P>>)
    requires forall p :: p in order ==> p in counters
    ensures forall x :: x in r <==> x.0 in order && x.1 == counters[x.0] && x.1.falsePositives != 0
    ensures (forall i, j :: 0 <= i < j < |order| ==> order[i] != order[j]) ==>
      forall i, j :: 0 <= i < j < |r| ==> FirstIndex(order, r[i].0) < FirstIndex(order, r[j].0)
  {
    if order == [] then []
    else
      var n := |order| - 1;
      var init := FalsePositiveItems(counters, order[..n]);
      assert forall x :: x in order <==> x in order[..n] || x == order[n];
      FirstIndexPrefix(order, n);
      var p := order[n];
      if counters[p].falsePositives == 0 then
        init
      else
        DistinctLast(order);
        init + [(p, counters[p])]
  }

  /** In a sequence without repeats the last element first occurs at the end. */
  lemma DistinctLast<P>(xs: seq<P>)
    requires xs != []
    ensures (forall i, j :: 0 <= i < j < |xs| ==> xs[i] != xs[j]) ==>
      xs[|xs| - 1] !in xs[..|xs| - 1] && FirstIndex(xs, xs[|xs| - 1]) == |xs| - 1
  {
    var n := |xs| - 1;
    if forall i, j :: 0 <= i < j < |xs| ==> xs[i] != xs[j] {
      assert forall k :: 0 <= k < n ==> xs[..n][k] == xs[k];
      FirstIndexNew(xs, n);
    }
  }

  /** Two positions holding the same element make it occur at least twice. */
  lemma RepeatCounts<T>(s: seq<T>, i: nat, j: nat)
    requires i < j < |s|
    ensures s[i] == s[j] ==> multiset(s)[s[i]] >= 2
  {
    assert s == s[..j] + s[j..];
    assert s[i] == s[..j][i] && s[j] == s[j..][0];
    assert multiset(s) == multiset(s[..j]) + multiset(s[j..]);
  }

  /** A sequence without repeated elements holds each element at most once. */
  lemma {:induction false} DistinctCounts<T>(s: seq<T>)
    requires forall i, j :: 0 <= i < j < |s| ==> s[i] != s[j]
    ensures forall x :: multiset(s)[x] <= 1
  {
    if s != [] {
      var n := |s| - 1;
      DistinctCounts(s[..n]);
      assert s == s[..n] + [s[n]];
      assert s[n] !in s[..n];
    }
  }

  /** A permutation of a sequence without repeated elements has none either. */
  lemma PermutationDistinct<T>(r: seq<T>, s: seq<T>)
    requires multiset(r) == multiset(s)
    requires forall i, j :: 0 <= i < j < |s| ==> s[i] != s[j]
    ensures forall i, j :: 0 <= i < j < |r| ==> r[i] != r[j]
  {
    DistinctCounts(s);
    forall i, j | 0 <= i < j < |r| ensures r[i] != r[j] {
      RepeatCounts(r, i, j);
    }
  }

  /** By non-increasing false-positive count. */
  predicate Descending<P>(xs: seq<Item<P>>) {
    forall i, j :: 0 <= i < j < |xs| ==> xs[i].1.falsePositives >= xs[j].1.falsePositives
  }

  /** Places `x` before the first element with no more false positives than it has. */
  function Insert<P>(x: Item<P>, ys: seq<Item<P>>): (r: seq<Item<P>>)
    ensures |r| == |ys| + 1
    ensures r[0] == x || (ys != [] && r[0] == ys[0])
  {
    if ys == [] || ys[0].1.falsePositives <= x.1.falsePositives then [x] + ys
    else [ys[0]] + Insert(x, ys[1..])
  }

  /** Inserting into a list sorted worst first keeps it sorted, and adds `x` and nothing else. */
  lemma {:induction false} InsertSorted<P>(x: Item<P>, ys: seq<Item<P>>)
    requires Descending(ys)
    ensures Descending(Insert(x, ys))
    ensures multiset(Insert(x, ys)) == multiset(ys) + multiset{x}
  {
    if ys == [] || ys[0].1.falsePositives <= x.1.falsePositives {
      DescendingCons(x, ys);
    } else {
      var tail := ys[1..];
      assert Descending(tail) by {
        forall i, j | 0 <= i < j < |tail| ensures tail[i].1.falsePositives >= tail[j].1.falsePositives {
          assert tail[i] == ys[i + 1] && tail[j] == ys[j + 1];
        }
      }
      InsertSorted(x, tail);
      var rest := Insert(x, tail);
      assert Insert(x, ys) == [ys[0]] + rest;
      assert ys == [ys[0]] + tail;
      assert rest[0] == x || rest[0] == ys[1];
      DescendingCons(ys[0], rest);
    }
  }

  lemma DescendingCons<P>(x: Item<P>, ys: seq<Item<P>>)
    requires Descending(ys) && (ys != [] ==> ys[0].1.falsePositives <= x.1.falsePositives)
    ensures Descending([x] + ys)
  {
    var r := [x] + ys;
    forall i, j | 0 <= i < j < |r| ensures r[i].1.falsePositives >= r[j].1.falsePositives {
      if i == 0 && j > 1 {
        assert r[j] == ys[j - 1];
      }
    }
  }

  /** `sorted(items, key=lambda x: -x[1]["false_positives"])`, a stable sort. */
  function SortByFalsePositives<P>(xs: seq<Item<P>>): (r: seq<Item<P>>)
    ensures Descending(r)
    ensures multiset(r) == multiset(xs)
  {
    if xs == [] then []
    else
      assert xs == [xs[0]] + xs[1..];
      InsertSorted(xs[0], SortByFalsePositives(xs[1..]));
      Insert(xs[0], SortByFalsePositives(xs[1..]))
  }

  /** The items whose false-positive count is `v`, in order. */
  function WithCount<P>(xs: seq<Item<P>>, v: nat): seq<Item<P>> {
    if xs == [] then []
    else (if xs[0].1.falsePositives == v then [xs[0]] else []) + WithCount(xs[1..], v)
  }

  lemma {:induction false} InsertStable<P>(x: Item<P>, ys: seq<Item<P>>, v: nat)
    ensures WithCount(Insert(x, ys), v) == (if x.1.falsePositives == v then [x] else []) + WithCount(ys, v)
  {
    if ys == [] || ys[0].1.falsePositives <= x.1.falsePositives {
      assert Insert(x, ys) == [x] + ys;
      assert ([x] + ys)[1..] == ys;
    } else {
      var head := ys[0];
      var tail := Insert(x, ys[1..]);
      var r := [head] + tail;
      assert Insert(x, ys) == r;
      assert r[1..] == tail;
      InsertStable(x, ys[1..], v);
      var h := if head.1.falsePositives == v then [head] else [];
      var c := if x.1.falsePositives == v then [x] else [];
      assert WithCount(r, v) == h + WithCount(tail, v);
      assert WithCount(ys, v) == h + WithCount(ys[1..], v);
      if h == [] {
        assert WithCount(r, v) == c + WithCount(ys, v);
      } else {
        assert c == [];
        assert WithCount(tail, v) == WithCount(ys[1..], v) by {
          assert c + WithCount(ys[1..], v) == WithCount(ys[1..], v);
        }
      }
    }
  }

  /** The sort is stable: items with equal counts keep their relative order. */
  lemma {:induction false} SortStable<P>(xs: seq<Item<P>>, v: nat)
    ensures WithCount(SortByFalsePositives(xs), v) == WithCount(xs, v)
  {
    if xs != [] {
      SortStable(xs[1..], v);
      InsertStable(xs[0], SortByFalsePositives(xs[1..]), v);
    }
  }

  /** `get_prematcher_false_positives` on profiling counters kept for `patterns`:
      one item per distinct pattern with a non-zero false-positive count, worst
      first; items with equal counts keep the dictionary's first-occurrence order. */
  function FalsePositiveReport<P(==,!new)>(counters: map<P, Counter>, patterns: seq<P>): (r: seq<Item<P>>)
    requires forall p :: p in patterns ==> p in counters
    ensures Descending(r)
    ensures forall x :: x in r <==> x.0 in patterns && x.1 == counters[x.0] && x.1.falsePositives != 0
    ensures forall i, j :: 0 <= i < j < |r| ==> r[i].0 != r[j].0
    ensures forall v :: WithCount(r, v) == WithCount(FalsePositiveItems(counters, Distinct(patterns)), v)
  {
    ReportItems(counters, patterns);
    ReportSorted(FalsePositiveItems(counters, Distinct(patterns)));
    SortStableAll(FalsePositiveItems(counters, Distinct(patterns)));
    SortByFalsePositives(FalsePositiveItems(counters, Distinct(patterns)))
  }

  /** The report's items before sorting: one per distinct pattern with false positives. */
  lemma ReportItems<P(!new)>(counters: map<P, Counter>, patterns: seq<P>)
    requires forall p :: p in patterns ==> p in counters
    ensures forall x :: x in FalsePositiveItems(counters, Distinct(patterns)) <==>
      x.0 in patterns && x.1 == counters[x.0] && x.1.falsePositives != 0
    ensures forall i, j :: 0 <= i < j < |FalsePositiveItems(counters, Distinct(patterns))| ==>
      FalsePositiveItems(counters, Distinct(patterns))[i].0 != FalsePositiveItems(counters, Distinct(patterns))[j].0
  {
    var order := Distinct(patterns);
    assert forall k :: 0 <= k < |order| ==> order[k] in patterns;
    OrderedIsDistinct(order, patterns);
    var items := FalsePositiveItems(counters, order);
    assert forall k :: 0 <= k < |items| ==> items[k] in items;
  }

  /** Sorting items that name each pattern once keeps the same members, each pattern still named once. */
  lemma ReportSorted<P>(items: seq<Item<P>>)
    requires forall i, j :: 0 <= i < j < |items| ==> items[i].0 != items[j].0
    ensures forall x :: x in SortByFalsePositives(items) <==> x in items
    ensures forall i, j :: 0 <= i < j < |SortByFalsePositives(items)| ==>
      SortByFalsePositives(items)[i].0 != SortByFalsePositives(items)[j].0
  {
    PermutationKeyed(SortByFalsePositives(items), items);
  }

  /** A permutation of items that name each key once names each key once. */
  lemma PermutationKeyed<K, V>(r: seq<(K, V)>, items: seq<(K, V)>)
    requires multiset(r) == multiset(items)
    requires forall i, j :: 0 <= i < j < |items| ==> items[i].0 != items[j].0
    ensures forall x :: x in r <==> x in items
    ensures forall i, j :: 0 <= i < j < |r| ==> r[i].0 != r[j].0
  {
    assert forall x :: x in r <==> x in multiset(r);
    assert forall x :: x in items <==> x in multiset(items);
    PermutationDistinct(r, items);
    forall i, j | 0 <= i < j < |r| ensures r[i].0 != r[j].0 {
      assert r[i] in items && r[j] in items;
      var i' :| 0 <= i' < |items| && items[i'] == r[i];
      var j' :| 0 <= j' < |items| && items[j'] == r[j];
      assert i' != j';
    }
  }

  /** The sort keeps every group of equal counts in order. */
  lemma SortStableAll<P>(items: seq<Item<P>>)
    ensures forall v :: WithCount(SortByFalsePositives(items), v) == WithCount(items, v)
  {
    forall v ensures WithCount(SortByFalsePositives(items), v) == WithCount(items, v) {
      SortStable(items, v);
    }
  }

  /** `items[:n]` with Python's slice semantics; `None` keeps everything. */
  function WorstN<T>(items: seq<T>, n: Option<int>): (r: seq<T>)
    ensures |r| <= |items| && r == items[..|r|]
    ensures n.None? ==> r == items
    ensures n.Some? && n.value >= 0 ==> r == items[..if n.value < |items| then n.value else |items|]
    ensures n.Some? && n.value < 0 ==> r == items[..if |items| + n.value > 0 then |items| + n.value else 0]
  {
    match n
    case None => items
    case Some(k) =>
      var stop := if k < 0 then k + |items| else k;
      var stop := if stop < 0 then 0 else if stop > |items| then |items| else stop;
      items[..stop]
  }
}
