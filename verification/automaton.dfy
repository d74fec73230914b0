/** The prematcher index: `_make_automaton` groups patterns by prematcher, the
    Aho-Corasick automaton is built from that grouping, and a text's hits are
    the values of every registered needle that occurs in it. The automaton is
    modelled by the needle-to-value map it stores. */
module Automaton {
  import opened Wrappers
  import opened Text
  import opened Patterns

  /** Every needle listed by some item. */
  function Needles<K>(keyed: seq<(K, set<string>)>): set<string> {
    set i, w | 0 <= i < |keyed| && w in keyed[i].1 :: w
  }

  /** Needle `w` maps to the values of all items that list `w`. */
  function Grouped<K>(keyed: seq<(K, set<string>)>): map<string, set<K>> {
    map w | w in Needles(keyed) :: Owners(keyed, w)
  }

  /** The values of the items that list needle `w`. */
  function Owners<K>(keyed: seq<(K, set<string>)>, w: string): set<K> {
    set i | 0 <= i < |keyed| && w in keyed[i].1 :: keyed[i].0
  }

  /** `g` with value `k` added under each needle of `ws`, as `defaultdict(set)` does. */
  function AddGroup<K>(g: map<string, set<K>>, k: K, ws: set<string>): (r: map<string, set<K>>)
    ensures r.Keys == g.Keys + ws
    ensures forall w :: w in r ==> r[w] == (if w in g then g[w] else {}) + (if w in ws then {k} else {})
  {
    map w | w in g.Keys + ws :: (if w in g then g[w] else {}) + (if w in ws then {k} else {})
  }

  /** The grouping of one more item is the old grouping with that item added. */
  lemma GroupedStep<K>(keyed: seq<(K, set<string>)>, i: nat)
    requires i < |keyed|
    ensures Grouped(keyed[..i + 1]) == AddGroup(Grouped(keyed[..i]), keyed[i].0, keyed[i].1)
  {
    NeedlesStep(keyed, i);
    var g, h := Grouped(keyed[..i + 1]), AddGroup(Grouped(keyed[..i]), keyed[i].0, keyed[i].1);
    forall w | w in g ensures g[w] == h[w] {
      GroupStepAt(keyed, i, w);
    }
  }

  lemma NeedlesStep<K>(keyed: seq<(K, set<string>)>, i: nat)
    requires i < |keyed|
    ensures Needles(keyed[..i + 1]) == Needles(keyed[..i]) + keyed[i].1
  {
    var before, after := keyed[..i], keyed[..i + 1];
    forall w | w in Needles(after) ensures w in Needles(before) + keyed[i].1 {
      var j :| 0 <= j < |after| && w in after[j].1;
      if j < i {
        assert w in before[j].1;
      }
    }
    forall w | w in Needles(before) ensures w in Needles(after) {
      var j :| 0 <= j < |before| && w in before[j].1;
      assert w in after[j].1;
    }
    forall w | w in keyed[i].1 ensures w in Needles(after) {
      assert w in after[i].1;
    }
  }

  lemma GroupStepAt<K>(keyed: seq<(K, set<string>)>, i: nat, w: string)
    requires i < |keyed| && w in Needles(keyed[..i + 1])
    requires Needles(keyed[..i + 1]) == Needles(keyed[..i]) + keyed[i].1
    ensures Grouped(keyed[..i + 1])[w] == AddGroup(Grouped(keyed[..i]), keyed[i].0, keyed[i].1)[w]
  {
    OwnersStep(keyed, i, w);
    OwnersNeedle(keyed[..i], w);
  }

  lemma OwnersNeedle<K>(keyed: seq<(K, set<string>)>, w: string)
    ensures Owners(keyed, w) != {} ==> w in Needles(keyed)
  {
    if Owners(keyed, w) != {} {
      var k :| k in Owners(keyed, w);
      var j :| 0 <= j < |keyed| && w in keyed[j].1 && keyed[j].0 == k;
      assert w in keyed[j].1;
    }
  }

  lemma OwnersStep<K>(keyed: seq<(K, set<string>)>, i: nat, w: string)
    requires i < |keyed|
    ensures Owners(keyed[..i + 1], w) == Owners(keyed[..i], w) + (if w in keyed[i].1 then {keyed[i].0} else {})
  {
    var before, after := keyed[..i], keyed[..i + 1];
    forall k | k in Owners(after, w) ensures k in Owners(before, w) + (if w in keyed[i].1 then {keyed[i].0} else {}) {
      var j :| 0 <= j < |after| && w in after[j].1 && after[j].0 == k;
      if j < i {
        assert before[j] == after[j];
      }
    }
    forall k | k in Owners(before, w) ensures k in Owners(after, w) {
      var j :| 0 <= j < |before| && w in before[j].1 && before[j].0 == k;
      assert after[j] == before[j];
    }
    if w in keyed[i].1 {
      assert after[i] == keyed[i];
    }
  }

  lemma AddGroupNothing<K>(g: map<string, set<K>>, k: K)
    ensures AddGroup(g, k, {}) == g
  {
    forall w | w in g ensures AddGroup(g, k, {})[w] == g[w] {
      assert g[w] + {} == g[w];
    }
  }

  /** Adding one more needle is one `defaultdict` update. */
  lemma AddGroupOne<K>(g: map<string, set<K>>, k: K, done: set<string>, w: string)
    ensures var h := AddGroup(g, k, done);
      h[w := (if w in h then h[w] else {}) + {k}] == AddGroup(g, k, done + {w})
  {
    var h := AddGroup(g, k, done);
    var lhs, rhs := h[w := (if w in h then h[w] else {}) + {k}], AddGroup(g, k, done + {w});
    assert lhs.Keys == g.Keys + done + {w} == rhs.Keys;
    forall u | u in lhs ensures lhs[u] == rhs[u] {
      AddGroupOneAt(g, k, done, w, u);
    }
  }

  lemma AddGroupOneAt<K>(g: map<string, set<K>>, k: K, done: set<string>, w: string, u: string)
    requires u == w || u in g || u in done
    ensures var h := AddGroup(g, k, done);
      h[w := (if w in h then h[w] else {}) + {k}][u] == AddGroup(g, k, done + {w})[u]
  {
    if u != w {
      AddGroupAt(g, k, done, u);
    }
    AddGroupAt(g, k, done + {w}, u);
  }

  lemma AddGroupAt<K>(g: map<string, set<K>>, k: K, ws: set<string>, u: string)
    requires u in g || u in ws
    ensures AddGroup(g, k, ws)[u] == (if u in g then g[u] else {}) + (if u in ws then {k} else {})
  {
  }

  /** The nested loops of `_make_automaton`: each pattern's key is added to
      the set of every one of its prematchers. */
  method GroupByPrematcher<K>(keyed: seq<(K, set<string>)>) returns (groups: map<string, set<K>>)
    ensures groups == Grouped(keyed)
  {
    groups := map[];
    var i := 0;
    while i < |keyed|
      invariant 0 <= i <= |keyed|
      invariant groups == Grouped(keyed[..i])
    {
      var k, ws := keyed[i].0, keyed[i].1;
      var rest := ws;
      ghost var start := groups;
      AddGroupNothing(start, k);
      while rest != {}
        invariant rest <= ws
        invariant groups == AddGroup(start, k, ws - rest)
      {
        var w :| w in rest;
        AddGroupOne(start, k, ws - rest, w);
        groups := groups[w := (if w in groups then groups[w] else {}) + {k}];
        assert ws - rest + {w} == ws - (rest - {w});
        rest := rest - {w};
      }
      assert ws - rest == ws;
      GroupedStep(keyed, i);
      i := i + 1;
    }
    assert keyed[..i] == keyed;
  }

  /** `Automaton.add_word`: stores the needle with its value and answers
      whether the needle was new. */
  function AddWord<V>(trie: map<string, V>, w: string, v: V): (r: (map<string, V>, bool))
    ensures r.0.Keys == trie.Keys + {w} && r.0[w] == v
    ensures forall u :: u in trie && u != w ==> r.0[u] == trie[u]
    ensures r.1 <==> w !in trie
  {
    (trie[w := v], w !in trie)
  }

  /** `_ahocorasick_ensure_successful`: the library signals failure by
      returning `False`; `True` and `None` are success. */
  function EnsureSuccessful(res: Option<bool>): (r: Outcome<Error>)
    ensures r.Fail? <==> res == Some(false)
    ensures r.Fail? ==> r.error == AhocorasickFailure
  {
    if res == Some(false) then Fail(AhocorasickFailure) else Pass
  }

  /** `_ahocorasick_make_automaton`: adds every needle of a dictionary once,
      checking each call, then finalises. Dictionary keys are distinct, so no
      call reports failure and the automaton holds exactly the dictionary. */
  method MakeAutomaton<V>(words: map<string, V>) returns (r: Result<map<string, V>, Error>)
    ensures r == Success(words)
  {
    var trie: map<string, V> := map[];
    var rest := words.Keys;
    var failed := false;
    while rest != {} && !failed
      invariant rest <= words.Keys
      invariant !failed
      invariant trie.Keys == words.Keys - rest
      invariant forall w :: w in trie ==> trie[w] == words[w]
    {
      var w :| w in rest;
      var added := AddWord(trie, w, words[w]);
      failed := EnsureSuccessful(Some(added.1)).Fail?;
      trie := added.0;
      rest := rest - {w};
    }
    assert trie == words;
    // `make_automaton()` returns None.
    var finished := EnsureSuccessful(None);
    r := if failed || finished.Fail? then Failure(AhocorasickFailure) else Success(trie);
  }

  /** Some needle of `ws` occurs in `t`. */
  predicate Hit(ws: set<string>, t: string) {
    exists w :: w in ws && IsSubstring(w, t)
  }

  /** `automaton.iter(t)` folded into one set: the values of every stored
      needle that occurs in `t`. */
  function Hits<K>(automaton: map<string, set<K>>, t: string): set<K> {
    set w, k | w in automaton && k in automaton[w] && IsSubstring(w, t) :: k
  }

  /** A value is hit exactly when one of the items carrying it has a
      prematcher that occurs in the text. */
  lemma HitsOfGrouped<K>(keyed: seq<(K, set<string>)>, t: string)
    ensures forall k :: k in Hits(Grouped(keyed), t) <==>
      exists i :: 0 <= i < |keyed| && keyed[i].0 == k && Hit(keyed[i].1, t)
  {
    var g := Grouped(keyed);
    forall k | k in Hits(g, t)
      ensures exists i :: 0 <= i < |keyed| && keyed[i].0 == k && Hit(keyed[i].1, t)
    {
      var w :| w in g && k in g[w] && IsSubstring(w, t);
      var i :| 0 <= i < |keyed| && w in keyed[i].1 && keyed[i].0 == k;
      assert Hit(keyed[i].1, t);
    }
    forall k | exists i :: 0 <= i < |keyed| && keyed[i].0 == k && Hit(keyed[i].1, t)
      ensures k in Hits(g, t)
    {
      var i :| 0 <= i < |keyed| && keyed[i].0 == k && Hit(keyed[i].1, t);
      var w :| w in keyed[i].1 && IsSubstring(w, t);
      assert w in Needles(keyed);
      assert k in g[w];
    }
  }

  /** A pattern is a candidate for the normalised text `t` when it has no
      prematchers or one of them occurs in `t`. */
  predicate IsCandidate(entry: Entry, t: string) {
    entry.1 == {} || Hit(entry.1, t)
  }

  /** The registration indices of the candidates. */
  function CandidateIndices(entries: seq<Entry>, t: string): set<nat> {
    set i: nat | i < |entries| && IsCandidate(entries[i], t)
  }
}
