/** `RegexMatcher` as in `multiregex/__init__.py`: texts are lower-cased with
    `str.lower`, generated prematchers are lower-cased after the longest
    terminal is picked, and candidates carry their registration index so that
    they can be returned in registration order. */
module Multiregex {
  import opened Wrappers
  import opened SreAst
  import opened Text
  import opened Patterns
  import opened Prematchers
  import opened Automaton
  import opened Selection
  import opened Profiling

  /** `_get_top_level_prematcher`: the first longest terminal, lower-cased. */
  function TopLevelPrematcher(ast: Ast): (r: string)
    ensures NoUpper(r)
    ensures forall k :: 0 <= k < |Terminals(ast)| ==> |Terminals(ast)[k]| <= |r|
    ensures Terminals(ast) != [] ==>
      exists i :: 0 <= i < |Terminals(ast)| && r == Lower(Terminals(ast)[i]) &&
        forall j :: 0 <= j < i ==> |Terminals(ast)[j]| < |r|
    ensures r != "" <==> exists k :: 0 <= k < |Terminals(ast)| && Terminals(ast)[k] != ""
  {
    var longest := MaxByLen(Terminals(ast));
    LowerIdempotent(longest);
    Lower(longest)
  }

  /** A tree has a non-empty top-level prematcher exactly when one of its
      top-level nodes is a literal character. */
  lemma SimpleCaseIffLiteral(ast: Ast)
    ensures TopLevelPrematcher(ast) != "" <==> exists k :: 0 <= k < |ast| && ast[k].Literal?
  {
    TerminalsConcat(ast);
    ConcatEmpty(Terminals(ast));
    LiteralCharsEmpty(ast);
  }

  lemma {:induction false} ConcatEmpty(ts: seq<string>)
    ensures Concat(ts) == "" <==> forall k :: 0 <= k < |ts| ==> ts[k] == ""
  {
    if ts != [] {
      ConcatEmpty(ts[1..]);
      assert forall k :: 1 <= k < |ts| ==> ts[1..][k - 1] == ts[k];
    }
  }

  lemma {:induction false} LiteralCharsEmpty(ast: Ast)
    ensures LiteralChars(ast) == "" <==> forall k :: 0 <= k < |ast| ==> !ast[k].Literal?
  {
    if ast != [] {
      LiteralCharsEmpty(ast[1..]);
      assert forall k :: 1 <= k < |ast| ==> ast[1..][k - 1] == ast[k];
    }
  }

  /** `generate_prematchers` of this revision; every prematcher it produces passes validation. */
  function GeneratePrematchers(pattern: Pattern): (r: Result<set<string>, Error>)
    ensures r == Generate(pattern, TopLevelPrematcher)
    ensures r.Success? ==> forall w :: w in r.value ==> ValidatePrematcher(w).Pass?
  {
    var r := Generate(pattern, TopLevelPrematcher);
    if r.Success? then
      GeneratedFromTree(pattern, TopLevelPrematcher);
      assert forall w :: w in r.value ==> NoUpper(w) && w != "";
      assert forall w :: w in r.value ==> Lower(w) == w by {
        forall w | w in r.value ensures Lower(w) == w {
          LowerFixedPoints(w);
        }
      }
      r
    else
      r
  }

  /** `(Ab|c)` has no top-level literal, so its prematchers come from the
      alternation inside the group: one lower-cased terminal per alternative. */
  lemma AlternationExample(p: Pattern, c1: Ast, c2: Ast)
    requires c1 == [Literal('A'), Literal('b')] && c2 == [Literal('c')]
    requires p.tree == [Subpattern(0, 0, [Branch([c1, c2])])]
    ensures GeneratePrematchers(p) == Success({"ab", "c"})
  {
    var br := [Branch([c1, c2])];
    assert Simplify(p.tree) == br;
    SoleBranchHasNoTopLevel(br);
    ExampleChildren(c1, c2);
    GenerateSoleBranch(p, TopLevelPrematcher, br);
  }

  /** A simplified tree that is one good alternation generates its children's prematchers. */
  lemma GenerateSoleBranch(p: Pattern, top: Ast -> string, br: Ast)
    requires Simplify(p.tree) == br && |br| == 1 && top(br) == "" && GoodBranch(br[0], top)
    ensures Generate(p, top) == Success(ChildPrematchers(br[0].children, top))
  {
  }

  /** A tree made of one alternation has only the empty terminal. */
  lemma SoleBranchHasNoTopLevel(br: Ast)
    requires |br| == 1 && br[0].Branch?
    ensures TopLevelPrematcher(br) == ""
  {
    assert RunEnd(br, 0) == 0 && CharsBetween(br, 0, 0) == "";
    assert TerminalsFrom(br, 1) == [];
    assert Terminals(br) == [""] + [];
  }

  lemma ExampleChildren(c1: Ast, c2: Ast)
    requires c1 == [Literal('A'), Literal('b')] && c2 == [Literal('c')]
    ensures ChildPrematchers([c1, c2], TopLevelPrematcher) == {"ab", "c"}
    ensures GoodBranch(Branch([c1, c2]), TopLevelPrematcher)
  {
    ExampleTopLevel(c1, c2);
    PairPrematchers(c1, c2, TopLevelPrematcher);
  }

  lemma PairPrematchers(c1: Ast, c2: Ast, top: Ast -> string)
    ensures ChildPrematchers([c1, c2], top) == {top(Simplify(c1)), top(Simplify(c2))}
  {
    var children := ChildPrematchers([c1, c2], top);
    assert c1 in [c1, c2] && c2 in [c1, c2];
    assert top(Simplify(c1)) in children && top(Simplify(c2)) in children;
  }

  lemma ExampleTopLevel(c1: Ast, c2: Ast)
    requires c1 == [Literal('A'), Literal('b')] && c2 == [Literal('c')]
    ensures Simplify(c1) == c1 && Simplify(c2) == c2
    ensures TopLevelPrematcher(c1) == "ab" && TopLevelPrematcher(c2) == "c"
  {
    RunEndAt(c1, 0, 2);
    assert CharsBetween(c1, 1, 2) == "b";
    assert CharsBetween(c1, 0, 2) == "Ab";
    assert Terminals(c1) == ["Ab"] + [];
    RunEndAt(c2, 0, 1);
    assert CharsBetween(c2, 0, 1) == "c";
    assert Terminals(c2) == ["c"] + [];
  }

  /** The entry `__init__` makes of one element of its argument: the
      pattern with the prematchers the caller gave, or with the generated ones
      when the caller gave none. */
  predicate EntryFor(spec: PatternSpec, e: Entry) {
    e.0 == spec.pattern &&
    if Requested(spec).Some? then e.1 == Requested(spec).value
    else GeneratePrematchers(spec.pattern).Success? && e.1 == GeneratePrematchers(spec.pattern).value
  }

  /** The steps of `__init__` before any field is set: normalise the
      argument, generate missing prematchers, validate every prematcher. */
  method BuildEntries(specs: seq<PatternSpec>) returns (r: Result<seq<Entry>, Error>)
    ensures r.Success? <==>
      NormalizePatterns(specs).Success? &&
      FillMissing(NormalizePatterns(specs).value, TopLevelPrematcher).Success? &&
      AllValid(FillMissing(NormalizePatterns(specs).value, TopLevelPrematcher).value, ValidatePrematcher)
    ensures r.Success? ==>
      AllValid(r.value, ValidatePrematcher) &&
      PatternsOf(r.value) == seq(|specs|, i requires 0 <= i < |specs| => specs[i].pattern) &&
      forall i :: 0 <= i < |specs| ==> EntryFor(specs[i], r.value[i])
  {
    var normalized := NormalizePatterns(specs);
    if normalized.Failure? {
      return Failure(normalized.error);
    }
    r := GenerateMissingPrematchers(normalized.value, TopLevelPrematcher, ValidatePrematcher);
  }

  /** The `(index, pattern)` pairs of `enumerate(patterns)` with their prematchers. */
  function Enumerate(entries: seq<Entry>): (r: seq<((nat, Pattern), set<string>)>)
    ensures |r| == |entries|
    ensures forall i :: 0 <= i < |entries| ==> r[i] == ((i, entries[i].0), entries[i].1)
  {
    seq(|entries|, i requires 0 <= i < |entries| => ((i, entries[i].0), entries[i].1))
  }

  /** `patterns_without_prematchers`: the indexed patterns with no prematcher. */
  function Bypass(entries: seq<Entry>): set<(nat, Pattern)> {
    set i: nat | i < |entries| && entries[i].1 == {} :: (i, entries[i].0)
  }

  /** The bypass patterns and the automaton's hits are together exactly the
      indexed candidates. */
  lemma CandidateSet(entries: seq<Entry>, t: string)
    ensures Bypass(entries) + Hits(Grouped(Enumerate(entries)), t) ==
      PickedSet(PatternsOf(entries), CandidateIndices(entries, t))
  {
    var keyed := Enumerate(entries);
    HitsOfGrouped(keyed, t);
    var lhs := Bypass(entries) + Hits(Grouped(keyed), t);
    var rhs := PickedSet(PatternsOf(entries), CandidateIndices(entries, t));
    forall x | x in lhs ensures x in rhs {
      if x !in Bypass(entries) {
        var i :| 0 <= i < |keyed| && keyed[i].0 == x && Hit(keyed[i].1, t);
        assert i in CandidateIndices(entries, t);
      }
    }
    forall x | x in rhs ensures x in lhs {
      var i := x.0;
      assert IsCandidate(entries[i], t);
      if entries[i].1 != {} {
        assert keyed[i].0 == x && Hit(keyed[i].1, t);
      }
    }
  }

  class RegexMatcher {
    /** The patterns in registration order. */
    var patterns: seq<Pattern>
    /** Pattern to prematcher set; a repeated pattern keeps its last set. */
    var prematchers: map<Pattern, set<string>>
    var patternsWithoutPrematchers: set<(nat, Pattern)>
    /** The Aho-Corasick automaton, as the needle to indexed-patterns map it stores. */
    var automaton: map<string, set<(nat, Pattern)>>
    var countPrematcherFalsePositives: bool
    /** Profiling counters; empty when profiling is off. */
    var prematcherFalsePositives: map<Pattern, Counter>
    /** The validated entries the matcher was built from, one per registered pattern. */
    ghost var entries: seq<Entry>

    ghost predicate Valid()
      reads this
    {
      Built() && Profiled()
    }

    /** The fields `__init__` sets once agree with the entries. */
    ghost predicate Built()
      reads this`entries, this`patterns, this`prematchers, this`patternsWithoutPrematchers, this`automaton
    {
      AllValid(entries, ValidatePrematcher) &&
      patterns == PatternsOf(entries) &&
      prematchers == DictOf(entries) &&
      patternsWithoutPrematchers == Bypass(entries) &&
      automaton == Grouped(Enumerate(entries))
    }

    /** With profiling on, every registered pattern has a consistent counter. */
    ghost predicate Profiled()
      reads this`countPrematcherFalsePositives, this`prematcherFalsePositives, this`patterns
    {
      (countPrematcherFalsePositives ==>
        prematcherFalsePositives.Keys == (set p | p in patterns) && Consistent(prematcherFalsePositives)) &&
      (!countPrematcherFalsePositives ==> prematcherFalsePositives == map[])
    }

    /** The field assignments of `__init__`, from already validated entries. */
    constructor FromEntries(validated: seq<Entry>, count: bool)
      requires AllValid(validated, ValidatePrematcher)
      ensures Valid()
      ensures entries == validated && countPrematcherFalsePositives == count
      ensures count ==> forall p :: p in prematcherFalsePositives ==> prematcherFalsePositives[p] == Counter(0, 0)
    {
      var ps := PatternsOf(validated);
      var groups := GroupByPrematcher(Enumerate(validated));
      var made := MakeAutomaton(groups);
      patterns := ps;
      prematchers := DictOf(validated);
      patternsWithoutPrematchers := Bypass(validated);
      automaton := made.value;
      countPrematcherFalsePositives := count;
      prematcherFalsePositives := if count then map p | p in ps :: Counter(0, 0) else map[];
      entries := validated;
    }

    /** `RegexMatcher(patterns, count_prematcher_false_positives)`: fails with
        the first construction error, otherwise builds the matcher. */
    static method Create(specs: seq<PatternSpec>, count: bool) returns (r: Result<RegexMatcher, Error>)
      ensures r.Success? ==> fresh(r.value) && r.value.Valid() && r.value.countPrematcherFalsePositives == count
      ensures r.Success? <==>
        NormalizePatterns(specs).Success? &&
        FillMissing(NormalizePatterns(specs).value, TopLevelPrematcher).Success? &&
        AllValid(FillMissing(NormalizePatterns(specs).value, TopLevelPrematcher).value, ValidatePrematcher)
      ensures r.Success? ==>
        |r.value.patterns| == |specs| && forall i :: 0 <= i < |specs| ==> r.value.patterns[i] == specs[i].pattern
      ensures r.Success? ==>
        |r.value.entries| == |specs| && forall i :: 0 <= i < |specs| ==> EntryFor(specs[i], r.value.entries[i])
      ensures r.Success? && count ==>
        forall p :: p in r.value.prematcherFalsePositives ==> r.value.prematcherFalsePositives[p] == Counter(0, 0)
    {
      var built := BuildEntries(specs);
      if built.Failure? {
        return Failure(built.error);
      }
      var m := new RegexMatcher.FromEntries(built.value, count);
      return Success(m);
    }

    /** `get_pattern_candidates`: the patterns that may match `s`, in
        registration order — those without prematchers and those with a
        prematcher occurring in `s.lower()`. */
    function GetPatternCandidates(s: string): (r: seq<Pattern>)
      reads this`entries, this`patterns, this`prematchers, this`patternsWithoutPrematchers, this`automaton
      requires Built()
      ensures r == Pick(patterns, CandidateIndices(entries, Lower(s)))
    {
      var unordered := patternsWithoutPrematchers + Hits(automaton, Lower(s));
      CandidateSet(entries, Lower(s));
      SortPicked(patterns, CandidateIndices(entries, Lower(s)));
      Seconds(SortByIndex(unordered, |patterns|))
    }

    /** The patterns `run` attempts. */
    function Attempted(s: string, enablePrematchers: bool): seq<Pattern>
      reads this`entries, this`patterns, this`prematchers, this`patternsWithoutPrematchers, this`automaton
      requires Built()
    {
      if enablePrematchers then GetPatternCandidates(s) else patterns
    }

    /** `run`: attempts the candidates (or every pattern) with `matchFunc`,
        updates the profiling counters if enabled, and returns the matches. */
    method Run<M(!new)>(matchFunc: (Pattern, string) -> Option<M>, s: string, enablePrematchers: bool)
      returns (results: seq<(Pattern, M)>)
      requires Valid()
      modifies this`prematcherFalsePositives
      ensures Valid()
      ensures results == Matches(Attempted(s, enablePrematchers), matchFunc, s)
      ensures countPrematcherFalsePositives ==>
        Counted(old(prematcherFalsePositives), Attempt(Attempted(s, enablePrematchers), matchFunc, s)) &&
        prematcherFalsePositives == Tally(old(prematcherFalsePositives), Attempt(Attempted(s, enablePrematchers), matchFunc, s))
      ensures !countPrematcherFalsePositives ==> prematcherFalsePositives == old(prematcherFalsePositives)
    {
      var candidates := Candidates(s, enablePrematchers);
      var reResults := Attempt(candidates, matchFunc, s);
      if countPrematcherFalsePositives {
        Profile(reResults);
      }
      results := Successes(reResults);
    }

    /** The patterns `run` goes on to attempt: the candidates for `s`, or every pattern. */
    method Candidates(s: string, enablePrematchers: bool) returns (candidates: seq<Pattern>)
      requires Valid()
      ensures candidates == Attempted(s, enablePrematchers)
      ensures forall k :: 0 <= k < |candidates| ==> candidates[k] in patterns
    {
      candidates := if enablePrematchers then GetPatternCandidates(s) else patterns;
      AttemptedAreRegistered(s, enablePrematchers);
    }

    /** The profiling step of `run` on the attempted patterns' results: keeps
        every counter consistent. */
    method Profile<M>(reResults: seq<(Pattern, Option<M>)>)
      requires Valid() && countPrematcherFalsePositives
      requires forall k :: 0 <= k < |reResults| ==> reResults[k].0 in patterns
      modifies this`prematcherFalsePositives
      ensures Valid()
      ensures Counted(old(prematcherFalsePositives), reResults)
      ensures prematcherFalsePositives == Tally(old(prematcherFalsePositives), reResults)
    {
      CountResults(reResults);
      TallyConsistent(old(prematcherFalsePositives), reResults);
    }

    /** The profiling loop of `run`. */
    method CountResults<M>(reResults: seq<(Pattern, Option<M>)>)
      requires Counted(prematcherFalsePositives, reResults)
      modifies this`prematcherFalsePositives
      ensures prematcherFalsePositives == Tally(old(prematcherFalsePositives), reResults)
    {
      ghost var start := prematcherFalsePositives;
      var k := 0;
      while k < |reResults|
        invariant 0 <= k <= |reResults|
        invariant prematcherFalsePositives == Tally(start, reResults[..k])
      {
        TallyStep(start, reResults, k);
        var pattern, m := reResults[k].0, reResults[k].1;
        var c := prematcherFalsePositives[pattern];
        prematcherFalsePositives := prematcherFalsePositives[pattern :=
          Counter(c.positives + 1, c.falsePositives + if m.None? then 1 else 0)];
        k := k + 1;
      }
      assert reResults[..k] == reResults;
    }

    /** Every attempted pattern is a registered one, so it has a counter. */
    lemma AttemptedAreRegistered(s: string, enablePrematchers: bool)
      requires Valid()
      ensures forall k :: 0 <= k < |Attempted(s, enablePrematchers)| ==> Attempted(s, enablePrematchers)[k] in patterns
    {
      var keep := CandidateIndices(entries, Lower(s));
      var picked := PickIndexed(patterns, keep);
      assert forall k :: 0 <= k < |picked| ==> picked[k].1 in patterns;
    }

    /** `get_prematcher_false_positives`: refused without profiling; otherwise
        one item per distinct pattern with false positives, worst first. */
    function GetPrematcherFalsePositives(): (r: Result<seq<Item<Pattern>>, Error>)
      reads this
      requires Valid()
      ensures r.Failure? <==> !countPrematcherFalsePositives
      ensures r.Failure? ==> r.error == ProfilingNotEnabled
      ensures r.Success? ==>
        Descending(r.value) &&
        (forall x :: x in r.value <==>
          x.0 in patterns && x.1 == prematcherFalsePositives[x.0] && x.1.falsePositives != 0) &&
        (forall i, j :: 0 <= i < j < |r.value| ==> r.value[i].0 != r.value[j].0) &&
        forall v :: WithCount(r.value, v) == WithCount(FalsePositiveItems(prematcherFalsePositives, Distinct(patterns)), v)
    {
      if !countPrematcherFalsePositives then Failure(ProfilingNotEnabled)
      else Success(FalsePositiveReport(prematcherFalsePositives, patterns))
    }

    /** The rows `format_prematcher_false_positives(worst_n)` prints. */
    function WorstFalsePositives(worstN: Option<int>): (r: Result<seq<Item<Pattern>>, Error>)
      reads this
      requires Valid()
      ensures r.Failure? <==> !countPrematcherFalsePositives
      ensures r.Success? ==> r.value == WorstN(GetPrematcherFalsePositives().value, worstN)
      ensures r.Success? ==>
        |r.value| <= |GetPrematcherFalsePositives().value| &&
        r.value == GetPrematcherFalsePositives().value[..|r.value|]
    {
      match GetPrematcherFalsePositives()
      case Failure(e) => Failure(e)
      case Success(items) => Success(WorstN(items, worstN))
    }

    /** Prematching only drops results: what `run` returns with prematchers
        is a subsequence of what it returns without them. */
    lemma PrematchedIsSubsequence<M(!new)>(matchFunc: (Pattern, string) -> Option<M>, s: string)
      requires Valid()
      ensures IsSubsequence(Matches(Attempted(s, true), matchFunc, s), Matches(Attempted(s, false), matchFunc, s))
    {
      PickIndexedIsSubsequence(patterns, CandidateIndices(entries, Lower(s)));
      MatchesOfSubsequence(GetPatternCandidates(s), patterns, matchFunc, s);
    }

    /** Prematching drops nothing when every pattern the engine matches on
        `s` has no prematchers or a prematcher occurring in `s.lower()`. */
    lemma PrematchedComplete<M(!new)>(matchFunc: (Pattern, string) -> Option<M>, s: string)
      requires Valid()
      requires forall i :: 0 <= i < |patterns| && matchFunc(patterns[i], s).Some? ==> IsCandidate(entries[i], Lower(s))
      ensures Matches(Attempted(s, true), matchFunc, s) == Matches(Attempted(s, false), matchFunc, s)
    {
      MatchesOfPickComplete(patterns, CandidateIndices(entries, Lower(s)), matchFunc, s);
    }
  }
}
