/** `RegexMatcher` as in `src/multiregex/__init__.py`: texts and generated
    terminals are normalised with `to_lowercase_ascii`, candidates are a set
    of patterns, and `run` restores registration order by filtering the
    pattern list. Construction validates prematchers as the code does, so a
    non-ASCII prematcher is accepted and then never hit (see
    `RegexMatcher.NonAsciiPrematcherMissesMatch`); construction with the ASCII
    requirement that the validation message states refuses it (see
    `CorrectedValidationRefuses`). */
module SrcMultiregex {
  import opened Wrappers
  import opened SreAst
  import opened Text
  import opened Patterns
  import opened Prematchers
  import opened Automaton
  import opened Selection
  import opened Profiling
  import Multiregex

  /** `_isascii`: `str.isascii` where the interpreter has it, otherwise the
      test that no character has bit 7 of its code set. */
  function IsAsciiCheck(s: string, hasIsascii: bool): (r: bool)
    ensures hasIsascii ==> (r <==> IsAscii(s))
    ensures !hasIsascii ==> (r <==> IsAsciiFallback(s))
    ensures IsAscii(s) ==> r
  {
    if hasIsascii then IsAscii(s)
    else if IsAscii(s) then AsciiPassesFallback(s); true
    else IsAsciiFallback(s)
  }

  /** Without `str.isascii` the check accepts U+0100, which is not ASCII. */
  lemma IsAsciiCheckFallbackWrong()
    ensures IsAsciiCheck("\U{100}", false) && !IsAsciiCheck("\U{100}", true)
  {
    FallbackAcceptsNonAscii();
  }

  /** `_isascii` with the fallback comparing the code with 128 instead of
      testing one bit: the answer no longer depends on the interpreter. */
  function IsAsciiCheckFixed(s: string, hasIsascii: bool): (r: bool)
    ensures r <==> IsAscii(s)
  {
    if hasIsascii then IsAscii(s) else forall k :: 0 <= k < |s| ==> s[k] as int < 0x80
  }

  /** A validated prematcher containing a non-ASCII character can never occur
      in a normalised text, so its pattern is never a candidate through it. */
  lemma NonAsciiPrematcherNeverHit(w: string, s: string)
    ensures !IsAscii(w) ==> !IsSubstring(w, ToLowercaseAscii(s))
  {
    var t := ToLowercaseAscii(s);
    if IsSubstring(w, t) {
      SubstringCharsOccur(w, t);
      forall k | 0 <= k < |w| ensures IsAsciiChar(w[k]) {
        var j :| 0 <= j < |t| && t[j] == w[k];
      }
    }
  }

  /** The source's validation accepts "ä" (U+00E4), a prematcher no text can trigger. */
  lemma ValidatedYetUnreachable(s: string)
    ensures ValidatePrematcher("\U{E4}").Pass? && !IsSubstring("\U{E4}", ToLowercaseAscii(s))
  {
    ValidateAcceptsNonAscii();
    NonAsciiPrematcherNeverHit("\U{E4}", s);
  }

  /** Every prematcher the ASCII-checking validation accepts is triggered by
      some text: by itself. */
  lemma AcceptedPrematcherReachable(w: string)
    requires ValidatePrematcherAscii(w).Pass?
    ensures IsSubstring(w, ToLowercaseAscii(w))
  {
    SubstringOfItself(w);
  }

  /** `_get_top_level_prematcher` of this revision: the first longest
      terminal after normalisation. A terminal made only of non-ASCII
      characters normalises to "" and is never chosen over a non-empty one. */
  function TopLevelPrematcher(ast: Ast): (r: string)
    ensures IsAscii(r) && NoUpper(r)
    ensures r != "" ==> ValidatePrematcherAscii(r).Pass?
    ensures forall k :: 0 <= k < |Terminals(ast)| ==> |ToLowercaseAscii(Terminals(ast)[k])| <= |r|
    ensures Terminals(ast) != [] ==>
      exists i :: 0 <= i < |Terminals(ast)| && r == ToLowercaseAscii(Terminals(ast)[i]) &&
        forall j :: 0 <= j < i ==> |ToLowercaseAscii(Terminals(ast)[j])| < |r|
    ensures r != "" <==> exists k :: 0 <= k < |Terminals(ast)| && ToLowercaseAscii(Terminals(ast)[k]) != ""
  {
    var ts := LowerAll(Terminals(ast));
    var r := MaxByLen(ts);
    MaxByLenEmpty(ts);
    ToLowercaseAsciiFixedPoints(r);
    ToLowercaseAsciiIdempotent(r);
    r
  }

  /** `generate_prematchers` of this revision; every prematcher it produces
      is ASCII, lower-case and non-empty. */
  function GeneratePrematchers(pattern: Pattern): (r: Result<set<string>, Error>)
    ensures r == Generate(pattern, TopLevelPrematcher)
    ensures r.Success? ==> forall w :: w in r.value ==> ValidatePrematcherAscii(w).Pass? && ValidatePrematcher(w).Pass?
  {
    var r := Generate(pattern, TopLevelPrematcher);
    if r.Success? then
      GeneratedFromTree(pattern, TopLevelPrematcher);
      r
    else
      r
  }

  /** A pattern whose only literal is "ä" gets no prematcher in this
      revision: its terminal normalises to "" and there is no alternation
      to fall back on, so generation fails. */
  lemma NonAsciiLiteralCannotGenerate()
    ensures GeneratePrematchers(Pattern("\U{E4}", [Literal('\U{E4}')])).Failure?
  {
    var ast := [Literal('\U{E4}')];
    assert Simplify(ast) == ast;
    RunEndAt(ast, 0, 1);
    assert CharsBetween(ast, 0, 1) == "\U{E4}";
    assert Terminals(ast) == ["\U{E4}"] + [];
    assert ToLowercaseAscii("\U{E4}") == "";
    assert !GoodBranch(ast[0], TopLevelPrematcher);
  }

  /** When the tree's literal characters are all ASCII both revisions pick the same top-level prematcher. */
  lemma TopLevelAgreesOnAscii(ast: Ast)
    requires forall k :: 0 <= k < |ast| && ast[k].Literal? ==> IsAsciiChar(ast[k].c)
    ensures TopLevelPrematcher(ast) == Multiregex.TopLevelPrematcher(ast)
  {
    TerminalsAscii(ast);
    MaxByLenNormalized(Terminals(ast));
  }

  /** `map(to_lowercase_ascii, ts)`. */
  function LowerAll(ts: seq<string>): (r: seq<string>)
    ensures |r| == |ts|
    ensures forall k :: 0 <= k < |ts| ==> r[k] == ToLowercaseAscii(ts[k])
  {
    seq(|ts|, k requires 0 <= k < |ts| => ToLowercaseAscii(ts[k]))
  }

  /** On ASCII strings, normalising before taking the longest equals lower-casing after. */
  lemma {:induction false} MaxByLenNormalized(ts: seq<string>)
    requires forall k :: 0 <= k < |ts| ==> IsAscii(ts[k])
    ensures MaxByLen(LowerAll(ts)) == Lower(MaxByLen(ts))
  {
    forall k | 0 <= k < |ts| ensures ToLowercaseAscii(ts[k]) == Lower(ts[k]) {
      ToLowercaseAsciiOnAscii(ts[k]);
    }
    if |ts| > 1 {
      var n := |ts| - 1;
      var init := ts[..n];
      assert forall k :: 0 <= k < n ==> init[k] == ts[k];
      MaxByLenNormalized(init);
      assert LowerAll(ts)[..n] == LowerAll(init);
    }
  }

  /** Every terminal of a tree whose literal characters are ASCII is ASCII. */
  lemma TerminalsAscii(ast: Ast)
    requires forall k :: 0 <= k < |ast| && ast[k].Literal? ==> IsAsciiChar(ast[k].c)
    ensures forall k :: 0 <= k < |Terminals(ast)| ==> IsAscii(Terminals(ast)[k])
  {
    TerminalsConcat(ast);
    LiteralCharsAscii(ast);
    ConcatAscii(Terminals(ast));
  }

  lemma {:induction false} LiteralCharsAscii(ast: Ast)
    requires forall k :: 0 <= k < |ast| && ast[k].Literal? ==> IsAsciiChar(ast[k].c)
    ensures IsAscii(LiteralChars(ast))
  {
    if ast != [] {
      assert forall k :: 1 <= k < |ast| ==> ast[1..][k - 1] == ast[k];
      LiteralCharsAscii(ast[1..]);
    }
  }

  lemma {:induction false} ConcatAscii(ts: seq<string>)
    requires IsAscii(Concat(ts))
    ensures forall k :: 0 <= k < |ts| ==> IsAscii(ts[k])
  {
    if ts != [] {
      assert Concat(ts) == ts[0] + Concat(ts[1..]);
      assert forall j :: 0 <= j < |ts[0]| ==> ts[0][j] == Concat(ts)[j];
      assert forall j :: 0 <= j < |Concat(ts[1..])| ==> Concat(ts[1..])[j] == Concat(ts)[|ts[0]| + j];
      ConcatAscii(ts[1..]);
      assert forall k :: 1 <= k < |ts| ==> ts[1..][k - 1] == ts[k];
    }
  }

  /** The entry `__init__` makes of one element of its argument: the
      pattern with the prematchers the caller gave, or with the generated ones
      when the caller gave none. */
  predicate EntryFor(spec: PatternSpec, e: Entry) {
    e.0 == spec.pattern &&
    if Requested(spec).Some? then e.1 == Requested(spec).value
    else GeneratePrematchers(spec.pattern).Success? && e.1 == GeneratePrematchers(spec.pattern).value
  }

  /** The steps of `__init__` before any field is set: normalise the
      argument, generate missing prematchers, validate every prematcher with
      `validate` (`ValidatePrematcher` as written, `ValidatePrematcherAscii` corrected). */
  method BuildEntries(specs: seq<PatternSpec>, validate: string -> Outcome<Error>) returns (r: Result<seq<Entry>, Error>)
    ensures r.Success? <==>
      NormalizePatterns(specs).Success? &&
      FillMissing(NormalizePatterns(specs).value, TopLevelPrematcher).Success? &&
      AllValid(FillMissing(NormalizePatterns(specs).value, TopLevelPrematcher).value, validate)
    ensures r.Success? ==>
      AllValid(r.value, validate) &&
      PatternsOf(r.value) == seq(|specs|, i requires 0 <= i < |specs| => specs[i].pattern) &&
      forall i :: 0 <= i < |specs| ==> EntryFor(specs[i], r.value[i])
  {
    var normalized := NormalizePatterns(specs);
    if normalized.Failure? {
      return Failure(normalized.error);
    }
    r := GenerateMissingPrematchers(normalized.value, TopLevelPrematcher, validate);
  }

  /** The pattern "ä" with the caller-given prematcher "ä": the as-written
      validation lets it through, the corrected one refuses it. */
  lemma CorrectedValidationRefuses(p: Pattern)
    ensures NormalizePatterns([Pair(p, Some(Strings(["\U{E4}"])))]).Success?
    ensures FillMissing(NormalizePatterns([Pair(p, Some(Strings(["\U{E4}"])))]).value, TopLevelPrematcher) ==
      Success([(p, {"\U{E4}"})])
    ensures AllValid([(p, {"\U{E4}"})], ValidatePrematcher)
    ensures !AllValid([(p, {"\U{E4}"})], ValidatePrematcherAscii)
  {
    var spec := Pair(p, Some(Strings(["\U{E4}"])));
    assert WellFormedPair(spec);
    assert (set w | w in ["\U{E4}"]) == {"\U{E4}"} by {
      assert "\U{E4}" in ["\U{E4}"];
    }
    var filled := FillMissing(NormalizePatterns([spec]).value, TopLevelPrematcher);
    assert filled.value[0] == (p, {"\U{E4}"});
    assert filled.value == [(p, {"\U{E4}"})];
    ValidateAcceptsNonAscii();
    assert !ValidatePrematcherAscii("\U{E4}").Pass?;
  }

  /** `patterns_without_prematchers`: the patterns with no prematcher. */
  function Bypass(entries: seq<Entry>): set<Pattern> {
    set i | 0 <= i < |entries| && entries[i].1 == {} :: entries[i].0
  }

  /** The patterns some entry of which is a candidate for `t`. */
  ghost function CandidatePatterns(entries: seq<Entry>, t: string): set<Pattern> {
    PickedElems(PatternsOf(entries), CandidateIndices(entries, t))
  }

  /** On ASCII text and distinct patterns both revisions attempt the same
      patterns in the same order. */
  lemma CandidatesAgreeOnAscii(entries: seq<Entry>, s: string)
    requires IsAscii(s)
    requires forall i, j :: 0 <= i < j < |entries| ==> entries[i].0 != entries[j].0
    ensures FilterMember(PatternsOf(entries), CandidatePatterns(entries, ToLowercaseAscii(s))) ==
      Pick(PatternsOf(entries), CandidateIndices(entries, Lower(s)))
  {
    ToLowercaseAsciiOnAscii(s);
    FilterPickedDistinct(PatternsOf(entries), CandidateIndices(entries, Lower(s)));
  }

  class RegexMatcher {
    /** The patterns in registration order. */
    var patterns: seq<Pattern>
    /** Pattern to prematcher set; a repeated pattern keeps its last set. */
    var prematchers: map<Pattern, set<string>>
    var patternsWithoutPrematchers: set<Pattern>
    /** The Aho-Corasick automaton, as the needle to patterns map it stores. */
    var automaton: map<string, set<Pattern>>
    var countPrematcherFalsePositives: bool
    /** Profiling counters; empty when profiling is off. */
    var prematcherFalsePositives: map<Pattern, Counter>
    /** The validated entries the matcher was built from, one per registered pattern. */
    ghost var entries: seq<Entry>

    ghost predicate Valid()
      reads this
    {
      Built() && Profiled()
    }

    /** The fields `__init__` sets once agree with the entries. */
    ghost predicate Built()
      reads this`entries, this`patterns, this`prematchers, this`patternsWithoutPrematchers, this`automaton
    {
      AllValid(entries, ValidatePrematcher) &&
      patterns == PatternsOf(entries) &&
      prematchers == DictOf(entries) &&
      patternsWithoutPrematchers == Bypass(entries) &&
      automaton == Grouped(entries)
    }

    /** With profiling on, every registered pattern has a consistent counter. */
    ghost predicate Profiled()
      reads this`countPrematcherFalsePositives, this`prematcherFalsePositives, this`patterns
    {
      (countPrematcherFalsePositives ==>
        prematcherFalsePositives.Keys == (set p | p in patterns) && Consistent(prematcherFalsePositives)) &&
      (!countPrematcherFalsePositives ==> prematcherFalsePositives == map[])
    }

    /** The field assignments of `__init__`, from already validated entries. */
    constructor FromEntries(validated: seq<Entry>, count: bool)
      requires AllValid(validated, ValidatePrematcher)
      ensures Valid()
      ensures entries == validated && countPrematcherFalsePositives == count
      ensures count ==> forall p :: p in prematcherFalsePositives ==> prematcherFalsePositives[p] == Counter(0, 0)
    {
      var ps := PatternsOf(validated);
      var groups := GroupByPrematcher(validated);
      var made := MakeAutomaton(groups);
      patterns := ps;
      prematchers := DictOf(validated);
      patternsWithoutPrematchers := Bypass(validated);
      automaton := made.value;
      countPrematcherFalsePositives := count;
      prematcherFalsePositives := if count then map p | p in ps :: Counter(0, 0) else map[];
      entries := validated;
    }

    /** `RegexMatcher(patterns, count_prematcher_false_positives)`: fails with
        the first construction error, otherwise builds the matcher. */
    static method Create(specs: seq<PatternSpec>, count: bool) returns (r: Result<RegexMatcher, Error>)
      ensures r.Success? ==> fresh(r.value) && r.value.Valid() && r.value.countPrematcherFalsePositives == count
      ensures r.Success? <==>
        NormalizePatterns(specs).Success? &&
        FillMissing(NormalizePatterns(specs).value, TopLevelPrematcher).Success? &&
        AllValid(FillMissing(NormalizePatterns(specs).value, TopLevelPrematcher).value, ValidatePrematcher)
      ensures r.Success? ==>
        |r.value.patterns| == |specs| && forall i :: 0 <= i < |specs| ==> r.value.patterns[i] == specs[i].pattern
      ensures r.Success? ==>
        |r.value.entries| == |specs| && forall i :: 0 <= i < |specs| ==> EntryFor(specs[i], r.value.entries[i])
      ensures r.Success? && count ==>
        forall p :: p in r.value.prematcherFalsePositives ==> r.value.prematcherFalsePositives[p] == Counter(0, 0)
    {
      var built := BuildEntries(specs, ValidatePrematcher);
      if built.Failure? {
        return Failure(built.error);
      }
      var m := new RegexMatcher.FromEntries(built.value, count);
      return Success(m);
    }

    /** `get_pattern_candidates`: the set of patterns without prematchers or
        with a prematcher occurring in `to_lowercase_ascii(s)`. */
    function GetPatternCandidates(s: string): (r: set<Pattern>)
      reads this`entries, this`patterns, this`prematchers, this`patternsWithoutPrematchers, this`automaton
      requires Built()
      ensures r == CandidatePatterns(entries, ToLowercaseAscii(s))
      ensures forall p :: p in r <==>
        exists i :: 0 <= i < |entries| && entries[i].0 == p && IsCandidate(entries[i], ToLowercaseAscii(s))
    {
      var t := ToLowercaseAscii(s);
      var r := patternsWithoutPrematchers + Hits(automaton, t);
      HitsOfGrouped(entries, t);
      assert forall p :: p in r <==>
        exists i :: 0 <= i < |entries| && entries[i].0 == p && IsCandidate(entries[i], t);
      r
    }

    /** The patterns `run` attempts: with prematchers, the registered patterns
        that are in the candidate set, in registration order. */
    function Attempted(s: string, enablePrematchers: bool): seq<Pattern>
      reads this`entries, this`patterns, this`prematchers, this`patternsWithoutPrematchers, this`automaton
      requires Built()
    {
      if enablePrematchers then FilterMember(patterns, GetPatternCandidates(s)) else patterns
    }

    /** `run`: attempts the candidates (or every pattern) with `matchFunc`,
        updates the profiling counters if enabled, and returns the matches. */
    method Run<M(!new)>(matchFunc: (Pattern, string) -> Option<M>, s: string, enablePrematchers: bool)
      returns (results: seq<(Pattern, M)>)
      requires Valid()
      modifies this`prematcherFalsePositives
      ensures Valid()
      ensures results == Matches(Attempted(s, enablePrematchers), matchFunc, s)
      ensures countPrematcherFalsePositives ==>
        Counted(old(prematcherFalsePositives), Attempt(Attempted(s, enablePrematchers), matchFunc, s)) &&
        prematcherFalsePositives == Tally(old(prematcherFalsePositives), Attempt(Attempted(s, enablePrematchers), matchFunc, s))
      ensures !countPrematcherFalsePositives ==> prematcherFalsePositives == old(prematcherFalsePositives)
    {
      var candidates := Candidates(s, enablePrematchers);
      var reResults := Attempt(candidates, matchFunc, s);
      if countPrematcherFalsePositives {
        Profile(reResults);
      }
      results := Successes(reResults);
    }

    /** The patterns `run` goes on to attempt: every pattern, narrowed to the
        candidate set for `s` when prematchers are enabled. */
    method Candidates(s: string, enablePrematchers: bool) returns (candidates: seq<Pattern>)
      requires Valid()
      ensures candidates == Attempted(s, enablePrematchers)
      ensures forall k :: 0 <= k < |candidates| ==> candidates[k] in patterns
    {
      candidates := patterns;
      if enablePrematchers {
        var candidatesSet := GetPatternCandidates(s);
        candidates := FilterMember(candidates, candidatesSet);
      }
    }

    /** The profiling step of `run` on the attempted patterns' results: keeps
        every counter consistent. */
    method Profile<M>(reResults: seq<(Pattern, Option<M>)>)
      requires Valid() && countPrematcherFalsePositives
      requires forall k :: 0 <= k < |reResults| ==> reResults[k].0 in patterns
      modifies this`prematcherFalsePositives
      ensures Valid()
      ensures Counted(old(prematcherFalsePositives), reResults)
      ensures prematcherFalsePositives == Tally(old(prematcherFalsePositives), reResults)
    {
      CountResults(reResults);
      TallyConsistent(old(prematcherFalsePositives), reResults);
    }

    /** The profiling loop of `run`. */
    method CountResults<M>(reResults: seq<(Pattern, Option<M>)>)
      requires Counted(prematcherFalsePositives, reResults)
      modifies this`prematcherFalsePositives
      ensures prematcherFalsePositives == Tally(old(prematcherFalsePositives), reResults)
    {
      ghost var start := prematcherFalsePositives;
      var k := 0;
      while k < |reResults|
        invariant 0 <= k <= |reResults|
        invariant prematcherFalsePositives == Tally(start, reResults[..k])
      {
        TallyStep(start, reResults, k);
        var pattern, m := reResults[k].0, reResults[k].1;
        var c := prematcherFalsePositives[pattern];
        prematcherFalsePositives := prematcherFalsePositives[pattern :=
          Counter(c.positives + 1, c.falsePositives + if m.None? then 1 else 0)];
        k := k + 1;
      }
      assert reResults[..k] == reResults;
    }

    /** `get_prematcher_false_positives`: refused without profiling; otherwise
        one item per distinct pattern with false positives, worst first. */
    function GetPrematcherFalsePositives(): (r: Result<seq<Item<Pattern>>, Error>)
      reads this
      requires Valid()
      ensures r.Failure? <==> !countPrematcherFalsePositives
      ensures r.Failure? ==> r.error == ProfilingNotEnabled
      ensures r.Success? ==>
        Descending(r.value) &&
        (forall x :: x in r.value <==>
          x.0 in patterns && x.1 == prematcherFalsePositives[x.0] && x.1.falsePositives != 0) &&
        (forall i, j :: 0 <= i < j < |r.value| ==> r.value[i].0 != r.value[j].0) &&
        forall v :: WithCount(r.value, v) == WithCount(FalsePositiveItems(prematcherFalsePositives, Distinct(patterns)), v)
    {
      if !countPrematcherFalsePositives then Failure(ProfilingNotEnabled)
      else Success(FalsePositiveReport(prematcherFalsePositives, patterns))
    }

    /** The rows `format_prematcher_false_positives(worst_n)` prints. */
    function WorstFalsePositives(worstN: Option<int>): (r: Result<seq<Item<Pattern>>, Error>)
      reads this
      requires Valid()
      ensures r.Failure? <==> !countPrematcherFalsePositives
      ensures r.Success? ==> r.value == WorstN(GetPrematcherFalsePositives().value, worstN)
      ensures r.Success? ==>
        |r.value| <= |GetPrematcherFalsePositives().value| &&
        r.value == GetPrematcherFalsePositives().value[..|r.value|]
    {
      match GetPrematcherFalsePositives()
      case Failure(e) => Failure(e)
      case Success(items) => Success(WorstN(items, worstN))
    }

    /** Prematching only drops results: what `run` returns with prematchers
        is a subsequence of what it returns without them. */
    lemma PrematchedIsSubsequence<M(!new)>(matchFunc: (Pattern, string) -> Option<M>, s: string)
      requires Valid()
      ensures IsSubsequence(Matches(Attempted(s, true), matchFunc, s), Matches(Attempted(s, false), matchFunc, s))
    {
      FilterMemberIsSubsequence(patterns, GetPatternCandidates(s));
      MatchesOfSubsequence(Attempted(s, true), patterns, matchFunc, s);
    }

    /** Prematching drops nothing when every pattern the engine matches on
        `s` has no prematchers or a prematcher occurring in `to_lowercase_ascii(s)`. */
    lemma PrematchedComplete<M(!new)>(matchFunc: (Pattern, string) -> Option<M>, s: string)
      requires Valid()
      requires forall i :: 0 <= i < |patterns| && matchFunc(patterns[i], s).Some? ==>
        IsCandidate(entries[i], ToLowercaseAscii(s))
      ensures Matches(Attempted(s, true), matchFunc, s) == Matches(Attempted(s, false), matchFunc, s)
    {
      MatchesOfFilterComplete(patterns, GetPatternCandidates(s), matchFunc, s);
    }

    /** A matcher built from the one pattern with prematcher "ä", which
        construction accepts: prematching never attempts the pattern, so `run`
        misses every match the engine finds, which `run` without prematchers returns. */
    lemma NonAsciiPrematcherMissesMatch<M(!new)>(matchFunc: (Pattern, string) -> Option<M>, s: string)
      requires Valid()
      requires |entries| == 1 && entries[0].1 == {"\U{E4}"}
      ensures Attempted(s, true) == []
      ensures Matches(Attempted(s, true), matchFunc, s) == []
      ensures matchFunc(patterns[0], s).Some? ==>
        Matches(Attempted(s, false), matchFunc, s) == [(patterns[0], matchFunc(patterns[0], s).value)]
    {
      ValidateAcceptsNonAscii();
      NonAsciiPrematcherNeverHit("\U{E4}", s);
      assert !IsCandidate(entries[0], ToLowercaseAscii(s));
      assert GetPatternCandidates(s) == {};
      assert patterns == [patterns[0]];
      assert FilterMember(patterns, {}) == FilterMember(patterns[..0], {}) + [];
      assert Attempt(patterns, matchFunc, s) == [(patterns[0], matchFunc(patterns[0], s))];
      assert Attempt([], matchFunc, s) == [];
    }

    /** With distinct patterns, the attempted patterns are exactly those at
        candidate indices, in registration order. */
    lemma AttemptedInOrder(s: string)
      requires Valid()
      requires forall i, j :: 0 <= i < j < |patterns| ==> patterns[i] != patterns[j]
      ensures Attempted(s, true) == Pick(patterns, CandidateIndices(entries, ToLowercaseAscii(s)))
    {
      FilterPickedDistinct(patterns, CandidateIndices(entries, ToLowercaseAscii(s)));
    }
  }
}
