/** The values a matcher is built from: compiled patterns, the shapes in which
    callers may give them with or without prematchers, and the errors raised
    while building a matcher or reading its profile. */
module Patterns {
  import opened Wrappers
  import opened SreAst

  /** A compiled regular expression: its source text and the syntax tree the
      parser produces for it. Two patterns with the same source and tree are
      the same key, as compiled Python patterns with equal source and flags are. */
  datatype Pattern = Pattern(source: string, tree: Ast)

  /** What a caller passes as the prematchers of one pattern: a single string
      (refused) or any iterable of strings. */
  datatype PrematcherArg = Chars(text: string) | Strings(items: seq<string>)

  /** One element of the `patterns` argument: a bare pattern, or a
      `(pattern, prematchers)` tuple whose second half may be `None`. */
  datatype PatternSpec =
    | Bare(pattern: Pattern)
    | Pair(pattern: Pattern, prematchers: Option<PrematcherArg>)

  datatype Error =
    /** A string was given where an iterable of prematchers was expected. */
    | StringAsPrematchers(text: string)
    /** The first element was a bare pattern but a later one is a tuple. */
    | NotAPattern
    /** The first element was a tuple but a later one is a bare pattern. */
    | NotAPair
    /** Neither the simple nor the branch case produced prematchers. */
    | CannotGenerate(source: string)
    /** The named prematcher is empty or has an upper-case character. */
    | InvalidPrematcher(prematcher: string)
    /** The Aho-Corasick library reported a failed call. */
    | AhocorasickFailure
    /** The false-positive report was asked for without profiling enabled. */
    | ProfilingNotEnabled

  /** A pattern with the prematchers the caller gave, `None` meaning "generate them". */
  type Normalized = (Pattern, Option<set<string>>)

  /** A pattern with its final prematcher set; the empty set means "always a candidate". */
  type Entry = (Pattern, set<string>)

  /** The prematchers a well-formed element asks for: `None` when they are to be generated. */
  function Requested(spec: PatternSpec): Option<set<string>> {
    if spec.Pair? && spec.prematchers.Some? && spec.prematchers.value.Strings? then
      Some(set w | w in spec.prematchers.value.items)
    else
      None
  }

  /** A tuple whose prematchers are `None` or an iterable that is not a string. */
  predicate WellFormedPair(spec: PatternSpec) {
    spec.Pair? && !(spec.prematchers.Some? && spec.prematchers.value.Chars?)
  }

  /** One element, read in the shape the first element of the list decided. */
  function NormalizeItem(spec: PatternSpec, bare: bool): Result<Normalized, Error> {
    match spec
    case Bare(p) => if bare then Success((p, None)) else Failure(NotAPair)
    case Pair(p, arg) =>
      if bare then Failure(NotAPattern)
      else
        match arg
        case None => Success((p, None))
        case Some(Chars(t)) => Failure(StringAsPrematchers(t))
        case Some(Strings(items)) => Success((p, Some(set w | w in items)))
  }

  /** `_normalize_patterns`: a list of bare patterns, or a list of tuples whose
      prematchers become sets; mixing the two shapes or giving a string as a
      prematcher collection fails. */
  function NormalizePatterns(specs: seq<PatternSpec>): (r: Result<seq<Normalized>, Error>)
    ensures r.Success? <==>
      (forall i :: 0 <= i < |specs| ==> specs[i].Bare?) ||
      (forall i :: 0 <= i < |specs| ==> WellFormedPair(specs[i]))
    ensures r.Success? ==>
      |r.value| == |specs| &&
      forall i :: 0 <= i < |specs| ==> r.value[i] == (specs[i].pattern, Requested(specs[i]))
    ensures r.Failure? && specs != [] && specs[0].Bare? ==> r.error == NotAPattern
  {
    var bare := specs != [] && specs[0].Bare?;
    MapAll(specs, spec => NormalizeItem(spec, bare))
  }

  /** `dict(entries)`: every pattern becomes a key, and a pattern listed more
      than once keeps the prematchers of its last occurrence. */
  function DictOf(entries: seq<Entry>): (d: map<Pattern, set<string>>)
    ensures d.Keys == set i | 0 <= i < |entries| :: entries[i].0
    ensures forall i :: 0 <= i < |entries| && LastOccurrence(entries, i) ==> d[entries[i].0] == entries[i].1
  {
    if entries == [] then map[]
    else
      var init := entries[..|entries| - 1];
      var d := DictOf(init)[entries[|entries| - 1].0 := entries[|entries| - 1].1];
      assert forall i :: 0 <= i < |init| ==> init[i] == entries[i];
      d
  }

  /** No later entry has the same pattern as entry `i`. */
  predicate LastOccurrence(entries: seq<Entry>, i: int)
    requires 0 <= i < |entries|
  {
    forall j :: i < j < |entries| ==> entries[j].0 != entries[i].0
  }

  /** The patterns, in the order given. */
  function PatternsOf(entries: seq<Entry>): (ps: seq<Pattern>)
    ensures |ps| == |entries|
    ensures forall i :: 0 <= i < |entries| ==> ps[i] == entries[i].0
  {
    seq(|entries|, i requires 0 <= i < |entries| => entries[i].0)
  }
}
