/** Prematcher validation and generation, and the construction step that fills
    in missing prematchers and validates all of them. What the two revisions
    share is here; each revision supplies its own top-level prematcher and
    validator. */
module Prematchers {
  import opened Wrappers
  import opened SreAst
  import opened Text
  import opened Patterns

  /** `validate_prematcher`: a prematcher must be non-empty and free of
      upper-case characters. Its error message also promises "all-ASCII",
      which is not checked. */
  function ValidatePrematcher(w: string): (r: Outcome<Error>)
    ensures r.Pass? <==> w != [] && Lower(w) == w
    ensures r.Fail? ==> r.error == InvalidPrematcher(w)
  {
    LowerFixedPoints(w);
    if w == [] || exists k :: 0 <= k < |w| && IsUpper(w[k]) then Fail(InvalidPrematcher(w)) else Pass
  }

  /** A lower-case string passes validation even when it is not ASCII, as "ä" (U+00E4) shows. */
  lemma ValidateAcceptsNonAscii()
    ensures ValidatePrematcher("\U{E4}").Pass? && !IsAscii("\U{E4}")
  {
    var w := "\U{E4}";
    assert w[0] as int == 0xE4;
    assert Lower(w) == w;
  }

  /** Validation as its message describes it: non-empty, all lower-case and all ASCII. */
  function ValidatePrematcherAscii(w: string): (r: Outcome<Error>)
    ensures r.Pass? <==> w != [] && ToLowercaseAscii(w) == w
    ensures r.Pass? ==> ValidatePrematcher(w).Pass?
    ensures r.Fail? ==> r.error == InvalidPrematcher(w)
  {
    ToLowercaseAsciiFixedPoints(w);
    LowerFixedPoints(w);
    if w == [] || !IsAscii(w) || !NoUpper(w) then Fail(InvalidPrematcher(w)) else Pass
  }

  /** `max(ts, key=len, default="")`: the first of the longest strings, or "" when there is none. */
  function MaxByLen(ts: seq<string>): (r: string)
    ensures ts == [] ==> r == ""
    ensures ts != [] ==> exists i :: 0 <= i < |ts| && ts[i] == r && forall j :: 0 <= j < i ==> |ts[j]| < |r|
    ensures forall j :: 0 <= j < |ts| ==> |ts[j]| <= |r|
  {
    if ts == [] then ""
    else if |ts| == 1 then ts[0]
    else
      var init := ts[..|ts| - 1];
      var best := MaxByLen(init);
      assert forall j :: 0 <= j < |init| ==> init[j] == ts[j];
      if |ts[|ts| - 1]| > |best| then ts[|ts| - 1] else best
  }

  /** The longest string is non-empty exactly when some string is. */
  lemma MaxByLenEmpty(ts: seq<string>)
    ensures MaxByLen(ts) == "" <==> forall j :: 0 <= j < |ts| ==> ts[j] == ""
  {
  }

  /** The prematchers of the simplified children of one alternation. */
  function ChildPrematchers(children: seq<Ast>, top: Ast -> string): set<string> {
    set c | c in children :: top(Simplify(c))
  }

  /** A top-level alternation whose every child has a non-empty top-level prematcher. */
  predicate GoodBranch(n: Node, top: Ast -> string) {
    n.Branch? && "" !in ChildPrematchers(n.children, top)
  }

  /** The child prematchers of the first good top-level alternation, if any. */
  function FirstGoodBranch(ast: Ast, top: Ast -> string): (r: Option<set<string>>)
    ensures r.Some? <==> exists j :: 0 <= j < |ast| && GoodBranch(ast[j], top)
    ensures r.Some? ==>
      exists j :: 0 <= j < |ast| && GoodBranch(ast[j], top) &&
        (forall k :: 0 <= k < j ==> !GoodBranch(ast[k], top)) &&
        r.value == ChildPrematchers(ast[j].children, top)
  {
    if ast == [] then None
    else if GoodBranch(ast[0], top) then Some(ChildPrematchers(ast[0].children, top))
    else
      var r := FirstGoodBranch(ast[1..], top);
      assert forall j :: 1 <= j < |ast| ==> ast[1..][j - 1] == ast[j];
      r
  }

  /** `generate_prematchers`, given the revision's top-level prematcher `top`:
      the simple case takes the pattern's own top-level prematcher, the branch
      case the children's prematchers of the first top-level alternation whose
      children all have one, and otherwise generation fails. */
  function Generate(pattern: Pattern, top: Ast -> string): (r: Result<set<string>, Error>)
    ensures top(Simplify(pattern.tree)) != "" ==> r == Success({top(Simplify(pattern.tree))})
    ensures top(Simplify(pattern.tree)) == "" ==>
      (r.Success? <==> exists j :: 0 <= j < |Simplify(pattern.tree)| && GoodBranch(Simplify(pattern.tree)[j], top))
    ensures top(Simplify(pattern.tree)) == "" && r.Success? ==>
      var ast := Simplify(pattern.tree);
      exists j :: 0 <= j < |ast| && GoodBranch(ast[j], top) &&
        (forall k :: 0 <= k < j ==> !GoodBranch(ast[k], top)) &&
        r.value == ChildPrematchers(ast[j].children, top)
    ensures r.Success? ==> "" !in r.value
    ensures r.Failure? ==> r.error == CannotGenerate(pattern.source)
  {
    var ast := Simplify(pattern.tree);
    var simple := top(ast);
    if simple != "" then Success({simple})
    else
      match FirstGoodBranch(ast, top)
      case Some(children) => Success(children)
      case None => Failure(CannotGenerate(pattern.source))
  }

  /** Every generated prematcher is the top-level prematcher of the simplified
      pattern or of a simplified child of one of its top-level alternations. */
  predicate FromTree(w: string, tree: Ast, top: Ast -> string) {
    var ast := Simplify(tree);
    w == top(ast) ||
    exists j :: 0 <= j < |ast| && ast[j].Branch? && w in ChildPrematchers(ast[j].children, top)
  }

  lemma GeneratedFromTree(pattern: Pattern, top: Ast -> string)
    requires Generate(pattern, top).Success?
    ensures forall w :: w in Generate(pattern, top).value ==> FromTree(w, pattern.tree, top)
  {
    var ast := Simplify(pattern.tree);
    if top(ast) == "" {
      var j :| 0 <= j < |ast| && GoodBranch(ast[j], top) &&
        Generate(pattern, top).value == ChildPrematchers(ast[j].children, top);
      forall w | w in Generate(pattern, top).value ensures FromTree(w, pattern.tree, top) {
        assert ast[j].Branch? && w in ChildPrematchers(ast[j].children, top);
      }
    }
  }

  /** Fills in generated prematchers where the caller gave `None`. */
  function FillItem(item: Normalized, top: Ast -> string): Result<Entry, Error> {
    match item.1
    case Some(given) => Success((item.0, given))
    case None =>
      match Generate(item.0, top)
      case Success(generated) => Success((item.0, generated))
      case Failure(e) => Failure(e)
  }

  /** The list comprehension of `_generate_missing_prematchers`: patterns are
      kept in order, given prematchers are kept, missing ones are generated,
      and the first pattern whose generation fails stops construction. */
  function FillMissing(items: seq<Normalized>, top: Ast -> string): (r: Result<seq<Entry>, Error>)
    ensures r.Success? <==> forall i :: 0 <= i < |items| && items[i].1.None? ==> Generate(items[i].0, top).Success?
    ensures r.Success? ==>
      |r.value| == |items| &&
      forall i :: 0 <= i < |items| ==>
        r.value[i].0 == items[i].0 &&
        r.value[i].1 == (if items[i].1.Some? then items[i].1.value else Generate(items[i].0, top).value)
    ensures r.Failure? ==> exists i :: 0 <= i < |items| && r.error == CannotGenerate(items[i].0.source)
  {
    MapAll(items, item => FillItem(item, top))
  }

  /** Every prematcher of every entry passes `validate`. */
  predicate AllValid(entries: seq<Entry>, validate: string -> Outcome<Error>) {
    forall i, w :: 0 <= i < |entries| && w in entries[i].1 ==> validate(w).Pass?
  }

  /** The validation loops of `_generate_missing_prematchers`: every
      prematcher of every entry, in entry order, until one is refused. Which
      prematcher of an entry is reported depends on set iteration order. */
  method ValidateAll(entries: seq<Entry>, validate: string -> Outcome<Error>) returns (r: Outcome<Error>)
    ensures r.Pass? <==> AllValid(entries, validate)
    ensures r.Fail? ==>
      exists i, w :: 0 <= i < |entries| && w in entries[i].1 && validate(w) == r &&
        AllValid(entries[..i], validate)
  {
    var i := 0;
    while i < |entries|
      invariant 0 <= i <= |entries|
      invariant AllValid(entries[..i], validate)
    {
      var rest := entries[i].1;
      while rest != {}
        invariant rest <= entries[i].1
        invariant forall w :: w in entries[i].1 - rest ==> validate(w).Pass?
      {
        var w :| w in rest;
        var outcome := validate(w);
        if outcome.Fail? {
          assert AllValid(entries[..i], validate);
          return outcome;
        }
        rest := rest - {w};
      }
      assert entries[..i + 1] == entries[..i] + [entries[i]];
      i := i + 1;
    }
    assert entries[..i] == entries;
    return Pass;
  }

  /** `_generate_missing_prematchers`: fill in, then validate; on success the
      entries keep the given patterns in order and every prematcher is valid. */
  method GenerateMissingPrematchers(items: seq<Normalized>, top: Ast -> string, validate: string -> Outcome<Error>)
    returns (r: Result<seq<Entry>, Error>)
    ensures r.Success? <==> FillMissing(items, top).Success? && AllValid(FillMissing(items, top).value, validate)
    ensures r.Success? ==> r.value == FillMissing(items, top).value
    ensures r.Failure? && FillMissing(items, top).Success? ==>
      exists i, w :: 0 <= i < |items| && w in FillMissing(items, top).value[i].1 && validate(w) == Fail(r.error)
  {
    var filled := FillMissing(items, top);
    if filled.Failure? {
      return Failure(filled.error);
    }
    var outcome := ValidateAll(filled.value, validate);
    if outcome.Fail? {
      return Failure(outcome.error);
    }
    return Success(filled.value);
  }
}
