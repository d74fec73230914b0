/** The part of a parsed regular expression that prematcher generation reads:
    the top-level sequence of syntax nodes, with literal characters, groups
    (with their inline flag changes) and alternations told apart and every
    other node kind lumped together. */
module SreAst {

  datatype Node =
    | Literal(c: char)
      // a group: flags switched on and off inside it, and its contents
    | Subpattern(addFlags: nat, delFlags: nat, body: seq<Node>)
      // a group as parsed before Python 3.6, which carries no flags
    | LegacySubpattern(body: seq<Node>)
      // an alternation; each child is one alternative
    | Branch(children: seq<seq<Node>>)
      // character classes, repetitions, anchors, ...
    | Other

  type Ast = seq<Node>

  /** A single group that changes no flags, i.e. one that only adds parentheses. */
  predicate IsPlainGroup(ast: Ast) {
    |ast| == 1 &&
    (ast[0].LegacySubpattern? ||
     (ast[0].Subpattern? && ast[0].addFlags == 0 && ast[0].delFlags == 0))
  }

  /** Removes one pair of redundant parentheses around the whole expression. */
  function Simplify(ast: Ast): (r: Ast)
    ensures r == ast <==> !IsPlainGroup(ast)
    ensures r != ast ==> ast == [Subpattern(0, 0, r)] || ast == [LegacySubpattern(r)]
  {
    if IsPlainGroup(ast) then ast[0].body else ast
  }

  /** Simplify peels exactly one level: a doubly wrapped expression keeps its inner group. */
  lemma SimplifyPeelsOneLevel(body: Ast)
    ensures Simplify([Subpattern(0, 0, [Subpattern(0, 0, body)])]) == [Subpattern(0, 0, body)]
    ensures Simplify(Simplify([Subpattern(0, 0, [Subpattern(0, 0, body)])])) == body
  {
  }

  /** The characters of the literal nodes of `ast`, in order. */
  function LiteralChars(ast: Ast): string
  {
    if ast == [] then [] else (if ast[0].Literal? then [ast[0].c] else []) + LiteralChars(ast[1..])
  }

  /** The non-literal nodes of `ast`, in order. */
  function NonLiterals(ast: Ast): (r: Ast)
    ensures forall k :: 0 <= k < |r| ==> !r[k].Literal?
  {
    if ast == [] then [] else (if ast[0].Literal? then [] else [ast[0]]) + NonLiterals(ast[1..])
  }

  /** `LiteralChars(ast[i..j])`, by position. */
  function CharsBetween(ast: Ast, i: nat, j: nat): string
    requires i <= j <= |ast|
    decreases j - i
  {
    if i == j then [] else (if ast[i].Literal? then [ast[i].c] else []) + CharsBetween(ast, i + 1, j)
  }

  /** `NonLiterals(ast[i..j])`, by position. */
  function NonLiteralsBetween(ast: Ast, i: nat, j: nat): Ast
    requires i <= j <= |ast|
    decreases j - i
  {
    if i == j then [] else (if ast[i].Literal? then [] else [ast[i]]) + NonLiteralsBetween(ast, i + 1, j)
  }

  /** Where the run of literal nodes starting at `i` ends: the first
      non-literal node at or after `i`, or the end of the tree. */
  function RunEnd(ast: Ast, i: nat): (j: nat)
    requires i <= |ast|
    ensures i <= j <= |ast|
    decreases |ast| - i
  {
    if i == |ast| || !ast[i].Literal? then i else RunEnd(ast, i + 1)
  }

  /** The terminals of `ast[i..]`: the text of each maximal run of literal
      nodes. Every non-literal node closes the run before it, so two adjacent
      non-literal nodes produce an empty terminal between them. */
  function TerminalsFrom(ast: Ast, i: nat): seq<string>
    requires i <= |ast|
    decreases |ast| - i
  {
    if i == |ast| then []
    else
      var j := RunEnd(ast, i);
      [CharsBetween(ast, i, j)] + if j == |ast| then [] else TerminalsFrom(ast, j + 1)
  }

  /** The terminals of the whole tree. */
  function Terminals(ast: Ast): seq<string> {
    TerminalsFrom(ast, 0)
  }

  /** Scans `ast` left to right with one cursor, collecting each run of
      literal characters and stepping over the node that ends it. */
  method FindTerminals(ast: Ast) returns (terminals: seq<string>)
    ensures terminals == Terminals(ast)
  {
    terminals := [];
    var i := 0;
    while i < |ast|
      invariant 0 <= i <= |ast| + 1
      invariant i <= |ast| ==> terminals + TerminalsFrom(ast, i) == Terminals(ast)
      invariant i == |ast| + 1 ==> terminals == Terminals(ast)
      decreases |ast| + 1 - i
    {
      var start := i;
      var chars := [];
      while i < |ast| && ast[i].Literal?
        invariant start <= i <= |ast|
        invariant RunEnd(ast, start) == RunEnd(ast, i)
        invariant chars == CharsBetween(ast, start, i)
      {
        CharsSnoc(ast, start, i);
        chars := chars + [ast[i].c];
        i := i + 1;
      }
      ScanStep(ast, terminals, start, i);
      terminals := terminals + [chars];
      i := i + 1;
    }
    if i == |ast| {
      assert terminals + [] == terminals;
    }
  }

  /** The outer loop of FindTerminals keeps its invariant: appending the run
      from `start` to `i` leaves the terminals after the node at `i` to do. */
  lemma ScanStep(ast: Ast, done: seq<string>, start: nat, i: nat)
    requires start < |ast| && RunEnd(ast, start) == i
    requires done + TerminalsFrom(ast, start) == Terminals(ast)
    ensures i < |ast| ==> (done + [CharsBetween(ast, start, i)]) + TerminalsFrom(ast, i + 1) == Terminals(ast)
    ensures i == |ast| ==> done + [CharsBetween(ast, start, i)] == Terminals(ast)
  {
    var t := CharsBetween(ast, start, i);
    if i < |ast| {
      assert TerminalsFrom(ast, start) == [t] + TerminalsFrom(ast, i + 1);
      AppendAssoc(done, [t], TerminalsFrom(ast, i + 1));
    } else {
      assert TerminalsFrom(ast, start) == [t] + [];
      assert [t] + [] == [t];
    }
  }

  lemma AppendAssoc<T>(a: seq<T>, b: seq<T>, c: seq<T>)
    ensures a + (b + c) == (a + b) + c
  {
  }

  lemma AppendEmpty<T>(a: seq<T>)
    ensures [] + a == a && a + [] == a
  {
  }

  /** A run of literal nodes from `i` to `j`, followed by a non-literal node or the end, ends at `j`. */
  lemma {:induction false} RunEndAt(ast: Ast, i: nat, j: nat)
    requires i <= j <= |ast|
    requires forall k :: i <= k < j ==> ast[k].Literal?
    requires j < |ast| ==> !ast[j].Literal?
    ensures RunEnd(ast, i) == j
    decreases j - i
  {
    if i < j {
      RunEndAt(ast, i + 1, j);
    }
  }

  /** The run ends at a non-literal node or at the end of the tree. */
  lemma {:induction false} RunEndStops(ast: Ast, i: nat)
    requires i <= |ast|
    ensures RunEnd(ast, i) < |ast| ==> !ast[RunEnd(ast, i)].Literal?
    decreases |ast| - i
  {
    if i < |ast| && ast[i].Literal? {
      RunEndStops(ast, i + 1);
    }
  }

  /** A non-empty run ends with a literal node. */
  lemma {:induction false} RunEndsLiteral(ast: Ast, i: nat)
    requires i <= |ast| && i < RunEnd(ast, i)
    ensures ast[RunEnd(ast, i) - 1].Literal?
    decreases |ast| - i
  {
    if i + 1 < RunEnd(ast, i) {
      RunEndsLiteral(ast, i + 1);
    }
  }

  /** A run holds no non-literal node. */
  lemma {:induction false} RunHasNoNonLiterals(ast: Ast, i: nat)
    requires i <= |ast|
    ensures NonLiteralsBetween(ast, i, RunEnd(ast, i)) == []
    decreases |ast| - i
  {
    if i < |ast| && ast[i].Literal? {
      RunHasNoNonLiterals(ast, i + 1);
      AppendEmpty(NonLiteralsBetween(ast, i + 1, RunEnd(ast, i)));
    }
  }

  /** The characters of a run spell out its nodes. */
  lemma {:induction false} RunNodes(ast: Ast, i: nat)
    requires i <= |ast|
    ensures LiteralNodes(CharsBetween(ast, i, RunEnd(ast, i))) == ast[i..RunEnd(ast, i)]
    decreases |ast| - i
  {
    var j := RunEnd(ast, i);
    if i < |ast| && ast[i].Literal? {
      RunNodes(ast, i + 1);
      var w := CharsBetween(ast, i + 1, j);
      assert CharsBetween(ast, i, j) == [ast[i].c] + w;
      assert ([ast[i].c] + w)[1..] == w;
      assert LiteralNodes([ast[i].c] + w) == [Literal(ast[i].c)] + LiteralNodes(w);
      assert ast[i..j] == [ast[i]] + ast[i + 1..j];
    } else {
      assert ast[i..j] == [];
    }
  }

  lemma {:induction false} CharsSplit(ast: Ast, i: nat, j: nat, k: nat)
    requires i <= j <= k <= |ast|
    ensures CharsBetween(ast, i, k) == CharsBetween(ast, i, j) + CharsBetween(ast, j, k)
    decreases j - i
  {
    if i < j {
      CharsSplit(ast, i + 1, j, k);
      var h: string := if ast[i].Literal? then [ast[i].c] else [];
      AppendAssoc(h, CharsBetween(ast, i + 1, j), CharsBetween(ast, j, k));
    } else {
      AppendEmpty(CharsBetween(ast, j, k));
    }
  }

  lemma {:induction false} NonLiteralsSplit(ast: Ast, i: nat, j: nat, k: nat)
    requires i <= j <= k <= |ast|
    ensures NonLiteralsBetween(ast, i, k) == NonLiteralsBetween(ast, i, j) + NonLiteralsBetween(ast, j, k)
    decreases j - i
  {
    if i < j {
      NonLiteralsSplit(ast, i + 1, j, k);
      var h: Ast := if ast[i].Literal? then [] else [ast[i]];
      AppendAssoc(h, NonLiteralsBetween(ast, i + 1, j), NonLiteralsBetween(ast, j, k));
    } else {
      AppendEmpty(NonLiteralsBetween(ast, j, k));
    }
  }

  /** The inner loop of FindTerminals: one more node, one more character if it is a literal. */
  lemma CharsSnoc(ast: Ast, i: nat, j: nat)
    requires i <= j < |ast|
    ensures CharsBetween(ast, i, j + 1) == CharsBetween(ast, i, j) + (if ast[j].Literal? then [ast[j].c] else [])
  {
    CharsSplit(ast, i, j, j + 1);
    AppendEmpty(if ast[j].Literal? then [ast[j].c] else []);
  }

  /** The node that ends a run, with what follows it. */
  lemma SkipSeparator(ast: Ast, j: nat)
    requires j < |ast| && !ast[j].Literal?
    ensures CharsBetween(ast, j, |ast|) == CharsBetween(ast, j + 1, |ast|)
    ensures NonLiteralsBetween(ast, j, |ast|) == [ast[j]] + NonLiteralsBetween(ast, j + 1, |ast|)
  {
    AppendEmpty(CharsBetween(ast, j + 1, |ast|));
  }

  lemma {:induction false} CharsFrom(ast: Ast, i: nat)
    requires i <= |ast|
    ensures CharsBetween(ast, i, |ast|) == LiteralChars(ast[i..])
    decreases |ast| - i
  {
    if i < |ast| {
      CharsFrom(ast, i + 1);
      assert ast[i..][0] == ast[i] && ast[i..][1..] == ast[i + 1..];
    } else {
      assert ast[i..] == [];
    }
  }

  lemma {:induction false} NonLiteralsFrom(ast: Ast, i: nat)
    requires i <= |ast|
    ensures NonLiteralsBetween(ast, i, |ast|) == NonLiterals(ast[i..])
    decreases |ast| - i
  {
    if i < |ast| {
      NonLiteralsFrom(ast, i + 1);
      assert ast[i..][0] == ast[i] && ast[i..][1..] == ast[i + 1..];
    } else {
      assert ast[i..] == [];
    }
  }

  function Concat(ts: seq<string>): string
  {
    if ts == [] then [] else ts[0] + Concat(ts[1..])
  }

  /** The nodes that spell out the text `w` literally. */
  function LiteralNodes(w: string): (r: Ast)
    ensures |r| == |w|
  {
    if w == [] then [] else [Literal(w[0])] + LiteralNodes(w[1..])
  }

  /** Puts terminals and the nodes that separate them back together:
      terminal, separator, terminal, separator, ... */
  function Rebuild(ts: seq<string>, separators: Ast): Ast
  {
    if ts == [] then []
    else if separators == [] then LiteralNodes(ts[0])
    else LiteralNodes(ts[0]) + [separators[0]] + Rebuild(ts[1..], separators[1..])
  }

  lemma ConcatCons(t: string, ts: seq<string>)
    ensures Concat([t] + ts) == t + Concat(ts)
  {
    assert ([t] + ts)[0] == t && ([t] + ts)[1..] == ts;
  }

  /** The terminals hold every literal character of `ast`, in order, and nothing else. */
  lemma TerminalsConcat(ast: Ast)
    ensures Concat(Terminals(ast)) == LiteralChars(ast)
  {
    TerminalsFromConcat(ast, 0);
    CharsFrom(ast, 0);
    assert ast[0..] == ast;
  }

  lemma {:induction false} TerminalsFromConcat(ast: Ast, i: nat)
    requires i <= |ast|
    ensures Concat(TerminalsFrom(ast, i)) == CharsBetween(ast, i, |ast|)
    decreases |ast| - i
  {
    if i < |ast| {
      var j := RunEnd(ast, i);
      var t := CharsBetween(ast, i, j);
      if j == |ast| {
        assert TerminalsFrom(ast, i) == [t] + [];
        ConcatCons(t, []);
        AppendEmpty(t);
      } else {
        var rest := TerminalsFrom(ast, j + 1);
        assert TerminalsFrom(ast, i) == [t] + rest;
        TerminalsFromConcat(ast, j + 1);
        ConcatCons(t, rest);
        RunEndStops(ast, i);
        CharsSplit(ast, i, j, |ast|);
        SkipSeparator(ast, j);
      }
    }
  }

  /** Each terminal is a maximal literal run: interleaving the terminals with
      the non-literal nodes, in order, gives back exactly `ast`. */
  lemma TerminalsRebuild(ast: Ast)
    ensures Rebuild(Terminals(ast), NonLiterals(ast)) == ast
  {
    TerminalsFromRebuild(ast, 0);
    NonLiteralsFrom(ast, 0);
    assert ast[0..] == ast;
  }

  lemma {:induction false} TerminalsFromRebuild(ast: Ast, i: nat)
    requires i <= |ast|
    ensures Rebuild(TerminalsFrom(ast, i), NonLiteralsBetween(ast, i, |ast|)) == ast[i..]
    decreases |ast| - i
  {
    if i == |ast| {
      assert ast[i..] == [];
    } else if RunEnd(ast, i) == |ast| {
      RebuildLastRun(ast, i);
    } else {
      TerminalsFromRebuild(ast, RunEnd(ast, i) + 1);
      RebuildRunAndSeparator(ast, i);
    }
  }

  /** A run that reaches the end of the tree is the last terminal. */
  lemma RebuildLastRun(ast: Ast, i: nat)
    requires i < |ast| && RunEnd(ast, i) == |ast|
    ensures Rebuild(TerminalsFrom(ast, i), NonLiteralsBetween(ast, i, |ast|)) == ast[i..]
  {
    var t := CharsBetween(ast, i, |ast|);
    RunHasNoNonLiterals(ast, i);
    RunNodes(ast, i);
    assert TerminalsFrom(ast, i) == [t];
    assert Rebuild([t], []) == LiteralNodes(t);
  }

  /** A run, the node that ends it, and the rest of the tree. */
  lemma RebuildRunAndSeparator(ast: Ast, i: nat)
    requires i < |ast| && RunEnd(ast, i) < |ast|
    requires Rebuild(TerminalsFrom(ast, RunEnd(ast, i) + 1), NonLiteralsBetween(ast, RunEnd(ast, i) + 1, |ast|))
      == ast[RunEnd(ast, i) + 1..]
    ensures Rebuild(TerminalsFrom(ast, i), NonLiteralsBetween(ast, i, |ast|)) == ast[i..]
  {
    var j := RunEnd(ast, i);
    var t := CharsBetween(ast, i, j);
    var rest, seps := TerminalsFrom(ast, j + 1), NonLiteralsBetween(ast, j + 1, |ast|);
    assert TerminalsFrom(ast, i) == [t] + rest;
    RunHasNoNonLiterals(ast, i);
    NonLiteralsSplit(ast, i, j, |ast|);
    AppendEmpty(NonLiteralsBetween(ast, j, |ast|));
    RunEndStops(ast, i);
    SkipSeparator(ast, j);
    assert NonLiteralsBetween(ast, i, |ast|) == [ast[j]] + seps;
    RebuildCons(t, rest, ast[j], seps);
    RunNodes(ast, i);
    SliceAround(ast, i, j);
  }

  lemma RebuildCons(t: string, rest: seq<string>, sep: Node, seps: Ast)
    ensures Rebuild([t] + rest, [sep] + seps) == LiteralNodes(t) + [sep] + Rebuild(rest, seps)
  {
    assert ([t] + rest)[0] == t && ([t] + rest)[1..] == rest;
    assert ([sep] + seps)[0] == sep && ([sep] + seps)[1..] == seps;
  }

  lemma SliceAround(ast: Ast, i: nat, j: nat)
    requires i <= j < |ast|
    ensures ast[i..] == ast[i..j] + [ast[j]] + ast[j + 1..]
  {
  }

  /** One terminal per non-literal node, plus one for a literal run at the very end. */
  lemma TerminalsCount(ast: Ast)
    ensures |Terminals(ast)| == |NonLiterals(ast)| + (if ast != [] && ast[|ast| - 1].Literal? then 1 else 0)
  {
    TerminalsFromCount(ast, 0);
    NonLiteralsFrom(ast, 0);
    assert ast[0..] == ast;
  }

  lemma {:induction false} TerminalsFromCount(ast: Ast, i: nat)
    requires i <= |ast|
    ensures |TerminalsFrom(ast, i)| ==
      |NonLiteralsBetween(ast, i, |ast|)| + (if i < |ast| && ast[|ast| - 1].Literal? then 1 else 0)
    decreases |ast| - i
  {
    if i < |ast| {
      var j := RunEnd(ast, i);
      RunHasNoNonLiterals(ast, i);
      NonLiteralsSplit(ast, i, j, |ast|);
      if j == |ast| {
        RunEndsLiteral(ast, i);
      } else {
        TerminalsFromCount(ast, j + 1);
        RunEndStops(ast, i);
        SkipSeparator(ast, j);
      }
    }
  }
}
