# multiregex, modelled in Dafny

`multiregex` screens a batch of regular expressions against one string.
Each pattern carries a set of "prematchers". A prematcher is a lower-case
literal substring without which the pattern cannot match. The
prematchers of all patterns go into one Aho-Corasick automaton. For a given
string, only the patterns that have no prematchers, or that have a
prematcher occurring in the lower-cased string, are handed to the regex
engine. Optional profiling counts how often each pattern was attempted
(`positives`) and how often such an attempt found nothing (`false_positives`).

The module exists in two revisions, `multiregex/__init__.py` and
`src/multiregex/__init__.py`. This project models both. They share:

- the syntax tree and its terminals (`SreAst`);
- case mapping and substrings (`Text`);
- the argument shapes and errors (`Patterns`);
- prematcher validation and generation (`Prematchers`);
- the automaton (`Automaton`);
- candidate ordering and result collection (`Selection`);
- profiling (`Profiling`).

Each revision has its own module with its own `RegexMatcher` class:

- `Multiregex` models `multiregex/__init__.py`. It matches against `str.lower()` text, lower-cases after picking the longest terminal, and keeps candidates in order with `(index, pattern)` pairs that are sorted by index.
- `SrcMultiregex` models `src/multiregex/__init__.py`. It matches against `to_lowercase_ascii` text, normalises every terminal before picking, uses a set of candidate patterns, and `run` filters `self.patterns` to restore the order.

What is modelled, and how:

- **Regular expressions.** `re.compile` and `sre_parse.parse` are not modelled. A `Pattern` is its source text together with the syntax tree the parser would produce. The tree keeps literal characters, groups with their flag changes (and the flag-less group of Python before 3.6), alternations, and "any other node".
- **The regex engine.** Its `search`, `match` and `fullmatch`, and any `match_func`, are an arbitrary function `(Pattern, string) -> Option<M>` passed to `Run`. The three inlined branches of `run` call that same function.
- **The Aho-Corasick automaton.** It is represented by the needle-to-value map it stores. `automaton.iter(t)`, folded into one set, is `Hits`: the values of every stored needle that occurs in `t`.
- **The matcher object.** It is a class. `__init__` is split in two:
  - `Create` returns either the error `__init__` would raise or a fresh, valid matcher;
  - `FromEntries` assigns the fields.
  
  A ghost field `entries` records each registered pattern with its final prematcher set. `Valid()` ties every real field to `entries`.
- **`run`.** It is a method that changes only the profiling counters. Its contract gives the returned matches and the new counters as functions of the old state.

## Model

| member | source | states |
|---|---|---|
| SreAst.Simplify | multiregex/__init__.py:297-310 | the result differs from the tree exactly when the tree is one group that adds and removes no flags (or a pre-3.6 group), and then it is that group's body |
| SreAst.SimplifyPeelsOneLevel | multiregex/__init__.py:297-310 | a doubly wrapped expression loses only the outer group; a second call removes the inner one |
| SreAst.FindTerminals | multiregex/__init__.py:313-322 | the two nested cursor loops yield exactly the maximal literal runs `Terminals(ast)` |
| SreAst.TerminalsConcat | multiregex/__init__.py:313-322 | the terminals, concatenated, are the tree's literal characters in order |
| SreAst.TerminalsRebuild | src/multiregex/__init__.py:313-322 | alternating the terminals with the non-literal nodes gives back the tree, so every terminal is a maximal literal run and every non-literal node ends one |
| SreAst.TerminalsCount | multiregex/__init__.py:316-322 | there is one terminal per non-literal node, plus one for a trailing literal run; adjacent non-literals therefore give empty terminals |
| Text.LowerFixedPoints | multiregex/__init__.py:257-261 | lower-casing leaves a string unchanged exactly when it has no upper-case character |
| Text.LowerIdempotent | multiregex/__init__.py:274 | a lower-cased string has no upper-case character, and lower-casing it again changes nothing |
| Text.ToLowercaseAscii | src/multiregex/__init__.py:250-251 | `to_lowercase_ascii` yields only ASCII characters, none of them upper-case, and never a longer string |
| Text.ToLowercaseAsciiOnAscii | src/multiregex/__init__.py:250-251 | on ASCII input it is character-by-character lower-casing, with the same length |
| Text.ToLowercaseAsciiIdempotent | src/multiregex/__init__.py:250-251 | applying it twice is the same as applying it once |
| Text.ToLowercaseAsciiFixedPoints | src/multiregex/__init__.py:250-251 | it leaves a string unchanged exactly when the string is ASCII with no upper-case letter |
| Text.ToLowercaseAsciiKeepsLength | src/multiregex/__init__.py:250-251 | the length is kept exactly when the input is ASCII, since any other character is dropped |
| Text.AsciiPassesFallback | src/multiregex/__init__.py:242-247 | every ASCII string passes the bit-7 fallback test |
| Text.FallbackAcceptsNonAscii | src/multiregex/__init__.py:247 | U+0100 passes the bit-7 fallback test although it is not ASCII |
| Text.IsSubstringAt | src/multiregex/__init__.py:203-205 | a needle is reported for a text exactly when it occurs in the text at some position |
| Text.SubstringCharsOccur | src/multiregex/__init__.py:202 | every character of a needle that occurs in a text is a character of that text |
| Patterns.NormalizePatterns | multiregex/__init__.py:114-136 | succeeds exactly when all elements are bare patterns or all are tuples whose prematchers are `None` or a non-string iterable; on success each element becomes its pattern with `None` or the set of its prematchers; a tuple after a leading bare pattern is an error |
| Patterns.DictOf | multiregex/__init__.py:93 | `dict(patterns)` has every pattern as a key, and a repeated pattern keeps the prematchers of its last occurrence |
| Prematchers.ValidatePrematcher | multiregex/__init__.py:257-261 | passes exactly when the prematcher is non-empty and lower-casing leaves it unchanged; otherwise the error names the prematcher |
| Prematchers.ValidateAcceptsNonAscii | src/multiregex/__init__.py:254-260 | the non-ASCII "ä" passes validation, despite the message's "all-ASCII" |
| Prematchers.ValidatePrematcherAscii | src/multiregex/__init__.py:254-260 | passes exactly when the prematcher is non-empty and `to_lowercase_ascii` leaves it unchanged; anything it accepts the as-written validation accepts too |
| Prematchers.MaxByLen | multiregex/__init__.py:274 | `max(..., key=len, default="")` is the first of the longest strings, and "" for no strings |
| Prematchers.MaxByLenEmpty | multiregex/__init__.py:274 | the longest string is empty exactly when every string is |
| Prematchers.FirstGoodBranch | multiregex/__init__.py:285-292 | finds a value exactly when some top-level alternation has a non-empty prematcher for every simplified child, and the first such alternation supplies it |
| Prematchers.Generate | multiregex/__init__.py:264-294 | a non-empty top-level prematcher gives the singleton; otherwise generation succeeds exactly when there is a good alternation, whose child prematchers it returns; generated sets never contain ""; failure names the pattern |
| Prematchers.GeneratedFromTree | multiregex/__init__.py:276-292 | every generated prematcher is the top-level prematcher of the simplified tree or of a simplified child of one of its top-level alternations |
| Prematchers.FillMissing | multiregex/__init__.py:139-149 | keeps patterns in order and given prematchers as they are, and generates the missing ones; it fails exactly when some missing set cannot be generated, with that pattern's error |
| Prematchers.ValidateAll | multiregex/__init__.py:150-152 | the validation loops pass exactly when every prematcher of every entry is valid; a failure is the error of an invalid prematcher, and all earlier entries are valid |
| Prematchers.GenerateMissingPrematchers | multiregex/__init__.py:138-153 | succeeds exactly when filling in succeeds and every resulting prematcher is valid, and then returns the filled-in entries |
| Automaton.GroupByPrematcher | multiregex/__init__.py:157-164 | the nested `defaultdict(set)` loops map each prematcher to exactly the keys of the entries that list it |
| Automaton.GroupedStep | multiregex/__init__.py:159-163 | grouping one more entry adds that entry's key under each of its prematchers, and changes nothing else |
| Automaton.AddWord | multiregex/__init__.py:329-330 | `add_word` stores the needle with its value, keeps the other needles, and reports whether the needle was new |
| Automaton.MakeAutomaton | multiregex/__init__.py:325-332 | adding the distinct keys of a dictionary never reports a failure, and the automaton then holds exactly that dictionary |
| Automaton.HitsOfGrouped | src/multiregex/__init__.py:200-205 | a key is among the automaton's hits for a text exactly when some entry carrying that key has a prematcher that occurs in the text |
| Selection.PickIndexed | multiregex/__init__.py:218-220 | the kept `(index, pattern)` pairs are exactly those at kept indices, in strictly increasing index order |
| Selection.SortByIndex | multiregex/__init__.py:219 | sorting a set of pairs with distinct indices by index lists each pair once, in strictly increasing index order |
| Selection.SortPicked | multiregex/__init__.py:213-220 | sorting the set of kept indexed patterns by index is the same as walking the patterns in order and keeping those at kept indices |
| Selection.PickIndexedIsSubsequence | multiregex/__init__.py:209-220 | the ordered candidates are a subsequence of the registered patterns |
| Selection.FilterMember | src/multiregex/__init__.py:172 | `[p for p in candidates if p in candidates_set]` holds exactly the listed elements that are in the set, and is no longer than the list |
| Selection.FilterMemberIsSubsequence | src/multiregex/__init__.py:169-172 | the filtered list is a subsequence of the registered patterns |
| Selection.FilterPickedDistinct | src/multiregex/__init__.py:169-172 | for distinct patterns, filtering by the set of patterns at kept indices is the same as keeping the indices in order |
| Selection.Successes | multiregex/__init__.py:200 | a pair is returned exactly when its pattern's attempt produced that match |
| Selection.MatchesMembership | multiregex/__init__.py:185-200 | `run` returns `(p, m)` exactly when `p` is a candidate and the engine returns `m` for it |
| Selection.MatchesOfSubsequence | multiregex/__init__.py:185-200 | attempting a subsequence of the patterns returns a subsequence of the matches |
| Selection.MatchesOfPickComplete | tests/test_bench.py:34-43 | keeping only some indices loses no match when every matching pattern's index is kept |
| Selection.MatchesOfFilterComplete | tests/test_bench.py:34-43 | filtering by a set loses no match when every matching pattern is in the set |
| Profiling.Tally | multiregex/__init__.py:194-198 | the counters after the profiling loop have the same patterns as before |
| Profiling.TallyCounts | multiregex/__init__.py:194-198 | each pattern's `positives` grows by the number of times it was attempted, and its `false_positives` by the number of those attempts without a match |
| Profiling.MissesAtMostAttempts | multiregex/__init__.py:195-198 | no pattern misses more often than it is attempted, and a pattern with no attempts is absent from the results |
| Profiling.TallyUnattempted | multiregex/__init__.py:194-198 | the counters of patterns that were not attempted do not change |
| Profiling.TallyConsistent | multiregex/__init__.py:194-198 | profiling keeps `false_positives <= positives` for every pattern |
| Profiling.Distinct | multiregex/__init__.py:230 | the dictionary's iteration order lists each pattern once, every pattern in the list appears, and patterns come in the order of their first occurrence |
| Profiling.FalsePositiveItems | multiregex/__init__.py:228-232 | the items with a non-zero false-positive count, and only those, are kept, with their counters; over distinct patterns there is one item per pattern, in the patterns' order |
| Profiling.InsertSorted | multiregex/__init__.py:227-234 | inserting into a list sorted worst first keeps it sorted and adds exactly the new item |
| Profiling.SortByFalsePositives | multiregex/__init__.py:227-234 | the sort yields a permutation of its input, worst first |
| Profiling.SortStable | multiregex/__init__.py:233 | the sort is stable: items with equal false-positive counts keep their relative order |
| Profiling.FalsePositiveReport | multiregex/__init__.py:222-234 | the report is sorted worst first and holds exactly one item for each registered pattern with false positives, with that pattern's counter; items with equal counts keep the dictionary's order (first occurrence) |
| Profiling.WorstN | multiregex/__init__.py:241 | `[:worst_n]` follows Python slice semantics: `None` keeps everything, a negative bound counts from the end, and bounds are clamped |
| Multiregex.TopLevelPrematcher | multiregex/__init__.py:273-274 | the result has no upper-case character; it is the first longest terminal, lower-cased; it is non-empty exactly when some terminal is |
| Multiregex.SimpleCaseIffLiteral | multiregex/__init__.py:278-281 | the simple case applies exactly when the tree has a top-level literal character |
| Multiregex.GeneratePrematchers | multiregex/__init__.py:264-294 | this revision's generation passes its own validation for every prematcher it produces |
| Multiregex.AlternationExample | multiregex/__init__.py:283-292 | the grouped alternation of `Ab` and `c` has no top-level literal, and its prematchers are {"ab", "c"} |
| Multiregex.BuildEntries | multiregex/__init__.py:90-91 | construction succeeds exactly when normalising, generating and validating all succeed; the entries then keep the patterns in order, each with its given or generated prematchers, all valid |
| Multiregex.CandidateSet | multiregex/__init__.py:213-217 | the bypass pairs together with the automaton's hits on the lower-cased text are exactly the `(index, pattern)` pairs of candidate patterns |
| Multiregex.RegexMatcher.FromEntries | multiregex/__init__.py:92-107 | the fields assigned from validated entries satisfy the matcher invariant; with profiling on, every counter starts at zero |
| Multiregex.RegexMatcher.Create | multiregex/__init__.py:67-107 | builds a valid matcher exactly when construction raises nothing; it holds the given patterns in order, each with its given prematchers or, when none were given, the generated ones; with profiling on, every counter starts at zero |
| Multiregex.RegexMatcher.GetPatternCandidates | multiregex/__init__.py:209-220 | the candidates are the registered patterns with no prematchers or with a prematcher occurring in `s.lower()`, in registration order |
| Multiregex.RegexMatcher.Run | multiregex/__init__.py:167-200 | returns the matches of the candidates (or of every pattern when prematchers are disabled), in order; with profiling, the counters are those of the profiling loop over the attempts; without it, nothing changes; the invariant is kept |
| Multiregex.RegexMatcher.CountResults | multiregex/__init__.py:194-198 | the profiling loop leaves the counters that `Tally` describes |
| Multiregex.RegexMatcher.Candidates | multiregex/__init__.py:179-182 | the patterns attempted are the candidates for the string when prematchers are enabled and every pattern otherwise; each is registered |
| Multiregex.RegexMatcher.AttemptedAreRegistered | multiregex/__init__.py:104-107 | every attempted pattern is registered, so it has a counter |
| Multiregex.RegexMatcher.GetPrematcherFalsePositives | multiregex/__init__.py:222-234 | refuses exactly when profiling is off; otherwise returns one item per registered pattern with false positives, with its counter, worst first, ties in the dictionary's order |
| Multiregex.RegexMatcher.WorstFalsePositives | multiregex/__init__.py:236-241 | refuses exactly when profiling is off; otherwise the rows printed are the report cut by `[:worst_n]` |
| Multiregex.RegexMatcher.PrematchedIsSubsequence | multiregex/__init__.py:167-200 | with prematchers, `run`'s result is a subsequence of its result without them |
| Multiregex.RegexMatcher.PrematchedComplete | tests/test_bench.py:34-43 | with and without prematchers `run` returns the same matches whenever every pattern the engine matches is a candidate |
| SrcMultiregex.IsAsciiCheck | src/multiregex/__init__.py:242-247 | `_isascii` is `str.isascii` where that exists and the bit-7 test before; every ASCII string passes either way |
| SrcMultiregex.IsAsciiCheckFallbackWrong | src/multiregex/__init__.py:242-247 | U+0100 passes the fallback test but not `str.isascii` |
| SrcMultiregex.IsAsciiCheckFixed | src/multiregex/__init__.py:242-247 | with the fallback comparing codes with 128, the answer is "the string is ASCII" whatever the interpreter |
| SrcMultiregex.NonAsciiPrematcherNeverHit | src/multiregex/__init__.py:202-205 | a prematcher with a non-ASCII character never occurs in a text normalised by `to_lowercase_ascii` |
| SrcMultiregex.ValidatedYetUnreachable | src/multiregex/__init__.py:254-260 | "ä" passes this revision's validation, yet no text ever triggers it |
| SrcMultiregex.AcceptedPrematcherReachable | src/multiregex/__init__.py:202-205 | every prematcher the ASCII-checking validation accepts is triggered by some text |
| SrcMultiregex.TopLevelPrematcher | src/multiregex/__init__.py:271-274 | the result is ASCII with no upper-case character; it is the first longest normalised terminal; it is non-empty exactly when some normalised terminal is, and then it passes the ASCII-checking validation |
| SrcMultiregex.GeneratePrematchers | src/multiregex/__init__.py:263-294 | every generated prematcher passes both the ASCII-checking and the as-written validation |
| SrcMultiregex.NonAsciiLiteralCannotGenerate | src/multiregex/__init__.py:271-294 | a pattern whose only literal is "ä" gets no prematchers: its terminal normalises to "" |
| SrcMultiregex.TopLevelAgreesOnAscii | src/multiregex/__init__.py:271-274 | when all literal characters are ASCII, both revisions pick the same top-level prematcher |
| SrcMultiregex.MaxByLenNormalized | src/multiregex/__init__.py:272-274 | for ASCII terminals, normalising before taking the longest equals lower-casing after |
| SrcMultiregex.TerminalsAscii | src/multiregex/__init__.py:313-322 | if the tree's literal characters are ASCII, so is every terminal |
| SrcMultiregex.BuildEntries | src/multiregex/__init__.py:86-87 | for a given validation: succeeds exactly when normalising, generating with this revision's generation and validating all succeed; the entries then keep the patterns in order, each with its given or generated prematchers, all valid |
| SrcMultiregex.CandidatesAgreeOnAscii | src/multiregex/__init__.py:169-172 | for ASCII text and distinct patterns, both revisions attempt the same patterns in the same order |
| SrcMultiregex.RegexMatcher.FromEntries | src/multiregex/__init__.py:88-100 | the fields assigned from entries that pass the as-written validation satisfy the matcher invariant; with profiling on, every counter starts at zero |
| SrcMultiregex.RegexMatcher.Create | src/multiregex/__init__.py:63-100 | builds a valid matcher exactly when construction, validating as written, raises nothing; it holds the given patterns in order, each with its given prematchers or, when none were given, the generated ones; with profiling on, every counter starts at zero |
| SrcMultiregex.RegexMatcher.GetPatternCandidates | src/multiregex/__init__.py:200-205 | a pattern is a candidate exactly when one of its entries has no prematchers or a prematcher occurring in `to_lowercase_ascii(s)` |
| SrcMultiregex.RegexMatcher.Run | src/multiregex/__init__.py:157-189 | returns the matches of the registered patterns that are candidates, in registration order (or of every pattern); the counter updates are as in the other revision; the invariant is kept |
| SrcMultiregex.RegexMatcher.CountResults | src/multiregex/__init__.py:183-187 | the profiling loop leaves the counters that `Tally` describes |
| SrcMultiregex.RegexMatcher.GetPrematcherFalsePositives | src/multiregex/__init__.py:207-219 | refuses exactly when profiling is off; otherwise returns one item per registered pattern with false positives, with its counter, worst first, ties in the dictionary's order |
| SrcMultiregex.RegexMatcher.WorstFalsePositives | src/multiregex/__init__.py:221-226 | refuses exactly when profiling is off; otherwise the rows printed are the report cut by `[:worst_n]` |
| SrcMultiregex.RegexMatcher.PrematchedIsSubsequence | src/multiregex/__init__.py:157-189 | with prematchers, `run`'s result is a subsequence of its result without them |
| SrcMultiregex.RegexMatcher.PrematchedComplete | tests/test_bench.py:34-43 | with and without prematchers `run` returns the same matches whenever every pattern the engine matches is a candidate for the normalised text |
| SrcMultiregex.RegexMatcher.Candidates | src/multiregex/__init__.py:169-172 | the patterns attempted are the registered patterns that are in the candidate set, in registration order, or every pattern when prematchers are disabled; each is registered |
| SrcMultiregex.RegexMatcher.AttemptedInOrder | src/multiregex/__init__.py:169-172 | for distinct patterns, the attempted patterns are exactly those at candidate indices, in registration order |
| SrcMultiregex.RegexMatcher.NonAsciiPrematcherMissesMatch | src/multiregex/__init__.py:143-145 | a matcher whose one pattern has the accepted prematcher "ä" attempts nothing with prematchers, so `run` returns no match, while without prematchers it returns the engine's match |
| SrcMultiregex.CorrectedValidationRefuses | src/multiregex/__init__.py:133-146 | for the pattern with caller-given prematcher "ä", filling in keeps `{"ä"}`, which the as-written validation accepts and the ASCII-checking validation refuses |

## Left out

- `re.compile`, `sre_parse.parse` and `sre_constants` are not modelled: they are CPython internals. The syntax tree is part of the `Pattern` value. Pattern flags are not modelled, so two patterns are the same key when their source and tree agree.
- The regex engine is an arbitrary function. The `search`, `match` and `fullmatch` aliases are `Run` with that function.
- Only the contract of the Aho-Corasick C extension is modelled: which stored needles occur in a text. `make_automaton()` is taken to return `None`, and `add_word` to return whether the needle was new. Searching an automaton with no needles is taken to report nothing.
- Version lookup (`importlib.metadata`, `warnings`, `pkg_resources`) is packaging plumbing.
- `format_prematcher_false_positives` is modelled only as the `[:worst_n]` slice of the report (`WorstFalsePositives`). Its text layout and floating-point rate are left out.
- Case mapping covers ASCII letters only: `str.lower` and `str.isupper` leave every non-ASCII character as it is. Full Unicode case mapping, including lower-casing that changes a string's length, is left out.
- Exceptions are `Error` values, not Python exception types and messages. The construction errors keep the order in which the code raises them.
- Prematcher sets are iterated in set order, so which invalid prematcher of one pattern is reported is not determined. `ValidateAll` promises some invalid prematcher of the first entry that has one.
- With profiling off, the counters are an empty map. In Python the attribute does not exist.
- The argument of `RegexMatcher` is modelled as the list it is turned into. A bare string therefore stands for the list of its characters, which the code accepts.
- When the first element is a tuple and a later one is a bare pattern, Python fails by unpacking that string, and the exception depends on its length. The model reports `NotAPair`.
- Selection.Successes: its contract states membership and the length bound but not the order of the returned pairs. The order is pinned down by `MatchesSnoc`, and `MatchesOfSubsequence` relies on that.
- `tests/test_cpython_tests.py` and the `generate_prematcher`/`search_ordered` tests belong to another revision of the module, so they are not modelled.

Where the two descriptions of the program disagree, the model follows the code:

- Every top-level alternation of the simplified tree is tried in turn, not only a tree that is a single alternation.
- An alternation with no children yields the empty prematcher set, so the pattern is always a candidate. `all(set())` is true.

## Findings

| source | as written | input that shows it | evidently intended | confidence | as-written member | corrected member |
|---|---|---|---|---|---|---|
| src/multiregex/__init__.py:254-260 | `validate_prematcher` rejects only empty strings and upper-case characters, but `get_pattern_candidates` strips non-ASCII characters from the text before searching | prematchers `{"ä"}` for the pattern `ä`: validation passes, the pattern is never a candidate, and `run` misses the match on the text "ä" | reject non-ASCII prematchers, as the error message ("all-ASCII") states | high; not executed | SrcMultiregex.RegexMatcher.NonAsciiPrematcherMissesMatch | SrcMultiregex.AcceptedPrematcherReachable |
| src/multiregex/__init__.py:247 | the fallback of `_isascii` tests only bit 7 of each code (`ord(c) & 0x80`) | "Ā" (code 256): the fallback answers True, `str.isascii` answers False | test `ord(c) < 128` | high; not executed | SrcMultiregex.IsAsciiCheckFallbackWrong | SrcMultiregex.IsAsciiCheckFixed |

The model follows the code: `SrcMultiregex.RegexMatcher.Create` builds its entries with `BuildEntries(specs, ValidatePrematcher)`, and `SrcMultiregex.RegexMatcher.NonAsciiPrematcherMissesMatch` shows the missed match on such a matcher. The corrected construction is `BuildEntries(specs, ValidatePrematcherAscii)`: `SrcMultiregex.CorrectedValidationRefuses` shows that it refuses the "ä" prematcher, and `SrcMultiregex.AcceptedPrematcherReachable` proves that every prematcher it accepts is triggered by some text. Prematchers generated by this revision pass both validations (`SrcMultiregex.GeneratePrematchers`), so the correction changes only which caller-given prematchers are refused. `_isascii` is not called anywhere in the module, so the second row does not affect any other operation.
