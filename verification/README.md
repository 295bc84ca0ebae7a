# Verified model of the regex compiler, `pthread_once`, getopt, UTF-8 conversion and checked integers

This project models the hard parts of the library layer under `lib/` and proves what its
comments, documentation and callers rely on. Everything is stated for all inputs, all runs or
all reachable states.

**The regex compiler** (`regex_tree`, `tree_store`, `lexer`, `pattern`, `reading`, `numeral`,
`pattern_text`, `operator_text`, `interval_text`, `compiled_text`, `pattern_error`, `parser`,
`dup_op`, `group_passes`, `lowering`, `group_order`, `shape`, `nfa_passes`, `nfa`,
`nfa_tables`, `analyze`, `node_set`, `closure`, `state_table`, `compile`). Pattern trees live
in an arena of cells with parent, left, right, first and next pointers, and the passes change
the cells in place. A subject text is seen through its positions: a matcher says which spans
one consuming token matches, and every result holds for every matcher, so none depends on what
a bracket, a multibyte character or a back-reference matches. The chain of results is: a
grammar over the tokens gives a pattern at most one syntax tree; the parser accepts exactly the
patterns that have one, finds it, and otherwise says where and why reading stops; it builds,
node for node, the tree of that syntax tree, which matches what the syntax tree means;
repetitions are expanded by copying subtrees with a stack-free walk; nested groups are stripped
and groups are lowered without changing what the tree matches, and a back-reference ends up
with a group that has its OPEN and CLOSE exactly if the group it names is left of the pattern,
which that of `(a){0}\1` is not; and the numbered automaton accepts exactly the spans that the
tree matches, also for stars over bodies that match nothing and alternatives that are null
pointers. `Compile.Compile` puts it together, up to the epsilon closures, with every row of the
tables. What patterns written as text mean is then stated with their characters alone, from
`peek_token` on: which characters stand for themselves, how often an operator or an interval
repeats, and which error a text has under which syntax bits. The sorted arrays that represent
sets of nodes are proved equal to mathematical sets, and the state table is proved to make one
state per entrance set and context, and over any history of requests of both kinds to give each
the same answer again.

**`pthread_once` for Cygwin** (`threads`, `once`) is a state machine with one step per atomic
access. The claims of its proof comment hold in every run of up to 65536 concurrent threads,
and fail for 65537, because the counter has 16 bits. `init_guard` does the same for the
once-only lock of `setlocale-lock.c`, where the bound is 2^32. In both, every call returns once
nobody calls again and every thread keeps getting its turn.

**getopt** (`exchange`, `option_spec`, `option_laws`, `getopt`). `OptionSpec.Scan` reads the
arguments once from left to right and moves nothing. The resumable scanner, which permutes
`argv` while it scans, is proved to report exactly what that scan reports and to leave `argv`
as that scan splits it, in all three ordering modes, for every `argv`, option string and option
table; the inputs at which getopt reads outside its arguments are stated exactly. What that
scan reports for each way to write an option is stated with the characters on the command line.

**UTF-8** (`utf8`, `utf8_restart`, `utf8_state`). The decision tree of the decoder is proved to
accept exactly the UTF8-char of section 4 of RFC 3629; decoding in chunks equals decoding at
once; and the state kept as bytes and the state packed into two words both implement the same
step.

**Checked integers** (`c_integers`, `int_overflow`, `digit_bound`). The overflow predicates are
evaluated with C's promotions and conversions, wrap-around of unsigned types and undefined
signed overflow, for operands of any two types, any result type and any width of int.

Results that differ from what the source says about itself:

- `re_node_set_insert` (comment at `lib/regex_internal.c:1243`) tolerates a present element
  only if at most one element of the set is above it (`NodeSets.InsertExact`); inserting 3 into
  1, 3, 5, 7 leaves 1, 3, 5, 5 (`NodeSets.InsertPresentFails`).
- The proof comment of `pthread_once` (`lib/pthread-once.c:99`) needs a bound on the number of
  concurrent callers (`PthreadOnce.SafeExactly`).
- The ADD check (`lib/intprops-internal.h:364`) can report an overflow that is not there when
  the operands have different signedness and the result type is signed and narrow
  (`IntOverflow.AddFalseAlarm`); it is exact for exactly the type combinations of
  `IntOverflow.AddTrustedExactly`, which include all with operands of equal signedness.
  SUBTRACT and MULTIPLY are exact for all types.
- `process_long_option` (comment at `lib/getopt.c:187`) leaves the state unchanged when it returns
  -1, except where it has taken an option whose value is -1 and that has no flag
  (`Getopt.Scanner.ProcessLongOption`). A caller that asks until -1 then stops before the end,
  and does so exactly if the scan reports such an option (`Getopt.Scanner.GetAll`,
  `OptionSpec.MinusOneTooEarly`). With long_only getopt goes on in the next element instead
  (`OptionSpec.MinusOneTakesNext`), and for `prog -foo` it reads past the end of `argv`
  (`OptionSpec.MinusOnePastEnd`, with the exact condition in `OptionSpec.UndefinedExactly`).
- A back-reference to a group that is repeated no times, as in `(a){0}\1`, compiles, but its
  group has no node, no OPEN and no CLOSE (`Compile.DroppedGroup`). Every other back-reference
  that is left of the pattern has both (`Compile.Compile`).
- The once-only lock of `setlocale-lock.c` takes its increment back so that the counter cannot
  wrap around (`lib/setlocale-lock.c:82`); more than 2^32 threads can still initialize the lock
  twice (`InitGuard.MadeTwice`).
- When both functions that acquire states share a table, `re_acquire_state_context` with
  context 0 can return a state that still has nodes its constraints exclude
  (`StateTables.PlainThenContext`). Without hash wrap-around it does so exactly if some node is
  excluded in context 0 and the same nodes were asked for without context before they were
  asked for in context 0 (`StateTables.AnswerExactly`).

`dafny verify dfyconfig.toml` checks the whole project.

## Model

| member | source | states |
|---|---|---|
| RegexTree.SameTokensMatch | lib/regcomp.c:3777-3814 | a copy of a subtree, which differs in its cells only, matches the same spans |
| TreeStore.Dfa.NewTree | lib/regcomp.c:3695-3734 | create_tree makes one new cell, hangs both arguments below it and touches no other cell |
| TreeStore.Dfa.Preorder | lib/regcomp.c:1238-1266 | the stack-free walk has the effect of visiting each node once in recursive preorder, for any function that keeps the links in order, also when it replaces children of its node |
| TreeStore.Dfa.Postorder | lib/regcomp.c:1206-1236 | the stack-free walk has the effect of visiting each node once in recursive postorder |
| TreeStore.Dfa.DuplicateTree | lib/regcomp.c:3776-3814 | terminates with a fresh, distinct copy with the same tokens, leaves all old cells alone, provided no ancestor of the root has a right child still to come |
| DupOps.ConcatCopies | lib/regcomp.c:2592-2599 | n copies followed by one more match n + 1 times in a row |
| DupOps.OptionalMore | lib/regcomp.c:2624-2637 | wrapping "at most n" and one more copy in an alternative with a null branch matches at most n + 1 times |
| DupOps.StarCopies | lib/regcomp.c:2618-2622 | the star node matches any number of times in a row, also when the body can match nothing |
| DupOps.MandatoryThenOptional | lib/regcomp.c:2639-2640 | the mandatory copies before the optional ones match between lo and lo + hi times |
| DupOps.MandatoryCopies | lib/regcomp.c:2588-2601 | the loop makes, of the element's cells and new ones, exactly the tree of `start` copies in a row, and each copy is made where the copying walk stops at the right place |
| DupOps.OptionalCopies | lib/regcomp.c:2618-2637 | the loop makes exactly the tree of at most `count` copies, each within the option of the one before |
| DupOps.ExpandDup | lib/regcomp.c:2580-2642 | the whole expansion uses only the element's cells and new ones and is, node for node, the tree Expansion of the element and the two bounds |
| DupOps.ExpansionMeans | lib/regcomp.c:2580-2642 | that tree matches the element n times for n from start to end, without upper bound for -1 |
| DupOps.ExpansionCopied | lib/regcomp.c:2580-2642 | that tree is put together from copies of the element alone, and is nothing exactly if there is no element or the upper bound is 0 |
| Patterns.FieldValueNext | lib/regcomp.c:3667-3671 | one step of the number loop: the value of the digits read so far, saturated at RE_DUP_MAX + 1, -1 for none and -2 for anything else |
| Numerals.NumeralValue | lib/regcomp.c:3648-3674 | the decimal numeral of every n, digit by digit, is read as n up to 0x7fff and as 0x8000 above |
| Numerals.FieldNumbers | lib/regcomp.c:3659-3671 | a field is no number exactly if it has anything but the characters 0 to 9 in it |
| Numerals.ExactReads | lib/regcomp.c:2515-2571 | {n} is an interval exactly for n up to 0x7fff, and then repeats n times |
| Numerals.RangeReads | lib/regcomp.c:2515-2571 | {v,w}, with either bound left out or not, is an interval exactly if the bounds are in order and up to 0x7fff, and then has these bounds |
| Numerals.OperatorReads | lib/regcomp.c:2574-2577 | star, plus and question mark repeat from 0, from 1, and up to once |
| Patterns.IntervalFields | lib/regcomp.c:2515-2571 | in a well-formed interval the fields end at the first comma and brace, and hold the bounds |
| Patterns.OneDup | lib/regcomp.c:2515-2577 | where an operator starts determines where it ends and how often it repeats |
| Patterns.LiteralNoInterval | lib/regcomp.c:2536-2556 | a brace that is rolled back to a character does not start an interval |
| Patterns.Rejected | lib/regcomp.c:2518-2571 | if the fields found that way are not bounds in order and at most RE_DUP_MAX, no interval starts at the brace |
| PatternParser.Parser.FetchNumber | lib/regcomp.c:3648-3674 | reads exactly to the end of the field and returns its saturated value, or -2 at the end of the pattern; Numerals says what that value is |
| PatternParser.Parser.ScanInterval | lib/regcomp.c:2515-2571 | returns the bounds of a well-formed interval; takes the brace literally exactly where the syntax allows it and a field is not a number or the pattern ends; otherwise no interval starts there, and which of the three error codes is returned is determined by the fields |
| PatternErrors.FieldsDecide | lib/regcomp.c:2518-2571 | whether the pattern runs out (EBRACE) or a bound is too large (ESIZE) is decided by the first two fields and what ends them; everything else is BADBR |
| PatternErrors.ErrorNeeds | lib/regcomp.c:2104-2502 | a pattern fails with an error code only if it has a token of the kind that the code is about |
| PatternErrors.OneCode | lib/regcomp.c:2272-2322 | a reference without group, a stray closing parenthesis, an open group and a misplaced operator have one code each |
| PatternParser.Parser.ParseDupOp | lib/regcomp.c:2507-2642 | the resulting tree is the expansion of the element for the bounds that the operator's spelling says; on the literal-brace path nothing has changed; it fails only at a brace where no interval starts and that may not stand for itself |
| Shapes.MeansThen | lib/regcomp.c:2206-2219 | the tree of a branch matches the concatenation of its parts, also when a part has no tree |
| Shapes.MeansOr | lib/regcomp.c:2150-2174 | the alternative node matches what one of its branches matches, a null branch nothing |
| Shapes.MeansRepeat | lib/regcomp.c:2438-2463 | a tree that repeats the element's tree matches what the repetition means |
| Shapes.ShapeMeans | lib/regcomp.c:2138-2502 | the tree that the parser makes for a syntax tree matches what the syntax tree means, for every matcher |
| Shapes.ShapeSets | lib/regcomp.c:2464-2642 | its SUBEXP and back-reference nodes are exactly those of the groups and references that are not within a repetition with upper bound 0 |
| Shapes.ShapeBodies | lib/regcomp.c:2464-2502 | wherever a group was copied to, its SUBEXP node is over a tree that matches what the body of the group means |
| Shapes.ShapeInOrder | lib/regcomp.c:2138-2502 | its groups can be stripped in preorder with every back-reference after the stripping of its group |
| Readings.FitsOr | lib/regcomp.c:2143-2167 | a branch read with the groups closed before the first one, and the union taken afterwards, give the scoping of the alternation |
| Readings.ReadsSpelling | lib/regcomp.c:2104-2502 | what reads as a syntax tree is spelled by exactly the tokens read |
| Readings.SpellsSpelling | lib/regcomp.c:2104-2127 | a pattern is spelled by its syntax tree, token by token |
| Readings.RepeatNext | lib/regcomp.c:2438-2463 | where an operator can be applied, every reading applies it |
| Readings.BranchNext | lib/regcomp.c:2197-2219 | every reading of a branch goes on with the one expression that can be read next, or there is none |
| Readings.PatternNext | lib/regcomp.c:2146-2174 | every reading of alternatives goes on with the one branch that can be read after the bar, or there is none |
| Readings.AtomGroup | lib/regcomp.c:2475-2493 | a group is decided by its body and the closing parenthesis |
| Readings.OneReading | lib/regcomp.c:2129-2463 | no pattern has two syntax trees |
| Readings.SpellsNumbers | lib/regcomp.c:2464-2470 | in every pattern a group has the number of the opening parentheses before its own |
| PatternParser.Parser.ParseLeaf | lib/regcomp.c:2238-2355 | finds the only leaf that can be read, or there is none; a back-reference is accepted exactly if its group is in completed_bkref_map, a closing parenthesis as a character only where the syntax allows it; PatternTexts.LiteralChar says which character a token stands for |
| PatternParser.Parser.ParseDups | lib/regcomp.c:2438-2463 | all operators after an atom are applied to it and none is left over; it succeeds exactly if some repetition of the atom can be read up to a place where no operator follows |
| PatternParser.Parser.ParseSubExp | lib/regcomp.c:2464-2502 | numbers the group by its opening parenthesis, puts its SUBEXP node over the tree of its body, parses to the matching closing parenthesis and completes groups 0 to 8; it finds the only group that can be read, or there is none |
| PatternParser.Parser.ParseExpression | lib/regcomp.c:2232-2463 | finds the only expression that can be read, or there is none and the error code fits the token where reading stops; the tree is, node for node, that of the expression; used_bkref_map gains exactly the groups referred to |
| PatternParser.Parser.ParseBranch | lib/regcomp.c:2187-2223 | the same for a sequence, binding to the left |
| PatternParser.Parser.ParseRegExp | lib/regcomp.c:2138-2176 | the same for alternatives; each one starts from the groups closed before the first |
| PatternParser.Parser.Parse | lib/regcomp.c:2104-2127 | succeeds exactly for the patterns that have a syntax tree, and finds the only one; the tree is, node for node, that of the syntax tree followed by the end marker; on failure the pattern reads up to a token to which the error code applies |
| PatternTexts.LiteralChar | lib/regcomp.c:1767-1985 | wherever a token that peek_token reads for a character, with a backslash or without, is taken literally, it matches that character, operators included, under any syntax bits |
| PatternTexts.PlainText | lib/regcomp.c:2187-2260 | a text without operators has a syntax tree, which matches its characters one after the other |
| PatternTexts.RepeatedText | lib/regcomp.c:2574-2642 | c*, c+ and c?, written with a backslash or without as the syntax asks for, match c any number of times, at least once and at most once, and nothing else |
| PatternTexts.ExactText | lib/regcomp.c:2508-2642 | c{n} matches c exactly n times, for every n up to 0x7fff and every syntax with intervals |
| PatternTexts.RangeText | lib/regcomp.c:2508-2642 | c{v,w} matches it from v to w times; without v from 0 times, without w any number of times |
| IntervalTexts.ExactNone | lib/regcomp.c:2566-2570 | above 0x7fff c{n} is no pattern, under any syntax |
| IntervalTexts.RangeNone | lib/regcomp.c:2557-2570 | nor is c{v,w} with bounds out of order or above 0x7fff |
| IntervalTexts.ExactCode | lib/regcomp.c:2566-2570 | the error of c{n} above 0x7fff can only be ESIZE |
| IntervalTexts.RangeCode | lib/regcomp.c:2557-2570 | that of c{v,w} is BADBR if the bounds are out of order, where all numbers above 0x7fff count as the same, and else ESIZE |
| IntervalTexts.OpenCode | lib/regcomp.c:2536-2547 | that of c{d without closing brace is EBRACE |
| OperatorTexts.LeadingOperator | lib/regcomp.c:2294-2312 | an operator at the start of a pattern is an error with RE_CONTEXT_INVALID_OPS, an opening brace also with RE_CONTEXT_INVALID_DUP; else it is passed over with RE_CONTEXT_INDEP_OPS and matches its own character without |
| OperatorTexts.TwiceText | lib/regcomp.c:2441-2460 | c** is a pattern exactly without RE_CONTEXT_INVALID_DUP |
| OperatorTexts.SecondOperator | lib/regcomp.c:2441-2460 | a plus or a question mark may follow a star under any syntax bits |
| OperatorTexts.BraceText | lib/regcomp.c:2536-2556 | in c{d the brace matches itself with RE_INVALID_INTERVAL_ORD, and without there is no pattern |
| OperatorTexts.CloseText | lib/regcomp.c:2314-2334 | a closing parenthesis alone matches itself with RE_UNMATCHED_RIGHT_PAREN_ORD, and is no pattern without |
| OperatorTexts.CloseBraceText | lib/regcomp.c:2323-2334 | a closing brace alone matches itself |
| OperatorTexts.PeriodText | lib/regcomp.c:2384-2393 | a period is the token that matches any character |
| OperatorTexts.EitherText | lib/regcomp.c:2138-2176 | c and d with a bar between them match either character, and so they do on lines of their own with RE_NEWLINE_ALT |
| OperatorTexts.EmptyText | lib/regcomp.c:2104-2176 | the empty text is a pattern and matches nothing, and so may one side of an alternative |
| OperatorTexts.GroupText | lib/regcomp.c:2464-2502 | a character in parentheses, with backslashes or without as the syntax asks for, is group 0 and matches the character |
| OperatorTexts.GroupsThenRef | lib/regcomp.c:2272-2286 | after n groups each of \1 to \9 that is not above n is a reference to the group of that number, also the ninth |
| OperatorTexts.RefRead | lib/regcomp.c:1816-1823 | a backslash and a digit from 1 to 9 are read as the reference to that group |
| CompiledTexts.LiteralCompiled | lib/regcomp.c:719-790 | the automaton of a single token taken literally accepts exactly the spans that match the character it was written with |
| CompiledTexts.PlainCompiled | lib/regcomp.c:719-790 | the automaton of a text without operators accepts exactly its characters one after the other |
| CompiledTexts.ExactCompiled | lib/regcomp.c:719-790 | the automaton of c{n} accepts exactly n times c |
| Readings.SpellsRefersBack | lib/regcomp.c:2138-2176 | in an accepted pattern no back-reference names a group in another alternative, a group further on, or a group it lies in itself |
| Patterns.ScopeRefersBack | lib/regcomp.c:2143-2167 | scoping by the map of completed groups, reset and united for each alternative, has that meaning |
| GroupPasses.OptimizeCall | lib/regcomp.c:1268-1298 | one call keeps the links of the tree in order and changes no other cells |
| GroupPasses.OptimizePreserves | lib/regcomp.c:1268-1298 | stripping groups that are the whole body of a group does not change what the tree matches, for every matcher that gives such groups the same text |
| GroupPasses.MapsAlongNesting | lib/regcomp.c:1281-1293 | a group is mapped to none but groups it is nested with directly, over any number of steps |
| GroupPasses.OptimizeKeepsBodies | lib/regcomp.c:1286-1289 | groups that stay match what they matched before |
| GroupPasses.OptimizeMapsToKept | lib/regcomp.c:1288-1293 | afterwards subexp_map sends every group of the tree to one that is still in the tree, that it was nested with directly, and whose body matches the same, before and after |
| GroupOrder.RefsResolved | lib/regcomp.c:1273-1296 | in a tree in which no back-reference comes before its group is stripped, the pass makes exactly the tree without the stripped groups, with every back-reference and map entry renumbered to the outermost group of its nest, which stays and is in used_bkref_map |
| GroupOrder.InOrderGroup | lib/regcomp.c:2464-2502 | a group made by the parser has its back-references in that order, whether the group itself stays or is stripped |
| GroupOrder.InOrderPair | lib/regcomp.c:2138-2223 | so have sequences and alternatives, with the groups that the parser counts as closed |
| GroupOrder.InOrderCopies | lib/regcomp.c:2580-2642 | so has the tree of a repetition, in which groups occur more than once or not at all |
| GroupOrder.GroupsResolved | lib/regcomp.c:1268-1298 | for every tree of the parser: the tree, subexp_map and used_bkref_map after the pass, exactly |
| Lowering.LowerCall | lib/regcomp.c:1302-1358 | one call keeps the links of the tree in order and otherwise only adds cells |
| Lowering.LowerPreserves | lib/regcomp.c:1300-1358 | lowering does not change what the tree matches, and leaves no group below the root |
| Lowering.LowerNests | lib/regcomp.c:1342-1357 | the OPEN and CLOSE leaves are properly nested |
| Lowering.LowerBrackets | lib/regcomp.c:1324-1358 | the OPEN and CLOSE leaves are, in order, those of every group but, with no_sub, groups with a body that no reference uses |
| Lowering.ReferredGroupKept | lib/regcomp.c:1331-1340 | a group in used_bkref_map keeps its OPEN and CLOSE |
| GroupOrder.RefsKeepBrackets | lib/regcomp.c:1268-1340 | after both passes a back-reference of a parser's tree has the OPEN and CLOSE of its group exactly if the group is in the tree, also with no_sub; without no_sub every group of the tree has them, and no other group ever |
| GroupOrder.PassesMark | lib/regcomp.c:1268-1358 | the OPEN and the CLOSE leaves after both passes, and the numbers of the back-references, are exactly those that the drop rule and the renumbering ask for |
| NfaPasses.FirstPass | lib/regcomp.c:1360-1382 | calc_first in postorder numbers the nodes of the tree consecutively, and `first` of every node is where a match of it starts |
| NfaPasses.NextPass | lib/regcomp.c:1384-1405 | calc_next in preorder makes `next` of every node the place where a match goes on |
| NfaPasses.LinkPass | lib/regcomp.c:1407-1461 | link_nfa_nodes fills the tables with exactly the edges of the automaton of the tree, the epsilon edge of a back-reference included |
| NfaTables.LinkIdle | lib/regcomp.c:1407-1461 | it leaves the epsilon edges of characters, brackets, periods and the end marker empty, and `nexts` of epsilon nodes and the end marker at -1 |
| NfaTables.PatternRows | lib/regcomp.c:1384-1461 | in the finished tables a back-reference has the one epsilon edge that its `nexts` is; other nodes that consume have `nexts` and no epsilon edge; OPEN and CLOSE have one, alternatives and stars one or two in increasing order, and no `nexts`; the end marker has neither |
| NfaLanguage.RunMatches | lib/regcomp.c:1360-1461 | a run that enters the automaton of a tree matches the tree on a span and goes on at its continuation |
| NfaLanguage.MatchRuns | lib/regcomp.c:1360-1461 | a match of the tree followed by a run from its continuation is a run from its start |
| NfaLanguage.AcceptsSplits | lib/regcomp.c:1360-1461 | from first(t) a span is accepted exactly if it splits into a match of t and a part accepted from next(t) |
| NfaLanguage.PatternAccepts | lib/regcomp.c:1360-1461 | the whole automaton accepts exactly the spans that the pattern tree matches |
| Analyze.PatternEdges | lib/regcomp.c:1407-1461 | every epsilon edge of the automaton leads to a node |
| Analyze.NodesOf | lib/regcomp.c:1360-1382 | the nodes of the automaton are exactly the tokens of the lowered tree |
| Analyze.Analyze | lib/regcomp.c:1143-1184 | all passes in their order give an automaton that accepts from its first node exactly what the tree matched before, with every row of the tables as it should be; for a tree of the parser its OPEN, CLOSE and back-reference nodes and the entries of subexp_map are determined exactly by the groups and references of the tree |
| NodeSets.SortedUnique | lib/regex_internal.h:250-255 | a set of nodes has only one representation as an increasing array |
| NodeSets.CollectNew | lib/regex_internal.c:1188-1206 | the first loop of the merge leaves in the scratch area, in order, exactly the source elements that are new, and the set untouched |
| NodeSets.CollectCommon | lib/regex_internal.c:1037-1069 | the same for the elements common to two sources |
| NodeSets.FoldScratch | lib/regex_internal.c:1208-1238 | folding the scratch area down gives the increasing array of the union; no scratch element is overwritten before it is read |
| NodeSets.NodeSet.Merge | lib/regex_internal.c:1158-1241 | dest becomes the union with src, increasing, within the allocation |
| NodeSets.NodeSet.AddIntersect | lib/regex_internal.c:1013-1102 | dest becomes the union with the intersection of the sources |
| NodeSets.InsertExact | lib/regex_internal.c:1243-1304 | insertion yields the set with the element added exactly if it is absent or at most one element is above it |
| NodeSets.InsertPresentFails | lib/regex_internal.c:1286-1298 | the concrete case in which it does not |
| NodeSets.NodeSet.Insert | lib/regex_internal.c:1247-1304 | the buffer after insertion, also when the element is present |
| NodeSets.NodeSet.InsertLast | lib/regex_internal.c:1306-1328 | appends the element, and keeps the array increasing if it is above all others |
| NodeSets.NodeSet.Contains | lib/regex_internal.c:1346-1368 | binary search: one more than the index of the element, 0 exactly if it is not in the set |
| NodeSets.NodeSet.RemoveAt | lib/regex_internal.c:1370-1378 | removes the element at the index and nothing for an index outside |
| NodeSets.NodeSet.Compare | lib/regex_internal.c:1330-1344 | true exactly for equal sets |
| Closures.MergedSkip | lib/regcomp.c:1708-1714 | skipping a node in progress loses only what can be reached through such nodes |
| Closures.MergedAll | lib/regcomp.c:1701-1747 | with all successors merged the set holds everything reachable without entering a node in progress, and is the whole closure if nothing was skipped |
| Closures.CalcEclosureIter | lib/regcomp.c:1671-1750 | terminates on cyclic graphs; the result is never too large, complete at the root, and a recorded result is the closure |
| Closures.CalcEclosure | lib/regcomp.c:1630-1669 | every node ends with the sorted set of the nodes it reaches along epsilon edges, and no mark survives |
| Closures.CalcInveclosure | lib/regcomp.c:1608-1628 | the sorted sets of the converse relation |
| Compile.AcceptsThroughClosure | lib/regcomp.c:1630-1669 | a node accepts exactly what some consuming or final node of its closure accepts |
| Compile.Compile | lib/regcomp.c:719-790 | parsing and analysis together: exactly the patterns with a syntax tree compile; the automaton recognizes what the syntax tree means; it has the back-references that are left of the pattern, and OPEN and CLOSE for one exactly if its group is left too, that is, not within a repetition with upper bound 0; without no_sub every group that is left has them; every row of the tables is as it should be; and all closures are right |
| Compile.NoSubGroups | lib/regcomp.c:1331-1340 | with no_sub the group of `()` keeps its OPEN and CLOSE, that of `(c)` loses them, and that of `(c)\1` keeps them |
| Compile.NumberSameBody | lib/regcomp.c:1281-1298 | the number that subexp_map gives a group is that of a group that is left too and whose body means the same |
| Compile.DroppedGroup | lib/regcomp.c:2580-2587 | `(a){0}\1` has a syntax tree, and every automaton that meets the contract of Compile for it has a back-reference but no OPEN at all |
| StateTables.CalcStateHash | lib/regex_internal.c:1434-1442 | number of nodes plus context plus sum of nodes, modulo the size of the hash type |
| StateTables.NotConfused | lib/regex_internal.c:1474-1481 | without wrap-around, a state with the hash and nodes of a plain request has context 0 and has lost no node |
| StateTables.RemoveUnsatisfied | lib/regex_internal.c:1667-1710 | the removal with corrected indices leaves exactly the nodes whose previous-context constraint holds |
| StateTables.PrevExactly | lib/regex_internal.h:500-520 | of all constraints on what comes before, each asks for its own bit of the context, and the other bits ask for nothing |
| StateTables.EnteredExactly | lib/regex_internal.h:225-247 | in the nodes of a state the anchors ^ and \` stay exactly after a newline and at the start of the buffer, a node without constraint always |
| StateTables.CreateCdNewstate | lib/regex_internal.c:1645-1718 | the new state has the request as entrance nodes, the filtered nodes, the flags of the request, and as its non-epsilon nodes those that are not OPEN, CLOSE, an alternative or a star, in order |
| StateTables.StateTable.AcquireState | lib/regex_internal.c:1453-1489 | over any history of both functions: the state has exactly the requested nodes, a repeated request gets the same state and changes nothing, and without wrap-around the state has context 0 and the request as entrance nodes; the flags and the non-epsilon nodes of the answer are those of its nodes |
| StateTables.StateTable.AcquireStateContext | lib/regex_internal.c:1501-1536 | over any history of both functions: a repeated request gets the same state and changes nothing; the nodes are the admissible ones if the entrance nodes were never asked for without context, and without wrap-around exactly if the context is not 0, nothing is excluded, or the first request for them was in context 0; the flags and the non-epsilon nodes of the answer are those of its nodes |
| StateTables.StateTable.Register | lib/regex_internal.c:1542-1576 | the state goes to the end of bucket hash & mask, and nothing else changes |
| StateTables.MadeOk | lib/regex_internal.c:1453-1536 | a state made for a request that was not found keeps every state in its bucket and different from the others, and all earlier requests at their answers |
| StateTables.AnswerExactly | lib/regex_internal.c:1501-1536 | which nodes a request in context gets, from the order of the requests alone |
| StateTables.OnePerContext | lib/regex_internal.c:1501-1576 | with requests in context alone there is one state per entrance set and context, in the bucket of its hash, with exactly the admissible nodes |
| StateTables.FoundAgain | lib/regex_internal.c:1474-1481 | a state once found is found again whatever is added |
| StateTables.PlainThenContext | lib/regex_internal.c:1522-1529 | with both functions on one table, context 0 can get an unfiltered state |
| PthreadOnce.StepInv | lib/pthread-once.c:64-98 | every step of every thread keeps the invariant: the counter is the number of threads between increment and decrement modulo 65536, the lock holder is the thread in the critical section, and after a moment with count 0 and done set nobody comes near the lock |
| PthreadOnce.RunInv | lib/pthread-once.c:99-128 | the invariant holds after every run of at most 65536 threads |
| PthreadOnce.InvSafe | lib/pthread-once.c:103-127 | initfunction runs at most once, is finished before any caller returns, the mutex is destroyed at most once, and from then on not held or about to be locked |
| PthreadOnce.AllReturned | lib/pthread-once.c:99-111 | when all have returned initfunction has run once, the counter is 0 and the mutex has been destroyed |
| PthreadOnce.NotStuck | lib/pthread-once.c:76-98 | as long as some caller has not returned, some thread can make a step |
| Threads.FairRuns | lib/pthread-once.c:64-98 | if every step that changes anything leaves less to do and some thread can always step, everything is done after as many rounds as there is to do |
| PthreadOnce.EveryoneReturns | lib/pthread-once.c:64-98 | from any point of any run, if nobody calls again and every thread gets a turn in each of 12 rounds per thread, all calls return |
| PthreadOnce.TooMany | lib/pthread-once.c:58-71 | with more than 65536 threads there is a run in which the mutex is destroyed while a thread is about to lock it |
| PthreadOnce.SafeExactly | lib/pthread-once.c:64-128 | all runs are safe exactly if there are at most 65536 threads |
| InitGuard.StepInv | lib/setlocale-lock.c:69-91 | every step keeps the counter equal to the number of threads between increment and decrement, offset by whether one was chosen |
| InitGuard.InitializedOnce | lib/setlocale-lock.c:69-91 | started from -1, with at most 2^32 threads, the lock is initialized at most once in every run and before any caller gets it |
| InitGuard.MadeTwice | lib/setlocale-lock.c:74-83 | with more threads there is a run in which the counter wraps around to 0 and a second thread initializes |
| InitGuard.SafeExactly | lib/setlocale-lock.c:69-91 | all runs are safe exactly if there are at most 2^32 threads |
| InitGuard.EveryoneReturns | lib/setlocale-lock.c:69-91 | from any point of any run, if nobody calls again and every thread gets a turn in each of 5 rounds per thread, all callers get the lock |
| InitGuard.StartsFromMinusOne | lib/setlocale-lock.c:65-79 | a single caller can get the lock exactly if the counter starts from -1 |
| ArgvExchange.SwapBlocks | lib/getopt.c:151-156 | the inner loop swaps two blocks and nothing else |
| ArgvExchange.BottomMoved | lib/getopt.c:144-159 | moving the short bottom segment to its place leaves a smaller rotation with the same result |
| ArgvExchange.TopMoved | lib/getopt.c:160-175 | the same for the short top segment |
| ArgvExchange.Exchange | lib/getopt.c:121-176 | exchange is exactly the rotation of two adjacent blocks |
| OptionSpec.StepTaken | lib/getopt.c:569-702 | every option uses up characters or elements, so that less is left to scan, for every option table |
| OptionSpec.ScanMerges | lib/getopt.c:418-434 | the arguments are split in two without changing the order within either part |
| OptionSpec.ScanTold | lib/getopt.c:358-380 | without long_only no scan gets to where the behaviour is undefined; if every option with the value -1 has a flag, none does with long_only either, and -1 is reported for the end only |
| OptionSpec.UndefinedExactly | lib/getopt.c:592-613 | getopt reads outside its arguments at exactly those elements that name, for long_only, an option that returns -1 as its value, with its argument in order, when no element of two characters or more follows |
| OptionSpec.MinusOneTooEarly | lib/getopt.c:374-379 | a concrete input at which -1 is returned although an option is left |
| OptionSpec.MinusOnePastEnd | lib/getopt.c:598-613 | `-foo` alone, with long_only and the value -1, leads past the end of argv |
| OptionSpec.MinusOneTakesNext | lib/getopt.c:598-613 | with an element after it, the option and the second character of that element are reported as one |
| OptionLaws.LookupLaws | lib/getopt.c:204-312 | an exact name is found, an abbreviation of one option only too; two that mean different things are ambiguous; anything else is unknown |
| OptionLaws.LongArguments | lib/getopt.c:339-379 | --name=v gives every option that takes an argument just v, and a required one is else the next element; code, index and flag are the same either way |
| OptionLaws.LongMistakes | lib/getopt.c:316-372 | the codes '?' and ':' and optopt for an argument that is not taken, a missing one, and an unknown or ambiguous name |
| OptionLaws.LongScan | lib/getopt.c:569-588 | so in a scan: --name=v and the two elements --name and v are reported alike, and the scan goes on after them |
| OptionLaws.ShortArguments | lib/getopt.c:660-702 | an option character takes the rest of its element as its argument, or else, if it is required, the next element |
| OptionLaws.ShortAlone | lib/getopt.c:613-633 | a character without argument leaves the rest of the element to the next call; an unknown one is '?' with the character in optopt |
| OptionLaws.ShortScan | lib/getopt.c:613-702 | -cv and the two elements -c and v are reported alike, with the argument v |
| OptionLaws.ShortTogether | lib/getopt.c:613-622 | -ab is reported as -a and -b are |
| OptionLaws.WForm | lib/getopt.c:635-659 | with W; in the option string -Wtext and -W text are reported as --text is |
| OptionLaws.LongOnlyForm | lib/getopt.c:580-606 | with long_only -name is reported as --name is |
| OptionLaws.LongOnlyShort | lib/getopt.c:582-595 | but a single option character stays one |
| OptionLaws.OrderingModes | lib/getopt.c:383-409 | a word in front of the options is reported as code 1 with '-' before the option string, ends the scan with '+' or POSIXLY_CORRECT, and is left for later otherwise |
| Getopt.Scanner.LookUp | lib/getopt.c:204-312 | an exact name wins; otherwise the first abbreviation, unless a later one means something else |
| Getopt.Scanner.ProcessLongOption | lib/getopt.c:192-380 | the value, argument, index, flag and elements used up by a long option, in every error case too; an argument is what follows the first '='; -1 is returned with everything unchanged, or else exactly for an option without a flag whose value is -1 and that has been taken |
| Getopt.Scanner.ShortOption | lib/getopt.c:613-702 | the same for an option character, including W followed by a semicolon |
| Getopt.Scanner.OptionElement | lib/getopt.c:569-613 | which of the two applies to an option element, and both after one another where a long option returns -1 under long_only, for every option table; it asks only that getopt does not read outside its arguments there |
| Getopt.Scanner.ExchangeNonopts | lib/getopt.c:130-182 | argv is rotated and the bounds of the non-options follow them |
| Getopt.Scanner.PassNonoptions | lib/getopt.c:508-525 | what is reported and moved so far stays that of the left-to-right scan |
| Getopt.Scanner.PassDashes | lib/getopt.c:527-544 | "--" goes in front of the non-options and ends the scan |
| Getopt.Scanner.GetNext | lib/getopt.c:474-703 | each call reports the next option of the left-to-right scan and leaves less to scan, or, if there is none, returns -1 with argv split and optind at the first non-option; 0 <= first_nonopt <= last_nonopt <= optind <= argc in between |
| Getopt.Scanner.GetAll | lib/getopt.c:418-434 | a caller that asks until -1 gets there, and the reports and the final argv are those of the left-to-right scan exactly if that reports no option as -1; otherwise the caller stops at the first such report |
| Getopt.FinishedSplits | lib/getopt.c:60-66 | the final argv is a permutation: the program name, the options and the non-options, both in their original order |
| Utf8.DecideAccepts | lib/mbrtowc-impl-utf8.h:22-138 | what the decision tree accepts is a UTF8-char of RFC 3629 with its value, a Unicode scalar value, and 0 is returned exactly for the null character |
| Utf8.DecideFinds | lib/mbrtowc-impl-utf8.h:22-138 | every UTF8-char at the front is accepted, with its length and value |
| Utf8.DecideWaits | lib/mbrtowc-impl-utf8.h:22-138 | more bytes are asked for exactly if some would complete a character |
| Utf8.DecideStays | lib/mbrtowc-impl-utf8.h:22-138 | a verdict other than "incomplete" does not change with more bytes |
| Utf8.DecideGrows | lib/mbrtoc32.c:228-232 | a completed character is longer than the bytes that were pending |
| Utf8.EncodingIsChar | lib/c32rtomb.c:83-122 | the encoding of a scalar value is the UTF8-char that stands for it |
| Utf8.EncodingUnique | lib/c32rtomb.c:83-122 | every UTF8-char is the encoding of its value |
| Utf8.ShiftedMarks | lib/c32rtomb.c:112-120 | the marks or-ed in before the shifts of the fall-through end up in the lead byte |
| Utf8.C32rtomb | lib/c32rtomb.c:83-122 | writes exactly the encoding, or nothing and -1 exactly for values that are not scalar |
| Utf8Restart.WholeSplits | lib/mbrtoc32.c:237-262 | what is decoded from a prefix stays decoded, and the pending bytes go in front of the rest |
| Utf8Restart.FeedIsWhole | lib/mbrtoc32.c:363-412 | a chunk fed call by call is decoded like the pending bytes and the chunk at once |
| Utf8Restart.OutcomeMeans | lib/mbrtoc32.c:327-412 | a call returns a character exactly if the bytes pending and new begin with one, asks for more exactly if they can be continued to one, and leaves the pending bytes there after an ill-formed sequence |
| Utf8Restart.ChunksDoNotMatter | lib/mbrtowc-impl.h:40-263 | for every split into chunks the characters and the final verdict are those of decoding the whole |
| Utf8Restart.DecodeEncoded | lib/c32rtomb.c:83-122 | decoding the encodings of scalar values gives them back |
| Utf8Restart.EncodeDecoded | lib/mbrtowc-impl-utf8.h:22-138 | re-encoding a fully decoded string gives the same bytes |
| Utf8Restart.AcceptsExactly | lib/mbrtowc-impl-utf8.h:22-138 | the fully decoded strings are exactly the UTF8-octets of RFC 3629 |
| Utf8State.NoAbort | lib/mbrtoc32.c:371-373 | the condition of the call of abort is never met |
| Utf8State.ByteState.Mbrtoc32 | lib/mbrtoc32.c:327-412 | with the state kept as bytes every call returns what decoding the pending bytes and the input returns, and keeps exactly the bytes still pending; neither abort nor EINVAL is reached |
| Utf8State.Remember | lib/mbrtowc-impl.h:242-256 | the bytes stored are the pending ones followed by the input, as many as counted |
| Utf8State.UnpackPack | lib/mbrtoc32.c:186-260 | nothing is lost by packing a partial character into __count and __wch |
| Utf8State.PackedState.Mbrtoc32 | lib/mbrtoc32.c:163-268 | with the packed state every call returns the same as with bytes |
| IntOverflow.AddExact | lib/intprops-internal.h:358-378 | for any operand and result types the ADD check has no undefined step, misses no overflow, and reports a false one exactly in the stated case |
| IntOverflow.AddTrustedExactly | lib/intprops-internal.h:358-378 | it is exact for all values exactly for the type combinations outside that case |
| IntOverflow.AddFalseAlarm | lib/intprops-internal.h:371-377 | a concrete false report |
| IntOverflow.SubtractExact | lib/intprops-internal.h:379-390 | the SUBTRACT check is defined and true exactly if the difference does not fit, for any types |
| IntOverflow.MultiplyExact | lib/intprops-internal.h:391-411 | the MULTIPLY check is defined and true exactly if the product does not fit, for any types |
| IntOverflow.NegateOverflows | lib/intprops-internal.h:125-129 | negation overflows exactly for the minimum of a signed and for positive values of an unsigned type |
| IntOverflow.AddRangeExact | lib/intprops.h:154-159 | the same-type ADD check is defined and exact |
| IntOverflow.SubtractRangeExact | lib/intprops.h:161-166 | the same-type SUBTRACT check is defined and exact |
| IntOverflow.MultiplyRangeExact | lib/intprops.h:173-188 | the same-type MULTIPLY check is defined and exact under division that rounds toward zero |
| IntOverflow.ViaUnsignedExact | lib/intprops-internal.h:338-356 | calculating in a wide enough unsigned type keeps the low-order bits of the exact result |
| IntOverflow.OpCalc | lib/intprops-internal.h:313-322 | the stored value has the low-order bits of the exact result; a clear flag means it is exact, a set flag that it is not, but for the false reports of ADD |
| CIntegers.TypeRanges | lib/intprops.h:76-92 | the least and greatest values of the types of 8, 16 and 32 bits |
| DigitBound.BelowBound | lib/intprops.h:94-97 | 2 to the b is below 10 to the bound, because 2^485 < 10^146 |
| DigitBound.DigitsBounded | lib/intprops.h:94-97 | every b-bit number has at most INT_BITS_STRLEN_BOUND (b) digits, for all b >= 1 |
| DigitBound.SignedBounded | lib/intprops.h:99-110 | digits and sign of any value of a signed type are within INT_STRLEN_BOUND |
| DigitBound.BoundTight | lib/intprops.h:94-96 | the bound is attained for all b below 2621 |
| DigitBound.BoundNotTight | lib/intprops.h:95-96 | at 2621 it is 790 where 789 digits suffice |

## Left out

- TreeStore.Dfa.DuplicateTree: the `duplicated` flag of the copies and the climb above a root whose ancestors have a right child still to come; the parser never calls it there.
- DupOps.ExpandDup: the walk of mark_opt_subexp and the opt_subexp flags, which affect captures only.
- PatternParser.Parser.Parse: a bracket expression is one token, and anchors, word and space classes, a trailing backslash and the multibyte character loop are not among the tokens; the texts are those that peek_token reads without any of these.
- PatternParser.Parser.ScanInterval: a bracket expression is one token; inside an interval, as in `a{[}]`, fetch_number meets `[` and then `}` as tokens of their own, so that the error code is BADBR where the model, whose pattern ends within the interval, says EBRACE.
- GroupPasses.OptimizePreserves: holds for matchers that give the same text to groups that are each other's whole body; what a group captures is decided in the matcher, which is not part of this model.
- Analyze.Analyze: duplicate_node_closure, constraints and anchors, fastmaps and optimize_utf8.
- StateTables.NotConfused: assumes that the sum of all node numbers and one for each fits the hash type.
- StateTables.StateTable.AcquireState: accept_mb and has_constraint, the transition tables, and the growth of bucket arrays; the node sets of a finished state are kept as values.
- PthreadOnce.SafeExactly: each atomic access is one sequentially consistent step; weak memory models are not modelled.
- InitGuard.InitializedOnce: the initial value of the counter comes from a header that is not part of this model.
- Getopt.Scanner.GetNext: callers that set optind back between calls, and messages on stderr.
- Getopt.Scanner.OptionElement: what happens where getopt reads outside its arguments (`OptionSpec.Undefined`).
- Getopt.Scanner.ShortOption: the character code returned is never negative here; where char is signed, the option character 0xFF comes back as -1, and others above 0x7F as other negative numbers.
- Utf8Restart.FeedAll: a null character counts as one byte, as callers treat the return value 0.
- Utf8State.ByteState.Mbrtoc32: pwc == NULL and s == NULL, other encodings, and errno.
- IntOverflow.OpCalc: the choice of types by _Generic, and the variants for compilers with overflow builtins.
- The functions that the tree walks call (optimize_subexps, lower_subexps, calc_first, calc_next, link_nfa_nodes) are functions from arena to arena; the walks apply them to the arena in place.
- create_initial_state, re_node_set_init_union, the regex string buffers with case folding, and collation and locale dependent brackets: they depend on the matcher or on the locale of the C library.
- regexec.c is not part of this model; the automaton has run semantics of its own over nexts and edests.
- Memory exhaustion, freeing, the lock around the automaton and gettext messages.
- mbtowc-lock.c and nl_langinfo-lock.c repeat setlocale-lock.c, and mbrtowc.c repeats the packed decoder.
- The editor commands in the repository's README: their code is not there.
