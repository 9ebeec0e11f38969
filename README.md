# composable-ast-walker in Dafny

This project models the composable AST walker and its constant-folding example:

- `NodePath`: a node together with the chain of parents and keys that reaches it.
- `WalkCombinator`: walkers built by `pipe` from combinators, each with an `inputs` and an `outputs` generator. `DEPTH_FIRST` is the default walker. It hands every object and array of a tree to the later stages, children first, and walks a slot again while the reply to it is not `undefined`.
- `example/constant_fold.js`: the folder, which runs three walks over a parsed program.
  - The expression folds: FOLD_UNREACHABLE, FOLD_EXPR_STMT, FOLD_CONDITIONAL, FOLD_LOGICAL, FOLD_BINARY, FOLD_UNARY, FOLD_SEQUENCE and FOLD_MEMBER.
  - The statement folds: FOLD_EMPTY, FOLD_IF and FOLD_WHILE.
  - The minifier: MIN_VALUES.

  These share:
  - the path predicates IS_EMPTY, IN_PRAGMA_POS, IS_PRAGMA and IS_NOT_COMPLETION;
  - the edits REMOVE, REPLACE and their `_IF_EMPTY` forms;
  - the sentinel nodes;
  - the constant model IS_CONSTEXPR, CONSTVALUE and TO_CONSTEXPR, with its interning map.

How the model is built:
- **Tree.** The tree is a value (`Tree.Node`): primitives, arrays and records. A record carries the folder's symbol-keyed markers (constant, minimal, cached value), which `Object.keys` never lists.
- **Live tree.** The walks share one live tree, held by the class `Edits.Folder` with its interning map.
- **Paths.** A path is an immutable `NodePaths.NodePath`.
  - A JavaScript path reads nodes through live objects. After an edit, it sees the new content of every object it still reaches.
  - The model captures this by re-deriving the path a stage is handed from the live root at the path's address (`PathTo(root, a)`).
  - Every edit is a write at an address.
- **Stages.** Each folding stage is modelled twice:
  - as a function `XStep(root, p)` giving the stage's decision and the tree afterwards;
  - as a method `FoldX(f, p)` on the folder that performs the same edits one after the other and is proved to agree with the function.
- **Properties.** The lemmas state what each fold promises:
  - the value of the expression is kept, against a reference evaluator `Semantics.Eval`;
  - a statement stays a statement;
  - nothing outside the rewritten node changes;
  - a second visit changes nothing;
  - the error cases: where the JavaScript code throws, with the exception of the writes into frozen nodes, which are a finding (see "## Findings").
- **Walk engine.** The engine (`Engine.Feed` and `DefaultWalker`) is a function over the chain of generator stages built by `pipe`. It carries a fuel bound. The methods of `Runner` run the same walk on the folder's live tree.

`"_"[0]` is not folded, although the usage comment at example/constant_fold.js:2 feeds it to the folder. IN_PRAGMA_POS (example/constant_fold.js:13-28) is true off an array parent and at index 0 of any array, where its sibling loop looks at no sibling; at a later index of an array it is false as soon as an earlier sibling is not a directive statement. In `"_"[0],1+2` the member expression is the first of the `expressions` of a SequenceExpression, so it is taken as being in directive position, and FOLD_MEMBER there only slices a one-character string, which leaves it as it was. See `Shapes.PragmaAtFirst` and `Shapes.PragmaOffArray`.

## Model

| member | source | states |
|---|---|---|
| NodePaths.New | NodePath.js:6-11 | a new path holds the node it is given; an omitted parent or key is null, a given one is kept |
| NodePaths.From | NodePath.js:19-21 | `from(node)` is the parentless, keyless path of the node, the same as the constructor with both omitted |
| NodePaths.Get | NodePath.js:12-18 | the loop builds `Descend(p, keys)`: one fresh path per key; no keys gives the receiver back; otherwise the last key is the result's key and it has a parent |
| NodePaths.DescendAncestors | NodePath.js:12-18 | walking up `|keys| - j` parents from `get(keys)` reaches step `j`, and the last step up reaches the receiver |
| NodePaths.DescendNode | NodePath.js:12-18 | the node of `get(keys)` is the receiver's node read along `keys` |
| NodePaths.DescendAppend | NodePath.js:12-18 | `get(a ++ b)` is `get(a).get(b)` |
| NodePaths.DescendAddress | NodePath.js:12-18 | the address of `get(keys)` is the receiver's address extended by `keys` |
| NodePaths.PathToAt | NodePath.js:12-21 | the path `from(root).get(a)` has address `a`, holds the node at `a`, and has as parent the path to `a` without its last key |
| Walk.ToIter | WalkCombinator.js:93-98 | a function member is used as it is; anything else becomes PASSTHROUGH |
| Walk.Construct | WalkCombinator.js:18-38 | without the guard the constructor throws; with it, a nullish visitor is pass-through both ways, a function is its own outputs, an object's `inputs` and `outputs` go through `toIter` |
| Walk.Pipe | WalkCombinator.js:44-73 | `pipe` throws exactly when a combinator is null or undefined; otherwise its walker has the empty walker's pass-through and the inputs in order, then the outputs in reverse order and the empty walker's pass-through |
| Walk.PipeOrder | WalkCombinator.js:40-73 | combinator `i`'s input stage comes at position `i + 1` of the inputs and its output stage at position `|cs| - 1 - i` of the outputs: input goes through the combinators in order, output in reverse order |
| Walk.SortedKeysMeaning | WalkCombinator.js:124 | `Object.keys(node).sort()` is strictly increasing in the order of `sort()` and lists each key of the record exactly once |
| Walk.SortedUnique | WalkCombinator.js:124 | two strictly sorted lists with the same keys are equal, so the snapshot does not depend on the enumeration order |
| Runner.FeedAt | WalkCombinator.js:74-91 | handing the path at address `a` to stage `i` of the chain on the live tree gives the reply and the tree `Engine.Feed` gives, or the same exception, or runs out of fuel alike |
| Runner.WalkAt | WalkCombinator.js:108-133 | `DEFAULT_WALKER` on the live tree agrees with `Engine.DefaultWalker`: a primitive returns at once; an object or array walks its children, then is handed on |
| Runner.ElementsAt | WalkCombinator.js:115-122 | the loop over the indices of an array, with `length` read afresh on every turn, agrees with `Engine.Elements` |
| Runner.FieldsAt | WalkCombinator.js:123-130 | the loop over the sorted keys of a record agrees with `Engine.Fields` |
| Traversal.FeedFuel | WalkCombinator.js:74-82 | a run that did not run out of fuel has the same outcome with more fuel |
| Traversal.WalkerFuel | WalkCombinator.js:108-133 | the same for DEPTH_FIRST on one path |
| Traversal.ElementsFuel | WalkCombinator.js:116-121 | the same for the loop over array indices |
| Traversal.ElementRetryFuel | WalkCombinator.js:118-120 | the same for the retry loop on one index |
| Traversal.FieldsFuel | WalkCombinator.js:124-129 | the same for the loop over record fields |
| Traversal.FieldRetryFuel | WalkCombinator.js:126-128 | the same for the retry loop on one field |
| Traversal.HandAppend | WalkCombinator.js:131 | handing on two lists of addresses in turn is handing on their concatenation |
| Traversal.FeedQuiet | WalkCombinator.js:74-91 | when no later stage changes anything, an item passes through every remaining stage in order, the consumer replies `undefined`, and the tree is unchanged |
| Traversal.WalkerQuiet | WalkCombinator.js:108-133 | a walk with no folding leaves the tree as it is, replies `undefined`, and hands every object and array below `a` to the later stages once, in post-order; enough fuel guarantees it finishes |
| Traversal.ArrayQuiet | WalkCombinator.js:115-122 | the array case of WalkerQuiet |
| Traversal.RecordQuiet | WalkCombinator.js:123-130 | the record case of WalkerQuiet |
| Traversal.ElementsQuiet | WalkCombinator.js:116-121 | the element loop with no folding visits the elements from `j` on, each once, in post-order |
| Traversal.ElementRetryQuiet | WalkCombinator.js:118-120 | the retry loop with no folding walks its index exactly once |
| Traversal.FieldsQuiet | WalkCombinator.js:124-129 | the field loop with no folding visits the fields from `j` on, each once, in post-order |
| Traversal.FieldRetryQuiet | WalkCombinator.js:126-128 | the retry loop with no folding walks its field exactly once |
| Traversal.ElementRetrySettles | WalkCombinator.js:116-121 | the `do … while` on index `j` that finishes has walked the slot on a list of trees: the first is the tree it started on; each walk answered with a value is followed by a walk of the same slot on the tree that walk left; the last walk is answered `undefined`, and the loop goes on from index `j + 1` on the tree it left |
| Traversal.ElementRetryFromRetries | WalkCombinator.js:116-121 | conversely, such a list of walks ending with one answered `undefined` makes the loop on index `j` finish with the tree the loop from `j + 1` leaves, given fuel for each turn |
| Traversal.FieldRetrySettles | WalkCombinator.js:124-129 | the same for the `do … while` on key `ks[j]`, going on from key `j + 1` |
| Traversal.FieldRetryFromRetries | WalkCombinator.js:124-129 | conversely for the loop on key `ks[j]` |
| Traversal.QuietWalk | WalkCombinator.js:74-133 | `walk(ROOT)` of a chain that begins with the empty walker's pass-through and DEPTH_FIRST, with no later stage changing anything: the root goes to both, then every object and array in post-order goes through all later stages |
| PostOrders.OrderMembers | WalkCombinator.js:108-132 | the addresses the walk visits are exactly those where the tree holds an object or an array |
| PostOrders.ElementsMembers | WalkCombinator.js:116-121 | the element loop visits exactly the objects and arrays below elements `j` and later |
| PostOrders.FieldsMembers | WalkCombinator.js:124-129 | the field loop visits exactly the objects and arrays below the remaining keys |
| PostOrders.OrderPost | WalkCombinator.js:108-132 | no address is visited twice, and every address is visited after all the addresses below it |
| PostOrders.ElementsPost | WalkCombinator.js:116-121 | the element loop's order is a post-order |
| PostOrders.FieldsPost | WalkCombinator.js:124-129 | the field loop's order, over sorted keys, is a post-order |
| Shapes.ScanSiblings | example/constant_fold.js:13-44 | the sibling loop shared by IN_PRAGMA_POS and IS_PRAGMA computes `Scan`: each sibling in turn must be a directive, and the loop stops at the first that is not or throws |
| Shapes.InPragmaPos | example/constant_fold.js:13-28 | IN_PRAGMA_POS: true off an array parent; otherwise whether every sibling before the key is a directive, with the exceptions of reading missing siblings |
| Shapes.IsPragma | example/constant_fold.js:29-44 | IS_PRAGMA: the same loop including the path's own position |
| Shapes.ScanStops | example/constant_fold.js:17-26 | once a sibling is not a directive, the loop's result is that sibling's outcome, however far it was meant to go |
| Shapes.ScanMeaning | example/constant_fold.js:13-44 | the loop succeeds exactly when all the siblings it looks at are directives; otherwise it reports the first sibling that is not |
| Shapes.PragmaIsPosAndDirective | example/constant_fold.js:13-44 | in a statement list, IS_PRAGMA holds exactly when IN_PRAGMA_POS holds and the statement itself is a directive |
| Shapes.PragmaOffArray | example/constant_fold.js:14-16 | off an array parent, every position is a directive position |
| Shapes.PragmaAtFirst | example/constant_fold.js:13-28 | at index 0 of an array the sibling loop of IN_PRAGMA_POS runs zero times, so the position counts as a directive position |
| Shapes.IsNotCompletion | example/constant_fold.js:45-67 | the two nested loops of IS_NOT_COMPLETION compute `NotCompletion`, which answers false exactly in completion position (Shapes.CompletionExactly) |
| Shapes.NotLastIsNotCompletion | example/constant_fold.js:47-52 | a statement followed by another in its list is never in completion position |
| Shapes.CompletionExactly | example/constant_fold.js:45-67 | IS_NOT_COMPLETION answers false exactly when some ancestor is a Program, the climb up to it passes no null or undefined node and no node whose type contains "Function", and every path whose key the climb tests (the path itself and each ancestor that is not an array) is the last element of an array parent |
| Shapes.CompletionReachesProgram | example/constant_fold.js:45-67 | when IS_NOT_COMPLETION answers false, the path is in completion position in the sense of CompletionExactly |
| Shapes.ProgramIsCompletion | example/constant_fold.js:45-67 | in completion position IS_NOT_COMPLETION answers false |
| Shapes.ClimbReachesProgram | example/constant_fold.js:53-64 | the inner climb answers false only on reaching a Program in the same way, without testing the key of an array it starts from |
| Shapes.ClimbIsCompletion | example/constant_fold.js:53-64 | conversely, the inner climb answers false when it reaches a Program in that way |
| Shapes.LastOfProgramIsCompletion | example/constant_fold.js:45-67 | the last statement of a program body is in completion position |
| Edits.Folder.constructor | example/constant_fold.js:203-206 | the folder starts with the tree and the interning map holding the three preset sentinels (undefined, NaN, null) |
| Edits.Folder.ToConstExpr | example/constant_fold.js:203-250 | TO_CONSTEXPR on the folder returns the node of the corrected `ConstModel.ToConstExpr`; it interns every primitive but -0, and the map only grows |
| Edits.Folder.Remove | example/constant_fold.js:76-83 | REMOVE cuts the element out of an array parent or sets the parent's slot to null; without a parent it throws and changes nothing |
| Edits.Folder.Replace | example/constant_fold.js:84-88 | REPLACE writes the folded node into the parent's slot and returns a path to it; without a parent it throws and changes nothing; a frozen parent is written like any other (see "## Left out") |
| Edits.Folder.RemoveIfEmpty | example/constant_fold.js:68-71 | REMOVE_IF_EMPTY removes the node when IS_EMPTY holds, and throws where IS_EMPTY or REMOVE does |
| Edits.Folder.ReplaceIfEmpty | example/constant_fold.js:72-75 | REPLACE_IF_EMPTY returns the replacement path when IS_EMPTY holds and the path itself otherwise |
| Edits.SubIsGet | NodePath.js:12-18 | `path.get([name])` is the one-step descent into field `name` |
| Edits.LiveParent | example/constant_fold.js:76-88 | a live path below the root has its parent's address plus its key as its address, so REPLACE writes exactly there, and its parent is a live path that holds it |
| Edits.ReplaceLands | example/constant_fold.js:84-88 | REPLACE on a live path, frozen parents aside, fails only at the root; otherwise the path's address holds the folded node and every address that parts ways with it is unchanged |
| Edits.WriteField | example/constant_fold.js:84-88 | REPLACE of field `name` of a live record changes that field and nothing else of the record |
| Edits.RemoveFromArray | example/constant_fold.js:76-80 | REMOVE of a live path inside an array cuts out exactly that element |
| Edits.ReplaceAfterWrite | example/constant_fold.js:84-88 | REPLACE after an in-place change of the node at a live path writes over the same slot |
| Edits.WriteTwoFields | example/constant_fold.js:84-88 | two field writes into a live record amount to writing the twice-updated record at the path |
| Edits.WriteThrough | example/constant_fold.js:84-88 | a field write through `path.get([name])` onto a record already rewritten at the path's address updates that record |
| Edits.RemoveThrough | example/constant_fold.js:80-82 | REMOVE through `path.get([name])` of a record field sets that field to null |
| ConstModel.ToConstExpr | example/constant_fold.js:207-250 | the corrected TO_CONSTEXPR builds a constant-marked node, and its only exception is the one for a value that is not a constant value |
| ConstModel.ConstValues | example/constant_fold.js:190-198 | CONSTVALUE's element loop gives one value per element, a null element becoming a hole |
| ConstModel.ToConstExprs | example/constant_fold.js:244-248 | converting the elements gives one node per element, or the first exception |
| ConstLemmas.RoundTrip | example/constant_fold.js:178-250 | CONSTVALUE undoes the corrected TO_CONSTEXPR: the node built for a value stands for that value |
| ConstLemmas.RoundTrips | example/constant_fold.js:190-198 | CONSTVALUE's element loop undoes the conversion of the elements of an array value, holes included |
| ConstLemmas.InternedValue | example/constant_fold.js:203-237 | the interned node of a primitive is constant and stands for that primitive |
| ConstLemmas.UndefinedValue | example/constant_fold.js:124-133 | the UNDEFINED sentinel is constant and stands for undefined |
| ConstLemmas.NaNValue | example/constant_fold.js:99-113 | the NAN sentinel is constant and stands for NaN |
| ConstLemmas.NullValue | example/constant_fold.js:94-98 | the NULL sentinel is constant and stands for null |
| ConstLemmas.NegZeroValue | example/constant_fold.js:114-123 | the NEG_ZERO sentinel is constant and stands for -0 |
| ConstLemmas.NegativeValue | example/constant_fold.js:214-225 | a negative number is interned as a marked unary minus over its magnitude |
| ConstLemmas.LiteralInterned | example/constant_fold.js:226-237 | every other primitive is interned as a marked literal |
| ConstLemmas.InternedInjective | example/constant_fold.js:203-237 | distinct primitives are interned as distinct nodes |
| ConstLemmas.ToConstExprFails | example/constant_fold.js:249 | TO_CONSTEXPR throws exactly on values that contain a RegExp |
| ConstLemmas.ToConstExprsFail | example/constant_fold.js:244-249 | converting the elements fails exactly when some element contains a RegExp |
| ConstLemmas.ToConstExprsSnoc | example/constant_fold.js:244-248 | converting one more element extends the converted prefix by that element's node |
| ConstLemmas.ToConstExprsStopsAt | example/constant_fold.js:244-249 | the first element that fails decides the failure, whatever follows it |
| ConstLemmas.NonConstantThrows | example/constant_fold.js:178-181 | CONSTVALUE throws on every node that IS_CONSTEXPR rejects |
| ConstLemmas.ConstantHasValue | example/constant_fold.js:148-202 | CONSTVALUE succeeds on every constant node whose markers are consistent |
| ConstLemmas.ElementsHaveValues | example/constant_fold.js:160-166 | every element of a consistent constant array expression is a hole or has a value |
| ConstLemmas.PlainConstExpr | example/constant_fold.js:148-171 | a node of a type IS_CONSTEXPR does not recognise by shape is constant only when marked so |
| ConstLemmas.LiteralValue | example/constant_fold.js:178-202 | a parsed literal with no `regex` stands for its `value` |
| ConstLemmas.SentinelValues | example/constant_fold.js:90-133 | each sentinel, EMPTY included, is marked constant and stands for the value it is built for: undefined, NaN, null, -0, and undefined for EMPTY |
| ConstLemmas.EmptyValue | example/constant_fold.js:90-93 | EMPTY is marked constant and stands for undefined |
| ConstLemmas.NegZeroStringAsWritten | example/constant_fold.js:207-209 | as written, TO_CONSTEXPR of the string "-0" is the NEG_ZERO sentinel, which stands for the number -0 |
| ConstLemmas.HoleAsWritten | example/constant_fold.js:240-248 | as written, an array value with a hole becomes a constant-marked array expression with an undefined element, and CONSTVALUE then throws on it |
| Semantics.DecimalParse | example/constant_fold.js:615-617 | a property name that parses as an index is that index's canonical decimal form |
| Semantics.DigitsCanonical | example/constant_fold.js:615-617 | a non-empty digit string without a leading zero is the canonical decimal form of the number it denotes |
| Semantics.EvalConstant | example/constant_fold.js:178-202 | the reference value of a constant node is the value CONSTVALUE gives it |
| Semantics.EvalToConstExpr | example/constant_fold.js:207-250 | the node TO_CONSTEXPR builds for a value has that value |
| Semantics.EvalUnaryNode | example/constant_fold.js:564-593 | the value of a non-constant unary node is the operator applied to the argument's value |
| Semantics.EvalSequenceNode | example/constant_fold.js:428-443 | the value of a non-constant comma expression is that of its last operand, when every operand has one |
| Values.NegateTwice | example/constant_fold.js:576-577 | negating twice gives back every number but NaN |
| Values.LexLessIrreflexive | WalkCombinator.js:124 | the order of `sort()` is irreflexive |
| Values.LexLessTransitive | WalkCombinator.js:124 | the order of `sort()` is transitive |
| Values.LexLessTotal | WalkCombinator.js:124 | the order of `sort()` is total on distinct strings |
| FoldStatements.FoldEmpty | example/constant_fold.js:253-266 | FOLD_EMPTY on the folder agrees with `EmptyStep` |
| FoldStatements.EmptyRemoved | example/constant_fold.js:253-266 | in a statement list, FOLD_EMPTY throws only where IS_EMPTY does; it fires on an empty statement, cuts exactly it out of the list and hands the list back; otherwise the tree is unchanged |
| FoldStatements.FoldExprStmt | example/constant_fold.js:267-311 | FOLD_EXPR_STMT on the folder agrees with the corrected `ExprStmtStep` |
| FoldStatements.MergeStatements | example/constant_fold.js:276-302 | the merging code splices the collected statements' merge into the list, as `Merge` says |
| FoldStatements.CollectRun | example/constant_fold.js:277-283 | the collecting loop gathers `first` and the expression statements that follow, stopping at the first other statement or throwing on a missing one |
| FoldStatements.CollectedAt | example/constant_fold.js:277-283 | where the loop stops, what it has collected is `first` followed by the run of expression statements |
| FoldStatements.RunSpan | example/constant_fold.js:278-282 | over a stretch of expression statements, the run's count goes up by the stretch's length |
| FoldStatements.RunMeaning | example/constant_fold.js:278-282 | the run counted from `j` covers exactly the expression statements from `j` on, and is followed by a statement of another kind or the list's end |
| FoldStatements.MergeParts | example/constant_fold.js:276-302 | a merge that happens replaces `first` and at least one following expression statement by the merge of their operands |
| FoldStatements.MergeShape | example/constant_fold.js:284-301 | the merge puts one expression statement in place of the run and keeps the statements before and after it |
| FoldStatements.MergedStatementValue | example/constant_fold.js:284-300 | the merged statement's comma expression has the value of the last collected expression |
| FoldStatements.MergedValue | example/constant_fold.js:284-300 | the merged comma expression has the value of its last operand |
| FoldStatements.MergeMaximal | example/constant_fold.js:276-302 | after a merge, no expression statement follows the merged one, so a second visit merges nothing |
| FoldStatements.DirectiveKept | example/constant_fold.js:273-308 | on a directive both versions of the rule merge nothing and throw alike; where a directive is not the completion value, the rule as written drops it and the corrected rule keeps it |
| FoldStatements.DirectiveIsConstant | example/constant_fold.js:29-44 | a statement IS_PRAGMA accepts has a constant expression |
| FoldStatements.DirectiveDroppedAsWritten | example/constant_fold.js:306-308 | in `"use strict"; f();` the rule as written puts an empty statement in place of the directive; the corrected rule leaves the program as it is |
| FoldStatements.DirectiveDropped | example/constant_fold.js:306-308 | a directive followed by another statement is not the completion value: the rule as written replaces it by EMPTY, the corrected rule keeps it |
| FoldIf.FoldIf | example/constant_fold.js:361-427 | FOLD_IF on the folder agrees with the corrected `IfStep` |
| FoldIf.FoldShortcut | example/constant_fold.js:373-398 | the rewrites of an `if` with expression-statement branches agree with `ShortcutStep` |
| FoldIf.FoldBranches | example/constant_fold.js:409-424 | the branch clean-up on the folder agrees with `BranchesStep` |
| FoldIf.BranchesTree | example/constant_fold.js:409-424 | on a live `if`, the clean-up throws only where IS_EMPTY does, otherwise writes the cleaned-up `if` at its address, and hands the path back exactly when a branch went |
| FoldIf.BranchesResult | example/constant_fold.js:409-424 | after the clean-up an empty consequent is EMPTY and an empty alternate null, every other field is kept, nothing outside the `if` changes, and the path comes back exactly when a branch went |
| FoldIf.BranchFields | example/constant_fold.js:409-424 | the cleaned-up `if` has the fields and markers of the `if`, with only its two branches changed |
| FoldIf.BranchFixed | example/constant_fold.js:409-424 | a cleaned-up `if` needs no further clean-up |
| FoldIf.BranchesIdempotent | example/constant_fold.js:409-424 | a second clean-up of the `if` the clean-up left lets the path through and changes nothing |
| FoldIf.ConstantTestPicks | example/constant_fold.js:399-408 | with a constant test, the `if` is replaced by the branch the test's value selects (EMPTY for a missing alternate) and nothing outside it changes |
| FoldIf.IfKeepsStatement | example/constant_fold.js:361-427 | the corrected FOLD_IF leaves a statement where the `if` was, provided the `if`'s branches are statements |
| FoldIf.IfPassesChecks | example/constant_fold.js:365-372 | FOLD_IF does not throw only if IS_NOT_COMPLETION, and IS_EMPTY where it is asked, do not |
| FoldIf.EmptyIf | example/constant_fold.js:366-372 | an `if` with no alternate and an empty consequent, not in completion position, becomes its test as an expression statement |
| FoldIf.JoinedAsWritten | example/constant_fold.js:375-382 | with two expression-statement branches, the rule as written leaves a bare conditional expression, which is not a statement, where the `if` was; the corrected rule leaves an expression statement |
| FoldIf.BareConditional | example/constant_fold.js:375-382 | in `if (a) b(); else c(); d();` the rule as written puts the expression `a ? b() : c()` into the program's statement list; the corrected rule puts the statement `a ? b() : c();` there |
| FoldLoops.FoldWhile | example/constant_fold.js:312-360 | FOLD_WHILE on the folder agrees with `WhileStep` |
| FoldLoops.FoldFor | example/constant_fold.js:329-357 | the four rewrites of a `for` loop on the folder agree with `ForStep` |
| FoldLoops.FoldForTest | example/constant_fold.js:338-349 | the rewrite of a `for` test on the folder agrees with `ForTest`, and reports whether it rewrote |
| FoldLoops.NeverTrueMeaning | example/constant_fold.js:318-326 | a `while` is dropped exactly when its test is known to be false, and the check throws exactly when the test is constant but has no value |
| FoldLoops.ForTestMeaning | example/constant_fold.js:338-349 | the new `for` test means what the old one meant, is no test or the constant `false`, and needs no second rewrite; a constant test left alone is `false` itself; the rewrite throws exactly when a constant test has no value |
| FoldLoops.ForTree | example/constant_fold.js:329-357 | the four rewrites on a live `for` amount to one write of the rewritten loop at its address; they throw only where IS_EMPTY of the body or CONSTVALUE of the test does |
| FoldLoops.ForFields | example/constant_fold.js:329-357 | the rewritten loop has the loop's fields and markers; only body, init, test and update change, each as its rule says |
| FoldLoops.ForResult | example/constant_fold.js:329-357 | FOLD_WHILE on a live `for` leaves the loop with its empty body replaced by EMPTY, constant init and update cleared, and its test rewritten; every other field is kept, nothing outside changes, and the path comes back exactly when init, test or update was rewritten |
| FoldLoops.RewrittenParts | example/constant_fold.js:329-357 | no part of the rewritten loop needs a further rewrite |
| FoldLoops.ForRewriteFixed | example/constant_fold.js:329-357 | the rewritten `for` loop is a fixed point of the rewrites |
| FoldLoops.ForIdempotent | example/constant_fold.js:329-357 | a second visit of FOLD_WHILE to the `for` it left lets the path through and changes nothing |
| FoldLoops.BodyTree | example/constant_fold.js:314-328 | REPLACE_IF_EMPTY of a live loop's body throws only where IS_EMPTY does, and otherwise writes the loop with its empty body replaced at the loop's address |
| FoldLoops.WhileResult | example/constant_fold.js:313-328 | a `while` whose test is known to be false is replaced by EMPTY; any other `while` or `do`-`while` has its empty body replaced by EMPTY, keeps everything else, and lets the path through; nothing outside changes |
| FoldLoops.WhileIdempotent | example/constant_fold.js:313-328 | a second visit of FOLD_WHILE to what it left of a `while` or `do`-`while` lets the path through and changes nothing |
| FoldLists.FoldSequence | example/constant_fold.js:428-443 | FOLD_SEQUENCE on the folder agrees with `SequenceStep` |
| FoldLists.StripOperands | example/constant_fold.js:432-437 | the splicing loop leaves exactly the non-constant operands before the last one, in order, followed by the last one |
| FoldLists.StripTurn | example/constant_fold.js:433-436 | one turn of the loop on an operand: a constant is spliced out and the index stays; any other operand is stepped over |
| FoldLists.NonConstantMeaning | example/constant_fold.js:432-437 | the operands kept are operands of the sequence, none of them constant |
| FoldLists.StrippedIdempotent | example/constant_fold.js:431-437 | stripping again changes nothing, because only the last operand can still be constant |
| FoldLists.StrippedValue | example/constant_fold.js:431-437 | stripping keeps the value of a sequence: every kept operand has a value and the last operand is kept |
| FoldLists.SequenceKeepsValue | example/constant_fold.js:428-443 | FOLD_SEQUENCE keeps the value of a sequence that has one, in place or by the single operand left, and writes nowhere outside the sequence |
| FoldLists.SequenceTree | example/constant_fold.js:428-443 | where FOLD_SEQUENCE proceeds on a live path, the tree afterwards holds the result at the path |
| FoldLists.SingleTree | example/constant_fold.js:438-440 | a comma expression left with one operand is replaced by it, and the earlier in-place splice is overwritten |
| FoldLists.SequenceValue | example/constant_fold.js:428-443 | the result has the value the comma expression had |
| FoldLists.FoldUnreachable | example/constant_fold.js:465-476 | FOLD_UNREACHABLE on the folder agrees with `UnreachableStep` |
| FoldLists.UnreachableCuts | example/constant_fold.js:465-476 | FOLD_UNREACHABLE always passes the path on; in a statement list, a statement that is not a jump leaves the tree alone; a jump (`return`, `continue`, `break`, `throw`) ends up last: the statements before it and the jump stay, the ones after it are gone, and every address that parts ways with the list is unchanged |
| FoldLists.UnreachableIdempotent | example/constant_fold.js:465-476 | after the cut the jump is the last statement, so a second visit cuts nothing |
| FoldExpressions.FoldConditional | example/constant_fold.js:477-490 | FOLD_CONDITIONAL on the folder agrees with `ConditionalStep` |
| FoldExpressions.ConditionalKeepsValue | example/constant_fold.js:477-490 | FOLD_CONDITIONAL keeps the value of the expression at the path and writes nowhere else |
| FoldExpressions.FoldLogical | example/constant_fold.js:444-464 | FOLD_LOGICAL on the folder agrees with `LogicalStep` |
| FoldExpressions.LogicalKeepsValue | example/constant_fold.js:444-464 | FOLD_LOGICAL keeps the value of the expression at the path and writes nowhere else |
| FoldExpressions.FoldBinary | example/constant_fold.js:491-563 | FOLD_BINARY on the folder agrees with `BinaryStep` |
| FoldExpressions.BinaryKeepsValue | example/constant_fold.js:491-563 | FOLD_BINARY keeps the value of the expression at the path, for an engine whose loose equality treats undefined as null, and writes nowhere outside it |
| FoldExpressions.BinaryConstKeeps | example/constant_fold.js:514-559 | folding two constant operands keeps the value and writes nowhere else |
| FoldExpressions.BinaryNullish | example/constant_fold.js:500-513 | the `==`/`!=` rewrite of UNDEFINED operands into NULL keeps the value and writes nowhere else |
| FoldExpressions.BinaryNullishTree | example/constant_fold.js:500-513 | that rewrite amounts to writing the rewritten operator node at the path |
| FoldExpressions.NullishKeepsValue | example/constant_fold.js:500-513 | under loose equality the NULL sentinel stands for the UNDEFINED it replaces |
| FoldExpressions.NullishShape | example/constant_fold.js:500-513 | the rewritten node has NULL in place of each UNDEFINED operand and keeps everything else |
| FoldExpressions.FoldUnary | example/constant_fold.js:564-593 | FOLD_UNARY on the folder agrees with `UnaryStep` |
| FoldExpressions.FoldUnaryValue | example/constant_fold.js:575-589 | the operator chain on a constant argument agrees with `UnaryFold` |
| FoldExpressions.UnaryKeepsValue | example/constant_fold.js:564-593 | FOLD_UNARY keeps the value of the expression at the path and writes nowhere else |
| FoldExpressions.UnaryFoldKeeps | example/constant_fold.js:575-589 | folding a constant argument keeps the value and writes nowhere else |
| FoldMembers.FoldMember | example/constant_fold.js:594-641 | FOLD_MEMBER on the folder agrees with the corrected `MemberStep`, with string lengths and indices counted in Unicode scalar values (see "## Left out") |
| FoldMembers.FoldObject | example/constant_fold.js:607-638 | the fold on the value of a constant object agrees with its specification; a string's `length` is its number of Unicode scalar values (see "## Left out") |
| FoldMembers.FoldIndex | example/constant_fold.js:614-636 | the fold of a computed key on a list-like constant agrees with its specification; a string's elements are its Unicode scalar values (see "## Left out") |
| FoldMembers.RenameKeepsValue | example/constant_fold.js:597-606 | `o[literal]` reads what `o.name` reads when the literal's string is `name` |
| FoldMembers.LengthValue | example/constant_fold.js:610-613 | a constant string or array with `length` read off it has its length as value |
| FoldMembers.IndexValue | example/constant_fold.js:614-635 | a constant string or array indexed by the canonical decimal form of an element's index reads that element |
| FoldMembers.SliceValue | example/constant_fold.js:621-628 | in a directive position the member becomes index 0 of the one element sliced out, which reads the same element |
| FoldMembers.MemberKeepsValue | example/constant_fold.js:594-641 | the corrected FOLD_MEMBER keeps the value of a member expression that has one and writes nowhere outside it |
| FoldMembers.NotMember | example/constant_fold.js:595 | FOLD_MEMBER lets through anything that is not a member expression |
| FoldMembers.SliceTree | example/constant_fold.js:621-629 | where the slice is taken, the member at the path is rewritten to the sliced member |
| FoldMembers.NonIndexKeyAsWritten | example/constant_fold.js:615-636 | in `x, "ab"["1.0"]` the key names no element, yet FOLD_MEMBER as written folds the member to "b"; the corrected fold leaves it alone |
| Minify.MinReplacement | example/constant_fold.js:664-666 | only the two booleans have a shorter form, and it carries the minimal marker |
| Minify.MinValues | example/constant_fold.js:667-676 | MIN_VALUES on the folder agrees with `MinStep`, in which a write into a frozen array does not throw |
| Minify.MinForms | example/constant_fold.js:644-663 | `!0` has the value true and `!1` the value false, and both are marked minimal |
| Minify.MinDecision | example/constant_fold.js:667-676 | `MinStep` fails only where CONSTVALUE fails or it would replace the root (as written, also on a write into a frozen array: Minify.FrozenWrite); it fires exactly on a constant with a boolean value; when it passes the tree is unchanged |
| Minify.MinResult | example/constant_fold.js:667-676 | when MIN_VALUES fires, the slot holds a minimal node with the constant's value and nothing outside it changes |
| Minify.MinIdempotent | example/constant_fold.js:667-676 | once MIN_VALUES has fired, a second visit to the slot leaves it alone |
| Minify.FrozenWrite | example/constant_fold.js:84-88 | MIN_VALUES as written differs from `MinStep` exactly where `MinStep` writes into a frozen node, and there it throws a TypeError |
| Minify.FrozenElement | example/constant_fold.js:243-247 | on a boolean element of an array expression TO_CONSTEXPR built, `MinStep` fires, while MIN_VALUES as written throws, because the `elements` array is frozen |
| Minify.TrueOrYFolds | example/constant_fold.js:448-452 | FOLD_LOGICAL replaces `[true]` or-ed with `y` (a logical or) by the array expression TO_CONSTEXPR builds for `[true]` |
| Minify.FrozenWriteAsWritten | example/constant_fold.js:667-676 | in the program `[true]` or-ed with `y` (`Minify.TRUE_OR_Y_PROGRAM`), after FOLD_LOGICAL, MIN_VALUES as written throws on the element `true`, where `MinStep` writes `!0` |
| Rules.RunRule | example/constant_fold.js:253-676 | each folding stage on the folder agrees with its step function; FOLD_EXPR_STMT, FOLD_IF and FOLD_MEMBER in their corrected forms (see "## Findings") |
| Pipelines.Combinators | example/constant_fold.js:691-744 | each walk hands `pipe` DEPTH_FIRST, the array guard and one combinator per stage, none of them nullish |
| Pipelines.Stages | example/constant_fold.js:691-744 | the chain of a walk with `k` folding stages has `2k + 6` stages |
| Pipelines.PipedStages | example/constant_fold.js:691-744 | what `pipe` builds from those combinators is the chain: pass-through, DEPTH_FIRST, the guard, the stages in order, then the pass-through outputs |
| Pipelines.WalkPipeline | example/constant_fold.js:691-744 | `pipe(...).walk(ROOT)` over the corrected rules, read to the end, agrees with `WalkOnce` on the folder's tree |
| Pipelines.ConstantFold | example/constant_fold.js:691-744 | the three walks in order (expressions, statements, minifier), with the findings corrected, give `ConstantFolding`; the first exception ends the program |
| Pipelines.SettledWalk | example/constant_fold.js:691-744 | on a tree no stage changes, the walk visits the root path, then every object and array, children before parents, through the guard and every stage, and leaves the tree as it was |

## Left out

- Reading standard input, parsing with esprima, and printing with escodegen are I/O. The model starts from a parsed tree and ends with the folded tree.
- The `console.error` calls and the commented-out `util.inspect` dump only log. They are not modelled.
- Host arithmetic and coercions are parameters of the folder (`Values.Host`). These are the binary operators, `~`, ToNumber and ToString; they involve floating point and string conversion, which is not modelled. Unary `-`, `!` and `typeof` are modelled exactly.
- The sentinels EMPTY, NULL, NAN, NEG_ZERO and UNDEFINED are compared by value, not by object identity. A parsed node equal to a sentinel is taken for it.
- `Object.freeze` of the sentinels, of the nodes TO_CONSTEXPR builds and of the minifier's nodes is modelled only for REPLACE (`Edits.Frozen`, `Edits.ReplacedAsWritten`), and only MIN_VALUES uses it (`Minify.MinStepAsWritten`). It is the one stage that writes into a slot of a node the folder built: an element of an array expression TO_CONSTEXPR built. The rest of the model writes there as if the array were not frozen (see "## Findings").
- Edits.Folder.Replace: writes into a frozen parent as well; as written, that write throws a TypeError (`Edits.ReplacedAsWritten`).
- Edits.ReplaceLands: states REPLACE without the TypeError of a write into a frozen parent.
- Minify.MinValues: agrees with `MinStep`, which writes `!0` or `!1` into a frozen array where MIN_VALUES as written throws (`Minify.FrozenWrite`).
- Minify.MinDecision: states `MinStep`, so it leaves out the TypeError of the write into a frozen array (`Minify.FrozenWrite`).
- Rules.RunRule: dispatches the corrected FOLD_EXPR_STMT, FOLD_IF and FOLD_MEMBER (`ExprStmtStep`, `IfStep`, `MemberStep`), and every fold uses the corrected TO_CONSTEXPR. The as-written forms are the members named under "## Findings".
- Pipelines.WalkPipeline: walks the corrected rules of Rules.RunRule, and its REPLACE never throws on a frozen parent. It is the program with the findings corrected, not `pipe(...).walk(ROOT)` as written.
- Pipelines.ConstantFold: is the program with the findings corrected. As written, the program removes the directive of `"use strict"; f();`, puts a bare conditional into a statement list for `if (a) b(); else c(); d();`, throws in CONSTVALUE on `[[,1]][0];`, folds `x, "ab"["1.0"]` and throws in the minify walk on `[true] || y;`. `ConstantFolding` does none of these.
- The GUARD symbol of the `WalkCombinator` constructor is a boolean `guarded`.
- The symbol-keyed markers `$CONSTEXPR`, `$CONSTVALUE` and `$MIN` are fields of `Tree.Marks`, not properties.
- The generator protocol is modelled as one linear chain of stages. A stage either passes an item on and returns the reply it gets, or replies at once. Every stage of this program has that shape.
- Engine.Feed: the walk is bounded by fuel, and the model reports when the bound runs out. Each of the three walks gets the same fuel.
- The array guard ("We never work on Arrays") always passes its item on. `Array.isArray(path)` is never true of a path.
- Malformed ESTree shapes, such as a `SequenceExpression` without `expressions`, are treated as not matching where the code would throw. The exception is the cases modelled as a TypeError.
- Semantics.Eval: values are defined only for expressions. Property reads model only `length` and own indices of strings and arrays. Statement semantics are not modelled; FOLD_IF is stated with a statement-position property (`FoldIf.IsStatement`).
- FoldExpressions.BinaryKeepsValue: stated for an engine whose loose equality does not tell undefined from null, as the language defines.
- FoldMembers.MemberKeepsValue: assumes that the host prints the number 0 as "0"; the host's coercions are otherwise not modelled.
- FoldMembers.FoldMember: counts the `length` and the indices of a string in Unicode scalar values (the `Str` case of `Values.Prim` holds a Dafny `string`), where JavaScript counts UTF-16 code units; on a string with a character outside the Basic Multilingual Plane, such as `"😀".length` or `"😀"[0]`, the model folds to a different value, and it cannot represent the lone surrogate `"😀"[1]` reads.
- FoldMembers.FoldObject: its `length` fold yields the number of Unicode scalar values of a string, not of UTF-16 code units, so it differs from the program on strings outside the Basic Multilingual Plane.
- FoldMembers.FoldIndex: the elements of a string are its Unicode scalar values, not the UTF-16 code units `value[key]` reads, so indices into strings outside the Basic Multilingual Plane differ and lone surrogates are not modelled.
- Values.LexLess: orders keys by code point, where `sort()` compares UTF-16 code units; the two orders differ only on keys holding characters outside the Basic Multilingual Plane, which ESTree keys do not.
- The disabled `Object.freeze(this)` of `NodePath` is not modelled. The source never mutates a path.

## Findings

| source | as written | input that shows it | evidently intended | confidence | as-written member | corrected member |
|---|---|---|---|---|---|---|
| example/constant_fold.js:208-209 | `1 / value === -Infinity` coerces its operand, so any value whose ToNumber is -0 (the strings "-0", " -0" and "-0.0", the array `["-0"]`) becomes NEG_ZERO, the number -0 | `"-" + "0"` folded by FOLD_BINARY | only the number -0 maps to NEG_ZERO | not executed | ConstLemmas.NegZeroStringAsWritten | ConstLemmas.RoundTrip |
| example/constant_fold.js:244-248 | `value.map(TO_CONSTEXPR)` keeps holes, so the array expression has undefined elements and a later CONSTVALUE throws | `[[,1]][0];` | holes become null elements, as in a parsed array expression | not executed | ConstLemmas.HoleAsWritten | ConstLemmas.RoundTrip |
| example/constant_fold.js:375-382 | `if (t) c; else a;` with two expression statements is replaced by a bare ConditionalExpression in a statement slot | `if (a) b(); else c(); d();` | an ExpressionStatement around the conditional, as the `&&` case builds | not executed | FoldIf.BareConditional | FoldIf.IfKeepsStatement |
| example/constant_fold.js:306-308 | a directive that is not the completion value is a constant expression statement and is replaced by EMPTY | `"use strict"; f();` | directives are kept | not executed | FoldStatements.DirectiveDroppedAsWritten | FoldStatements.DirectiveKept |
| example/constant_fold.js:243-247 | TO_CONSTEXPR freezes the `elements` array of the array expression it builds, and MIN_VALUES REPLACEs a boolean element in it, which throws a TypeError under `'use strict'` and ends the program | the statement `[true]` or-ed with `y` by a logical or | the minify walk finishes, with `!0` in place of `true` | not executed | Minify.FrozenWriteAsWritten | Minify.MinResult |
| example/constant_fold.js:615-636 | the key is coerced with `+`, so a string that is not an index's canonical form still names an element | `x, "ab"["1.0"]` | fold only keys that name an element | not executed | FoldMembers.NonIndexKeyAsWritten | FoldMembers.MemberKeepsValue |
