# A model of gopatch

gopatch turns a patch (a unified diff over Go code, with metavariables and `...`) into a matcher and a replacer, runs
them over syntax trees, diffs the trees before and after, and cleans up source positions. This project models the parts
that decide what a patch means and proves what they promise.

| file | what it models |
|---|---|
| `ListDiff.dfy` | the greedy, meet-in-the-middle list diff of `internal/diff` |
| `Tree.dfy`, `Data.dfy` | Go syntax trees as reflection shows them, tagged with their types; the persistent environment |
| `Engine.dfy` | the pattern engine: compilation, matching, replacing, as recursive functions |
| `EngineLoops.dfy` | the loops of the engine, proved to compute those functions |
| `Capture.dfy`, `TypedCaptures.dfy`, `Unify.dfy`, `CanonicalTrees.dfy` | metavariables: captures persist and are well typed; matching is first-order unification |
| `Shapes.dfy` | which lists, loops and containers the special shapes of a patch admit |
| `Elision.dfy`, `Independence.dfy` | `...` in lists: when leftmost search without backtracking is complete, exactly; no item is lost or doubled |
| `NoOp.dfy`, `StmtList.dfy` | a patch whose two sides are the same changes nothing, also for statement lists and `for ...` |
| `Filling.dfy`, `Positions.dfy` | what a patch puts in the place of the code it matches, and where its tokens stand |
| `ConnectDots.dfy` | which `...` of the minus side each `...` of the plus side continues |
| `AstDiff.dfy`, `Alignments.dfy` | snapshots, the similarity score and the change finder, on top of the list diff |
| `ChangedSections.dfy` | what is reported when items of a list come, go or change |
| `SectionSplitter.dfy`, `SectionRoundTrip.dfy` | splitting a patch file into changes, and its inverse, printing |
| `SectionErrors.dfy` | how any file is read, and exactly when errors are reported |
| `PatchSides.dfy` | the two sides of a patch and their byte positions |
| `Augment.dfy` | rewriting patch source to valid Go, and mapping positions back |
| `LineTable.dfy`, `Sorting.dfy` | deleting line breaks and comments inside changed sections; the sort package |
| `EndToEnd.dfy` | the parts put together |

Main results, hardest first:

* **What a change does** (`EndToEnd.ApplyChange`, `Filling`, `Positions`). Where the minus side matches, its captures explain the
  node: the minus side with them filled in (metavariables, skipped runs, loops) is the node. The answer is the plus side with
  the same captures filled in, and the change fails exactly where the plus side asks for something that was not captured.
  Without `...` this says that patches rewrite terms, with no mention of matchers, replacers or environments: any substitution
  that makes the minus side equal to the node makes the plus side equal to the answer. Tokens stand where the tokens they
  continue stood.
* **Same sides, no change** (`NoOp.SamePatchIsNoOp`, `StmtList.SameStatementsAreNoOp`, `EndToEnd.ApplyChange`). If both
  sides of a patch are the same code, with any metavariables, list dots and `for ...`, then wherever the minus side
  matches, the plus side rebuilds the matched tree, up to positions, comments, object links and nil versus empty lists, as
  a well-typed tree of the same type, and the tree diff shows no change.
  The `...`s only have to stand in the same lines and columns on both sides: `connectDots` then pairs them up.
* **List diff** (`ListDiff.Difference`). The script is a walk from (0,0) to (nx,ny) in which every Identity and Modified
  step agrees with the comparison, and an item of one list is dropped right beside one of the other only if the two are not
  similar; what both lists begin and end with is left alone; its distance is 0 exactly for lists that are equal item by item;
  no callback leaves the grid; at most 5*(nx+ny) comparisons are made; it terminates. The searches stop only when their
  frontiers have passed each other or 4*(nx+ny) comparisons are made.
* **Tree diff** (`AstDiff`, `ChangedSections`). The change finder reports nothing on equal trees and only if the old tree is kept
  in the new one. Inserted nodes are not reported, removed ones are, one section each; a replaced one is, or is looked into if
  the two are similar. Score and reports are tied to a pairing of items that keeps the order and what lists begin and end with.
* **Matching is unification** (`Unify`, `CanonicalTrees`). Sound on every tree; complete, with unique captures, on exactly
  the trees in which empty lists are nil wherever no `...` can stand, which is how the parser builds them.
* **Elision** (`Elision`, `Independence`, `StmtList`). Leftmost search without backtracking succeeds wherever the sections of
  a pattern can be placed if and only if no two of them behind the first `...` share a metavariable that is not bound before
  (`Independence.SearchIsCompleteExactly`, over all lists and all earlier captures; "if" for every pattern, "only if" for
  items without a further `...` inside). For such patterns the exact set of lists
  that match is given, wherever the `...`s stand. Sections and skipped runs partition the target; replacements interleave
  sections and recorded runs.
* **Patch files** (`SectionSplitter`, `SectionRoundTrip`, `SectionErrors`, `PatchSides`, `Augment`,
  `EndToEnd.BytesComeFromThePatchFile`). Splitting undoes printing; for any file, names, comments and errors are exactly those of
  its lines; the two sides hold exactly the texts behind their marks. Every byte handed to the Go parser leads back, through
  position adjustment and the line table, to the same byte of the patch file.
* **Clean-up** (`LineTable.CleanupFilePos`). Deleting lines one by one in descending order equals deleting at once exactly
  the breaks that lie inside a changed section.

Where code and comments disagree, the model follows the code:

* `internal/diff/diff.go:163-170` documents that both frontiers stay between the two paths. That holds whenever a search
  starts (a precondition of `ListDiff.AdvanceForward` and `AdvanceBackward`, which `SearchBoth` establishes); after one, the
  frontier has left the box by one exactly if the two paths have met.
* `internal/astdiff/diff.go:111-178`: a nil on both sides makes `Walk` answer false without reporting a change;
  `AstDiff.NoNil` is the exact condition under which equal trees give true.
* `internal/engine/pos.go:52-63` promises to record valid positions only, but invalid ones are recorded too; looking them up gives
  the fallback position, which the model keeps.
* `internal/engine/change.go:59` does not look at the error of `connectDots`; neither does `EndToEnd.ApplyChange`.
* `internal/pgo/augment/rewrite.go:57-64` relies on augmentations at the same offset keeping their order, which `sort.Slice`
  does not promise. `Augment.SortByStart` sorts stably; `Augment.SortedIsOrdered` says which results of any other sort would
  do as well: those in which no `...` stands before an insertion at the same offset.
* `internal/parse/section/section.go:161` drops the first character of a comment line, not its `#`: an indented comment keeps
  the `#` in its text, in `SectionSplitter.CommentText` as well.
* A pattern with a nil list does not match a non-nil empty list (`internal/engine/reflect_match.go:99-108` compiles nil to a
  nil matcher unless `...` may stand in the list): `Unify.EmptyIsNotNil` is a concrete case, and
  `CanonicalTrees.MatchingDecidesExactlyOnCanonicalTrees` gives the exact condition.

To check everything: `dafny verify dfyconfig.toml`.

## Model

| member | source | states |
|---|---|---|
| ListDiff.Difference | internal/diff/diff.go:130-291 | the script is valid for nx and ny (a walk from (0,0) to (nx,ny), Identity and Modified steps agreeing with the comparison at cells it was asked about, and a UniqueX beside a UniqueY only where it was asked about the two items and found them not similar); it begins with all the matches that the lists begin with, and ends with all that they end with behind their first difference; without any match it closes the whole gap item by item; distance 0 if and only if the lists are equal item by item; every callback in range; at most 5*(nx+ny) callbacks |
| ListDiff.SearchBoth | internal/diff/diff.go:207-281 | the alternating searches keep both paths traced and in order, terminate because the frontiers approach each other, and pay for every callback by budget or by consumed items; they take the matches at both ends of the lists; unless 4*(nx+ny) comparisons were made, they stop only when the frontiers have passed each other, and then no match is left before the forward or behind the reverse frontier |
| ListDiff.AdvanceForward | internal/diff/diff.go:209-243 | from frontiers inside the paths and apart: the forward half round keeps the paths in order, moves the frontier over a diagonal without a match or behind the one found, and leaves the box, by one, exactly if the paths have met |
| ListDiff.AdvanceBackward | internal/diff/diff.go:245-280 | the same for the reverse half round |
| ListDiff.SearchForward | internal/diff/diff.go:212-237 | one zig-zag search terminates inside the box; failed comparisons cost budget, the others are charged to path growth; on a match the path runs straight along equal items; without one, and with budget left, the whole diagonal of the box holds no match |
| ListDiff.SearchBackward | internal/diff/diff.go:249-274 | the same from the back |
| ListDiff.Join | internal/diff/diff.go:283-291 | connecting the paths and moving the reverse steps over, last first, gives one walk through the whole graph |
| ListDiff.Path.Connect | internal/diff/diff.go:301-341 | the path reaches the target in either direction; each step is the one to take there: the two next items together if they are equal or similar, otherwise one of the list of which more is left, at the end the rest of one list; at most one callback for each item consumed |
| ListDiff.TakeForward | internal/diff/diff.go:221-233 | a match at the leading point is followed along its diagonal as far as matches go; any path ends in front of a pair that is no match, or at the limit |
| ListDiff.Path.Append | internal/diff/diff.go:345-355 | each kind of step moves the leading point by its own amount in the path's direction |
| ListDiff.LeadsIsValid | internal/diff/diff.go:119-124 | a script built step by step has LenX and LenY equal to where it ends, and is valid position by position |
| ListDiff.FreeScriptMeansEqual | internal/diff/diff.go:119-124 | a valid script of distance 0 exists only between lists of the same length, equal item by item |
| ListDiff.Stats | internal/diff/diff.go:57-83 | the four counts are the numbers of steps of each kind and add up to the length |
| ListDiff.BothSidesPassed | internal/diff/diff.go:212-237 | a search that has hit both corners has looked at every cell of its diagonal inside the box, since the zig-zag visits each exactly once, and none is a match |
| NoOp.SamePatchIsNoOp | internal/engine/slice_dots.go:212-257 | a patch with equal sides, `...`s linked pairwise, rebuilds whatever it matches, up to positions, comments, objects and empty lists; what it builds for a node is well typed and of the node's type |
| NoOp.SameSides | internal/engine/replacer.go:61-113 | the same at every level of the tree, for any environment that keeps the captures and the runs of the pattern's own `...`s |
| NoOp.CaptureIsReproduced | internal/engine/metavar.go:142-168 | a captured tree, compiled without metavariables and replaced, gives itself back, well typed and of the same type |
| TypedCaptures.MatchKeepsNils | internal/engine/metavar.go:84-105 | a metavariable captures a nil pointer only where the Go type is *ast.Ident |
| TypedCaptures.CompiledIsGuarded | internal/engine/metavar.go:58-82 | compiled patterns have metavariables only where the Go type is *ast.Ident or inside interfaces |
| NoOp.VariableRestored | internal/engine/metavar.go:84-105 | a metavariable is replaced by code equal to what it matched here, even if it was captured elsewhere |
| NoOp.LoopRestored | internal/engine/for_dots.go:59-153 | `for ...` gives back the loop it matched, `for` or `range`, whichever clauses that had |
| NoOp.AroundRebuilt | internal/engine/for_dots.go:130-153 | a statement taken apart around its body and rebuilt with another body differs in the body only |
| NoOp.RestRestored | internal/engine/slice_dots.go:137-155 | what each `...` skipped and the section behind it matched is put back in place |
| NoOp.NothingIsElided | internal/engine/slice_dots.go:76-96 | matching a nil list decides the same as matching an empty one |
| StmtList.StatementsAreFoundAnywhere | internal/engine/stmt_list.go:46-56 | wrapped in `...`, a statement pattern whose sections up to the first empty one are independent matches a block exactly when these occur in it in order and without overlap and all further ones are empty |
| StmtList.StatementsAreFoundExactlyWhenSeparate | internal/engine/stmt_list.go:46-56 | a statement pattern of ordinary code without doubled `...`s matches every block in which its sections can be placed if and only if no two of them share a metavariable |
| StmtList.LeadingDotsMatchNothing | internal/engine/stmt_list.go:46-56 | a statement pattern that begins with `...`, which the wrapping doubles, and goes on with anything else matches no block |
| StmtList.TrailingDotsChangeNothing | internal/engine/stmt_list.go:46-56 | a `...` at the end of a statement pattern changes nothing |
| StmtList.SameStatementsAreNoOp | internal/engine/stmt_list.go:58-164 | a statement patch with equal sides rebuilds the block, case or select clause that holds the statements |
| Shapes.DotsTakeAnyList | internal/engine/slice_dots.go:138-144 | a `...` alone matches any list of expressions, statements or fields and skips all of it |
| Shapes.DotsItemsAreDots | internal/engine/matcher.go:74-118 | exactly `...` as an expression, as a statement, or as the type of a field is elided |
| Shapes.OtherListsHoldNoDots | internal/engine/matcher.go:74-118 | a list of any other items holds no `...` |
| Shapes.OnlyForDotsIsSpecial | internal/engine/for_dots.go:44-56 | exactly a for loop whose condition is `...` and which has no other clause is a `for ...` |
| Shapes.ForDotsMatchesLoops | internal/engine/for_dots.go:58-73 | it matches for and range loops only, by their blocks |
| Shapes.ContainersOfStatements | internal/engine/stmt_list.go:58-104 | statements are matched in blocks, cases and select clauses only, by their statement lists |
| EndToEnd.ApplyChange | internal/engine/change.go:44-77 | connecting, matching, indexing and replacing at one node: the minus side filled in with the captures is the node; the answer is the plus side filled in with them, runs and loops taken from the associated `...`s, and failure means that something it asks for was not captured; without `...`, every substitution that makes the minus side equal to the node makes the plus side equal to the answer, failure means a metavariable that the minus side does not mention, and no match on a canonical node that there is no substitution; positions carry over; with equal sides in the same places nothing fails and the node is rebuilt |
| EndToEnd.CapturesExplain | internal/engine/slice_dots.go:76-96 | whatever `...`s it has, at distinct positions, a pattern filled in with what its match captured, each `...` with its own run, is the matched tree |
| Filling.ReplaceFills | internal/engine/replacer.go:61-113 | for any plus side the replacer succeeds if and only if all its metavariables are bound and all its `for ...`s have a recorded loop, and gives the plus side with captures, runs and loops filled in, item by item |
| Filling.PatchesRewriteTerms | internal/engine/metavar.go:142-168 | without `...` the replacer fails exactly for a metavariable that only the plus side has, and otherwise gives the plus side under any solution of the minus side |
| Filling.FillingIsSubstituting | internal/engine/metavar.go:156-168 | without `...`, filling in is substituting |
| Filling.ExactlyTheVariablesAreBound | internal/engine/metavar.go:84-105 | a match binds exactly the metavariables of its pattern |
| Positions.PositionsCarryOver | internal/engine/pos.go:85-98 | a token of the plus side at the line and column of one of the minus side gets the position of the token that this one has matched; any other valid one the start of the region; invalid ones stay |
| Positions.PositionsAreRecorded | internal/engine/pos.go:52-63 | a match records for the place of each token of the pattern the position of the token that stands there in the code |
| Positions.ReplacementStands | internal/engine/pos.go:117-126 | a replaced token has the position recorded for its place, or else the fallback |
| EndToEnd.SamePatchShowsNoDifference | internal/astdiff/diff.go:65-78 | after such a patch the snapshots of the node before and after are equal |
| EndToEnd.BytesComeFromThePatchFile | internal/parse/patch.go:90-105 | a byte of the text given to the Go parser has its offset adjusted back exactly, the line recorded for that offset is its own, and the position found there is where the byte stands in the patch file |
| EndToEnd.LineInForce | internal/parse/patch.go:98-102 | of the recorded lines, exactly those up to its own start at or before a byte |
| EngineLoops.CompileSliceDotsM | internal/engine/slice_dots.go:43-74 | the loop cuts a list at its `...`s into the sections of the matcher and records their positions in order |
| EngineLoops.CompileSliceDotsR | internal/engine/slice_dots.go:169-210 | the same for the replacer |
| EngineLoops.MatchItems | internal/engine/slice_dots.go:115-129 | the loop matches all wanted items in place, threading the environment, or fails |
| EngineLoops.SearchSection | internal/engine/slice_dots.go:137-155 | the loop finds the first place for a section and records the run before it; attempts given up leave nothing behind |
| EngineLoops.MatchSliceDots | internal/engine/slice_dots.go:76-96 | the loop over the sections succeeds exactly when they are found one behind the other and the list ends there |
| EngineLoops.ReplaceItems | internal/engine/reflect_replace.go:103-150 | the loop rebuilds item by item and stops at the first error |
| EngineLoops.ReplaceSliceDots | internal/engine/slice_dots.go:212-257 | the loop emits sections and the runs of the associated `...`s; an empty result is nil |
| EngineLoops.SplitFields | internal/engine/for_dots.go:72-96 | the loop separates the body of a statement from all other fields |
| EngineLoops.JoinFields | internal/engine/for_dots.go:130-153 | the loop puts the recorded fields and a new body into a new statement |
| Capture.MatchKeeps | internal/engine/metavar.go:91-104 | along a successful match, abandoned elision attempts included, a bound metavariable keeps its binding and only the matcher's own `...`s are recorded |
| Capture.MatchCapturesPlain | internal/engine/metavar.go:84-105 | only expressions of the target are ever captured |
| Capture.MatchBinds | internal/engine/metavar.go:84-105 | a successful match has bound every metavariable of the matcher |
| Unify.MatchingIsUnification | internal/engine/metavar.go:84-105 | without `...`, on a canonical tree, a match exists if and only if some assignment respecting sorts makes the pattern equal to the tree |
| Unify.MetavariableStandsForItsSort | internal/engine/metavar.go:64-71 | an unbound metavariable matches if and only if the target is of a pointer type to an expression node, or for identifiers of type *ast.Ident, and captures the target |
| Unify.BoundMetavariableStandsForItsCapture | internal/engine/metavar.go:84-97 | a bound one matches a canonical tree if and only if the tree is of its sort and equals the capture |
| Unify.OrdinaryNameStandsForItself | internal/engine/metavar.go:72-75 | any other identifier matches exactly the identifiers of its name |
| Unify.MatchIsSound | internal/engine/reflect_match.go:84-196 | on every tree the captures of a match solve the pattern |
| Unify.CapturesAreUnique | internal/engine/metavar.go:91-104 | wherever a pattern matches, every solution agrees with the captures on every metavariable of the pattern |
| Unify.CapturedAgain | internal/engine/metavar.go:91-97 | a repeated metavariable matches only what equals its first capture |
| Unify.CapturedCodeIsLiteral | internal/engine/metavar.go:91-97 | captured code is compared as it stands: it matches exactly the trees equal to it, its identifiers are no metavariables |
| Tree.EqualMeansSameNormalForm | internal/engine/matcher.go:105-115 | the equality used throughout is having the same normal form: comments and objects dropped, positions valid or not, nil lists empty |
| Unify.EmptyIsNotNil | internal/engine/reflect_match.go:99-108 | a solvable pattern that does not match: nil list in the pattern, empty list in the tree |
| CanonicalTrees.MatchingDecidesExactlyOnCanonicalTrees | internal/engine/reflect_match.go:99-108 | matching decides solvability for every pattern if and only if the tree has nil for every empty list in which no `...` can stand |
| Independence.SearchIsCompleteExactly | internal/engine/slice_dots.go:76-96 | for pattern lists of ordinary code that end in `...`, and any set of names bound before: the search agrees with the placements in every list and every environment if and only if no two sections behind the first `...` share a metavariable that is neither bound before nor in the first section |
| Independence.SharedIsMissed | internal/engine/slice_dots.go:137-155 | if two sections do, a list of ordinary code is given in which they can be placed and which the search misses |
| Elision.ElisionIsPlacement | internal/engine/slice_dots.go:76-96 | wherever its `...`s stand, a pattern list with independent sections matches if and only if its first section lies at the start, those up to the first empty one have a placement behind it, all further ones are empty and, if none is, every placement ends at the end of the list |
| Elision.ElisionIsComplete | internal/engine/slice_dots.go:76-96 | for independent sections, no two `...`s side by side and a trailing `...`: a match exists if and only if the first section lies at the start and the others behind it in order without overlap, each with the captures of those before it |
| Elision.ElisionWithoutTrailingDots | internal/engine/slice_dots.go:76-96 | without a trailing `...`: if and only if the sections can be placed and every placement ends at the end of the list |
| Elision.LeftmostIsComplete | internal/engine/slice_dots.go:137-155 | for independent sections the search succeeds whenever there is a placement, and ends as early as any placement does |
| Elision.LeftmostIsSound | internal/engine/slice_dots.go:137-155 | what the search finds is a placement, whatever metavariables the sections share |
| Elision.FindsLeast | internal/engine/slice_dots.go:137-155 | a section is found at the least index where it matches, with the captures made there, and missed only if it matches nowhere |
| Elision.SearchFindsPlacements | internal/engine/slice_dots.go:76-96 | the search over the sections behind the first one succeeds if and only if those up to the first empty one have a placement and all further ones are empty |
| Elision.DoubledDotsTakeAll | internal/engine/slice_dots.go:138-144 | behind an empty section the search succeeds if and only if all sections are empty, and it takes everything |
| Elision.LeftmostDoesNotReconsider | internal/engine/slice_dots.go:137-155 | a concrete case of shared metavariables: `..., x, ..., x, ...` does not match a, b, b, although x could be b |
| Elision.ElisionPartitionsTarget | internal/engine/slice_dots.go:76-155 | pieces of the sections' lengths, interleaved with the recorded runs in pattern order, are exactly the target list |
| Elision.FoundBehindRun | internal/engine/slice_dots.go:146-152 | the run recorded for a `...` is what lies between the previous section and the place found |
| Elision.ReplacementWeaves | internal/engine/slice_dots.go:229-256 | the rebuilt list is the replacer's sections interleaved with exactly the runs recorded for the associated `...`s |
| Elision.MatchAgrees | internal/engine/metavar.go:84-105 | a match depends on the captures of the matcher's own metavariables only, and changes no others |
| Data.Index | internal/data/data.go:122-138 | indexing answers every lookup, shadowed keys included, as before, and keeps the key list |
| Data.KeysAreExactlyTheBound | internal/data/data.go:77-90 | the listed keys are exactly those with a value |
| ConnectDots.ConnectDots | internal/engine/change.go:79-131 | all plus dots are associated, each with the last minus dot not behind it and in order, unless one precedes the whole minus side (then none is) or one is repeated; the verdict says exactly which |
| ConnectDots.AssociationIsMonotone | internal/engine/change.go:105-128 | the association keeps the order |
| ConnectDots.AssociationIsUnique | internal/engine/change.go:105-128 | with distinct places only one minus dot qualifies |
| ConnectDots.SamePlacesAreConnected | internal/engine/change.go:105-128 | with the dots in the same places on both sides the association is the identity |
| ConnectDots.SamePlacesSucceed | internal/engine/change.go:105-128 | and it succeeds |
| ConnectDots.BeforeIsFileOrder | internal/engine/change.go:89-103 | comparing lines and then columns is comparing offsets in the patch file |
| AstDiff.CompareNodes | internal/astdiff/diff.go:320-324 | the score: nothing for trees of two types, one for each equal or unequal leaf, and for lists the scores of the items that are paired plus one for each of the others, where similar items are paired in order, and so are those that the lists begin and end with; no differences if and only if the trees are equal up to positions, whose validity must agree, comments and objects |
| AstDiff.NodeComparer.Walk | internal/astdiff/diff.go:326-358 | the counts grow by exactly such a score; the difference count stays exactly for equal trees |
| AstDiff.NodeComparer.WalkSlice | internal/astdiff/diff.go:360-401 | the same for lists, paired by the list diff; every cell read for an Identity or Modified step was filled |
| AstDiff.ChangeFinder.Walk | internal/astdiff/diff.go:111-178 | reports one section for each part of another type or literal, each part that is gone, each position of other validity, and each node of a list that has no partner; none on equal trees; true if and only if the trees are equal and hold no nil where the finder looks |
| AstDiff.ChangeFinder.WalkNodes | internal/astdiff/diff.go:250-315 | the same for lists of nodes, following the edit script: similar items are paired in order, and so are those that both lists begin and end with |
| AstDiff.Diff | internal/astdiff/diff.go:65-78 | that many sections are reported; none for equal trees; and none only if the old tree is kept in the new one: types, literals and validity agree, what was there is there, structs and other lists item by item, lists of nodes along a strictly increasing map of their indexes |
| AstDiff.SilenceKeeps | internal/astdiff/diff.go:111-178 | however lists are paired, no report means that the old tree is kept in the new one |
| ChangedSections.EqualTreesReportNothing | internal/astdiff/diff.go:111-178 | however lists are paired, equal trees report nothing |
| ChangedSections.InsertionsAreNotReported | internal/astdiff/diff.go:308-311 | nodes inserted in one place of a list are not reported |
| ChangedSections.DeletionsAreReported | internal/astdiff/diff.go:302-307 | nodes removed in one place are, one section each |
| ChangedSections.ReplacementIsReported | internal/astdiff/diff.go:295-300 | a node replaced by another is one section, or is looked into if the two are similar |
| ChangedSections.LeavesOfOneTypeAreSimilar | internal/diff/diff.go:106-113 | two leaves are similar if and only if they have the same type |
| AstDiff.EqualTreesEqualSnapshots | internal/astdiff/snapshot.go:54-116 | trees that the engine takes for equal have equal snapshots |
| AstDiff.EqualSnapshotsEqualTrees | internal/astdiff/snapshot.go:54-116 | without scopes, equal snapshots come from trees that the engine takes for equal |
| SectionSplitter.Split | internal/parse/section/section.go:101-109 | the splitter computes the changes and errors of the file's lines |
| SectionSplitter.ProgramSplitter.Next | internal/parse/section/section.go:147-166 | the next line that is no comment, with exactly the block of comments above it; always progress |
| SectionSplitter.ProgramSplitter.ReadName | internal/parse/section/section.go:200-238 | the name in the header, or an error (what its offset means is `SectionRoundTrip.InvalidNamesAreLocated`) |
| SectionSplitter.ProgramSplitter.ReadMeta | internal/parse/section/section.go:240-253 | the lines up to `@@` with their positions, or an error and nothing at the end of the file |
| SectionSplitter.ProgramSplitter.ReadPatch | internal/parse/section/section.go:255-267 | the lines up to the next header with their positions |
| SectionSplitter.ProgramSplitter.ReadOne | internal/parse/section/section.go:186-198 | one change, with the comments right above its header |
| SectionSplitter.ProgramSplitter.ReadProgram | internal/parse/section/section.go:174-184 | all changes in order, and an error for a file without any |
| SectionRoundTrip.SplitOfPrint | internal/parse/section/section.go:138-267 | splitting a printed program gives back its names, comments and lines without errors, each line at the position where it was printed; other comment lines may stand anywhere, and the last line break may be missing |
| SectionRoundTrip.CommentsAreDirectlyAbove | internal/parse/section/section.go:147-166 | whatever the file holds, the comments of a change are exactly the comment lines directly above its header |
| SectionRoundTrip.InvalidNamesAreLocated | internal/parse/section/section.go:200-238 | whatever the file holds, an invalid name is reported at the offset of its first character that is not allowed where it stands |
| SectionRoundTrip.SplitLinesPointAtTheirText | internal/parse/section/section.go:147-166 | whatever the file holds, every returned line is the text at its own position, without a line break |
| SectionRoundTrip.HeaderRoundTrip | internal/parse/section/section.go:200-238 | a valid name is read back from its header |
| SectionErrors.HeadersAreExact | internal/parse/section/section.go:200-238 | a header is accepted, with this name, exactly if it is `@@` or a valid name between two `@` with any spaces around it |
| SectionErrors.ChangesAreNamed | internal/parse/section/section.go:200-238 | whatever the file holds, a change has the name in its first line, and none if that is no valid header |
| SectionErrors.BadHeadersAreReported | internal/parse/section/section.go:234-236 | whatever the file holds, a header is rejected at an offset if and only if a change begins there with a line that is not between two `@` |
| SectionErrors.MissingMarkersAreReported | internal/parse/section/section.go:240-253 | whatever the file holds, the end of the metavariables is missed if and only if no `@@` stands behind the last header |
| SectionErrors.NoChangeIsReported | internal/parse/section/section.go:174-184 | a file is without changes if and only if all its lines are comments |
| SectionErrors.CommentsBeginWithHash | internal/parse/section/section.go:168-172 | a line is a comment if and only if its first `#` has only spaces before it |
| SectionErrors.EveryLineCounts | internal/parse/section/section.go:147-166 | every line that is no comment is read |
| SectionErrors.MetaEndsAtMarker | internal/parse/section/section.go:240-253 | the metavariables are the lines up to the first `@@` |
| SectionErrors.PatchEndsAtHeader | internal/parse/section/section.go:255-267 | the patch is the lines up to the next one that begins with `@` |
| PatchSides.SplitPatch | internal/parse/patch.go:135-192 | for lines written as a mark and a text, or as a text that begins with no mark: one version holds exactly the minus and context texts, the other the plus and context texts, in order and each ended by a line break, with the offset of each and the position of its first byte; every line is left with its text and keeps its end |
| PatchSides.SidesHoldTheTexts | internal/parse/patch.go:118-134 | the two sides of such lines hold exactly those texts |
| PatchSides.EveryPatchIsPrinted | internal/parse/patch.go:151-165 | every patch consists of such lines |
| PatchSides.DropMark | internal/parse/patch.go:151-165 | a marked line is left with the text behind its mark, at the position of that text, and says which side to skip; the end stays |
| PatchSides.SideHasLine | internal/parse/patch.go:135-192 | every line without the other side's mark is on a side, its mark dropped, in order |
| PatchSides.SideHasNoOther | internal/parse/patch.go:135-192 | and nothing else is |
| PatchSides.ContextKeepsItsPosition | internal/parse/patch.go:167-180 | a context line is recorded with the same position on both sides |
| PatchSides.SplitKeepsBytes | internal/parse/patch.go:167-183 | the byte at a line's offset plus j is the byte of the patch file at its position plus j |
| PatchSides.OffsetsIncrease | internal/parse/patch.go:167-183 | recorded offsets strictly increase |
| PatchSides.LinesAreContiguous | internal/parse/patch.go:167-183 | each line is written at its offset and ended by a line break, without gaps |
| PatchSides.ToBytes | internal/parse/section/bytes.go:41-53 | the metavariables section gets the same map from offsets to positions |
| PatchSides.BytesKeepTheirPositions | internal/parse/section/bytes.go:41-53 | each byte of it is the byte of the file at its recorded position |
| Augment.Rewrite | internal/pgo/augment/rewrite.go:46-108 | the output is the source with insertions and replaced `...`s, adjustments record every insertion, augmentations keep their kind and end up at the offsets where their text stands, and behind the source every opened brace is closed |
| Augment.SortByStart | internal/pgo/augment/rewrite.go:57-64 | a stable sort by start puts disjoint augmentations in writing order and loses none |
| Augment.SortedIsOrdered | internal/pgo/augment/rewrite.go:57-64 | any sort by start does so if and only if it leaves no `...` before an insertion at the same offset |
| Augment.BytesAreKept | internal/pgo/augment/rewrite.go:65-108 | every source byte outside a `...` is found in the output, moved by what was inserted before it |
| Augment.DotsAreReplaced | internal/pgo/augment/rewrite.go:91-100 | a `...` becomes an identifier of the same length at the new offset of its start |
| Augment.AugmentationsStand | internal/pgo/augment/rewrite.go:69-102 | `package _`, `func _()` with or without a brace, `dts` or `_ d` stand in the output at the new offset of their augmentation |
| Augment.BracesAreClosed | internal/pgo/augment/rewrite.go:79-82 | behind the source stand exactly as many closing braces as fake functions opened |
| Augment.AdjustingUndoesRewriting | internal/pgo/parse.go:185-199 | the adjustment in force at the new offset of any source offset takes it back exactly |
| Augment.AdjustedOffset | internal/pgo/parse.go:185-199 | the binary search finds the adjustment with the greatest offset not behind the position and undoes it |
| Augment.SortDescending | internal/pgo/parse.go:54 | adjustments are sorted by falling offset and none is lost |
| LineTable.CleanupFilePos | main.go:428-462 | the line table loses exactly the breaks inside valid changed sections, and each comment group exactly the comments they cover |
| LineTable.MergeDescending | main.go:454-461 | deleting lines from the last to the first equals deleting them all at once |
| LineTable.AddLines | main.go:435-439 | the collected numbers are exactly those of the breaks inside the section |
| LineTable.RemoveComments | main.go:442-451 | every group keeps, in order, exactly the comments that the section does not cover |
| LineTable.LinesLeftAreUnbroken | main.go:428-462 | a line start is left if and only if no valid changed section contains its break |
| LineTable.CommentsLeftAreUncovered | main.go:442-451 | a comment survives if and only if no valid changed section contains it |
| LineTable.LinesLeftAreWellFormed | main.go:428-462 | what is left is a line table: starts increase and the first is 0 |
| LineTable.LineHoldsPosition | main.go:435 | the number of a line counts from 1 and is that of the last line that does not start behind the position |
| LineTable.BrokenMeansBreakWithin | main.go:435-439 | a line is joined to the one before it exactly if the byte of the break between them is in a changed section |
| LineTable.CoveredMeansBytesWithin | main.go:445 | a comment is covered exactly if all its bytes are in one changed section |
| LineTable.CommentsLeftInOrder | main.go:443-450 | comments keep their order, and each is kept or dropped by itself |
| Sorting.Sort | internal/engine/change.go:89-103 | sorting keeps the elements and orders them |
| Sorting.Search | internal/engine/change.go:108-111 | the index found is where the predicate turns true |

## Left out

- Regions: matchers and replacers also carry text regions, which only feed the changelog. The model keeps the fallback
  position. For the same reason generic node matchers, which only change the region, are the matchers inside them.
- EndToEnd.ApplyChange: equality of the answer is up to positions, comments, objects and nil versus empty lists; where its tokens
  stand is stated for sides without `...`.
- AstDiff.Diff: a report does not mean that something is lost: the list diff pairs nodes by a heuristic search, and a node that is
  kept may go without its partner.
- The change finder reports only how many sections changed, not where, and does not move comments from the old snapshot to
  the new one (`internal/astdiff/diff.go:88-109`). Snapshots hold no positions or comments of nodes.
- The environment keeps a captured tree where the source keeps the matcher and replacer compiled from it; compiling is a
  function of the tree, so the model compiles on use.
- Trees are values: aliasing between a captured subtree and its copies in the output is not modelled.
- AstDiff.CompareNodes: the comparisons that the list diff asks for are made beforehand, as a table, not one by one on
  demand; `snapshot` is a function although the source fills children in a loop.
- StmtList.SameStatementsAreNoOp: taking a container apart is modelled by the functions that `EngineLoops.SplitFields` and
  `EngineLoops.JoinFields` compute, not by loops of its own.
- Unify.MatchingIsUnification: is about canonical trees; see `CanonicalTrees` for why this is exact.
- Independence.SearchIsCompleteExactly: sections with `...` inside an item are covered by the "if" half only
  (`Elision.ElisionIsComplete`); that a shared metavariable makes the search miss a list is proved for items of ordinary code.
- Elision.ElisionWithoutTrailingDots: without a `...` at the end the condition on placements is exact for independent
  sections; for others only the search behind the first `...` is characterised.
- SectionSplitter.Split: works on characters, not bytes; which characters are letters and digits is a parameter, of which
  only that none is a space is used; error messages are reduced to their kinds and offsets.
- PatchSides.SplitPatch: gets its lines as objects with their positions; the splitter returns lines as values.
- Augment.Rewrite: finding what to augment (`internal/pgo/augment/find.go`) depends on the Go scanner; augmentations are an
  input, disjoint and inside the source.
- LineTable.CleanupFilePos: takes the changed intervals as a list; the interval set itself is a library. `//line` directives
  and positions outside the file, on which the Go library panics, are not modelled.
- Sorting.Sort: an insertion sort; the algorithms of the Go library are not modelled, only what they guarantee.
- Compiling the metavariables section, package and import clauses, walking a whole file and replacing its nodes in place,
  the command line and all input and output.
