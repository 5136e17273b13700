# Automerge core in Dafny

This project models the algorithmic core of a two-target merge utility.

- **The diff engine** (`MyersDiffEngine`) computes a shortest edit script between an original sequence and a target sequence. It uses the quadratic-space greedy algorithm of Myers, "An O(ND) Difference Algorithm and Its Variations", in three steps:
  - A forward search fills a frontier array (`VArray`) pass by pass and keeps a trimmed copy after every pass.
  - Backtracking replays the direction rule against each copy and rebuilds one snake per pass.
  - The snakes are translated into `Equal`, `Delete` and `Insert` operations.
- **The merge engine** (`MergeEngine`) lines up two operation lists by list position.
  - Where the kinds differ, it keeps the operation of the larger kind value.
  - Where the kinds are equal, it applies the resolve strategy for that kind, falling back to the default strategy. The strategy's conflict flag is written into both operations. The strategy's action then keeps both operations, the first, the second, or neither.

The files are:

- `resolve_strategy.dfy`: `ResolveStrategy` and `ResolveStrategyAction`, as values.
- `operations.dfy`:
  - `OperationKind` with its numeric values.
  - `Source`, a read-only sequence held by reference.
  - `Operation`, a class whose only mutable field is `isConflict`.
  - `Render`, the meaning of a script: Delete and Unknown are skipped, every other operation emits `source[index]`.
- `varray.dfy`: the frontier array as a class over an `array<int>` with an offset.
- `edit_graph.dfy`: the edit graph, paths, their cost, and the projection of a path onto the rectangle.
- `snake.dfy`: the snake rule (`SnakeOf`, `CalculateSnake`) and the operations of a snake.
- `frontier.dfy`: the frontier as a function of the pass. It also proves Myers' Lemma 2 and minimality.
- `trace.dfy`: backtracking as a function, and what the operations of a trace render.
- `whole_scripts.dfy`: the all-Insert and all-Delete scripts.
- `myers_diff.dfy`: the imperative search, backtracking, translation and `GetDiff`.
- `diff_examples.dfy`: the diff engine on the inputs of the repository's tests, worked out pass by pass.
- `merge_engine.dfy`: the merge as a function and the `MergeEngine` class whose methods mutate the operations' flags.

Modelling choices:

- `ISource` is a `Source<T>` object holding a `seq<T>`. Element equality `Equals(a[x], b[y])` is `==` on `T`.
- `LongPoint` is a pair of `int`s.
- `NoDiffSolutionException` is the `NoDiffSolution` outcome of `GetDiff`. The `IndexOutOfRangeException` that two empty sources raise is the `IndexOutOfRange` outcome.
- A `null` list or source is `Option.None` or a `null` reference.
- The CLI's rendering loop (Automerge/Program.cs:99-114) gives the meaning of a script. It is used as the specification function `Render`, and the CLI itself is not modelled.
- The tests and the CLI build `MergeEngine(action, flag)`. That constructor is `MergeEngine.WithAction`, read as the default strategy `ResolveStrategy(action, flag)`.

Behaviour of the code a reader may not expect, which the model keeps:

- Diffing `A` against a missing source gives `Insert` operations that reference `A`.
- Two present but empty sources raise an index error.
- Sources that share no element make the search throw.
- The merge test with target strings "CBABAC" and "ABCABBAD" uses no per-kind strategy. The CLI adds one for Insert conflicts (Automerge/Program.cs:92-93), which changes nothing on that input.

## Model

| member | source | states |
|---|---|---|
| ResolveStrategies.Resolve | Domain/Merge/ResolveStrategy.cs:28-49 | Ignore keeps nothing, AcceptAll keeps first then second, AcceptFirst only the first, AcceptSecond only the second; the first side is kept exactly when AcceptsFirst holds (AcceptAll, AcceptFirst); empty exactly for Ignore, two exactly for AcceptAll |
| MergeEngines.SwapSides | Domain/Merge/ResolveStrategy.cs:28-49 | exchanging the sides of an action exchanges which side it accepts |
| Operations.OperationKind.Value | Domain/Operation.cs:6-27 | the numeric kind values lie in -1..2, -1 exactly for Unknown and 2 exactly for Insert (Equal 0, Delete 1) |
| Operations.Source.constructor | Domain/Diff/ISource.cs:8-21 | a source holds the given elements and reports their count as its length |
| Operations.Operation.constructor | Domain/Operation.cs:54-60 | stores kind, index, source and the conflict flag, which defaults to false |
| Operations.EqualsOverloadsAgree | Domain/Operation.cs:89-92 | the typed Equals agrees with Equals(object) on operations |
| Operations.EqualsIsAnEquivalence | Domain/Operation.cs:62-70 | Equals is false against null, reflexive, symmetric and transitive (same kind, index, flag and source reference) |
| Operations.RenderAppend | Automerge/Program.cs:99-114 | rendering a script (skip Delete and Unknown, emit source[index]) distributes over concatenation |
| VArrays.VArray.constructor | MyersDiff/VArray.cs:15-19 | offset n + m, 2(n + m) + 1 cells, all zero |
| VArrays.VArray.Set | MyersDiff/VArray.cs:25-29 | after storing x for diagonal k, k reads x and every other diagonal is unchanged; the write goes to cell k + offset |
| VArrays.VArray.Copy | MyersDiff/VArray.cs:31-46 | a fresh array with offset max(d, 1); equal to the receiver on every covered diagonal when that fits, otherwise all zeros |
| MyersDiffEngine.KeptFrontierY | MyersDiff/VArray.cs:53-56 | on the array kept for pass d + 1, every diagonal j of pass d holds pass d's frontier point as (v[j], v.Y(j)), and its y is never negative |
| EditGraph.SlideMeaning | MyersDiff/MyersDiffEngine.cs:71-77 | the slide follows equal pairs only and stops where no equal pair continues it |
| EditGraph.ClipPath | MyersDiff/MyersDiffEngine.cs:82-83 | a path in the unbounded grid projects onto a path inside the rectangle that saves one edit per unit it overshoots |
| EditGraph.SharedElementPath | MyersDiff/MyersDiffEngine.cs:44 | two sequences that share an element are joined by a path with n + m - 2 edits |
| EditGraph.KeepingPathShares | MyersDiff/MyersDiffEngine.cs:71-77 | a path with a diagonal move witnesses an element both sequences share |
| Snakes.SnakeOf | MyersDiff/Snake.cs:45-57 | start on diagonal k + 1 going down, k - 1 going right; end on diagonal k; Equal iff the start's y < 0, else Insert iff going down |
| Snakes.SnakeOfSlides | MyersDiff/Snake.cs:49-55 | one move from the start reaches the mid point, from which `diagonals` equal pairs lead to the end, where no equal pair follows |
| Snakes.CalculateSnake | MyersDiff/Snake.cs:45-59 | reads diagonal k + 1 when k == -d or v[k - 1] < v[k + 1], else k - 1; starts at the point (v[j], v.Y(j)) of the diagonal j it read; ends on diagonal k |
| Snakes.EqualRunMeaning | MyersDiff/MyersDiffEngine.cs:174-185 | a run of Equals renders the original's slice and visits exactly its positions, with no edits |
| Frontier.FurthestBounds | MyersDiff/MyersDiffEngine.cs:55-65 | the frontier point of pass d on diagonal k has x >= 0 and y = x - k >= 0, and x + y >= d |
| Frontier.FrontierBlocked | MyersDiff/MyersDiffEngine.cs:71-79 | no equal pair continues from a stored frontier point |
| Frontier.FurthestReaching | MyersDiff/MyersDiffEngine.cs:49-79 | Myers' Lemma 2: a path with c edits ends on a diagonal of pass c, no further than pass c's frontier |
| Frontier.SnakeAtShape | MyersDiff/Snake.cs:47-57 | the snake of pass 0 starts at (0, -1) and is Equal; a later one starts at a frontier point of the previous pass and is Insert or Delete |
| Frontier.ReachIsPath | MyersDiff/MyersDiffEngine.cs:49-79 | every frontier point of pass d is reached by a valid path with exactly d edits |
| Frontier.LowerBound | MyersDiff/MyersDiffEngine.cs:44-96 | if no pass before d reached the corner, every path to the corner has at least d edits |
| Frontier.FirstSolution | MyersDiff/MyersDiffEngine.cs:82-96 | the first pass at or beyond the corner reaches exactly (n, m) on diagonal n - m, with the least edit count |
| Frontier.FirstCornerUnique | MyersDiff/MyersDiffEngine.cs:96 | at most one pass is the first to reach the corner |
| Frontier.NoSolutionMeansDisjoint | MyersDiff/MyersDiffEngine.cs:44-102 | when no pass below n + m reaches the corner, the sequences share no element |
| Frontier.SolutionMeansShared | MyersDiff/MyersDiffEngine.cs:44-102 | a pass below n + m that reaches the corner shows a shared element |
| Frontier.LastPassSolves | MyersDiff/MyersDiffEngine.cs:36-44 | pass n + m always reaches the corner |
| Traces.SnakeOpsMeaning | MyersDiff/MyersDiffEngine.cs:157-185 | a snake's operations render the target from its first row to its end and visit the original from its start to its end, with one edit unless it is Equal |
| Traces.TransformsExtend | MyersDiff/MyersDiffEngine.cs:152-186 | appending a snake's operations extends a script that reaches its start to one that reaches its end with one more edit |
| Traces.TraceMeaning | MyersDiff/MyersDiffEngine.cs:104-123 | the snakes backtracking collects from a frontier point of pass d render the target's prefix, visit the original's prefix in order, with d edits |
| WholeScripts.InsertAllMeaning | MyersDiff/MyersDiffEngine.cs:131-140 | the Inserts of a lone target render the whole target and visit no position of the original |
| WholeScripts.ReplaceAllMeaning | MyersDiff/MyersDiffEngine.cs:36-44 | deleting all of the original and inserting all of the target is a script with n + m edits |
| MyersDiffEngine.FollowDiagonal | MyersDiff/MyersDiffEngine.cs:71-77 | the loop ends exactly where the slide ends |
| MyersDiffEngine.Pass | MyersDiff/MyersDiffEngine.cs:49-88 | pass d stores Furthest(d, k) for each diagonal in turn and stops at the first point at or beyond the corner |
| MyersDiffEngine.ReplayAgreesWithSearch | MyersDiff/Snake.cs:47-50 | replaying the direction rule on the kept copy of pass d rebuilds the snake that pass d computed |
| MyersDiffEngine.PassAndCopy | MyersDiff/MyersDiffEngine.cs:49-96 | exactly one copy is appended per pass, also for the pass that finds the corner |
| MyersDiffEngine.Snapshot | MyersDiff/MyersDiffEngine.cs:91 | the copy kept after pass d is fresh and still holds what pass d read |
| MyersDiffEngine.Search | MyersDiff/MyersDiffEngine.cs:33-102 | index failure iff both sources are empty; Found: the last kept copy is the first pass that reached the corner, on diagonal n - m; Exhausted: no allowed pass reached it |
| MyersDiffEngine.ReversedSnoc | MyersDiff/MyersDiffEngine.cs:122 | reversing a list with one more element puts that element first |
| MyersDiffEngine.Backtrack | MyersDiff/MyersDiffEngine.cs:104-122 | the reversed snakes collected from (n, m) down to the origin are the trace of the last pass |
| MyersDiffEngine.BacktrackOnce | MyersDiff/MyersDiffEngine.cs:111-121 | one step rebuilds pass d's snake to p, collects it, and moves to its start with d - 1 |
| MyersDiffEngine.SnakesToOperations | MyersDiff/MyersDiffEngine.cs:149-188 | the operations are the snakes' operations in order, every one a newly allocated object, unflagged |
| MyersDiffEngine.AppendSnakeOperations | MyersDiff/MyersDiffEngine.cs:157-185 | one Delete at start.x or Insert at start.y (-1 read as 0) for a non-Equal snake, then `diagonals` Equals after the edit |
| MyersDiffEngine.AppendEquals | MyersDiff/MyersDiffEngine.cs:174-185 | Equal operations at from, from + 1, ..., referencing the original |
| MyersDiffEngine.BuildOperationsForSingleSource | MyersDiff/MyersDiffEngine.cs:131-140 | null for a missing source, else Insert at 0..len-1 in order referencing it, each newly allocated and unflagged |
| MyersDiffEngine.FoundScript | MyersDiff/MyersDiffEngine.cs:44-123 | the trace of the first pass at the corner is a shortest script with d edits |
| MyersDiffEngine.Solve | MyersDiff/MyersDiffEngine.cs:104-123 | backtracking and translation give the operations of the trace, a shortest script |
| MyersDiffEngine.Compare | MyersDiff/MyersDiffEngine.cs:30-123 | index failure iff both are empty; NoDiffSolution only if no allowed pass reached the corner; otherwise the trace's script, which is shortest |
| MyersDiffEngine.GetDiff | MyersDiff/MyersDiffEngine.cs:13-124 | null for two nulls; the other side's Inserts for one null; otherwise a shortest script that renders the target and visits the original in order iff the sources share an element, NoDiffSolution iff they share none; returned operations are newly allocated and unflagged |
| MyersDiffEngine.GetDiffIntended | MyersDiff/MyersDiffEngine.cs:13-124 | with the last pass allowed and two empty sources answered by the empty script, every pair of present sources gets a shortest script |
| DiffExamples.TestTrace | MyersDiff/MyersDiffEngine.cs:104-122 | for "ABCABBA" to "CBABAC" pass 5 is the first to reach the corner, and backtracking collects these five snakes |
| DiffExamples.TestScript | MyersDiffTest/MyersDiffUnitTest.cs:24-54 | for "ABCABBA" to "CBABAC" the script is Delete0 Delete1 Equal2 Insert1 Equal3 Equal4 Delete5 Equal6 Insert5 |
| DiffExamples.AppendedScript | AutomergeTest/AutomergeTest.cs:36 | for "ABCABBA" to "ABCABBAD" the script is Equal0..Equal6 then Insert7 |
| DiffExamples.ChangedLastScript | AutomergeTest/AutomergeTest.cs:59-72 | for "ABC" to "AB" and any last letter not in "ABC" (the test's "ABD" and "ABR") the script is Equal0 Equal1 Delete2 Insert2 |
| DiffExamples.MergeTestFromDiffs | AutomergeTest/AutomergeTest.cs:18-42 | the scripts of "ABCABBA" to "CBABAC" and to "ABCABBAD" have the kinds MergeTestExample assumes |
| DiffExamples.AcceptFirstTestFromDiffs | AutomergeTest/AutomergeTest.cs:59-72 | the scripts of "ABC" to "ABD" and to "ABR" have the kinds the second test's merge lemmas assume |
| DiffExamples.FrontierBelowTarget | MyersDiff/MyersDiffEngine.cs:55-79 | for "AB" against the empty target, the frontier point pass 1 stores on diagonal -1 is (0, 1), below the target, and no pass before 2 reaches the corner |
| DiffExamples.DisjointSourcesFail | MyersDiff/MyersDiffEngine.cs:44 | "A" and "B" share no element, so GetDiff throws, though a script with two edits exists |
| DiffExamples.EmptySourcesFail | MyersDiff/MyersDiffEngine.cs:34 | two empty sources make the preset store fail, though the empty script is shortest |
| MergeEngines.ContributionBySide | Domain/Merge/MergeEngine.cs:61-133 | per position: the first operation if alone, of larger kind, or accepted by the kind's strategy, then likewise the second; different kinds keep exactly one; two iff AcceptAll, none iff Ignore |
| MergeEngines.MergedFromInputs | Domain/Merge/MergeEngine.cs:61-133 | every merged operation comes from one of the two lists |
| MergeEngines.MergedLength | Domain/Merge/MergeEngine.cs:58-133 | the merge of n positions has at most 2n entries, exactly n when no conflict among them is resolved by AcceptAll or Ignore |
| MergeEngines.MergeSymmetric | Domain/Merge/MergeEngine.cs:88-133 | exchanging the lists and the sides of every strategy gives the same merge when no conflict uses AcceptAll |
| MergeEngines.MergeWithEmpty | Domain/Merge/MergeEngine.cs:48-81 | the loop over a list and an empty one would give the list, as the early return does |
| MergeEngines.MergeWithItself | Domain/Merge/MergeEngine.cs:100-133 | merging a list with itself under one-sided strategies gives the list |
| MergeEngines.MergeTestExample | AutomergeTest/AutomergeTest.cs:15-54 | with AcceptFirst everywhere, the first test's merge is the first script with the second script's Insert7 at position 7 |
| MergeEngines.ExampleTableLookups | AutomergeTest/AutomergeTest.cs:77-80 | the second test's table gives AcceptFirst unflagged for Equal and Delete and the flagged default for Insert |
| MergeEngines.AcceptFirstThroughout | Domain/Merge/MergeEngine.cs:100-133 | two lists of equal length with the same kind everywhere, every kind resolved by AcceptFirst, merge to the first list, and every operation of both is in the set whose flags the merge sets |
| MergeEngines.AcceptFirstConflictExample | AutomergeTest/AutomergeTest.cs:56-94 | in the second test the merge is the first script (an instance of AcceptFirstThroughout) |
| MergeEngines.AcceptFirstConflictFlags | AutomergeTest/AutomergeTest.cs:56-94 | in the second test all eight operations are conflict pairs whose flags the merge sets |
| MergeEngines.SameKindConflicts | Domain/Merge/MergeEngine.cs:107 | both operations of a same-kind position are in the set whose flags the merge sets |
| MergeEngines.MergeEngine.constructor | Domain/Merge/MergeEngine.cs:22-26 | stores the default strategy with an empty strategy table |
| MergeEngines.MergeEngine.WithAction | AutomergeTest/AutomergeTest.cs:41 | the two-argument engine has the default strategy (action, flag) and an empty table |
| MergeEngines.MergeEngine.AddStrategy | Domain/Merge/MergeEngine.cs:15 | adding a strategy for a kind that has none sets it; a kind that has one is refused and the table is unchanged |
| MergeEngines.MergeEngine.GetMergeOperations | Domain/Merge/MergeEngine.cs:34-138 | a null list gives the other; an empty list gives the non-empty one, or the second; both leave the flags untouched; otherwise the merge, with the flag of each same-kind pair set to its strategy's mark and every other flag unchanged |
| MergeEngines.MergeEngine.MergeLists | Domain/Merge/MergeEngine.cs:58-137 | the loop builds the merge in position order and sets exactly the flags of same-kind pairs |
| MergeEngines.MergeEngine.MergeAt | Domain/Merge/MergeEngine.cs:67-135 | one position: appends its contribution and sets both flags of a same-kind pair to the strategy's mark |

## Left out

- Console and file I/O, argument parsing, the text-file and string sources: the sources are plain sequences.
- The text-file line equality relies on a runtime string hash that the model cannot see.
- The `' '` sentinel `Snake.Element`, the `ToString` methods, `Operation.GetHashCode` and `CompareTo` are display and hashing only. No algorithm here uses them.
- Integer width: `int` and `long` overflow of `n + m`, `2(n + m) + 1` and the indices is not modelled, because integers are unbounded here.
- Null entries inside an operation list are not modelled. The merge engine's `op1 == null` test is modelled only for positions past the end of a list.
- Operations.Operation.Equals: modelled as a ghost predicate without an ensures. Its properties are the two lemmas beside it.
- MyersDiffEngine.GetDiff: minimality is stated against every path through the edit graph, not as n + m - 2·LCS. The Insert indices are not stated as enumerating, in ascending order, the target positions no Equal covers.
- MergeEngines.MergeEngine.AddStrategy: the exception `Dictionary.Add` throws for a duplicate key is modelled as a `false` result.

## Findings

| source | as written | input that shows it | evidently intended | confidence | as-written member | corrected member |
|---|---|---|---|---|---|---|
| MyersDiff/MyersDiffEngine.cs:44 | the search stops after pass n + m - 1, so sources that share no element throw `NoDiffSolutionException` | original "A", target "B" | allow pass n + m, which always reaches the corner (delete all, insert all) | high; not executed | DiffExamples.DisjointSourcesFail | MyersDiffEngine.GetDiffIntended |
| MyersDiff/MyersDiffEngine.cs:34 | with n + m == 0 the frontier array has one cell, and the preset store to diagonal 1 is out of range | two empty, present sources | return the empty script | high; not executed | DiffExamples.EmptySourcesFail | MyersDiffEngine.GetDiffIntended |
