# Multi-rod Tower of Hanoi solver, modelled in Dafny

The solver moves a tower of disks from the first rod to the last one, on a
board with any number of rods. It has two parts, and the model keeps both:

- **The split optimizer** (`split_optimizer.dfy`, module `SplitOptimizer`).
  This is the Frame–Stewart recurrence. For a number of rods and disks it
  returns the fewest moves and the *split*: how many top disks go out first,
  as a group. `(-1, 0)` is the in-band "no solution" answer.
  - The base cases come first: too few disks or rods, one disk, two rods,
    fewer disks than rods, and three rods.
  - Otherwise it searches every split `d` in `[1, disks)`. The cost of a
    split is twice the optimum for `d` disks with all rods, plus the optimum
    for the remaining disks with one rod fewer. Only a strictly cheaper split
    replaces the best one found so far.
  - The function is memoised in the source. `MinStepsAndSplit` is the pure
    recurrence. The class `Memo` makes the cache explicit as a table that the
    methods update; every entry is proved to equal the recurrence's value.
- **The move generator** (`move_generator.dfy`, module `MoveGenerator`). It
  recursively expands the split decisions into single-disk moves on a mutable
  board.
  - The class `Solver` holds the rods and the moves recorded so far.
  - `SolveRecursively` takes one intermediate rod out of the set it is given.
    It moves the top `split` disks onto that rod, the next disks straight to
    the target without it, and then the `split` disks onto the target.
  - `GetSolution` validates its input, then solves from the first rod to the
    last one.

`towers.dfy` (module `Towers`) defines the board, the legality of a move, and
the replay of a move list. A board is one stack per rod, from the bottom to
the top; disk 0 is the smallest. The model's legality rule is stricter than
the checks the repository's test applies to a solution. A legal move takes the
top disk of its source rod, goes to a different rod, and lands on an empty rod
or on a larger disk. The test only checks that the disk is somewhere on the
source rod and is smaller than every disk on the target rod. Every solution
the model produces meets the stricter rule, so it passes the test's checks as
well. `wrappers.dfy` holds `Option` and `Result`.

The main results:

- **The optimizer returns an argmin.** In the general case, `minSteps` is the
  minimum cost over all splits, and `split` is the smallest split reaching it.
- **The optimizer is exact for the pinned values.** All the minimum move
  counts pinned by the repository's test hold. They follow from proved closed
  forms and bounds of the recurrence, not from unfolding it.
- **Every solution is a correct one.** `GetSolution` returns moves that replay
  legally from all disks on the first rod to all disks on the last rod. There
  are exactly as many moves as the optimizer's minimum. Each recursive call
  touches only its source, its target and the rods it was given.

Where the comments and the code disagree, the model follows the code. When
there are fewer disks than rods the code returns split 1, and with three rods
it returns split disks − 1; the comments beside those returns
(hanoi_towers_solver.py:105 and :109) say 0.

The test file calls the two entry points by older names
(`calc_min_steps_and_split`, `hanoi_get_solution`); the model reads them as
`get_min_steps_and_split` and `get_solution`. Its expected move counts all
agree with the code. Its expected splits agree only in part:

- They agree for (1, 3) → 0, (4, 5) → 2, (4, 8) → 4, (5, 8) → 2 and
  (5, 12) → 4 (`PinnedBaseCases` and the `PinnedSplit…` lemmas).
- The expected 0 for (2, 1), (3, 1), (3, 2), (3, 8) and (4, 2) disagrees: the
  code gives 1, 1, 1, 7 and 1 (`PinnedBaseCases`).
- The expected 2 for (4, 4), (5, 5), (7, 14), (10, 25), (12, 12), (13, 25) and
  (19, 19) disagrees: the code gives 1 (`SplitOneForPinnedShapes`). Splitting
  off one disk already reaches the minimum there, and a later split that only
  ties does not replace it (`FourRodsFourDisksSplit`).

## Model

| member | source | states |
|---|---|---|
| SplitOptimizer.MinStepsAndSplit | hanoi_towers_solver.py:85-139 | a result of at least one move exactly for the solvable shapes (at least one disk, at least two rods, and a third rod when there are several disks); (-1, 0) for every other shape; a split strictly between 0 and the disk count whenever there are two or more disks |
| SplitOptimizer.Scan | hanoi_towers_solver.py:111-131 | the loop over the splits from lo upwards: it returns the starting best unchanged, or a solvable result whose split lies in [lo, disks) |
| SplitOptimizer.ScanStep | hanoi_towers_solver.py:121-131 | examining one more split keeps the search state an argmin over the splits seen so far: cost equal to its split's cost, no seen split cheaper, every smaller split strictly dearer |
| SplitOptimizer.ScanIsArgmin | hanoi_towers_solver.py:121-139 | the full loop, from any argmin state (or the initial (-1, 0)), ends in an argmin over all splits in [1, disks) |
| SplitOptimizer.GeneralCaseIsArgmin | hanoi_towers_solver.py:111-139 | for at least four rods and at least as many disks as rods: the split is in [1, disks); the cost is that split's candidate cost and at most every candidate's; every smaller split is strictly dearer, so ties keep the smallest split |
| SplitOptimizer.UnsolvableShapes | hanoi_towers_solver.py:91-101 | fewer than one disk, fewer than two rods, or two rods with several disks give exactly (-1, 0) |
| SplitOptimizer.ClosedForms | hanoi_towers_solver.py:95-109 | one disk gives (1, 1); fewer disks than rods gives (2·disks − 1, 1); three rods gives (2^disks − 1, disks − 1) |
| SplitOptimizer.SplitDecomposes | hanoi_towers_solver.py:103-131 | with at least three rods and two disks, the minimum is twice the optimum for the split with all rods plus the optimum for the rest with one rod fewer; with three rods the rest is one disk |
| SplitOptimizer.LowerBound | hanoi_towers_solver.py:104-131 | the minimum is at least 2·disks − 1, at least 4·disks − 2·rods + 1, and at least 8·disks − ThirdStretchOffset(rods) |
| SplitOptimizer.SecondStretch | hanoi_towers_solver.py:104-131 | from rods − 1 disks up to rods − 1 + Tri(rods − 1) disks, the minimum is exactly 4·disks − 2·rods + 1 |
| SplitOptimizer.DearerIsNotSplit | hanoi_towers_solver.py:129-131 | in the general case, a split that costs more than the minimum is never the split returned |
| SplitOptimizer.ReachingBoundsSplit | hanoi_towers_solver.py:129-131 | in the general case, a split that reaches the minimum bounds the returned split from above, since only a strictly cheaper split replaces the best one |
| SplitOptimizer.PinnedBaseCases | test_hanoi_towers_solver.py:7-10 | the code's full results for (1, 3), (2, 1), (3, 1), (3, 2), (4, 2) and (3, 8): (-1, 0), (1, 1), (1, 1), (3, 1), (3, 1) and (255, 7), so the pinned move counts hold and only the split of (1, 3) matches the pinned one |
| SplitOptimizer.PinnedSecondStretch | test_hanoi_towers_solver.py:10-12 | the pinned minimum counts 9, 13, 11, 23 and 43 for (4, 4), (4, 5), (5, 5), (5, 8) and (7, 14) |
| SplitOptimizer.PinnedSecondStretchManyRods | test_hanoi_towers_solver.py:13-16 | the pinned minimum counts 81, 25, 75 and 39 for (10, 25), (12, 12), (13, 25) and (19, 19) |
| SplitOptimizer.PinnedFourRodsEightDisks | test_hanoi_towers_solver.py:10 | the pinned minimum 33 for four rods and eight disks |
| SplitOptimizer.PinnedFiveRodsTwelveDisks | test_hanoi_towers_solver.py:11 | the pinned minimum 47 for five rods and twelve disks |
| SplitOptimizer.FourRodsFourDisksSplit | hanoi_towers_solver.py:129-131 | four rods and four disks give (9, 1), although split 2 also costs 9: a tie keeps the smaller split |
| SplitOptimizer.SplitOneWhenRestOnSecondStretch | hanoi_towers_solver.py:121-131 | with at least four rods and as many disks as rods, when the disks left after splitting off one still lie on the second stretch for one rod fewer, the result is exactly (4·disks − 2·rods + 1, 1) |
| SplitOptimizer.SplitOneForPinnedShapes | test_hanoi_towers_solver.py:10-16 | the code's split is 1 for (4, 4), (5, 5), (7, 14), (10, 25), (12, 12), (13, 25) and (19, 19), where split 2 is pinned |
| SplitOptimizer.PinnedSplitFourRodsFiveDisks | test_hanoi_towers_solver.py:10 | the code's split for four rods and five disks is the pinned 2 |
| SplitOptimizer.PinnedSplitFourRodsEightDisks | test_hanoi_towers_solver.py:10 | the code's split for four rods and eight disks is the pinned 4 |
| SplitOptimizer.PinnedSplitFiveRodsEightDisks | test_hanoi_towers_solver.py:11 | the code's split for five rods and eight disks is the pinned 2 |
| SplitOptimizer.FourRodsThirdStretchBounds | hanoi_towers_solver.py:104-131 | four rods with 9, 10 and 11 disks need at least 41, 49 and 57 moves |
| SplitOptimizer.PinnedSplitFiveRodsTwelveDisks | test_hanoi_towers_solver.py:11 | the code's split for five rods and twelve disks is the pinned 4 |
| SplitOptimizer.Memo.constructor | hanoi_towers_solver.py:85 | the cache starts empty, and an empty table is consistent |
| SplitOptimizer.Memo.Get | hanoi_towers_solver.py:85-139 | the cached query returns exactly the recurrence's value; afterwards the key is cached, no key is dropped, a cached key leaves the table as it was, and every entry still equals the recurrence |
| SplitOptimizer.Memo.Search | hanoi_towers_solver.py:111-139 | the loop over the splits, querying the cache, computes exactly what the argmin search Scan specifies, and keeps the table consistent |
| Towers.Apply | test_hanoi_towers_solver.py:35-42 | a legal move keeps the rod count, the stacking order and the multiset of disks; it removes the top of the source rod, puts that disk on the target rod, and leaves every other rod as it was |
| Towers.MoveTopKeepsStacked | test_hanoi_towers_solver.py:39-40 | putting a disk only on an empty rod or on a larger disk keeps every rod ordered |
| Towers.MoveTopKeepsDisks | hanoi_towers_solver.py:40-43 | popping a disk from one rod and pushing it onto another neither loses nor creates a disk |
| Towers.Replay | test_hanoi_towers_solver.py:33-42 | a replay that succeeds keeps the rod count, the multiset of disks and the stacking order |
| Towers.ReplayConcat | test_hanoi_towers_solver.py:35-42 | replaying two move lists one after the other is replaying their concatenation |
| Towers.Tower | hanoi_towers_solver.py:30-32 | the initial tower holds disks disks, ordered, with the largest at the bottom and disk 0 on top |
| MoveGenerator.RodRange | hanoi_towers_solver.py:74-75 | the intermediate rods are exactly the rods strictly between the first and the last one, rods − 2 of them |
| MoveGenerator.SingleMove | hanoi_towers_solver.py:58-61 | moving a single disk is one legal step whose replay is the transfer of that disk |
| MoveGenerator.FirstPart | hanoi_towers_solver.py:68-69 | the first recursive call, the top split disks onto the chosen intermediate with the target added to the free rods, meets the transfer precondition |
| MoveGenerator.SecondPart | hanoi_towers_solver.py:70 | after the first part, the second call, the next disks straight to the target without the intermediate, meets the transfer precondition |
| MoveGenerator.ThirdPart | hanoi_towers_solver.py:71 | after the first two parts, the third call, the split disks from the intermediate to the target with the source added, meets the transfer precondition |
| MoveGenerator.TransferThreeParts | hanoi_towers_solver.py:68-71 | the three partial transfers compose to one transfer of all the disks, in their order |
| MoveGenerator.CountParts | hanoi_towers_solver.py:64-71 | the move counts of the three parts add up to the minimum for two rods plus the given ones |
| MoveGenerator.ReplayParts | hanoi_towers_solver.py:68-71 | three consecutive legal replays make one legal replay of all the moves recorded, and the earlier moves are kept |
| MoveGenerator.WithinParts | hanoi_towers_solver.py:68-71 | the three parts touch only the source, the target and the given intermediate rods |
| MoveGenerator.SolvedSplit | hanoi_towers_solver.py:64-71 | three solved parts make one solved transfer: the exact board, the exact count, a legal replay and only the allowed rods |
| MoveGenerator.TransferNone | hanoi_towers_solver.py:53-54 | moving no disk leaves the board unchanged |
| MoveGenerator.TwoTransfers | hanoi_towers_solver.py:68-70 | after the first two parts, the source keeps all but the top k disks, the target holds its old stack plus the k − split disks below the top group, the intermediate holds its old stack plus the top group, and every other rod is unchanged |
| MoveGenerator.TransferAllIsFinal | hanoi_towers_solver.py:74-77 | transferring every disk from the first rod to the last one turns the initial board into the final one |
| MoveGenerator.InitialCanTransfer | hanoi_towers_solver.py:29-34 | the initial board is well stacked, and moving the whole tower from the first rod to the last with the rods in between as helpers meets the transfer precondition |
| MoveGenerator.SolvedFromStart | hanoi_towers_solver.py:74-77 | a solved transfer of the whole tower from the initial board has exactly the recurrence's minimum of moves and replays to the final board |
| MoveGenerator.Solver.constructor | hanoi_towers_solver.py:29-34 | all disks on the first rod, the other rods empty, and no move recorded |
| MoveGenerator.Solver.MoveDisk | hanoi_towers_solver.py:40-43 | the board becomes the old one with the top of the source rod moved onto the target rod, and exactly that step is appended to the solution |
| MoveGenerator.Solver.SolveRecursively | hanoi_towers_solver.py:52-66 | it fails exactly when several disks are to move and no intermediate rod is given, and then changes nothing. Otherwise the board becomes the old one with the top k disks transferred, earlier moves are kept, and the new moves number exactly the recurrence's minimum for two rods plus the given ones, replay legally and touch only the source, the target and the given rods |
| MoveGenerator.Solver.SolveInThreeParts | hanoi_towers_solver.py:68-71 | the split step never fails, and produces the transfer of all k disks with the same guarantees |
| MoveGenerator.GetSolution | hanoi_towers_solver.py:21-77 | fewer than one disk is an error, checked first; then fewer than two rods; two rods with several disks is not solvable. Otherwise the moves replay legally from all disks on the first rod to all disks on the last one, and there are exactly the recurrence's minimum of them |

## Left out

- The script entry point, which solves four rods and eight disks and prints the moves, is not modelled; it is output only.
- hanoi_towers_demo.py is not part of this model. It animates a solution and computes nothing of its own.
- The exception messages are not modelled, and neither is the difference between `ValueError` and a plain exception. The three error conditions of the solver are the values of `MoveGenerator.Error`.
- MoveGenerator.Solver.SolveRecursively: the source raises when the query for the split returns a negative minimum. That check is proved never to fire, so no error value stands for it: whenever it is reached there is an intermediate rod, hence at least three rods.
- MoveGenerator.Solver.SolveInThreeParts: `set.pop()` removes an unspecified element. The model picks any member of the set, and every property is proved for every choice. Which rod the source actually picks, and hence the exact move list, is not captured.
- MoveGenerator.Solver.SolveInThreeParts: `pop` also shrinks the set object the caller passed in. Every caller passes a fresh set, either built on the spot or copied, so the model passes set values and does not model that aliasing.
- The move generator queries the pure recurrence rather than the cache. The cache does not change any answer, since `Memo.Get` is proved to return the recurrence's value.
- The rods are `deque` objects in the source. They are modelled as sequences whose last element is the top.
- Recursion depth is not modelled. The source recurses about as deeply as there are disks: the optimizer's candidate d = 1 asks for one disk fewer with one rod fewer (hanoi_towers_solver.py:121-124), and the move generator's middle part recurses with one rod fewer. Python's default recursion limit of 1000 therefore makes large inputs, such as 2000 rods and 2000 disks, fail with `RecursionError`. The model has no depth limit and returns the solution.

