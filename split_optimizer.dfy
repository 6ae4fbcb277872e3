/**
  The split optimizer: the Frame-Stewart recurrence for the multi-rod Tower of
  Hanoi. For a number of rods and disks it yields the fewest moves and the
  number of top disks moved as a first group (the split); a minimum of -1 is
  the in-band "unsolvable" sentinel.
 */
module SplitOptimizer {

  /** Fewest moves and the chosen split; minSteps == -1 means "no solution". */
  datatype SplitResult = SplitResult(minSteps: int, split: int)

  const Unsolvable := SplitResult(-1, 0)

  function Pow2(n: nat): (p: nat)
    ensures p >= 1
  {
    if n == 0 then 1 else 2 * Pow2(n - 1)
  }

  /** The shapes for which a legal solution exists. */
  predicate Solvable(rods: int, disks: int) {
    disks >= 1 && rods >= 2 && (disks == 1 || rods >= 3)
  }

  /**
    The recurrence, with its base cases in the order the source checks them and
    the argmin search of the general case delegated to Scan.
   */
  function MinStepsAndSplit(rods: int, disks: int): (r: SplitResult)
    ensures Solvable(rods, disks) <==> r.minSteps >= 1
    ensures !Solvable(rods, disks) ==> r == Unsolvable
    ensures Solvable(rods, disks) && disks >= 2 ==> 1 <= r.split < disks
    decreases rods, disks, disks
  {
    if disks < 1 || rods < 2 then Unsolvable
    else if disks == 1 then SplitResult(1, 1)
    else if rods == 2 then Unsolvable
    else if disks < rods then SplitResult(2 * disks - 1, 1)
    else if rods == 3 then SplitResult(Pow2(disks) - 1, disks - 1)
    else Scan(rods, disks, 1, Unsolvable)
  }

  /**
    The general case's loop over the candidate splits d in [lo, disks): a
    candidate is skipped when either sub-problem is unsolvable, and replaces the
    best so far only when strictly cheaper (or when nothing was found yet).
   */
  function Scan(rods: int, disks: int, lo: int, best: SplitResult): (r: SplitResult)
    requires rods >= 3 && 1 <= lo <= disks
    requires best == Unsolvable || (best.minSteps >= 1 && 1 <= best.split < lo)
    ensures r == best || (r.minSteps >= 1 && lo <= r.split < disks)
    decreases rods, disks, disks - lo
  {
    if lo == disks then best
    else
      var c1 := MinStepsAndSplit(rods, lo);
      var c2 := MinStepsAndSplit(rods - 1, disks - lo);
      if c1.minSteps < 1 || c2.minSteps < 1 then Scan(rods, disks, lo + 1, best)
      else
        var steps := 2 * c1.minSteps + c2.minSteps;
        if steps < best.minSteps || best.minSteps == -1 then Scan(rods, disks, lo + 1, SplitResult(steps, lo))
        else Scan(rods, disks, lo + 1, best)
  }

  /** Scan advances by one candidate the way the loop body does. */
  lemma ScanUnfolds(rods: int, disks: int, lo: int, best: SplitResult, c1: SplitResult, c2: SplitResult)
    returns (next: SplitResult)
    requires rods >= 3 && 1 <= lo < disks
    requires best == Unsolvable || (best.minSteps >= 1 && 1 <= best.split < lo)
    requires c1 == MinStepsAndSplit(rods, lo) && c2 == MinStepsAndSplit(rods - 1, disks - lo)
    ensures next == best || (next.minSteps >= 1 && next.split == lo)
    ensures Scan(rods, disks, lo, best) == Scan(rods, disks, lo + 1, next)
    ensures next == if c1.minSteps < 1 || c2.minSteps < 1 then best
      else if 2 * c1.minSteps + c2.minSteps < best.minSteps || best.minSteps == -1
      then SplitResult(2 * c1.minSteps + c2.minSteps, lo)
      else best
  {
    if c1.minSteps < 1 || c2.minSteps < 1 {
      next := best;
    } else if 2 * c1.minSteps + c2.minSteps < best.minSteps || best.minSteps == -1 {
      next := SplitResult(2 * c1.minSteps + c2.minSteps, lo);
    } else {
      next := best;
    }
  }

  /**
    Cost of splitting off the top d disks: move them out and back with all rods,
    and move the rest directly with one rod fewer.
   */
  function Candidate(rods: int, disks: int, d: int): int {
    2 * MinStepsAndSplit(rods, d).minSteps + MinStepsAndSplit(rods - 1, disks - d).minSteps
  }

  /** What the partial search over [1, lo) has established about best. */
  ghost predicate ScanInvariant(rods: int, disks: int, lo: int, best: SplitResult) {
    1 <= best.split < lo &&
    best.minSteps == Candidate(rods, disks, best.split) &&
    (forall d :: 1 <= d < lo ==> best.minSteps <= Candidate(rods, disks, d)) &&
    (forall d :: 1 <= d < best.split ==> best.minSteps < Candidate(rods, disks, d))
  }

  /** One candidate of the general case is examined: the search state stays an argmin. */
  lemma ScanStep(rods: int, disks: int, lo: int, best: SplitResult) returns (next: SplitResult)
    requires rods >= 4 && disks >= rods && 1 <= lo < disks
    requires (lo == 1 && best == Unsolvable) || ScanInvariant(rods, disks, lo, best)
    ensures ScanInvariant(rods, disks, lo + 1, next)
    ensures Scan(rods, disks, lo, best) == Scan(rods, disks, lo + 1, next)
  {
    var c1 := MinStepsAndSplit(rods, lo);
    var c2 := MinStepsAndSplit(rods - 1, disks - lo);
    assert c1.minSteps >= 1 && c2.minSteps >= 1;
    var steps := 2 * c1.minSteps + c2.minSteps;
    assert steps == Candidate(rods, disks, lo);
    if steps < best.minSteps || best.minSteps == -1 {
      next := SplitResult(steps, lo);
    } else {
      next := best;
    }
  }

  lemma {:induction false} ScanIsArgmin(rods: int, disks: int, lo: int, best: SplitResult)
    requires rods >= 4 && disks >= rods && 1 <= lo <= disks
    requires (lo == 1 && best == Unsolvable) || ScanInvariant(rods, disks, lo, best)
    ensures ScanInvariant(rods, disks, disks, Scan(rods, disks, lo, best))
    decreases disks - lo
  {
    if lo < disks {
      var next := ScanStep(rods, disks, lo, best);
      ScanIsArgmin(rods, disks, lo + 1, next);
    }
  }

  /**
    General case (at least four rods, at least as many disks as rods): the
    result is the minimum of the candidate costs over d in [1, disks), every
    candidate is solvable, and the split is the smallest d reaching it.
   */
  lemma GeneralCaseIsArgmin(rods: int, disks: int)
    requires rods >= 4 && disks >= rods
    ensures var r := MinStepsAndSplit(rods, disks);
      1 <= r.split < disks &&
      r.minSteps == Candidate(rods, disks, r.split) &&
      (forall d :: 1 <= d < disks ==> r.minSteps <= Candidate(rods, disks, d)) &&
      (forall d :: 1 <= d < r.split ==> r.minSteps < Candidate(rods, disks, d))
  {
    ScanIsArgmin(rods, disks, 1, Unsolvable);
  }

  /** A split that costs more than the minimum is not the chosen split. */
  lemma DearerIsNotSplit(rods: int, disks: int, d: int)
    requires rods >= 4 && disks >= rods && 1 <= d < disks
    requires Candidate(rods, disks, d) > MinStepsAndSplit(rods, disks).minSteps
    ensures MinStepsAndSplit(rods, disks).split != d
  {
    GeneralCaseIsArgmin(rods, disks);
  }

  /** A split that reaches the minimum bounds the chosen split from above. */
  lemma ReachingBoundsSplit(rods: int, disks: int, s: int)
    requires rods >= 4 && disks >= rods && 1 <= s < disks
    requires Candidate(rods, disks, s) == MinStepsAndSplit(rods, disks).minSteps
    ensures 1 <= MinStepsAndSplit(rods, disks).split <= s
  {
    GeneralCaseIsArgmin(rods, disks);
    var r := MinStepsAndSplit(rods, disks);
    assert s < r.split ==> r.minSteps < Candidate(rods, disks, s);
  }

  /** The shapes without a solution yield (-1, 0). */
  lemma UnsolvableShapes(rods: int, disks: int)
    requires disks < 1 || rods < 2 || (rods == 2 && disks > 1)
    ensures MinStepsAndSplit(rods, disks) == SplitResult(-1, 0)
  {
  }

  /** The closed forms of the base cases. */
  lemma ClosedForms(rods: int, disks: int)
    requires rods >= 2
    ensures disks == 1 ==> MinStepsAndSplit(rods, disks) == SplitResult(1, 1)
    ensures 1 < disks < rods ==> MinStepsAndSplit(rods, disks) == SplitResult(2 * disks - 1, 1)
    ensures rods == 3 && disks >= 2 ==> MinStepsAndSplit(rods, disks) == SplitResult(Pow2(disks) - 1, disks - 1)
  {
  }

  /**
    Whenever a split is taken (three or more rods, two or more disks) its cost
    equals the minimum: two moves of the top group with all rods plus one move
    of the rest with one rod fewer. With three rods the rest is a single disk.
    This is what makes the move generator's count come out exact.
   */
  lemma SplitDecomposes(rods: int, disks: int)
    requires rods >= 3 && disks >= 2
    ensures var r := MinStepsAndSplit(rods, disks);
      1 <= r.split < disks &&
      r.minSteps == 2 * MinStepsAndSplit(rods, r.split).minSteps
                    + MinStepsAndSplit(rods - 1, disks - r.split).minSteps &&
      (rods == 3 ==> r.split == disks - 1)
  {
    var r := MinStepsAndSplit(rods, disks);
    if disks < rods {
      assert r.split == 1;
    } else if rods == 3 {
      ClosedForms(3, disks - 1);
    } else {
      GeneralCaseIsArgmin(rods, disks);
    }
  }

  /** Triangular numbers: Tri(k) == k * (k - 1) / 2. */
  function Tri(k: nat): nat {
    if k == 0 then 0 else Tri(k - 1) + (k - 1)
  }

  /**
    Offset of the third linear stretch of the recurrence, where each extra disk
    costs eight moves: it starts at rods - 1 + Tri(rods - 1) disks.
   */
  function ThirdStretchOffset(rods: int): int
    requires rods >= 1
  {
    4 * (rods - 1 + Tri(rods - 1)) + 2 * rods - 1
  }

  lemma {:induction false} Pow2Bound(n: nat)
    ensures n >= 2 ==> Pow2(n) >= 4 * n - 4
    ensures Pow2(n) >= 8 * n - 16
  {
    if n > 2 {
      Pow2Bound(n - 1);
    }
  }

  /**
    Lower bound of the recurrence: every disk but the largest moves at least
    twice (2 * disks - 1), beyond rods - 1 disks every further disk costs at
    least four moves, and beyond rods - 1 + Tri(rods - 1) disks at least eight.
   */
  lemma {:induction false} LowerBound(rods: int, disks: int)
    requires rods >= 3 && disks >= 1
    ensures MinStepsAndSplit(rods, disks).minSteps >= 2 * disks - 1
    ensures MinStepsAndSplit(rods, disks).minSteps >= 4 * disks - 2 * rods + 1
    ensures MinStepsAndSplit(rods, disks).minSteps >= 8 * disks - ThirdStretchOffset(rods)
    decreases rods, disks
  {
    if disks >= rods && rods == 3 {
      Pow2Bound(disks);
    } else if disks >= rods {
      assert Tri(rods - 1) == Tri(rods - 2) + rods - 2;
      assert ThirdStretchOffset(rods) == ThirdStretchOffset(rods - 1) + 4 * rods - 2;
      SplitDecomposes(rods, disks);
      var s := MinStepsAndSplit(rods, disks).split;
      LowerBound(rods, s);
      LowerBound(rods - 1, disks - s);
      var top, rest := MinStepsAndSplit(rods, s).minSteps, MinStepsAndSplit(rods - 1, disks - s).minSteps;
      assert MinStepsAndSplit(rods, disks).minSteps == 2 * top + rest;
    } else {
      assert ThirdStretchOffset(rods) >= 6 * rods - 5;
    }
  }

  /**
    Closed form of the second linear stretch of the recurrence: from rods - 1
    disks up to rods - 1 + Tri(rods - 1) disks each extra disk costs four moves.
   */
  lemma {:induction false} SecondStretch(rods: int, disks: int)
    requires rods >= 3 && rods - 1 <= disks <= rods - 1 + Tri(rods - 1)
    ensures MinStepsAndSplit(rods, disks).minSteps == 4 * disks - 2 * rods + 1
    decreases rods
  {
    if disks >= rods && rods == 3 {
      assert Tri(2) == 1;
      assert disks == 3;
    } else if disks >= rods {
      LowerBound(rods, disks);
      var d := if disks - rods + 2 - Tri(rods - 2) >= 1 then disks - rods + 2 - Tri(rods - 2) else 1;
      assert Tri(rods - 1) == Tri(rods - 2) + rods - 2;
      SecondStretch(rods - 1, disks - d);
      GeneralCaseIsArgmin(rods, disks);
      assert MinStepsAndSplit(rods, d).minSteps == 2 * d - 1;
      assert Candidate(rods, disks, d) == 4 * disks - 2 * rods + 1;
    }
  }

  /**
    The pinned shapes decided by the base cases and the three-rod closed form,
    with the splits the code returns for them.
   */
  lemma PinnedBaseCases()
    ensures MinStepsAndSplit(1, 3) == SplitResult(-1, 0)
    ensures MinStepsAndSplit(2, 1) == SplitResult(1, 1)
    ensures MinStepsAndSplit(3, 1) == SplitResult(1, 1)
    ensures MinStepsAndSplit(3, 2) == SplitResult(3, 1)
    ensures MinStepsAndSplit(4, 2) == SplitResult(3, 1)
    ensures MinStepsAndSplit(3, 8) == SplitResult(255, 7)
  {
  }

  /** The pinned values that lie on the second linear stretch, with few rods. */
  lemma PinnedSecondStretch()
    ensures MinStepsAndSplit(4, 4).minSteps == 9
    ensures MinStepsAndSplit(4, 5).minSteps == 13
    ensures MinStepsAndSplit(5, 5).minSteps == 11
    ensures MinStepsAndSplit(5, 8).minSteps == 23
    ensures MinStepsAndSplit(7, 14).minSteps == 43
  {
    SecondStretch(4, 4);
    SecondStretch(4, 5);
    SecondStretch(5, 5);
    SecondStretch(5, 8);
    SecondStretch(7, 14);
  }

  /** The pinned values that lie on the second linear stretch, with many rods. */
  lemma PinnedSecondStretchManyRods()
    ensures MinStepsAndSplit(10, 25).minSteps == 81
    ensures MinStepsAndSplit(12, 12).minSteps == 25
    ensures MinStepsAndSplit(13, 25).minSteps == 75
    ensures MinStepsAndSplit(19, 19).minSteps == 39
  {
    assert Tri(9) == 36;
    SecondStretch(10, 25);
    SecondStretch(12, 12);
    SecondStretch(13, 25);
    SecondStretch(19, 19);
  }

  /**
    With four rods and four disks, splitting off one disk already reaches the
    minimum, so the smallest optimal split is 1 (two also reaches it).
   */
  lemma FourRodsFourDisksSplit()
    ensures MinStepsAndSplit(4, 4) == SplitResult(9, 1)
    ensures Candidate(4, 4, 2) == 9
  {
    GeneralCaseIsArgmin(4, 4);
    assert Candidate(4, 4, 1) == 9;
  }

  /**
    A pinned value on the third stretch: the lower bound meets the cost of
    splitting off four disks.
   */
  lemma PinnedFourRodsEightDisks()
    ensures MinStepsAndSplit(4, 8).minSteps == 33
  {
    SecondStretch(4, 4);
    LowerBound(4, 8);
    GeneralCaseIsArgmin(4, 8);
    assert Candidate(4, 8, 4) == 33;
  }

  /** As above, for five rods and twelve disks. */
  lemma PinnedFiveRodsTwelveDisks()
    ensures MinStepsAndSplit(5, 12).minSteps == 47
  {
    PinnedFourRodsEightDisks();
    assert Tri(4) == 6;
    LowerBound(5, 12);
    GeneralCaseIsArgmin(5, 12);
    assert Candidate(5, 12, 4) == 47;
  }

  /**
    When the disks left after splitting off one disk still lie on the second
    stretch of one rod fewer, splitting off one disk reaches the lower bound,
    so the smallest optimal split is 1.
   */
  lemma SplitOneWhenRestOnSecondStretch(rods: int, disks: int)
    requires rods >= 4 && disks >= rods && disks - 1 <= rods - 2 + Tri(rods - 2)
    ensures MinStepsAndSplit(rods, disks) == SplitResult(4 * disks - 2 * rods + 1, 1)
  {
    LowerBound(rods, disks);
    SecondStretch(rods - 1, disks - 1);
    GeneralCaseIsArgmin(rods, disks);
    assert Candidate(rods, disks, 1) == 4 * disks - 2 * rods + 1;
  }

  /** The shapes where the code's split is 1 although an expected split of 2 is pinned. */
  lemma SplitOneForPinnedShapes()
    ensures MinStepsAndSplit(4, 4).split == 1
    ensures MinStepsAndSplit(5, 5).split == 1
    ensures MinStepsAndSplit(7, 14).split == 1
    ensures MinStepsAndSplit(10, 25).split == 1
    ensures MinStepsAndSplit(12, 12).split == 1
    ensures MinStepsAndSplit(13, 25).split == 1
    ensures MinStepsAndSplit(19, 19).split == 1
  {
    SplitOneWhenRestOnSecondStretch(4, 4);
    SplitOneWhenRestOnSecondStretch(5, 5);
    SplitOneWhenRestOnSecondStretch(7, 14);
    assert Tri(8) == 28;
    SplitOneWhenRestOnSecondStretch(10, 25);
    SplitOneWhenRestOnSecondStretch(12, 12);
    SplitOneWhenRestOnSecondStretch(13, 25);
    SplitOneWhenRestOnSecondStretch(19, 19);
  }

  /** Four rods and five disks: the pinned split 2 agrees with the code's. */
  lemma PinnedSplitFourRodsFiveDisks()
    ensures MinStepsAndSplit(4, 5).split == 2
  {
    SecondStretch(4, 5);
    assert Candidate(4, 5, 1) == 17;
    DearerIsNotSplit(4, 5, 1);
    assert Candidate(4, 5, 2) == 13;
    ReachingBoundsSplit(4, 5, 2);
  }

  /** Four rods and eight disks: the pinned split 4 agrees with the code's. */
  lemma PinnedSplitFourRodsEightDisks()
    ensures MinStepsAndSplit(4, 8).split == 4
  {
    PinnedFourRodsEightDisks();
    assert Candidate(4, 8, 1) == 129;
    DearerIsNotSplit(4, 8, 1);
    assert Candidate(4, 8, 2) == 69;
    DearerIsNotSplit(4, 8, 2);
    assert Candidate(4, 8, 3) == 41;
    DearerIsNotSplit(4, 8, 3);
    assert Candidate(4, 8, 4) == 33;
    ReachingBoundsSplit(4, 8, 4);
  }

  /** Five rods and eight disks: the pinned split 2 agrees with the code's. */
  lemma PinnedSplitFiveRodsEightDisks()
    ensures MinStepsAndSplit(5, 8).split == 2
  {
    SecondStretch(5, 8);
    assert ThirdStretchOffset(4) == 31;
    LowerBound(4, 7);
    assert Candidate(5, 8, 1) >= 27;
    DearerIsNotSplit(5, 8, 1);
    SecondStretch(4, 6);
    assert Candidate(5, 8, 2) == 23;
    ReachingBoundsSplit(5, 8, 2);
  }

  /** Lower bounds for four rods beyond the second stretch, from LowerBound. */
  lemma FourRodsThirdStretchBounds()
    ensures MinStepsAndSplit(4, 9).minSteps >= 41
    ensures MinStepsAndSplit(4, 10).minSteps >= 49
    ensures MinStepsAndSplit(4, 11).minSteps >= 57
  {
    assert ThirdStretchOffset(4) == 31;
    LowerBound(4, 9);
    LowerBound(4, 10);
    LowerBound(4, 11);
  }

  /** Five rods and twelve disks: the pinned split 4 agrees with the code's. */
  lemma PinnedSplitFiveRodsTwelveDisks()
    ensures MinStepsAndSplit(5, 12).split == 4
  {
    PinnedFiveRodsTwelveDisks();
    PinnedFourRodsEightDisks();
    FourRodsThirdStretchBounds();
    assert Candidate(5, 12, 1) >= 59;
    DearerIsNotSplit(5, 12, 1);
    assert Candidate(5, 12, 2) >= 55;
    DearerIsNotSplit(5, 12, 2);
    assert Candidate(5, 12, 3) >= 51;
    DearerIsNotSplit(5, 12, 3);
    assert Candidate(5, 12, 4) == 47;
    ReachingBoundsSplit(5, 12, 4);
  }

  /**
    The optimizer with its memo table made explicit: Get answers from the table
    when it can, otherwise computes the result (the general case by the loop
    over candidate splits, querying the table recursively) and stores it. Every
    entry of the table is the recurrence's value for its key.
   */
  class Memo {
    var table: map<(int, int), SplitResult>

    ghost predicate Valid()
      reads this
    {
      forall key :: key in table ==> table[key] == MinStepsAndSplit(key.0, key.1)
    }

    constructor ()
      ensures Valid() && table == map[]
    {
      table := map[];
    }

    method Get(rods: int, disks: int) returns (r: SplitResult)
      requires Valid()
      modifies this
      ensures Valid()
      ensures r == MinStepsAndSplit(rods, disks)
      ensures (rods, disks) in table && old(table).Keys <= table.Keys
      ensures (rods, disks) in old(table) ==> table == old(table)
      decreases rods, disks, 1
    {
      if (rods, disks) in table {
        return table[(rods, disks)];
      }
      if disks < 1 || rods < 2 {
        r := SplitResult(-1, 0);
      } else if disks == 1 {
        r := SplitResult(1, 1);
      } else if rods == 2 {
        r := SplitResult(-1, 0);
      } else if disks < rods {
        r := SplitResult(2 * disks - 1, 1);
      } else if rods == 3 {
        r := SplitResult(Pow2(disks) - 1, disks - 1);
      } else {
        r := Search(rods, disks);
      }
      table := table[(rods, disks) := r];
    }

    /**
      The general case's loop over candidate splits d in [1, disks), querying
      the table for the sub-problems; it computes what Scan specifies.
     */
    method Search(rods: int, disks: int) returns (r: SplitResult)
      requires Valid()
      requires rods >= 3 && disks >= 1
      modifies this
      ensures Valid()
      ensures r == Scan(rods, disks, 1, Unsolvable)
      ensures old(table).Keys <= table.Keys
      decreases rods, disks, 0
    {
      var split, minSteps := 0, -1;
      var d := 1;
      ghost var target := Scan(rods, disks, 1, Unsolvable);
      while d < disks
        invariant 1 <= d <= disks
        invariant Valid()
        invariant old(table).Keys <= table.Keys
        invariant SplitResult(minSteps, split) == Unsolvable || (minSteps >= 1 && 1 <= split < d)
        invariant Scan(rods, disks, d, SplitResult(minSteps, split)) == target
      {
        var c1 := Get(rods, d);
        var c2 := Get(rods - 1, disks - d);
        ghost var next := ScanUnfolds(rods, disks, d, SplitResult(minSteps, split), c1, c2);
        assert Scan(rods, disks, d + 1, next) == target;
        if c1.minSteps < 1 || c2.minSteps < 1 {
          assert next == SplitResult(minSteps, split);
          d := d + 1;
          continue;
        }
        var steps := 2 * c1.minSteps + c2.minSteps;
        if steps < minSteps || minSteps == -1 {
          minSteps, split := steps, d;
        }
        assert next == SplitResult(minSteps, split);
        d := d + 1;
      }
      r := SplitResult(minSteps, split);
    }
  }
}
