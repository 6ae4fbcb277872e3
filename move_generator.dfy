/**
  The move generator: expands the optimizer's split decisions into a concrete
  sequence of single-disk moves over a mutable board, from all disks on the
  first rod to all disks on the last rod.
 */
module MoveGenerator {
  import opened Wrappers
  import opened Towers
  import opened SplitOptimizer

  /**
    Why no solution is returned: fewer than one disk, fewer than two rods (the
    disk count is checked first), or no intermediate rod for several disks.
   */
  datatype Error = InvalidDisks | InvalidRods | NotSolvable

  /** The top k disks of rod `from` moved, in the same order, onto rod `to`. */
  ghost function Transfer(b: Board, from: int, to: int, k: nat): Board
    requires 0 <= from < |b| && 0 <= to < |b| && from != to && k <= |b[from]|
  {
    var n := |b[from]|;
    b[from := b[from][..n - k]][to := b[to] + b[from][n - k..]]
  }

  /** Every step moves between rods of the given set only. */
  ghost predicate Within(moves: seq<Step>, rodSet: set<int>) {
    forall m :: m in moves ==> m.fromRod in rodSet && m.toRod in rodSet
  }

  /** Number of moves the recurrence allots to k disks with the given rods. */
  function MoveCount(rodCount: int, k: nat): int {
    if k == 0 then 0 else MinStepsAndSplit(rodCount, k).minSteps
  }

  /**
    What moving the top k disks of `from` onto `to` via `using` needs: distinct
    existing rods, enough disks, and every rod that may receive them empty or
    topped by a disk larger than all k (the lowest of them is the largest).
   */
  ghost predicate CanTransfer(b: Board, from: int, to: int, using: set<int>, k: nat) {
    0 <= from < |b| && 0 <= to < |b| && from != to &&
    from !in using && to !in using &&
    (forall u :: u in using ==> 0 <= u < |b|) &&
    k <= |b[from]| &&
    (k >= 1 ==> forall t :: t in using + {to} ==> Accepts(b[t], b[from][|b[from]| - k]))
  }

  /** One disk: the single recorded step replays legally to the transfer. */
  lemma SingleMove(b: Board, from: int, to: int, using: set<int>)
    requires CanTransfer(b, from, to, using, 1)
    ensures Legal(b, Step(Top(b[from]), from, to))
    ensures MoveTop(b, from, to) == Transfer(b, from, to, 1)
    ensures Replay(b, [Step(Top(b[from]), from, to)]) == Some(Transfer(b, from, to, 1))
  {
    var step := Step(Top(b[from]), from, to);
    assert Accepts(b[to], b[from][|b[from]| - 1]);
    assert b[from][|b[from]| - 1..] == [Top(b[from])];
    assert Replay(b, [step]) == Replay(Apply(b, step), []);
  }

  /** The first part of a split, the top s disks onto the intermediate, may go. */
  lemma FirstPart(b0: Board, from: int, to: int, inter: int, using: set<int>, k: nat, s: nat)
    requires WellStacked(b0) && CanTransfer(b0, from, to, using, k)
    requires inter in using && 1 <= s < k
    ensures CanTransfer(b0, from, inter, using - {inter} + {to}, s)
  {
    var a, n := b0[from], |b0[from]|;
    assert Stacked(a);
    assert a[n - k] > a[n - s];
    forall t | t in using - {inter} + {inter, to}
      ensures Accepts(b0[t], a[n - s])
    {
      assert t in using + {to};
    }
  }

  /** After the first part, the next k - s disks may go straight to the target. */
  lemma SecondPart(b0: Board, from: int, to: int, inter: int, using: set<int>, k: nat, s: nat)
    requires WellStacked(b0) && CanTransfer(b0, from, to, using, k)
    requires inter in using && 1 <= s < k
    ensures CanTransfer(Transfer(b0, from, inter, s), from, to, using - {inter}, k - s)
  {
    var a, n := b0[from], |b0[from]|;
    var b1 := Transfer(b0, from, inter, s);
    assert b1[from] == a[..n - s];
    assert b1[from][|b1[from]| - (k - s)] == a[n - k];
    forall t | t in using - {inter} + {to}
      ensures Accepts(b1[t], a[n - k])
    {
      assert b1[t] == b0[t];
    }
  }

  /**
    The board after the first two parts of a split: the source is down to the
    disks below the k moved, the intermediate holds the top s of them, the
    target the other k - s, and every other rod is as it was.
   */
  lemma TwoTransfers(b0: Board, from: int, to: int, inter: int, k: nat, s: nat)
    requires 0 <= from < |b0| && 0 <= to < |b0| && 0 <= inter < |b0|
    requires from != to && from != inter && to != inter
    requires 1 <= s < k <= |b0[from]|
    ensures var a, n := b0[from], |b0[from]|;
      var b1 := Transfer(b0, from, inter, s);
      k - s <= |b1[from]| &&
      var b2 := Transfer(b1, from, to, k - s);
      |b2| == |b0| &&
      b2[from] == a[..n - k] &&
      b2[to] == b0[to] + a[n - k..n - s] &&
      b2[inter] == b0[inter] + a[n - s..] &&
      forall r :: 0 <= r < |b0| && r != from && r != to && r != inter ==> b2[r] == b0[r]
  {
    var a, n := b0[from], |b0[from]|;
    var b1 := Transfer(b0, from, inter, s);
    assert b1[from] == a[..n - s] && b1[inter] == b0[inter] + a[n - s..] && b1[to] == b0[to];
    assert a[..n - s][..n - k] == a[..n - k] && a[..n - s][n - k..] == a[n - k..n - s];
  }

  /**
    After the first two parts, the s disks on the intermediate may go to the
    target: the target now holds only larger disks, and the source is down to
    disks larger than all k.
   */
  lemma ThirdPart(b0: Board, from: int, to: int, inter: int, using: set<int>, k: nat, s: nat)
    requires WellStacked(b0) && CanTransfer(b0, from, to, using, k)
    requires inter in using && 1 <= s < k
    ensures var b1 := Transfer(b0, from, inter, s);
      k - s <= |b1[from]| &&
      CanTransfer(Transfer(b1, from, to, k - s), inter, to, using - {inter} + {from}, s)
  {
    var a, n := b0[from], |b0[from]|;
    assert Stacked(a);
    TwoTransfers(b0, from, to, inter, k, s);
    var b2 := Transfer(Transfer(b0, from, inter, s), from, to, k - s);
    var m := |b2[inter]|;
    assert b2[inter][m - s] == a[n - s];
    assert a[n - k] > a[n - s];
    assert Accepts(b2[from], a[n - s]) by {
      if b2[from] != [] {
        assert Top(b2[from]) == a[n - k - 1];
      }
    }
    assert Accepts(b2[to], a[n - s]) by {
      assert Top(b2[to]) == a[n - s - 1];
    }
    forall t | t in using - {inter} + {from} + {to}
      ensures Accepts(b2[t], a[n - s])
    {
      if t != from && t != to {
        assert b2[t] == b0[t] && t in using + {to};
      }
    }
  }

  /** The three transfers of a split compose to one transfer of all k disks. */
  lemma TransferThreeParts(b0: Board, from: int, to: int, inter: int, k: nat, s: nat)
    requires 0 <= from < |b0| && 0 <= to < |b0| && 0 <= inter < |b0|
    requires from != to && from != inter && to != inter
    requires 1 <= s < k <= |b0[from]|
    ensures var b1 := Transfer(b0, from, inter, s);
      |b1[from]| >= k - s &&
      var b2 := Transfer(b1, from, to, k - s);
      |b2[inter]| >= s &&
      Transfer(b2, inter, to, s) == Transfer(b0, from, to, k)
  {
    var a, n := b0[from], |b0[from]|;
    TwoTransfers(b0, from, to, inter, k, s);
    var b2 := Transfer(Transfer(b0, from, inter, s), from, to, k - s);
    var b3 := Transfer(b2, inter, to, s);
    var m := |b2[inter]|;
    assert b2[inter][..m - s] == b0[inter] && b2[inter][m - s..] == a[n - s..];
    assert a[n - k..n - s] + a[n - s..] == a[n - k..];
    assert b3[to] == b0[to] + a[n - k..];
    var goal := Transfer(b0, from, to, k);
    assert |b3| == |goal|;
    forall r | 0 <= r < |b3|
      ensures b3[r] == goal[r]
    {
      if r != from && r != to && r != inter {
        assert b3[r] == b0[r];
      }
    }
  }

  /** The move counts of the three parts add up to the count for all k disks. */
  lemma CountParts(from: int, to: int, inter: int, using: set<int>, k: nat)
    requires from !in using && to !in using && inter in using && k >= 2
    ensures var s := MinStepsAndSplit(2 + |using|, k).split;
      1 <= s < k &&
      MoveCount(2 + |using - {inter} + {to}|, s) + MoveCount(2 + |using - {inter}|, k - s)
        + MoveCount(2 + |using - {inter} + {from}|, s) == MoveCount(2 + |using|, k)
  {
    SplitDecomposes(2 + |using|, k);
    var rest := using - {inter};
    assert |rest| == |using| - 1 && |rest + {to}| == |using| && |rest + {from}| == |using|;
  }

  lemma WithinConcat(m1: seq<Step>, m2: seq<Step>, m3: seq<Step>,
                     r1: set<int>, r2: set<int>, r3: set<int>, rodSet: set<int>)
    requires Within(m1, r1) && Within(m2, r2) && Within(m3, r3)
    requires r1 <= rodSet && r2 <= rodSet && r3 <= rodSet
    ensures Within(m1 + m2 + m3, rodSet)
  {
  }

  /** The new moves of three consecutive appends are their concatenation. */
  lemma AppendedParts(s0: seq<Step>, s1: seq<Step>, s2: seq<Step>, s3: seq<Step>)
    requires |s0| <= |s1| <= |s2| <= |s3|
    requires s1[..|s0|] == s0 && s2[..|s1|] == s1 && s3[..|s2|] == s2
    ensures s3[..|s0|] == s0
    ensures s3[|s0|..] == s1[|s0|..] + s2[|s1|..] + s3[|s2|..]
  {
    assert s3[..|s1|] == s1 by { assert s3[..|s1|] == s3[..|s2|][..|s1|]; }
    assert s3[..|s0|] == s0 by { assert s3[..|s0|] == s3[..|s1|][..|s0|]; }
  }

  /** Three consecutive legal replays make one legal replay of all new moves. */
  lemma ReplayParts(b0: Board, b1: Board, b2: Board, b3: Board,
                    s0: seq<Step>, s1: seq<Step>, s2: seq<Step>, s3: seq<Step>)
    requires |s0| <= |s1| <= |s2| <= |s3|
    requires s1[..|s0|] == s0 && s2[..|s1|] == s1 && s3[..|s2|] == s2
    requires Replay(b0, s1[|s0|..]) == Some(b1)
    requires Replay(b1, s2[|s1|..]) == Some(b2)
    requires Replay(b2, s3[|s2|..]) == Some(b3)
    ensures s3[..|s0|] == s0
    ensures Replay(b0, s3[|s0|..]) == Some(b3)
  {
    AppendedParts(s0, s1, s2, s3);
    ReplayConcat(b0, s1[|s0|..], s2[|s1|..]);
    ReplayConcat(b0, s1[|s0|..] + s2[|s1|..], s3[|s2|..]);
  }

  /** The three parts touch only the rods of `using`, `from` and `to`. */
  lemma WithinParts(s0: seq<Step>, s1: seq<Step>, s2: seq<Step>, s3: seq<Step>,
                    from: int, to: int, inter: int, using: set<int>)
    requires inter in using
    requires |s0| <= |s1| <= |s2| <= |s3|
    requires s1[..|s0|] == s0 && s2[..|s1|] == s1 && s3[..|s2|] == s2
    requires Within(s1[|s0|..], using - {inter} + {to} + {from, inter})
    requires Within(s2[|s1|..], using - {inter} + {from, to})
    requires Within(s3[|s2|..], using - {inter} + {from} + {inter, to})
    ensures Within(s3[|s0|..], using + {from, to})
  {
    AppendedParts(s0, s1, s2, s3);
    var rest := using - {inter};
    WithinConcat(s1[|s0|..], s2[|s1|..], s3[|s2|..],
                 rest + {to} + {from, inter}, rest + {from, to}, rest + {from} + {inter, to}, using + {from, to});
  }

  /**
    What a finished transfer of the top k disks of `from` onto `to` via
    `using` guarantees, from board b0 with moves s0 recorded to board b with
    moves sol recorded: the board is b0 with exactly those disks transferred,
    the earlier moves are kept, the new moves are exactly as many as the
    recurrence allots to 2 + |using| rods, replay legally from b0 to b, and
    involve no rod outside `using`, `from` and `to`.
   */
  ghost predicate Solved(b0: Board, s0: seq<Step>, b: Board, sol: seq<Step>,
                         from: int, to: int, using: set<int>, k: nat) {
    CanTransfer(b0, from, to, using, k) &&
    b == Transfer(b0, from, to, k) &&
    |s0| <= |sol| && |sol| == |s0| + MoveCount(2 + |using|, k) &&
    sol[..|s0|] == s0 &&
    Replay(b0, sol[|s0|..]) == Some(b) &&
    Within(sol[|s0|..], using + {from, to})
  }

  /** A split's three solved parts make one solved transfer of all k disks. */
  lemma SolvedSplit(b0: Board, b1: Board, b2: Board, b3: Board,
                    s0: seq<Step>, s1: seq<Step>, s2: seq<Step>, s3: seq<Step>,
                    from: int, to: int, inter: int, using: set<int>, k: nat, s: nat)
    requires WellStacked(b0) && CanTransfer(b0, from, to, using, k)
    requires inter in using && k >= 2 && s == MinStepsAndSplit(2 + |using|, k).split
    requires Solved(b0, s0, b1, s1, from, inter, using - {inter} + {to}, s)
    requires Solved(b1, s1, b2, s2, from, to, using - {inter}, k - s)
    requires Solved(b2, s2, b3, s3, inter, to, using - {inter} + {from}, s)
    ensures Solved(b0, s0, b3, s3, from, to, using, k)
  {
    CountParts(from, to, inter, using, k);
    TransferThreeParts(b0, from, to, inter, k, s);
    ReplayParts(b0, b1, b2, b3, s0, s1, s2, s3);
    WithinParts(s0, s1, s2, s3, from, to, inter, using);
  }

  /** Moving no disk leaves the board as it is. */
  lemma TransferNone(b: Board, from: int, to: int)
    requires 0 <= from < |b| && 0 <= to < |b| && from != to
    ensures Transfer(b, from, to, 0) == b
  {
    var n := |b[from]|;
    assert b[from][..n] == b[from] && b[to] + b[from][n..] == b[to];
  }

  /** The rods lo, ..., hi - 1, as a set. */
  function RodRange(lo: int, hi: int): (r: set<int>)
    ensures forall i :: i in r <==> lo <= i < hi
    ensures |r| == if lo <= hi then hi - lo else 0
    decreases hi - lo
  {
    if lo >= hi then {} else RodRange(lo, hi - 1) + {hi - 1}
  }

  /** Moving every disk of the first rod onto the last one gives the final board. */
  lemma TransferAllIsFinal(rodsNum: nat, disksNum: nat)
    requires rodsNum >= 2
    ensures Transfer(InitialBoard(rodsNum, disksNum), 0, rodsNum - 1, disksNum) == FinalBoard(rodsNum, disksNum)
  {
    var b := InitialBoard(rodsNum, disksNum);
    var tower := Tower(disksNum);
    assert b[0] == tower && b[rodsNum - 1] == [];
    assert tower[..0] == [] && [] + tower[0..] == tower;
    var t := Transfer(b, 0, rodsNum - 1, disksNum);
    assert t == b[0 := []][rodsNum - 1 := tower];
    var f := FinalBoard(rodsNum, disksNum);
    assert forall r :: 0 <= r < rodsNum ==> t[r] == f[r];
  }

  /** The opening call may go: every rod but the first is empty. */
  lemma InitialCanTransfer(rodsNum: nat, disksNum: nat)
    requires rodsNum >= 2
    ensures WellStacked(InitialBoard(rodsNum, disksNum))
    ensures CanTransfer(InitialBoard(rodsNum, disksNum), 0, rodsNum - 1, RodRange(1, rodsNum - 1), disksNum)
  {
    var b := InitialBoard(rodsNum, disksNum);
    forall t | t in RodRange(1, rodsNum - 1) + {rodsNum - 1}
      ensures b[t] == []
    {
    }
  }

  /**
    A solved transfer of all disks from the first rod to the last, starting
    with no move recorded, is a full solution of the minimum length.
   */
  lemma SolvedFromStart(rodsNum: nat, disksNum: nat, b: Board, sol: seq<Step>)
    requires rodsNum >= 2 && disksNum >= 1
    requires Solved(InitialBoard(rodsNum, disksNum), [], b, sol, 0, rodsNum - 1, RodRange(1, rodsNum - 1), disksNum)
    ensures |sol| == MinStepsAndSplit(rodsNum, disksNum).minSteps
    ensures Replay(InitialBoard(rodsNum, disksNum), sol) == Some(FinalBoard(rodsNum, disksNum))
  {
    TransferAllIsFinal(rodsNum, disksNum);
    assert sol[0..] == sol;
    assert 2 + |RodRange(1, rodsNum - 1)| == rodsNum;
  }

  /**
    The state of one solve: the rods as stacks (top at the end) and the moves
    recorded so far.
   */
  class Solver {
    var rods: Board
    var solution: seq<Step>

    ghost predicate Valid()
      reads this
    {
      WellStacked(rods)
    }

    /** All disks on the first rod, no move recorded. */
    constructor (rodsNum: nat, disksNum: nat)
      ensures Valid()
      ensures rods == InitialBoard(rodsNum, disksNum) && solution == []
    {
      rods := seq(rodsNum, i => if i == 0 then Tower(disksNum) else []);
      solution := [];
    }

    /** Pop the top disk of `from`, record the step, push the disk onto `to`. */
    method MoveDisk(from: int, to: int)
      requires 0 <= from < |rods| && 0 <= to < |rods| && rods[from] != []
      modifies this
      ensures rods == MoveTop(old(rods), from, to)
      ensures solution == old(solution) + [Step(Top(old(rods[from])), from, to)]
    {
      var d := Top(rods[from]);
      rods := rods[from := rods[from][..|rods[from]| - 1]];
      solution := solution + [Step(d, from, to)];
      rods := rods[to := rods[to] + [d]];
    }

    /**
      Move the top k disks of `from` onto `to`, using the rods of `using` as
      intermediates. Fails, changing nothing, when more than one disk is to be
      moved and no intermediate is given. Otherwise the recorded steps replay
      legally from the old board to the new one, touch only `from`, `to` and
      `using`, number exactly what the recurrence allots to 2 + |using| rods,
      and leave the intermediates as they were.
     */
    method SolveRecursively(from: int, to: int, using: set<int>, k: nat) returns (ok: bool)
      requires Valid() && CanTransfer(rods, from, to, using, k)
      modifies this
      ensures Valid()
      ensures ok <==> (k <= 1 || using != {})
      ensures !ok ==> rods == old(rods) && solution == old(solution)
      ensures ok ==> Solved(old(rods), old(solution), rods, solution, from, to, using, k)
      decreases k, 1
    {
      if k == 0 {
        assert solution[|solution|..] == [];
        TransferNone(rods, from, to);
        return true;
      }
      if |using| == 0 && k > 1 {
        return false;
      }
      if k == 1 {
        SingleMove(rods, from, to, using);
        MoveDisk(from, to);
        assert solution[|old(solution)|..] == [Step(Top(old(rods)[from]), from, to)];
        return true;
      }
      var optimalSplit := MinStepsAndSplit(2 + |using|, k);
      // the source's "not solvable" check after this query never fires: there
      // is an intermediate rod, so at least three rods take part
      assert optimalSplit.minSteps >= 1;
      ok := SolveInThreeParts(from, to, using, k, optimalSplit.split);
    }

    /**
      The split step: take one intermediate out of `using`, move the top s
      disks onto it, the next k - s disks onto the target without it, and the
      s disks from it onto the target.
     */
    method SolveInThreeParts(from: int, to: int, using: set<int>, k: nat, s: nat) returns (ok: bool)
      requires Valid() && CanTransfer(rods, from, to, using, k)
      requires using != {} && k >= 2 && s == MinStepsAndSplit(2 + |using|, k).split
      modifies this
      ensures Valid()
      ensures ok
      ensures Solved(old(rods), old(solution), rods, solution, from, to, using, k)
      decreases k, 0
    {
      SplitDecomposes(2 + |using|, k);
      if forall u :: u !in using { assert false; }
      var intermediate :| intermediate in using;
      var rest := using - {intermediate};

      ghost var b0, s0 := rods, solution;
      FirstPart(b0, from, to, intermediate, using, k, s);
      SecondPart(b0, from, to, intermediate, using, k, s);
      ThirdPart(b0, from, to, intermediate, using, k, s);
      var ok1 := SolveRecursively(from, intermediate, rest + {to}, s);
      ghost var b1, s1 := rods, solution;
      var ok2 := SolveRecursively(from, to, rest, k - s);
      ghost var b2, s2 := rods, solution;
      var ok3 := SolveRecursively(intermediate, to, rest + {from}, s);
      ok := ok1 && ok2 && ok3;
      SolvedSplit(b0, b1, b2, rods, s0, s1, s2, solution, from, to, intermediate, using, k, s);
    }
  }

  /**
    Solve the puzzle with all disks starting on the first rod: the moves
    replay legally to all disks on the last rod, and there are exactly as many
    as the recurrence's minimum. Fewer than one disk, then fewer than two rods,
    is invalid input; two rods with more than one disk has no intermediate rod.
   */
  method GetSolution(rodsNum: int, disksNum: int) returns (r: Result<seq<Step>, Error>)
    ensures r == Err(InvalidDisks) <==> disksNum < 1
    ensures r == Err(InvalidRods) <==> disksNum >= 1 && rodsNum < 2
    ensures r == Err(NotSolvable) <==> rodsNum == 2 && disksNum > 1
    ensures r.Ok? ==> |r.value| == MinStepsAndSplit(rodsNum, disksNum).minSteps
    ensures r.Ok? ==> rodsNum >= 2 && disksNum >= 1
    ensures r.Ok? ==> Replay(InitialBoard(rodsNum, disksNum), r.value) == Some(FinalBoard(rodsNum, disksNum))
  {
    if disksNum < 1 {
      return Err(InvalidDisks);
    }
    if rodsNum < 2 {
      return Err(InvalidRods);
    }
    var solver := new Solver(rodsNum, disksNum);
    var usingRods := RodRange(1, rodsNum - 1);
    InitialCanTransfer(rodsNum, disksNum);
    assert usingRods == {} <==> rodsNum == 2 by {
      if rodsNum > 2 {
        assert 1 in usingRods;
      }
    }
    var ok := solver.SolveRecursively(0, rodsNum - 1, usingRods, disksNum);
    if !ok {
      return Err(NotSolvable);
    }
    var moves := solver.solution;
    SolvedFromStart(rodsNum, disksNum, solver.rods, moves);
    return Ok(moves);
  }
}
