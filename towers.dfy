/**
  The board of the puzzle and the meaning of a solution step. A board is one
  stack per rod; a stack lists disk sizes from the bottom to the top, so the
  top disk is the last element. Disk 0 is the smallest.
 */
module Towers {
  import opened Wrappers

  /** One move: the disk of this size goes from fromRod to toRod. */
  datatype Step = Step(diskSize: int, fromRod: int, toRod: int)

  type Stack = seq<int>
  type Board = seq<Stack>

  function Top(stack: Stack): int
    requires stack != []
  {
    stack[|stack| - 1]
  }

  /** The stacking rule: sizes strictly decrease from the bottom to the top. */
  predicate Stacked(stack: Stack) {
    forall i, j :: 0 <= i < j < |stack| ==> stack[i] > stack[j]
  }

  predicate WellStacked(b: Board) {
    forall r :: 0 <= r < |b| ==> Stacked(b[r])
  }

  /** A stack on which a disk of the given size may be put. */
  predicate Accepts(stack: Stack, disk: int) {
    stack == [] || Top(stack) > disk
  }

  /**
    A step is legal when both rods exist and differ, the named disk is the top
    of its source rod, and the target rod is empty or has a larger top.
   */
  predicate Legal(b: Board, s: Step) {
    0 <= s.fromRod < |b| && 0 <= s.toRod < |b| && s.fromRod != s.toRod &&
    b[s.fromRod] != [] && Top(b[s.fromRod]) == s.diskSize &&
    Accepts(b[s.toRod], s.diskSize)
  }

  /** Pop the top of rod `from`, then push it onto rod `to`. */
  function MoveTop(b: Board, from: int, to: int): Board
    requires 0 <= from < |b| && 0 <= to < |b| && b[from] != []
  {
    var popped := b[from := b[from][..|b[from]| - 1]];
    popped[to := popped[to] + [Top(b[from])]]
  }

  /** All disks on the board, whatever rod they are on. */
  function Disks(b: Board): multiset<int> {
    if b == [] then multiset{} else Disks(b[..|b| - 1]) + multiset(b[|b| - 1])
  }

  /** Replacing one stack trades its disks for the new stack's disks. */
  lemma {:induction false} DisksUpdate(b: Board, i: int, x: Stack)
    requires 0 <= i < |b|
    ensures Disks(b[i := x]) + multiset(b[i]) == Disks(b) + multiset(x)
  {
    var n := |b| - 1;
    var c := b[i := x];
    if i == n {
      assert c[..n] == b[..n];
      SwapLast(Disks(b[..n]), multiset(x), multiset(b[n]));
    } else {
      assert c[..n] == b[..n][i := x];
      DisksUpdate(b[..n], i, x);
      SwapLast(Disks(c[..n]), multiset(b[n]), multiset(b[i]));
      SwapLast(Disks(b[..n]), multiset(x), multiset(b[n]));
    }
  }

  lemma SwapLast(a: multiset<int>, x: multiset<int>, y: multiset<int>)
    ensures a + x + y == a + y + x
  {
  }

  lemma MoveCancels(a: multiset<int>, p: multiset<int>, f: multiset<int>,
                    rest: multiset<int>, under: multiset<int>, top: int)
    requires p + (rest + multiset{top}) == a + rest
    requires f + under == p + (under + multiset{top})
    ensures f == a
  {
    forall e ensures f[e] == a[e] {
      assert (p + (rest + multiset{top}))[e] == (a + rest)[e];
      assert (f + under)[e] == (p + (under + multiset{top}))[e];
    }
  }

  /** A legal move keeps every rod ordered. */
  lemma MoveTopKeepsStacked(b: Board, s: Step)
    requires Legal(b, s) && WellStacked(b)
    ensures WellStacked(MoveTop(b, s.fromRod, s.toRod))
  {
    var b' := MoveTop(b, s.fromRod, s.toRod);
    forall r | 0 <= r < |b'|
      ensures Stacked(b'[r])
    {
      if r == s.toRod {
        assert Stacked(b[r]) && Accepts(b[r], s.diskSize);
        assert b'[r] == b[r] + [s.diskSize];
      } else if r == s.fromRod {
        assert Stacked(b[r]);
        assert b'[r] == b[r][..|b[r]| - 1];
      } else {
        assert b'[r] == b[r];
      }
    }
  }

  lemma MoveTopKeepsDisks(b: Board, from: int, to: int)
    requires 0 <= from < |b| && 0 <= to < |b| && b[from] != []
    ensures Disks(MoveTop(b, from, to)) == Disks(b)
  {
    var top := Top(b[from]);
    var rest := b[from][..|b[from]| - 1];
    var popped := b[from := rest];
    var pushed := popped[to] + [top];
    assert b[from] == rest + [top];
    assert MoveTop(b, from, to) == popped[to := pushed];
    DisksUpdate(b, from, rest);
    DisksUpdate(popped, to, pushed);
    MoveCancels(Disks(b), Disks(popped), Disks(popped[to := pushed]),
      multiset(rest), multiset(popped[to]), top);
  }

  /**
    A legal step keeps every rod well stacked, moves exactly the named disk
    from its source to its target, and loses or creates no disk.
   */
  function Apply(b: Board, s: Step): (b': Board)
    requires Legal(b, s)
    ensures |b'| == |b|
    ensures WellStacked(b) ==> WellStacked(b')
    ensures b'[s.fromRod] == b[s.fromRod][..|b[s.fromRod]| - 1]
    ensures b'[s.toRod] == b[s.toRod] + [s.diskSize]
    ensures forall r :: 0 <= r < |b| && r != s.fromRod && r != s.toRod ==> b'[r] == b[r]
    ensures Disks(b') == Disks(b)
  {
    MoveTopKeepsDisks(b, s.fromRod, s.toRod);
    if WellStacked(b) then
      MoveTopKeepsStacked(b, s);
      MoveTop(b, s.fromRod, s.toRod)
    else
      MoveTop(b, s.fromRod, s.toRod)
  }

  /**
    Replaying steps from a board: None as soon as a step is illegal, otherwise
    the board reached. Replay keeps the stacking rule and the set of disks.
   */
  function Replay(b: Board, steps: seq<Step>): (r: Option<Board>)
    ensures r.Some? ==> |r.value| == |b| && Disks(r.value) == Disks(b)
    ensures r.Some? && WellStacked(b) ==> WellStacked(r.value)
    decreases |steps|
  {
    if steps == [] then Some(b)
    else if Legal(b, steps[0]) then Replay(Apply(b, steps[0]), steps[1..])
    else None
  }

  /** Replaying a concatenation replays the first part, then the second. */
  lemma {:induction false} ReplayConcat(b: Board, s1: seq<Step>, s2: seq<Step>)
    ensures Replay(b, s1 + s2) ==
      match Replay(b, s1)
      case None => None
      case Some(b1) => Replay(b1, s2)
    decreases |s1|
  {
    if s1 != [] {
      assert (s1 + s2)[0] == s1[0] && (s1 + s2)[1..] == s1[1..] + s2;
      if Legal(b, s1[0]) {
        ReplayConcat(Apply(b, s1[0]), s1[1..], s2);
      }
    } else {
      assert s1 + s2 == s2;
    }
  }

  /** The n disks stacked on one rod, largest at the bottom. */
  function Tower(n: nat): (t: Stack)
    ensures |t| == n && Stacked(t)
    ensures forall i :: 0 <= i < n ==> t[i] == n - 1 - i
  {
    seq(n, i => n - 1 - i)
  }

  /** All disks on the first rod. */
  function InitialBoard(rods: nat, disks: nat): Board {
    seq(rods, i => if i == 0 then Tower(disks) else [])
  }

  /** All disks on the last rod. */
  function FinalBoard(rods: nat, disks: nat): Board {
    seq(rods, i => if i == rods - 1 then Tower(disks) else [])
  }
}
