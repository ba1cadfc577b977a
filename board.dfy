/** The Othello board engine of src/game/board.rs: an 8x8 grid of side characters,
    the eight ray directions, the ray walk, the in-place flipping of a run of
    stones, move application, move-existence search and score counting. */
module OthelloBoard {

  const Black: char := 'b'
  const White: char := 'w'
  /** The character of an empty cell. */
  const Empty: char := '0'

  /** The abstract value of a board: its 64 side characters, row by row, so
      that cell (r, c) is element 8 * r + c. */
  type Grid = seq<char>

  predicate IsGrid(g: Grid) {
    |g| == 64
  }

  /** The cell in row r, column c. */
  function At(g: Grid, r: int, c: int): char
    requires IsGrid(g) && InBounds(r, c)
  {
    g[8 * r + c]
  }

  function EmptyGrid(): (g: Grid)
    ensures IsGrid(g)
    ensures forall r, c :: InBounds(r, c) ==> At(g, r, c) == Empty
  {
    seq(64, _ => Empty)
  }

  /** The grid with one cell replaced. */
  function Set(g: Grid, r: int, c: int, x: char): (g': Grid)
    requires IsGrid(g) && InBounds(r, c)
    ensures IsGrid(g')
    ensures forall a, b :: InBounds(a, b) ==> At(g', a, b) == if a == r && b == c then x else At(g, a, b)
  {
    g[8 * r + c := x]
  }

  function IsInBounds(row: int, col: int, rowLen: int, colLen: int): bool {
    row >= 0 && row < rowLen && col >= 0 && col < colLen
  }

  predicate InBounds(r: int, c: int) {
    IsInBounds(r, c, 8, 8)
  }

  // ---------------------------------------------------------------------------
  // Directions and rays

  /** A (vertical, horizontal) step. */
  datatype Dir = Dir(v: int, h: int)

  predicate IsDir(d: Dir) {
    -1 <= d.v <= 1 && -1 <= d.h <= 1 && (d.v != 0 || d.h != 0)
  }

  /** TRAV_ARR: up, down, left, right and the four diagonals. */
  const TravArr: seq<Dir> :=
    [Dir(-1, 0), Dir(1, 0), Dir(0, -1), Dir(0, 1),
     Dir(-1, 1), Dir(-1, -1), Dir(1, -1), Dir(1, 1)]

  /** TRAV_ARR lists each of the eight non-zero steps in {-1,0,1}^2 exactly once. */
  lemma TravArrDirections()
    ensures |TravArr| == 8
    ensures forall n :: 0 <= n < 8 ==> IsDir(TravArr[n])
    ensures forall m, n :: 0 <= m < n < 8 ==> TravArr[m] != TravArr[n]
    ensures forall d :: IsDir(d) ==> d in TravArr
  {
  }

  /** The coordinate reached from x after t steps of dx (dx in {-1, 0, 1}). */
  function Shift(x: int, t: int, dx: int): int {
    if dx == 1 then x + t else if dx == -1 then x - t else x
  }

  /** One step back from step t + 1 is step t. */
  lemma ShiftBack(x: int, t: int, dx: int)
    requires -1 <= dx <= 1
    ensures Shift(x, t + 1, dx) - dx == Shift(x, t, dx)
  {
  }

  /** Starting one step further along a line is one more step from the start. */
  lemma ShiftNext(x: int, t: int, dx: int)
    requires -1 <= dx <= 1
    ensures Shift(x + dx, t, dx) == Shift(x, t + 1, dx)
  {
  }

  /** The step count at which the ray from (r, c) along d would reach (a, b). */
  function RayIndex(r: int, c: int, d: Dir, a: int, b: int): int {
    if d.v == 1 then a - r
    else if d.v == -1 then r - a
    else if d.h == 1 then b - c
    else c - b
  }

  /** (a, b) is reached from (r, c) along d after 0 or more steps. */
  predicate OnRay(r: int, c: int, d: Dir, a: int, b: int) {
    var t := RayIndex(r, c, d, a, b);
    0 <= t && a == Shift(r, t, d.v) && b == Shift(c, t, d.h)
  }

  /** (a, b) is one of the first n cells of the ray from (r, c) along d. */
  predicate OnSegment(r: int, c: int, d: Dir, n: int, a: int, b: int) {
    var t := RayIndex(r, c, d, a, b);
    0 <= t < n && a == Shift(r, t, d.v) && b == Shift(c, t, d.h)
  }

  /** Rays leaving the same cell in two different directions share no cell. */
  lemma RaysDisjoint(r: int, c: int, d1: Dir, d2: Dir, a: int, b: int)
    requires IsDir(d1) && IsDir(d2) && d1 != d2
    ensures !(OnRay(r + d1.v, c + d1.h, d1, a, b) && OnRay(r + d2.v, c + d2.h, d2, a, b))
  {
  }

  /** How many more in-bounds cells the walk from (r, c) along d can visit. */
  function Reach(r: int, c: int, d: Dir): nat {
    if !InBounds(r, c) then 0
    else if d.v == 1 then 8 - r
    else if d.v == -1 then r + 1
    else if d.h == 1 then 8 - c
    else c + 1
  }

  /** The cell t >= 0 steps along the ray is on the ray. */
  lemma RayPoint(r: int, c: int, d: Dir, t: int)
    requires IsDir(d) && 0 <= t
    ensures OnRay(r, c, d, Shift(r, t, d.v), Shift(c, t, d.h))
  {
  }

  /** The ray from the neighbour of (r, c) is part of the ray from (r, c). */
  lemma RayTail(r: int, c: int, d: Dir, a: int, b: int)
    requires IsDir(d) && OnRay(r + d.v, c + d.h, d, a, b)
    ensures OnRay(r, c, d, a, b)
  {
  }

  /** The ray from the neighbour of (r, c) does not come back to (r, c). */
  lemma RayExcludesStart(r: int, c: int, d: Dir)
    requires IsDir(d)
    ensures !OnRay(r + d.v, c + d.h, d, r, c)
  {
  }

  /** The first n + 1 cells of a ray are its start and the first n cells of the
      ray from the next cell. */
  lemma SegmentStep(r: int, c: int, d: Dir, n: int, a: int, b: int)
    requires IsDir(d) && 0 <= n
    ensures OnSegment(r, c, d, n + 1, a, b) <==> (a == r && b == c) || OnSegment(r + d.v, c + d.h, d, n, a, b)
  {
  }

  // ---------------------------------------------------------------------------
  // Runs of stones

  /** The cell t steps from (r, c) along d is on the board and holds s. */
  ghost predicate Holds(g: Grid, r: int, c: int, d: Dir, t: int, s: char)
    requires IsGrid(g)
  {
    InBounds(Shift(r, t, d.v), Shift(c, t, d.h)) && At(g, Shift(r, t, d.v), Shift(c, t, d.h)) == s
  }

  /** Starting one step further along the ray shifts every step index by one. */
  lemma HoldsStep(g: Grid, r: int, c: int, d: Dir, t: int, s: char)
    requires IsGrid(g) && IsDir(d)
    ensures Holds(g, r + d.v, c + d.h, d, t, s) == Holds(g, r, c, d, t + 1, s)
  {
    ShiftNext(r, t, d.v);
    ShiftNext(c, t, d.h);
  }

  /** The number of consecutive in-bounds cells equal to s, starting at (r, c)
      itself and stepping along d. */
  ghost function RunFrom(g: Grid, r: int, c: int, d: Dir, s: char): nat
    requires IsGrid(g) && IsDir(d)
    decreases Reach(r, c, d)
  {
    if InBounds(r, c) && At(g, r, c) == s then 1 + RunFrom(g, r + d.v, c + d.h, d, s) else 0
  }

  /** RunFrom is the maximal run: its cells all hold s, and the cell after it is
      off the board or holds something else. */
  lemma {:induction false} RunFromCells(g: Grid, r: int, c: int, d: Dir, s: char)
    requires IsGrid(g) && IsDir(d)
    ensures var k := RunFrom(g, r, c, d, s);
      (forall t :: 0 <= t < k ==> Holds(g, r, c, d, t, s)) && !Holds(g, r, c, d, k, s)
    decreases Reach(r, c, d)
  {
    var k := RunFrom(g, r, c, d, s);
    if k > 0 {
      RunFromCells(g, r + d.v, c + d.h, d, s);
      forall t | 0 <= t < k
        ensures Holds(g, r, c, d, t, s)
      {
        if t > 0 {
          HoldsStep(g, r, c, d, t - 1, s);
        }
      }
      HoldsStep(g, r, c, d, k - 1, s);
    }
  }

  /** The first cell from (r, c) along d that is off the board or does not hold
      s: where the loops of traverseFrom and flipFrom stop. */
  ghost function WalkEnd(g: Grid, r: int, c: int, d: Dir, s: char): (int, int)
    requires IsGrid(g) && IsDir(d)
    decreases Reach(r, c, d)
  {
    if InBounds(r, c) && At(g, r, c) == s then WalkEnd(g, r + d.v, c + d.h, d, s) else (r, c)
  }

  /** The walk stops on a cell that is off the board or does not hold s, and
      unless it stops at once, the cell before it is on the board. */
  lemma {:induction false} WalkEndStops(g: Grid, r: int, c: int, d: Dir, s: char)
    requires IsGrid(g) && IsDir(d)
    ensures var e := WalkEnd(g, r, c, d, s);
      (e == (r, c) || InBounds(e.0 - d.v, e.1 - d.h)) && !(InBounds(e.0, e.1) && At(g, e.0, e.1) == s)
    decreases Reach(r, c, d)
  {
    if InBounds(r, c) && At(g, r, c) == s {
      WalkEndStops(g, r + d.v, c + d.h, d, s);
    }
  }

  /** The walk stops exactly RunFrom steps from its start. */
  lemma {:induction false} WalkEndRun(g: Grid, r: int, c: int, d: Dir, s: char)
    requires IsGrid(g) && IsDir(d)
    ensures var k := RunFrom(g, r, c, d, s);
      WalkEnd(g, r, c, d, s) == (Shift(r, k, d.v), Shift(c, k, d.h))
    decreases Reach(r, c, d)
  {
    if InBounds(r, c) && At(g, r, c) == s {
      var k := RunFrom(g, r + d.v, c + d.h, d, s);
      WalkEndRun(g, r + d.v, c + d.h, d, s);
      ShiftNext(r, k, d.v);
      ShiftNext(c, k, d.h);
    }
  }

  /** Two grids agree on every in-bounds cell of the ray from (r, c) along d. */
  ghost predicate AgreeOnRay(g: Grid, g': Grid, r: int, c: int, d: Dir)
    requires IsGrid(g) && IsGrid(g')
  {
    forall a, b :: InBounds(a, b) && OnRay(r, c, d, a, b) ==> At(g, a, b) == At(g', a, b)
  }

  /** Agreement on a ray carries over to the ray from its next cell. */
  lemma AgreeOnTail(g: Grid, g': Grid, r: int, c: int, d: Dir)
    requires IsGrid(g) && IsGrid(g') && IsDir(d) && AgreeOnRay(g, g', r, c, d)
    ensures AgreeOnRay(g, g', r + d.v, c + d.h, d)
  {
    forall a, b | InBounds(a, b) && OnRay(r + d.v, c + d.h, d, a, b)
      ensures At(g, a, b) == At(g', a, b)
    {
      RayTail(r, c, d, a, b);
    }
  }

  /** A run, and where its walk stops, only depend on the cells of its own ray. */
  lemma {:induction false} RunFromFrame(g: Grid, g': Grid, r: int, c: int, d: Dir, s: char)
    requires IsGrid(g) && IsGrid(g') && IsDir(d)
    requires AgreeOnRay(g, g', r, c, d)
    ensures RunFrom(g, r, c, d, s) == RunFrom(g', r, c, d, s)
    ensures WalkEnd(g, r, c, d, s) == WalkEnd(g', r, c, d, s)
    decreases Reach(r, c, d)
  {
    if InBounds(r, c) {
      RayPoint(r, c, d, 0);
      AgreeOnTail(g, g', r, c, d);
      RunFromFrame(g, g', r + d.v, c + d.h, d, s);
    }
  }

  // ---------------------------------------------------------------------------
  // traverseFrom

  /** Where traverseFrom looks after its walk stopped on e: e itself, or the cell
      one step back when e is off the board. */
  function Landing(e: (int, int), d: Dir): (int, int) {
    if InBounds(e.0, e.1) then e else (e.0 - d.v, e.1 - d.h)
  }

  /** What traverseFrom returns: the walk over opponent stones from the origin's
      neighbour stops on the first other cell; the answer is whether its landing
      cell holds mySide and is not the origin's neighbour. */
  ghost function TraverseOutcome(g: Grid, r: int, c: int, d: Dir, mySide: char, opponentSide: char): bool
    requires IsGrid(g) && IsDir(d) && InBounds(r, c)
  {
    WalkEndStops(g, r + d.v, c + d.h, d, opponentSide);
    var p := Landing(WalkEnd(g, r + d.v, c + d.h, d, opponentSide), d);
    At(g, p.0, p.1) == mySide && (p.1 != c + d.h || p.0 != r + d.v)
  }

  /** The landing cell is on the board, and the outcome is read off it. */
  lemma TraverseLanding(g: Grid, r: int, c: int, d: Dir, mySide: char, opponentSide: char, p: (int, int))
    requires IsGrid(g) && IsDir(d) && InBounds(r, c)
    requires p == Landing(WalkEnd(g, r + d.v, c + d.h, d, opponentSide), d)
    ensures InBounds(p.0, p.1)
    ensures TraverseOutcome(g, r, c, d, mySide, opponentSide) == (At(g, p.0, p.1) == mySide && (p.1 != c + d.h || p.0 != r + d.v))
  {
    WalkEndStops(g, r + d.v, c + d.h, d, opponentSide);
  }

  /** The capture rule with a run of k >= 1 opponent stones after (r, c),
      followed, on the board, by a stone of mySide. */
  ghost predicate CapturesWith(g: Grid, r: int, c: int, d: Dir, mySide: char, opponentSide: char, k: int)
    requires IsGrid(g)
  {
    1 <= k && (forall t :: 1 <= t <= k ==> Holds(g, r, c, d, t, opponentSide)) && Holds(g, r, c, d, k + 1, mySide)
  }

  /** The capture rule of Othello along one direction. */
  ghost predicate Captures(g: Grid, r: int, c: int, d: Dir, mySide: char, opponentSide: char)
    requires IsGrid(g)
  {
    exists k :: CapturesWith(g, r, c, d, mySide, opponentSide, k)
  }

  /** The run of opponent stones after the origin, counted from the origin:
      steps 1 to k hold opponentSide, step k + 1 does not, and the walk stops
      at step k + 1. */
  lemma RunAfter(g: Grid, r: int, c: int, d: Dir, opponentSide: char)
    requires IsGrid(g) && IsDir(d)
    ensures var k := RunFrom(g, r + d.v, c + d.h, d, opponentSide);
      (forall t :: 1 <= t <= k ==> Holds(g, r, c, d, t, opponentSide))
      && !Holds(g, r, c, d, k + 1, opponentSide)
      && WalkEnd(g, r + d.v, c + d.h, d, opponentSide) == (Shift(r, k + 1, d.v), Shift(c, k + 1, d.h))
  {
    var r1, c1 := r + d.v, c + d.h;
    var k := RunFrom(g, r1, c1, d, opponentSide);
    RunFromCells(g, r1, c1, d, opponentSide);
    WalkEndRun(g, r1, c1, d, opponentSide);
    ShiftNext(r, k, d.v);
    ShiftNext(c, k, d.h);
    forall t | 1 <= t <= k
      ensures Holds(g, r, c, d, t, opponentSide)
    {
      HoldsStep(g, r, c, d, t - 1, opponentSide);
    }
    HoldsStep(g, r, c, d, k, opponentSide);
  }

  /** A walk that leaves the board lands on an opponent stone or on the origin,
      so traverseFrom fails when the origin does not hold mySide. */
  lemma TraverseOffBoard(g: Grid, r: int, c: int, d: Dir, mySide: char, opponentSide: char)
    requires IsGrid(g) && IsDir(d) && InBounds(r, c)
    requires At(g, r, c) != mySide && mySide != opponentSide
    ensures var e := WalkEnd(g, r + d.v, c + d.h, d, opponentSide);
      TraverseOutcome(g, r, c, d, mySide, opponentSide) ==> InBounds(e.0, e.1)
  {
    var k := RunFrom(g, r + d.v, c + d.h, d, opponentSide);
    var e := WalkEnd(g, r + d.v, c + d.h, d, opponentSide);
    var p := Landing(e, d);
    RunAfter(g, r, c, d, opponentSide);
    TraverseLanding(g, r, c, d, mySide, opponentSide, p);
    if !InBounds(e.0, e.1) {
      if k > 0 {
        assert Holds(g, r, c, d, k, opponentSide);
        assert p == (Shift(r, k, d.v), Shift(c, k, d.h));
      } else {
        assert p == (r, c);
      }
    }
  }

  /** traverseFrom succeeding from an origin that does not hold mySide means
      the capture rule holds along d. */
  lemma TraverseSound(g: Grid, r: int, c: int, d: Dir, mySide: char, opponentSide: char)
    requires IsGrid(g) && IsDir(d) && InBounds(r, c)
    requires At(g, r, c) != mySide && mySide != opponentSide
    requires TraverseOutcome(g, r, c, d, mySide, opponentSide)
    ensures Captures(g, r, c, d, mySide, opponentSide)
  {
    var k := RunFrom(g, r + d.v, c + d.h, d, opponentSide);
    var e := WalkEnd(g, r + d.v, c + d.h, d, opponentSide);
    var p := Landing(e, d);
    RunAfter(g, r, c, d, opponentSide);
    TraverseLanding(g, r, c, d, mySide, opponentSide, p);
    TraverseOffBoard(g, r, c, d, mySide, opponentSide);
    assert CapturesWith(g, r, c, d, mySide, opponentSide, k);
  }

  /** When the capture rule holds along d, traverseFrom succeeds. */
  lemma TraverseComplete(g: Grid, r: int, c: int, d: Dir, mySide: char, opponentSide: char)
    requires IsGrid(g) && IsDir(d) && InBounds(r, c) && mySide != opponentSide
    requires Captures(g, r, c, d, mySide, opponentSide)
    ensures TraverseOutcome(g, r, c, d, mySide, opponentSide)
  {
    var k :| CapturesWith(g, r, c, d, mySide, opponentSide, k);
    RunLengthUnique(g, r, c, d, mySide, opponentSide, k);
    RunAfter(g, r, c, d, opponentSide);
    var e := WalkEnd(g, r + d.v, c + d.h, d, opponentSide);
    TraverseLanding(g, r, c, d, mySide, opponentSide, Landing(e, d));
  }

  /** The capture rule fixes the length of the opponent run: it is the run
      that traverseFrom walks over. */
  lemma RunLengthUnique(g: Grid, r: int, c: int, d: Dir, mySide: char, opponentSide: char, k: int)
    requires IsGrid(g) && IsDir(d) && mySide != opponentSide
    requires CapturesWith(g, r, c, d, mySide, opponentSide, k)
    ensures RunFrom(g, r + d.v, c + d.h, d, opponentSide) == k
  {
    var n := RunFrom(g, r + d.v, c + d.h, d, opponentSide);
    RunAfter(g, r, c, d, opponentSide);
    HoldsOne(g, r, c, d, k + 1, mySide, opponentSide);
    if n < k {
      assert false;
    } else if k < n {
      assert false;
    }
  }

  /** A cell holds at most one kind of stone. */
  lemma HoldsOne(g: Grid, r: int, c: int, d: Dir, t: int, s1: char, s2: char)
    requires IsGrid(g) && s1 != s2
    ensures !(Holds(g, r, c, d, t, s1) && Holds(g, r, c, d, t, s2))
  {
  }

  /** When the origin does not hold mySide and the sides differ, traverseFrom
      answers exactly the capture rule. */
  lemma TraverseMeaning(g: Grid, r: int, c: int, d: Dir, mySide: char, opponentSide: char)
    requires IsGrid(g) && IsDir(d) && InBounds(r, c)
    requires At(g, r, c) != mySide && mySide != opponentSide
    ensures TraverseOutcome(g, r, c, d, mySide, opponentSide) == Captures(g, r, c, d, mySide, opponentSide)
  {
    if TraverseOutcome(g, r, c, d, mySide, opponentSide) {
      TraverseSound(g, r, c, d, mySide, opponentSide);
    }
    if Captures(g, r, c, d, mySide, opponentSide) {
      TraverseComplete(g, r, c, d, mySide, opponentSide);
    }
  }

  /** At least one opponent stone is needed: a neighbour of mySide gives false. */
  lemma TraverseNeedsOpponent(g: Grid, r: int, c: int, d: Dir, mySide: char, opponentSide: char)
    requires IsGrid(g) && IsDir(d) && InBounds(r, c) && mySide != opponentSide
    requires InBounds(r + d.v, c + d.h) && At(g, r + d.v, c + d.h) == mySide
    ensures !TraverseOutcome(g, r, c, d, mySide, opponentSide)
  {
  }

  /** As written, the step back after leaving the board lands on the origin when
      the neighbour is off the board, so an origin holding mySide on the edge
      reports success without any opponent stone. */
  lemma TraverseEdgeQuirk(g: Grid, r: int, c: int, d: Dir, mySide: char, opponentSide: char)
    requires IsGrid(g) && IsDir(d) && InBounds(r, c)
    requires !InBounds(r + d.v, c + d.h) && At(g, r, c) == mySide
    ensures TraverseOutcome(g, r, c, d, mySide, opponentSide)
  {
  }

  /** The landing cell is the origin or a cell of the origin's ray. */
  lemma LandingPlace(g: Grid, r: int, c: int, d: Dir, s: char)
    requires IsGrid(g) && IsDir(d) && InBounds(r, c)
    ensures var p := Landing(WalkEnd(g, r + d.v, c + d.h, d, s), d);
      p == (r, c) || OnRay(r + d.v, c + d.h, d, p.0, p.1)
  {
    var r1, c1 := r + d.v, c + d.h;
    var k := RunFrom(g, r1, c1, d, s);
    var e := WalkEnd(g, r1, c1, d, s);
    WalkEndRun(g, r1, c1, d, s);
    if InBounds(e.0, e.1) {
      RayPoint(r1, c1, d, k);
      assert Landing(e, d) == (Shift(r1, k, d.v), Shift(c1, k, d.h));
    } else if k > 0 {
      RayPoint(r1, c1, d, k - 1);
      ShiftBack(r1, k - 1, d.v);
      ShiftBack(c1, k - 1, d.h);
      assert Landing(e, d) == (Shift(r1, k - 1, d.v), Shift(c1, k - 1, d.h));
    } else {
      assert Landing(e, d) == (r, c);
    }
  }

  /** traverseFrom only looks at the origin and its own ray. */
  lemma TraverseFrame(g: Grid, g': Grid, r: int, c: int, d: Dir, mySide: char, opponentSide: char)
    requires IsGrid(g) && IsGrid(g') && IsDir(d) && InBounds(r, c)
    requires AgreeOnRay(g, g', r + d.v, c + d.h, d) && At(g, r, c) == At(g', r, c)
    ensures TraverseOutcome(g, r, c, d, mySide, opponentSide) == TraverseOutcome(g', r, c, d, mySide, opponentSide)
  {
    RunFromFrame(g, g', r + d.v, c + d.h, d, opponentSide);
    var p := Landing(WalkEnd(g, r + d.v, c + d.h, d, opponentSide), d);
    TraverseLanding(g, r, c, d, mySide, opponentSide, p);
    TraverseLanding(g', r, c, d, mySide, opponentSide, p);
    LandingPlace(g, r, c, d, opponentSide);
  }

  // ---------------------------------------------------------------------------
  // flipFrom

  /** The grid after flipFrom's loop, started on cell (r, c): while the cell is
      on the board and holds `from`, it becomes `to` and the walk moves on. */
  ghost function FlipRun(g: Grid, r: int, c: int, d: Dir, from: char, to: char): (g': Grid)
    requires IsGrid(g) && IsDir(d)
    ensures IsGrid(g')
    decreases Reach(r, c, d)
  {
    if InBounds(r, c) && At(g, r, c) == from then FlipRun(Set(g, r, c, to), r + d.v, c + d.h, d, from, to) else g
  }

  /** Changing the start of a ray leaves the rest of the ray as it was. */
  lemma SetKeepsTail(g: Grid, r: int, c: int, d: Dir, x: char)
    requires IsGrid(g) && IsDir(d) && InBounds(r, c)
    ensures AgreeOnRay(g, Set(g, r, c, x), r + d.v, c + d.h, d)
  {
    RayExcludesStart(r, c, d);
  }

  /** Cell by cell: FlipRun rewrites exactly the maximal run of `from` cells
      starting at (r, c) to `to`; every other cell keeps its value. */
  lemma {:induction false} FlipRunAt(g: Grid, r: int, c: int, d: Dir, from: char, to: char, a: int, b: int)
    requires IsGrid(g) && IsDir(d) && InBounds(a, b)
    ensures At(FlipRun(g, r, c, d, from, to), a, b) ==
      if OnSegment(r, c, d, RunFrom(g, r, c, d, from), a, b) then to else At(g, a, b)
    decreases Reach(r, c, d)
  {
    if InBounds(r, c) && At(g, r, c) == from {
      FlipRunAt(Set(g, r, c, to), r + d.v, c + d.h, d, from, to, a, b);
      FlipRunAtStep(g, r, c, d, from, to, a, b);
    }
  }

  /** The inductive step of FlipRunAt: the claim for the tail of the ray on
      the grid with (r, c) already flipped gives the claim for the whole ray. */
  lemma FlipRunAtStep(g: Grid, r: int, c: int, d: Dir, from: char, to: char, a: int, b: int)
    requires IsGrid(g) && IsDir(d) && InBounds(a, b) && InBounds(r, c) && At(g, r, c) == from
    requires var g1 := Set(g, r, c, to);
      At(FlipRun(g1, r + d.v, c + d.h, d, from, to), a, b) ==
      if OnSegment(r + d.v, c + d.h, d, RunFrom(g1, r + d.v, c + d.h, d, from), a, b) then to else At(g1, a, b)
    ensures At(FlipRun(g, r, c, d, from, to), a, b) ==
      if OnSegment(r, c, d, RunFrom(g, r, c, d, from), a, b) then to else At(g, a, b)
  {
    var k := RunFrom(g, r + d.v, c + d.h, d, from);
    SetKeepsTailRun(g, r, c, d, from, to);
    SegmentStep(r, c, d, k, a, b);
    if a == r && b == c {
      RayExcludesStart(r, c, d);
    }
  }

  /** Flipping the start of a ray leaves the run along the rest of it as it was. */
  lemma SetKeepsTailRun(g: Grid, r: int, c: int, d: Dir, from: char, to: char)
    requires IsGrid(g) && IsDir(d) && InBounds(r, c)
    ensures RunFrom(Set(g, r, c, to), r + d.v, c + d.h, d, from) == RunFrom(g, r + d.v, c + d.h, d, from)
  {
    SetKeepsTail(g, r, c, d, to);
    RunFromFrame(g, Set(g, r, c, to), r + d.v, c + d.h, d, from);
  }

  /** The cells FlipRun may change all lie on its ray. */
  lemma FlipRunOffRay(g: Grid, r: int, c: int, d: Dir, from: char, to: char, a: int, b: int)
    requires IsGrid(g) && IsDir(d) && InBounds(a, b) && !OnRay(r, c, d, a, b)
    ensures At(FlipRun(g, r, c, d, from, to), a, b) == At(g, a, b)
  {
    FlipRunAt(g, r, c, d, from, to, a, b);
  }

  // ---------------------------------------------------------------------------
  // traverseAndFlip

  /** One iteration of traverseAndFlip's loop, for direction d: when
      traverseFrom succeeds, flipFrom turns the opponent run into mySide. */
  ghost function Step(h: Grid, i: int, j: int, d: Dir, mySide: char, opponentSide: char): (h': Grid)
    requires IsGrid(h) && InBounds(i, j) && IsDir(d)
    ensures IsGrid(h')
  {
    if TraverseOutcome(h, i, j, d, mySide, opponentSide)
    then FlipRun(h, i + d.v, j + d.h, d, opponentSide, mySide)
    else h
  }

  /** The grid after the first n iterations of traverseAndFlip's loop over
      TRAV_ARR. Each direction is tested on the grid as the earlier directions
      left it, as the source does. */
  ghost function Sweep(g: Grid, i: int, j: int, mySide: char, opponentSide: char, n: nat): (g': Grid)
    requires IsGrid(g) && InBounds(i, j) && n <= 8
    ensures IsGrid(g')
  {
    TravArrDirections();
    if n == 0 then g
    else Step(Sweep(g, i, j, mySide, opponentSide, n - 1), i, j, TravArr[n - 1], mySide, opponentSide)
  }

  /** Some direction's traverseFrom succeeds on the grid before the move. */
  ghost predicate Legal(g: Grid, i: int, j: int, mySide: char, opponentSide: char)
    requires IsGrid(g) && InBounds(i, j)
  {
    TravArrDirections();
    exists n :: 0 <= n < 8 && TraverseOutcome(g, i, j, TravArr[n], mySide, opponentSide)
  }

  /** Some one of the first n directions' traverseFrom succeeds on g. */
  ghost predicate AnySucceeds(g: Grid, i: int, j: int, mySide: char, opponentSide: char, n: nat)
    requires IsGrid(g) && InBounds(i, j) && n <= 8
  {
    TravArrDirections();
    n > 0 && (AnySucceeds(g, i, j, mySide, opponentSide, n - 1)
              || TraverseOutcome(g, i, j, TravArr[n - 1], mySide, opponentSide))
  }

  lemma {:induction false} AnySucceedsExists(g: Grid, i: int, j: int, mySide: char, opponentSide: char, n: nat)
    requires IsGrid(g) && InBounds(i, j) && n <= 8
    ensures AnySucceeds(g, i, j, mySide, opponentSide, n) <==>
      exists m :: 0 <= m < n && TraverseOutcome(g, i, j, TravArr[m], mySide, opponentSide)
  {
    TravArrDirections();
    if n > 0 {
      AnySucceedsExists(g, i, j, mySide, opponentSide, n - 1);
      if TraverseOutcome(g, i, j, TravArr[n - 1], mySide, opponentSide) {
        assert exists m :: 0 <= m < n && TraverseOutcome(g, i, j, TravArr[m], mySide, opponentSide);
      }
    }
  }

  /** Cell (a, b) is flipped along d: traverseFrom succeeds along d on the
      original grid and (a, b) is in the run of opponent stones it walked over. */
  ghost predicate FlippedAlong(g: Grid, i: int, j: int, d: Dir, mySide: char, opponentSide: char, a: int, b: int)
    requires IsGrid(g) && InBounds(i, j) && IsDir(d)
  {
    TraverseOutcome(g, i, j, d, mySide, opponentSide)
    && OnSegment(i + d.v, j + d.h, d, RunFrom(g, i + d.v, j + d.h, d, opponentSide), a, b)
  }

  /** Cell (a, b) is flipped along one of the first n directions of TRAV_ARR. */
  ghost predicate FlippedAny(g: Grid, i: int, j: int, mySide: char, opponentSide: char, n: nat, a: int, b: int)
    requires IsGrid(g) && InBounds(i, j) && n <= 8
  {
    TravArrDirections();
    n > 0 && (FlippedAny(g, i, j, mySide, opponentSide, n - 1, a, b)
              || FlippedAlong(g, i, j, TravArr[n - 1], mySide, opponentSide, a, b))
  }

  lemma {:induction false} FlippedAnyExists(g: Grid, i: int, j: int, mySide: char, opponentSide: char, n: nat, a: int, b: int)
    requires IsGrid(g) && InBounds(i, j) && n <= 8
    ensures FlippedAny(g, i, j, mySide, opponentSide, n, a, b) <==>
      exists m :: 0 <= m < n && FlippedAlong(g, i, j, TravArr[m], mySide, opponentSide, a, b)
  {
    TravArrDirections();
    if n > 0 {
      FlippedAnyExists(g, i, j, mySide, opponentSide, n - 1, a, b);
      if FlippedAlong(g, i, j, TravArr[n - 1], mySide, opponentSide, a, b) {
        assert exists m :: 0 <= m < n && FlippedAlong(g, i, j, TravArr[m], mySide, opponentSide, a, b);
      }
    }
  }

  /** The grid after traverseAndFlip. */
  ghost function ApplyMove(g: Grid, i: int, j: int, mySide: char, opponentSide: char): (g': Grid)
    requires IsGrid(g) && InBounds(i, j)
    ensures IsGrid(g')
  {
    var h := Sweep(g, i, j, mySide, opponentSide, 8);
    if Legal(g, i, j, mySide, opponentSide) then Set(h, i, j, mySide) else h
  }

  /** One iteration on a grid h that still agrees with g on the origin and on
      the ray of d: cell (a, b) becomes mySide exactly when it is flipped
      along d in g. */
  lemma StepAt(g: Grid, h: Grid, i: int, j: int, d: Dir, mySide: char, opponentSide: char, a: int, b: int)
    requires IsGrid(g) && IsGrid(h) && InBounds(i, j) && IsDir(d) && InBounds(a, b)
    requires AgreeOnRay(g, h, i + d.v, j + d.h, d) && At(h, i, j) == At(g, i, j)
    ensures At(Step(h, i, j, d, mySide, opponentSide), a, b) ==
      if FlippedAlong(g, i, j, d, mySide, opponentSide, a, b) then mySide else At(h, a, b)
  {
    TraverseFrame(g, h, i, j, d, mySide, opponentSide);
    RunFromFrame(g, h, i + d.v, j + d.h, d, opponentSide);
    if TraverseOutcome(h, i, j, d, mySide, opponentSide) {
      FlipRunAt(h, i + d.v, j + d.h, d, opponentSide, mySide, a, b);
    }
  }

  /** No direction of TRAV_ARR flips the origin or a cell on the ray of another
      direction. */
  lemma NotFlippedElsewhere(g: Grid, i: int, j: int, mySide: char, opponentSide: char, n: nat, d: Dir, a: int, b: int)
    requires IsGrid(g) && InBounds(i, j) && n <= 8 && IsDir(d)
    requires (a == i && b == j) || (OnRay(i + d.v, j + d.h, d, a, b) && forall m :: 0 <= m < n ==> TravArr[m] != d)
    ensures !FlippedAny(g, i, j, mySide, opponentSide, n, a, b)
  {
    TravArrDirections();
    FlippedAnyExists(g, i, j, mySide, opponentSide, n, a, b);
    forall m | 0 <= m < n
      ensures !FlippedAlong(g, i, j, TravArr[m], mySide, opponentSide, a, b)
    {
      RayExcludesStart(i, j, TravArr[m]);
      if a != i || b != j {
        RaysDisjoint(i, j, TravArr[m], d, a, b);
      }
    }
  }

  /** After n directions, the origin and the ray of direction n are still as in
      the original grid. */
  lemma {:induction false} SweepKeepsRay(g: Grid, i: int, j: int, mySide: char, opponentSide: char, n: nat)
    requires IsGrid(g) && InBounds(i, j) && n < 8
    ensures var h := Sweep(g, i, j, mySide, opponentSide, n); var d := TravArr[n];
      AgreeOnRay(g, h, i + d.v, j + d.h, d) && At(h, i, j) == At(g, i, j)
    decreases n, 2
  {
    TravArrDirections();
    var h := Sweep(g, i, j, mySide, opponentSide, n);
    var d := TravArr[n];
    forall a, b | InBounds(a, b) && OnRay(i + d.v, j + d.h, d, a, b)
      ensures At(g, a, b) == At(h, a, b)
    {
      SweepAt(g, i, j, mySide, opponentSide, n, a, b);
      NotFlippedElsewhere(g, i, j, mySide, opponentSide, n, d, a, b);
    }
    SweepAt(g, i, j, mySide, opponentSide, n, i, j);
    NotFlippedElsewhere(g, i, j, mySide, opponentSide, n, d, i, j);
  }

  /** Iteration n of traverseAndFlip's loop sees the same traverseFrom outcome
      as on the original grid, and extends the sweep by one direction. */
  lemma SweepNext(g: Grid, h: Grid, i: int, j: int, mySide: char, opponentSide: char, n: nat)
    requires IsGrid(g) && InBounds(i, j) && n < 8 && h == Sweep(g, i, j, mySide, opponentSide, n)
    ensures TraverseOutcome(h, i, j, TravArr[n], mySide, opponentSide) == TraverseOutcome(g, i, j, TravArr[n], mySide, opponentSide)
    ensures Step(h, i, j, TravArr[n], mySide, opponentSide) == Sweep(g, i, j, mySide, opponentSide, n + 1)
  {
    TravArrDirections();
    SweepKeepsRay(g, i, j, mySide, opponentSide, n);
    TraverseFrame(g, h, i, j, TravArr[n], mySide, opponentSide);
  }

  /** Cell by cell: after n directions, a cell holds mySide when one of those
      directions flips it, and its original value otherwise. */
  lemma {:induction false} SweepAt(g: Grid, i: int, j: int, mySide: char, opponentSide: char, n: nat, a: int, b: int)
    requires IsGrid(g) && InBounds(i, j) && n <= 8 && InBounds(a, b)
    ensures At(Sweep(g, i, j, mySide, opponentSide, n), a, b) ==
      if FlippedAny(g, i, j, mySide, opponentSide, n, a, b) then mySide else At(g, a, b)
    decreases n, 1
  {
    TravArrDirections();
    if n > 0 {
      var h := Sweep(g, i, j, mySide, opponentSide, n - 1);
      SweepAt(g, i, j, mySide, opponentSide, n - 1, a, b);
      SweepKeepsRay(g, i, j, mySide, opponentSide, n - 1);
      StepAt(g, h, i, j, TravArr[n - 1], mySide, opponentSide, a, b);
    }
  }

  /** traverseAndFlip, cell by cell: the origin becomes mySide when the move is
      legal, every opponent stone of a successful direction's run becomes
      mySide, and no other cell changes. */
  lemma MoveAt(g: Grid, i: int, j: int, mySide: char, opponentSide: char, a: int, b: int)
    requires IsGrid(g) && InBounds(i, j) && InBounds(a, b)
    ensures At(ApplyMove(g, i, j, mySide, opponentSide), a, b) ==
      if (Legal(g, i, j, mySide, opponentSide) && a == i && b == j)
         || (exists n :: 0 <= n < 8 && FlippedAlong(g, i, j, TravArr[n], mySide, opponentSide, a, b))
      then mySide else At(g, a, b)
  {
    SweepAt(g, i, j, mySide, opponentSide, 8, a, b);
    FlippedAnyExists(g, i, j, mySide, opponentSide, 8, a, b);
  }

  /** A move that is not legal leaves the grid unchanged. */
  lemma MoveIllegalUnchanged(g: Grid, i: int, j: int, mySide: char, opponentSide: char)
    requires IsGrid(g) && InBounds(i, j) && !Legal(g, i, j, mySide, opponentSide)
    ensures ApplyMove(g, i, j, mySide, opponentSide) == g
  {
    var g' := ApplyMove(g, i, j, mySide, opponentSide);
    forall k | 0 <= k < 64 ensures g'[k] == g[k] {
      MoveAt(g, i, j, mySide, opponentSide, k / 8, k % 8);
    }
  }

  // ---------------------------------------------------------------------------
  // Scores

  /** getPointsFor: the number of cells holding s. */
  function Points(g: Grid, s: char): nat {
    multiset(g)[s]
  }

  /** Replacing one cell moves one point from its old side to its new side. */
  lemma PointsUpdate(g: Grid, r: int, c: int, x: char, s: char)
    requires IsGrid(g) && InBounds(r, c)
    ensures Points(Set(g, r, c, x), s) ==
      Points(g, s) - (if At(g, r, c) == s then 1 else 0) + (if x == s then 1 else 0)
  {
    assert multiset(Set(g, r, c, x)) == multiset(g) - multiset{At(g, r, c)} + multiset{x};
  }

  /** Points never exceeds the number of cells: 64 on a board. */
  lemma PointsBound(g: Grid, s: char)
    ensures Points(g, s) <= |g|
  {
    assert |multiset(g)| == |g|;
  }

  /** When every cell is black, white or empty, the three counts add up to the
      number of cells. */
  lemma {:induction false} PointsPartition(g: Grid)
    requires forall k :: 0 <= k < |g| ==> g[k] == Black || g[k] == White || g[k] == Empty
    ensures Points(g, Black) + Points(g, White) + Points(g, Empty) == |g|
  {
    if g != [] {
      var init := g[..|g| - 1];
      PointsPartition(init);
      assert g == init + [g[|g| - 1]];
      assert multiset(g) == multiset(init) + multiset{g[|g| - 1]};
    }
  }

  /** flipFrom(opponent -> mySide) keeps the sum of both scores and never
      raises the opponent's. */
  lemma {:induction false} FlipRunPoints(g: Grid, r: int, c: int, d: Dir, opponentSide: char, mySide: char)
    requires IsGrid(g) && IsDir(d) && mySide != opponentSide
    ensures var g' := FlipRun(g, r, c, d, opponentSide, mySide);
      Points(g', mySide) + Points(g', opponentSide) == Points(g, mySide) + Points(g, opponentSide)
      && Points(g', opponentSide) <= Points(g, opponentSide)
    decreases Reach(r, c, d)
  {
    if InBounds(r, c) && At(g, r, c) == opponentSide {
      var g1 := Set(g, r, c, mySide);
      PointsUpdate(g, r, c, mySide, mySide);
      PointsUpdate(g, r, c, mySide, opponentSide);
      FlipRunPoints(g1, r + d.v, c + d.h, d, opponentSide, mySide);
      assert FlipRun(g, r, c, d, opponentSide, mySide) == FlipRun(g1, r + d.v, c + d.h, d, opponentSide, mySide);
    }
  }

  /** One iteration of traverseAndFlip's loop keeps the sum of both scores and
      never raises the opponent's. */
  lemma StepPoints(h: Grid, i: int, j: int, d: Dir, mySide: char, opponentSide: char)
    requires IsGrid(h) && InBounds(i, j) && IsDir(d) && mySide != opponentSide
    ensures var h' := Step(h, i, j, d, mySide, opponentSide);
      Points(h', mySide) + Points(h', opponentSide) == Points(h, mySide) + Points(h, opponentSide)
      && Points(h', opponentSide) <= Points(h, opponentSide)
  {
    FlipRunPoints(h, i + d.v, j + d.h, d, opponentSide, mySide);
  }

  lemma {:induction false} SweepPoints(g: Grid, i: int, j: int, mySide: char, opponentSide: char, n: nat)
    requires IsGrid(g) && InBounds(i, j) && n <= 8 && mySide != opponentSide
    ensures var g' := Sweep(g, i, j, mySide, opponentSide, n);
      Points(g', mySide) + Points(g', opponentSide) == Points(g, mySide) + Points(g, opponentSide)
      && Points(g', opponentSide) <= Points(g, opponentSide)
  {
    if n > 0 {
      TravArrDirections();
      SweepPoints(g, i, j, mySide, opponentSide, n - 1);
      StepPoints(Sweep(g, i, j, mySide, opponentSide, n - 1), i, j, TravArr[n - 1], mySide, opponentSide);
    }
  }

  /** A legal move on an empty cell adds exactly one stone to the board and
      never raises the opponent's score. */
  lemma MoveScore(g: Grid, i: int, j: int, mySide: char, opponentSide: char)
    requires IsGrid(g) && InBounds(i, j) && At(g, i, j) == Empty
    requires mySide != opponentSide && mySide != Empty && opponentSide != Empty
    requires Legal(g, i, j, mySide, opponentSide)
    ensures var g' := ApplyMove(g, i, j, mySide, opponentSide);
      Points(g', mySide) + Points(g', opponentSide) == Points(g, mySide) + Points(g, opponentSide) + 1
      && Points(g', opponentSide) <= Points(g, opponentSide)
  {
    var h := Sweep(g, i, j, mySide, opponentSide, 8);
    SweepPoints(g, i, j, mySide, opponentSide, 8);
    SweepAt(g, i, j, mySide, opponentSide, 8, i, j);
    TravArrDirections();
    NotFlippedElsewhere(g, i, j, mySide, opponentSide, 8, TravArr[0], i, j);
    PointsUpdate(h, i, j, mySide, mySide);
    PointsUpdate(h, i, j, mySide, opponentSide);
  }

  // ---------------------------------------------------------------------------
  // hasPossibleMoves

  /** What hasPossibleMoves searches for: a cell of mySide from which some
      direction's traverseFrom, looking for an empty cell, succeeds. */
  ghost predicate HasMove(g: Grid, mySide: char, opponentSide: char)
    requires IsGrid(g)
  {
    exists i, j, n :: 0 <= i < 8 && 0 <= j < 8 && 0 <= n < 8 && At(g, i, j) == mySide
      && MoveFrom(g, i, j, n, opponentSide)
  }

  ghost predicate MoveFrom(g: Grid, i: int, j: int, n: int, opponentSide: char)
    requires IsGrid(g) && 0 <= i < 8 && 0 <= j < 8 && 0 <= n < 8
  {
    TraverseOutcome(g, i, j, TravArr[n], Empty, opponentSide)
  }

  /** For real sides, hasPossibleMoves finds a stone of mySide with a ray of at
      least one opponent stone that ends on an empty cell. */
  lemma HasMoveMeaning(g: Grid, mySide: char, opponentSide: char)
    requires IsGrid(g) && mySide != Empty && opponentSide != Empty
    ensures HasMove(g, mySide, opponentSide) <==>
      exists i, j, n :: 0 <= i < 8 && 0 <= j < 8 && 0 <= n < 8 && At(g, i, j) == mySide
        && Captures(g, i, j, TravArr[n], Empty, opponentSide)
  {
    TravArrDirections();
    forall i, j, n | 0 <= i < 8 && 0 <= j < 8 && 0 <= n < 8 && At(g, i, j) == mySide
      ensures MoveFrom(g, i, j, n, opponentSide) == Captures(g, i, j, TravArr[n], Empty, opponentSide)
    {
      TraverseMeaning(g, i, j, TravArr[n], Empty, opponentSide);
    }
  }

  // ---------------------------------------------------------------------------
  // The board object

  /** Board: the 8x8 array of side characters, updated in place. */
  class Board {
    const cells: array2<char>
    /** The abstract value of `cells`. */
    ghost var G: Grid

    ghost predicate Valid()
      reads this, cells
    {
      cells.Length0 == 8 && cells.Length1 == 8 && IsGrid(G)
      && forall r, c {:trigger cells[r, c]} :: 0 <= r < 8 && 0 <= c < 8 ==> cells[r, c] == At(G, r, c)
    }

    /** Board::default: every cell empty. */
    constructor Default()
      ensures Valid() && fresh(cells)
      ensures G == EmptyGrid()
      ensures forall r, c :: 0 <= r < 8 && 0 <= c < 8 ==> At(G, r, c) == Empty
    {
      cells := new char[8, 8]((_, _) => Empty);
      G := EmptyGrid();
    }

    /** The walk of traverseFrom: from (row, col), step along (vDir, hDir)
        while the cell is on the board and holds s. */
    method WalkOver(row0: int, col0: int, vDir: int, hDir: int, s: char) returns (row: int, col: int)
      requires Valid() && IsDir(Dir(vDir, hDir))
      ensures (row, col) == WalkEnd(G, row0, col0, Dir(vDir, hDir), s)
    {
      ghost var d := Dir(vDir, hDir);
      row, col := row0, col0;
      var rl, cl := cells.Length0, cells.Length1;
      while IsInBounds(row, col, rl, cl) && cells[row, col] == s
        invariant WalkEnd(G, row, col, d, s) == WalkEnd(G, row0, col0, d, s)
        decreases Reach(row, col, d)
      {
        row, col := row + vDir, col + hDir;
      }
    }

    method TraverseFrom(initRow: int, initCol: int, vDir: int, hDir: int, mySide: char, opponentSide: char)
      returns (found: bool)
      requires Valid() && InBounds(initRow, initCol) && IsDir(Dir(vDir, hDir))
      ensures found == TraverseOutcome(G, initRow, initCol, Dir(vDir, hDir), mySide, opponentSide)
    {
      var row, col := WalkOver(initRow + vDir, initCol + hDir, vDir, hDir, opponentSide);
      if !IsInBounds(row, col, cells.Length0, cells.Length1) {
        row := row + vDir * -1;
        col := col + hDir * -1;
      }
      TraverseLanding(G, initRow, initCol, Dir(vDir, hDir), mySide, opponentSide, (row, col));
      if cells[row, col] == mySide && (col != initCol + hDir || row != initRow + vDir) {
        return true;
      }
      return false;
    }

    method FlipFrom(initRow: int, initCol: int, vDir: int, hDir: int, flipFrom: char, flipTo: char)
      requires Valid() && IsDir(Dir(vDir, hDir))
      modifies this, cells
      ensures Valid()
      ensures G == FlipRun(old(G), initRow + vDir, initCol + hDir, Dir(vDir, hDir), flipFrom, flipTo)
    {
      ghost var d := Dir(vDir, hDir);
      var row, col := initRow + vDir, initCol + hDir;
      var rl, cl := cells.Length0, cells.Length1;
      while IsInBounds(row, col, rl, cl) && cells[row, col] == flipFrom
        invariant Valid()
        invariant FlipRun(G, row, col, d, flipFrom, flipTo)
               == FlipRun(old(G), initRow + vDir, initCol + hDir, d, flipFrom, flipTo)
        decreases Reach(row, col, d)
      {
        cells[row, col] := flipTo;
        G := Set(G, row, col, flipTo);
        row, col := row + vDir, col + hDir;
      }
    }

    /** The body of traverseAndFlip's loop for one direction. */
    method TraverseAndFlipAlong(i: int, j: int, d: Dir, mySide: char, opponentSide: char) returns (f: bool)
      requires Valid() && InBounds(i, j) && IsDir(d)
      modifies this, cells
      ensures Valid()
      ensures f == TraverseOutcome(old(G), i, j, d, mySide, opponentSide)
      ensures G == Step(old(G), i, j, d, mySide, opponentSide)
    {
      f := TraverseFrom(i, j, d.v, d.h, mySide, opponentSide);
      if f {
        FlipFrom(i, j, d.v, d.h, opponentSide, mySide);
      }
    }

    method TraverseAndFlip(i: int, j: int, mySide: char, opponentSide: char) returns (isFlipped: bool)
      requires Valid() && InBounds(i, j)
      modifies this, cells
      ensures Valid()
      ensures isFlipped == Legal(old(G), i, j, mySide, opponentSide)
      ensures G == ApplyMove(old(G), i, j, mySide, opponentSide)
    {
      TravArrDirections();
      isFlipped := false;
      for n := 0 to |TravArr|
        invariant Valid()
        invariant G == Sweep(old(G), i, j, mySide, opponentSide, n)
        invariant isFlipped == AnySucceeds(old(G), i, j, mySide, opponentSide, n)
      {
        SweepNext(old(G), G, i, j, mySide, opponentSide, n);
        var f := TraverseAndFlipAlong(i, j, TravArr[n], mySide, opponentSide);
        isFlipped := f || isFlipped;
      }
      AnySucceedsExists(old(G), i, j, mySide, opponentSide, 8);
      if isFlipped {
        cells[i, j] := mySide;
        G := Set(G, i, j, mySide);
      }
    }

    method HasPossibleMoves(mySide: char, opponentSide: char) returns (found: bool)
      requires Valid()
      ensures found == HasMove(G, mySide, opponentSide)
    {
      TravArrDirections();
      for i := 0 to cells.Length0
        invariant forall i', j', n :: 0 <= i' < i && 0 <= j' < 8 && 0 <= n < 8 && At(G, i', j') == mySide ==>
                    !MoveFrom(G, i', j', n, opponentSide)
      {
        for j := 0 to cells.Length1
          invariant forall i', j', n :: 0 <= i' < i && 0 <= j' < 8 && 0 <= n < 8 && At(G, i', j') == mySide ==>
                      !MoveFrom(G, i', j', n, opponentSide)
          invariant forall j', n :: 0 <= j' < j && 0 <= n < 8 && At(G, i, j') == mySide ==>
                      !MoveFrom(G, i, j', n, opponentSide)
        {
          if cells[i, j] != mySide {
            continue;
          }
          for n := 0 to |TravArr|
            invariant forall m :: 0 <= m < n ==> !MoveFrom(G, i, j, m, opponentSide)
          {
            var d := TravArr[n];
            var t := TraverseFrom(i, j, d.v, d.h, Empty, opponentSide);
            if t {
              assert MoveFrom(G, i, j, n, opponentSide);
              return true;
            }
          }
        }
      }
      return false;
    }

    method GetPointsFor(s: char) returns (p: nat)
      requires Valid()
      ensures p == Points(G, s) && p <= 64
    {
      p := 0;
      for r := 0 to cells.Length0
        invariant p == Points(G[..8 * r], s)
      {
        for c := 0 to cells.Length1
          invariant p == Points(G[..8 * r + c], s)
        {
          assert G[..8 * r + c + 1] == G[..8 * r + c] + [At(G, r, c)];
          if cells[r, c] == s {
            p := p + 1;
          }
        }
      }
      assert G[..64] == G;
      PointsBound(G, s);
    }
  }
}
