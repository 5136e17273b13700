/**
 * The frontier of the search as a function of the edit count: what pass d
 * writes on diagonal k, what it reads, and what the passes prove (Myers'
 * Lemma 2: the frontier holds the furthest point any d-path reaches).
 */
module Frontier {
  import opened Operations
  import opened EditGraph
  import opened VArrays
  import opened Snakes

  /** Whether k is one of the diagonals -d, -d + 2, ..., d that pass d writes. */
  predicate OnDiagonal(d: int, k: int) {
    0 <= d && -d <= k <= d && (d - k) % 2 == 0
  }

  /** The frontier value pass d reads on diagonal k - 1 (zero at k == -d, where it is not read). */
  ghost function LeftRead<T>(a: seq<T>, b: seq<T>, d: nat, k: int): int
    requires OnDiagonal(d, k)
    decreases d, 0
  {
    if k != -(d as int) then Furthest(a, b, d - 1, k - 1) else 0
  }

  /**
   * The frontier value pass d reads on diagonal k + 1: zero from the preset
   * cell in pass 0, and zero at k == d > 0, where it is not read.
   */
  ghost function RightRead<T>(a: seq<T>, b: seq<T>, d: nat, k: int): int
    requires OnDiagonal(d, k)
    decreases d, 0
  {
    if d != 0 && (k == -(d as int) || k != d) then Furthest(a, b, d - 1, k + 1) else 0
  }

  /**
   * The x coordinate pass d writes for diagonal k: one step down from the
   * frontier point of pass d - 1 on diagonal k + 1 or one step right from
   * the one on k - 1, as the snake rule chooses, then a slide along k.
   */
  ghost function Furthest<T>(a: seq<T>, b: seq<T>, d: nat, k: int): int
    requires OnDiagonal(d, k)
    decreases d, 1
  {
    SlideFrom(a, b, Landing(k, d, LeftRead(a, b, d, k), RightRead(a, b, d, k)), k)
  }

  /** The values pass d reads on the neighbouring diagonals. */
  lemma Neighbours<T>(a: seq<T>, b: seq<T>, d: nat, k: int)
    requires OnDiagonal(d, k)
    ensures LeftRead(a, b, d, k) == if k != -(d as int) then Furthest(a, b, d - 1, k - 1) else 0
    ensures RightRead(a, b, d, k) == if d != 0 && (k == -(d as int) || k != d) then Furthest(a, b, d - 1, k + 1) else 0
  {
  }

  /** How pass d combines the values it reads: one step, then the slide. */
  lemma FurthestStep<T>(a: seq<T>, b: seq<T>, d: nat, k: int)
    requires OnDiagonal(d, k)
    ensures Furthest(a, b, d, k) == SlideFrom(a, b, Landing(k, d, LeftRead(a, b, d, k), RightRead(a, b, d, k)), k)
  {
  }

  /** The snake pass d computes for diagonal k. */
  ghost function SnakeAt<T>(a: seq<T>, b: seq<T>, d: nat, k: int): Snake
    requires OnDiagonal(d, k)
  {
    SnakeOf(a, b, k, d, LeftRead(a, b, d, k), RightRead(a, b, d, k))
  }

  /** The diagonal of pass d - 1 whose frontier point the snake of pass d on diagonal k starts from. */
  ghost function Parent<T>(a: seq<T>, b: seq<T>, d: nat, k: int): (j: int)
    requires OnDiagonal(d, k) && d > 0
    ensures OnDiagonal(d - 1, j) && (j == k + 1 || j == k - 1)
  {
    if GoesDown(k, d, LeftRead(a, b, d, k), RightRead(a, b, d, k)) then k + 1 else k - 1
  }

  /** Pass d's frontier point on diagonal k: its y coordinate follows from x and k. */
  function FrontierPoint(x: int, k: int): (p: Point)
    ensures p.x - p.y == k
  {
    Point(x, x - k)
  }

  /**
   * Every frontier point lies in the quadrant x, y >= 0, at least d steps
   * (counting a diagonal move as two) from the origin.
   */
  lemma {:induction false} FurthestBounds<T>(a: seq<T>, b: seq<T>, d: nat, k: int)
    requires OnDiagonal(d, k)
    ensures 0 <= Furthest(a, b, d, k) && k <= Furthest(a, b, d, k) && d <= 2 * Furthest(a, b, d, k) - k
  {
    Neighbours(a, b, d, k);
    FurthestStep(a, b, d, k);
    if d > 0 {
      if k != -(d as int) {
        FurthestBounds(a, b, d - 1, k - 1);
      }
      if k != d {
        FurthestBounds(a, b, d - 1, k + 1);
      }
    }
  }

  /** No diagonal edge leaves a frontier point: the slide that produced it went as far as it could. */
  lemma FrontierBlocked<T>(a: seq<T>, b: seq<T>, d: nat, k: int)
    requires OnDiagonal(d, k)
    ensures !Matches(a, b, Furthest(a, b, d, k), Furthest(a, b, d, k) - k)
  {
    FurthestStep(a, b, d, k);
    var x := Landing(k, d, LeftRead(a, b, d, k), RightRead(a, b, d, k));
    SlideMeaning(a, b, x, x - k);
  }

  /** Whether p lies on a diagonal pass c writes, no further along it than pass c's frontier point. */
  ghost predicate Covered<T>(a: seq<T>, b: seq<T>, c: nat, p: Point) {
    OnDiagonal(c, p.x - p.y) && p.x <= Furthest(a, b, c, p.x - p.y)
  }

  /** A step right from a point pass c covers is covered by pass c + 1. */
  lemma RightStep<T>(a: seq<T>, b: seq<T>, c: nat, p: Point)
    requires Covered(a, b, c, p)
    ensures Covered(a, b, c + 1, Point(p.x + 1, p.y))
  {
    Neighbours(a, b, c + 1, p.x - p.y + 1);
    FurthestStep(a, b, c + 1, p.x - p.y + 1);
  }

  /** A step down from a point pass c covers is covered by pass c + 1. */
  lemma DownStep<T>(a: seq<T>, b: seq<T>, c: nat, p: Point)
    requires Covered(a, b, c, p)
    ensures Covered(a, b, c + 1, Point(p.x, p.y + 1))
  {
    Neighbours(a, b, c + 1, p.x - p.y - 1);
    FurthestStep(a, b, c + 1, p.x - p.y - 1);
  }

  /** A diagonal step from a point pass c covers is covered by pass c too. */
  lemma DiagonalStep<T>(a: seq<T>, b: seq<T>, c: nat, p: Point)
    requires Covered(a, b, c, p) && Matches(a, b, p.x, p.y)
    ensures Covered(a, b, c, Point(p.x + 1, p.y + 1))
  {
    if p.x == Furthest(a, b, c, p.x - p.y) {
      FrontierBlocked(a, b, c, p.x - p.y);
    }
  }

  /**
   * Myers' Lemma 2: a path from (0, 0) with c edits ends on a diagonal k that
   * pass c writes, no further along it than the point pass c records.
   */
  lemma {:induction false} FurthestReaching<T>(a: seq<T>, b: seq<T>, path: seq<Move>)
    requires ValidPath(a, b, path)
    ensures Covered(a, b, Cost(path), End(path))
  {
    if path != [] {
      var prefix := path[..|path| - 1];
      FurthestReaching(a, b, prefix);
      match path[|path| - 1]
      case Diagonal => DiagonalStep(a, b, Cost(prefix), End(prefix));
      case Right => RightStep(a, b, Cost(prefix), End(prefix));
      case Down => DownStep(a, b, Cost(prefix), End(prefix));
    }
  }

  /** The snake of pass d on diagonal k ends at the frontier point pass d records. */
  lemma SnakeAtEnd<T>(a: seq<T>, b: seq<T>, d: nat, k: int)
    requires OnDiagonal(d, k)
    ensures SnakeAt(a, b, d, k).end == FrontierPoint(Furthest(a, b, d, k), k)
  {
    FurthestStep(a, b, d, k);
    SnakeOfEnd(a, b, k, d, LeftRead(a, b, d, k), RightRead(a, b, d, k));
  }

  /**
   * A snake of pass d > 0 starts at a frontier point of pass d - 1 and is an
   * Insert (one step down from diagonal k + 1) or a Delete (one step right
   * from diagonal k - 1).
   */
  lemma SnakeAtStart<T>(a: seq<T>, b: seq<T>, d: nat, k: int, s: Snake)
    requires OnDiagonal(d, k) && d > 0 && s == SnakeAt(a, b, d, k)
    ensures s.start == FrontierPoint(Furthest(a, b, d - 1, Parent(a, b, d, k)), Parent(a, b, d, k))
    ensures s.kind == Insert || s.kind == Delete
  {
    Neighbours(a, b, d, k);
    if GoesDown(k, d, LeftRead(a, b, d, k), RightRead(a, b, d, k)) {
      FurthestBounds(a, b, d - 1, k + 1);
    } else {
      FurthestBounds(a, b, d - 1, k - 1);
    }
  }

  /**
   * The snake of pass 0 starts at the virtual point (0, -1) and is an Equal;
   * a snake of a later pass starts at a frontier point of pass d - 1 and is
   * an Insert or a Delete. Either way one step and a run of diagonal moves
   * lead from its start to its end, the frontier point of pass d.
   */
  lemma SnakeAtShape<T>(a: seq<T>, b: seq<T>, d: nat, k: int, s: Snake)
    requires OnDiagonal(d, k) && s == SnakeAt(a, b, d, k)
    ensures s.end == FrontierPoint(Furthest(a, b, d, k), k)
    ensures Step(s.start, if s.kind == Delete then Right else Down) == Point(s.end.x - s.diagonals, s.end.y - s.diagonals)
    ensures Run(a, b, s.end.x - s.diagonals, s.end.y - s.diagonals, s.diagonals)
    ensures d == 0 ==> s.start == Point(0, -1) && s.kind == Equal
    ensures d > 0 ==>
      s.start == FrontierPoint(Furthest(a, b, d - 1, Parent(a, b, d, k)), Parent(a, b, d, k)) &&
      (s.kind == Insert || s.kind == Delete)
  {
    SnakeAtEnd(a, b, d, k);
    SnakeOfSlides(a, b, k, d, LeftRead(a, b, d, k), RightRead(a, b, d, k), s);
    if d > 0 {
      SnakeAtStart(a, b, d, k, s);
    }
  }

  /** The path the frontier point of pass d on diagonal k was reached by: the d snakes of its trace. */
  ghost function Reach<T>(a: seq<T>, b: seq<T>, d: nat, k: int): seq<Move>
    requires OnDiagonal(d, k)
    decreases d
  {
    var s := SnakeAt(a, b, d, k);
    if d == 0 then Repeat(Diagonal, s.diagonals)
    else Reach(a, b, d - 1, Parent(a, b, d, k)) + SnakeMoves(s)
  }

  /** The moves of an Insert or Delete snake: its edit, then its diagonal run. */
  function SnakeMoves(s: Snake): seq<Move> {
    [if s.kind == Delete then Right else Down] + Repeat(Diagonal, s.diagonals)
  }

  /** A path that ends at the start of an Insert or Delete snake, followed by that snake's moves, ends at the snake's end with one more edit. */
  lemma SnakeMovesPath<T>(a: seq<T>, b: seq<T>, prefix: seq<Move>, s: Snake)
    requires ValidPath(a, b, prefix) && End(prefix) == s.start
    requires Step(s.start, if s.kind == Delete then Right else Down) == Point(s.end.x - s.diagonals, s.end.y - s.diagonals)
    requires Run(a, b, s.end.x - s.diagonals, s.end.y - s.diagonals, s.diagonals)
    ensures ValidPath(a, b, prefix + SnakeMoves(s)) && End(prefix + SnakeMoves(s)) == s.end
    ensures Cost(prefix + SnakeMoves(s)) == Cost(prefix) + 1
  {
    var mv: Move := if s.kind == Delete then Right else Down;
    AppendSnake(a, b, prefix, mv, s.end.x - s.diagonals, s.end.y - s.diagonals, s.diagonals);
    assert prefix + SnakeMoves(s) == prefix + [mv] + Repeat(Diagonal, s.diagonals);
  }

  /** Whether path is a valid path with d edits that ends at pass d's frontier point on diagonal k. */
  ghost predicate Reaches<T>(a: seq<T>, b: seq<T>, d: nat, k: int, path: seq<Move>)
    requires OnDiagonal(d, k)
  {
    ValidPath(a, b, path) && End(path) == FrontierPoint(Furthest(a, b, d, k), k) && Cost(path) == d
  }

  /** Pass 0's frontier point is reached by the diagonal run from the origin. */
  lemma ReachStart<T>(a: seq<T>, b: seq<T>)
    ensures Reaches(a, b, 0, 0, Reach(a, b, 0, 0))
  {
    var s := SnakeAt(a, b, 0, 0);
    SnakeAtShape(a, b, 0, 0, s);
    assert Point(s.end.x - s.diagonals, s.end.y - s.diagonals) == Point(0, 0);
    AppendDiagonals(a, b, [], 0, 0, s.diagonals);
    assert Reach(a, b, 0, 0) == [] + Repeat(Diagonal, s.diagonals);
  }

  /** The path to a frontier point of pass d - 1, extended by the snake of pass d that starts there, reaches that snake's end. */
  lemma ReachStep<T>(a: seq<T>, b: seq<T>, d: nat, k: int)
    requires OnDiagonal(d, k) && d > 0
    requires Reaches(a, b, d - 1, Parent(a, b, d, k), Reach(a, b, d - 1, Parent(a, b, d, k)))
    ensures Reaches(a, b, d, k, Reach(a, b, d, k))
  {
    var s := SnakeAt(a, b, d, k);
    SnakeAtShape(a, b, d, k, s);
    SnakeMovesPath(a, b, Reach(a, b, d - 1, Parent(a, b, d, k)), s);
  }

  /** Every frontier point of pass d is reached by a valid path with exactly d edits. */
  lemma {:induction false} ReachIsPath<T>(a: seq<T>, b: seq<T>, d: nat, k: int)
    requires OnDiagonal(d, k)
    ensures Reaches(a, b, d, k, Reach(a, b, d, k))
    decreases d
  {
    if d == 0 {
      ReachStart(a, b);
    } else {
      ReachIsPath(a, b, d - 1, Parent(a, b, d, k));
      ReachStep(a, b, d, k);
    }
  }

  /** Whether pass d's frontier point on diagonal k lies at or beyond the bottom-right corner (|a|, |b|). */
  ghost predicate SolvedAt<T>(a: seq<T>, b: seq<T>, d: nat, k: int)
    requires OnDiagonal(d, k)
  {
    Furthest(a, b, d, k) >= |a| && Furthest(a, b, d, k) - k >= |b|
  }

  /** No pass before d reached the corner. */
  ghost predicate NoSolutionBefore<T>(a: seq<T>, b: seq<T>, d: int) {
    forall e: nat, j :: e < d && OnDiagonal(e, j) ==> !SolvedAt(a, b, e, j)
  }

  /** If no pass before d reached the corner, every path to the corner makes at least d edits. */
  lemma LowerBound<T>(a: seq<T>, b: seq<T>, d: int, path: seq<Move>)
    requires NoSolutionBefore(a, b, d)
    requires ValidPath(a, b, path) && End(path) == Point(|a|, |b|)
    ensures d <= Cost(path)
  {
    FurthestReaching(a, b, path);
    assert SolvedAt(a, b, Cost(path), |a| - |b|);
  }

  /**
   * The first pass that reaches the corner or beyond reaches exactly the
   * corner, on diagonal |a| - |b|, and its edit count is the least edit count
   * of any path to the corner.
   */
  lemma FirstSolution<T>(a: seq<T>, b: seq<T>, d: nat, k: int)
    requires NoSolutionBefore(a, b, d) && OnDiagonal(d, k) && SolvedAt(a, b, d, k)
    ensures Furthest(a, b, d, k) == |a| && k == |a| - |b|
    ensures forall path :: ValidPath(a, b, path) && End(path) == Point(|a|, |b|) ==> d <= Cost(path)
  {
    forall path | ValidPath(a, b, path) && End(path) == Point(|a|, |b|)
      ensures d <= Cost(path)
    {
      LowerBound(a, b, d, path);
    }
    ReachIsPath(a, b, d, k);
    var reach := Reach(a, b, d, k);
    ClipPath(a, b, reach);
    LowerBound(a, b, d, Clip(a, b, reach));
  }

  /** Whether pass d is the first pass to reach the corner, and it reaches it on diagonal |a| - |b|. */
  ghost predicate FirstCorner<T>(a: seq<T>, b: seq<T>, d: nat) {
    NoSolutionBefore(a, b, d) && OnDiagonal(d, |a| - |b|) && SolvedAt(a, b, d, |a| - |b|)
  }

  /** At most one pass is the first to reach the corner. */
  lemma FirstCornerUnique<T>(a: seq<T>, b: seq<T>, d: nat, e: nat)
    requires FirstCorner(a, b, d) && FirstCorner(a, b, e)
    ensures d == e
  {
  }

  /** When no pass before |a| + |b| reaches the corner, the sequences share no element. */
  lemma NoSolutionMeansDisjoint<T>(a: seq<T>, b: seq<T>)
    requires NoSolutionBefore(a, b, |a| + |b|)
    ensures !ShareElement(a, b)
  {
    if ShareElement(a, b) {
      var path := SharedElementPath(a, b);
      LowerBound(a, b, |a| + |b|, path);
    }
  }

  /** A pass before |a| + |b| that reaches the corner shows that the sequences share an element. */
  lemma SolutionMeansShared<T>(a: seq<T>, b: seq<T>, d: nat, k: int)
    requires OnDiagonal(d, k) && d < |a| + |b| && SolvedAt(a, b, d, k)
    ensures ShareElement(a, b)
  {
    ReachIsPath(a, b, d, k);
    var reach := Reach(a, b, d, k);
    ClipPath(a, b, reach);
    var clipped := Clip(a, b, reach);
    PathShape(clipped);
    KeepingPathShares(a, b, clipped);
  }

  /**
   * Pass |a| + |b| always reaches the corner: deleting all of a and then
   * inserting all of b is a path to it with |a| + |b| edits.
   */
  lemma LastPassSolves<T>(a: seq<T>, b: seq<T>)
    ensures OnDiagonal(|a| + |b|, |a| - |b|) && SolvedAt(a, b, |a| + |b|, |a| - |b|)
  {
    var path := AppendCorner(a, b, [], |a|, |b|);
    FurthestReaching(a, b, path);
  }
}
