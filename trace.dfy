/**
 * Backtracking as a function: the snakes collected from a frontier point
 * back to the origin, and what the operations they stand for mean.
 */
module Traces {
  import opened Operations
  import opened EditGraph
  import opened Snakes
  import opened Frontier

  /**
   * The snakes backtracking collects from pass d's frontier point on diagonal
   * k, in forward order: it rebuilds the snake that ends at the current
   * point, moves to that snake's start, and goes on to pass d - 1 while the
   * start lies past the origin. The snake of pass 0 starts at (0, -1), so
   * backtracking always stops there.
   */
  ghost function Trace<T>(a: seq<T>, b: seq<T>, d: nat, k: int): seq<Snake>
    requires OnDiagonal(d, k)
    decreases d
  {
    var s := SnakeAt(a, b, d, k);
    (if d > 0 && (s.start.x > 0 || s.start.y > 0) then Trace(a, b, d - 1, Parent(a, b, d, k)) else []) + [s]
  }

  /** A trace that stops at its last snake. */
  lemma TraceAlone<T>(a: seq<T>, b: seq<T>, d: nat, k: int, s: Snake)
    requires OnDiagonal(d, k) && s == SnakeAt(a, b, d, k)
    requires !(d > 0 && (s.start.x > 0 || s.start.y > 0))
    ensures Trace(a, b, d, k) == [s]
  {
    assert [] + [s] == [s];
  }

  /** A trace that goes on to the previous pass. */
  lemma TraceGoesOn<T>(a: seq<T>, b: seq<T>, d: nat, k: int, s: Snake)
    requires OnDiagonal(d, k) && d > 0 && s == SnakeAt(a, b, d, k)
    requires s.start.x > 0 || s.start.y > 0
    ensures Trace(a, b, d, k) == Trace(a, b, d - 1, Parent(a, b, d, k)) + [s]
  {
  }

  /** A trace that goes on to the previous pass, from the diagonal its first snake starts on. */
  lemma TraceBack<T>(a: seq<T>, b: seq<T>, d: nat, k: int, s: Snake)
    requires OnDiagonal(d, k) && d > 0 && s == SnakeAt(a, b, d, k)
    requires s.start.x > 0 || s.start.y > 0
    ensures OnDiagonal(d - 1, s.start.x - s.start.y)
    ensures Trace(a, b, d, k) == Trace(a, b, d - 1, s.start.x - s.start.y) + [s]
  {
    SnakeAtStart(a, b, d, k, s);
    TraceGoesOn(a, b, d, k, s);
    var j := Parent(a, b, d, k);
    assert s.start.x - s.start.y == j;
  }

  /**
   * Whether the script es turns the first x elements of the original into
   * the first y elements of the target with e insertions and deletions:
   * every operation it renders lies inside its source, it renders the
   * target's prefix, and its Delete and Equal operations visit the original's
   * positions 0, 1, ..., x - 1 in order.
   */
  ghost predicate Transforms<T>(original: Source<T>, target: Source<T>, es: seq<Edit<T>>, x: int, y: int, e: int) {
    0 <= x && 0 <= y <= |target.items| && Renderable(es) && Render(es) == target.items[..y] && OriginalIndices(es) == Range(0, x) && EditCount(es) == e
  }

  /** The first row of the target the snake's operations cover: its start's y, or 0 for the snake that starts at (0, -1). */
  function FirstRow(s: Snake): int {
    if s.start.y < 0 then 0 else s.start.y
  }

  /** The shape every snake of a trace has, inside a grid of the given size. */
  ghost predicate WellPlaced<T>(a: seq<T>, b: seq<T>, s: Snake) {
    (s.kind == Equal ==> s.start == Point(0, -1)) &&
    (s.kind != Equal ==> (s.kind == Insert || s.kind == Delete) && 0 <= s.start.x && 0 <= s.start.y) &&
    Step(s.start, if s.kind == Delete then Right else Down) == Point(s.end.x - s.diagonals, s.end.y - s.diagonals) &&
    Run(a, b, s.end.x - s.diagonals, s.end.y - s.diagonals, s.diagonals) &&
    s.end.x <= |a| && s.end.y <= |b|
  }

  /** What the operations of a snake mean: see SnakeOpsMeaning. */
  ghost predicate Explains<T>(original: Source<T>, target: Source<T>, s: Snake) {
    var ops := SnakeOps(original, target, s);
    0 <= FirstRow(s) <= s.end.y <= |target.items| && s.start.x <= s.end.x &&
    Renderable(ops) &&
    Render(ops) == target.items[FirstRow(s)..s.end.y] &&
    OriginalIndices(ops) == Range(s.start.x, s.end.x) &&
    EditCount(ops) == (if s.kind == Equal then 0 else 1)
  }

  /**
   * The operations of one snake of a path: its edit renders the target
   * element it inserts (or nothing, for a Delete), its run of Equal
   * operations renders the original's elements it keeps, which equal the
   * target's; together they cover the target from the snake's first row to
   * its end and visit the original from the snake's start to its end.
   */
  lemma SnakeOpsMeaning<T>(original: Source<T>, target: Source<T>, s: Snake)
    requires WellPlaced(original.items, target.items, s)
    ensures Explains(original, target, s)
  {
    if s.kind == Equal {
      EqualSnakeMeaning(original, target, s);
    } else {
      EditSnakeMeaning(original, target, s);
    }
  }

  /** The snake of pass 0: only Equal operations, from the origin. */
  lemma EqualSnakeMeaning<T>(original: Source<T>, target: Source<T>, s: Snake)
    requires WellPlaced(original.items, target.items, s) && s.kind == Equal
    ensures Explains(original, target, s)
  {
    assert s.end.x - s.diagonals == 0 && s.end.y - s.diagonals == 0;
    RunMeaning(original, target, 0, 0, s.diagonals);
    var run := EqualRun(original, 0, s.diagonals);
    assert SnakeOps(original, target, s) == [] + run;
    assert [] + run == run;
  }

  /** A snake of a later pass: its Insert or Delete, then its Equal operations. */
  lemma EditSnakeMeaning<T>(original: Source<T>, target: Source<T>, s: Snake)
    requires WellPlaced(original.items, target.items, s) && s.kind != Equal
    ensures Explains(original, target, s)
  {
    var x, y := s.end.x - s.diagonals, s.end.y - s.diagonals;
    var e := Edit(s.kind, if s.kind == Delete then s.start.x else s.start.y, if s.kind == Delete then original else target);
    assert x == s.start.x + (if s.kind == Delete then 1 else 0);
    assert FirstRow(s) == (if s.kind == Insert then y - 1 else y);
    RunMeaning(original, target, x, y, s.diagonals);
    var run := EqualRun(original, x, s.diagonals);
    assert SnakeOps(original, target, s) == [e] + run;
    EditThenRun(original, target, e, run, s.start.x, x, s.end.x, y, s.end.y);
  }

  /** One edit followed by a run of Equal operations. */
  lemma EditThenRun<T>(original: Source<T>, target: Source<T>, e: Edit<T>, run: seq<Edit<T>>, x0: int, x: int, x1: int, y: int, y1: int)
    requires e.kind == Insert ==> e == Edit(Insert, y - 1, target) && x0 == x && 0 < y
    requires e.kind == Delete ==> e == Edit(Delete, x0, original) && x0 + 1 == x
    requires e.kind == Insert || e.kind == Delete
    requires 0 <= x0 && 0 <= y <= y1 <= |target.items| && x <= x1
    requires Renderable(run) && Render(run) == target.items[y..y1] && OriginalIndices(run) == Range(x, x1) && EditCount(run) == 0
    ensures var y0 := if e.kind == Insert then y - 1 else y;
      Renderable([e] + run) && Render([e] + run) == target.items[y0..y1] &&
      OriginalIndices([e] + run) == Range(x0, x1) && EditCount([e] + run) == 1
  {
    assert ([e] + run)[1..] == run;
    if e.kind == Insert {
      assert target.items[y - 1..y1] == [target.items[y - 1]] + target.items[y..y1];
    }
  }

  /** A run of diagonal moves stands for Equal operations that render the target's matching slice. */
  lemma RunMeaning<T>(original: Source<T>, target: Source<T>, x: int, y: int, count: nat)
    requires 0 <= x && x + count <= |original.items| && 0 <= y && y + count <= |target.items|
    requires Run(original.items, target.items, x, y, count)
    ensures var run := EqualRun(original, x, count);
      Renderable(run) && Render(run) == target.items[y..y + count] &&
      OriginalIndices(run) == Range(x, x + count) && EditCount(run) == 0
  {
    EqualRunMeaning(original, x, count);
  }

  /** The operations of a list of snakes followed by one more snake. */
  lemma SnakeEditsSnoc<T>(original: Source<T>, target: Source<T>, snakes: seq<Snake>, s: Snake)
    ensures SnakeEdits(original, target, snakes + [s]) == SnakeEdits(original, target, snakes) + SnakeOps(original, target, s)
  {
    assert (snakes + [s])[..|snakes|] == snakes;
  }

  /**
   * The script of a list of snakes that reaches a snake's start, followed by
   * that snake's operations, reaches the snake's end with one more edit.
   */
  lemma TransformsExtend<T>(original: Source<T>, target: Source<T>, snakes: seq<Snake>, s: Snake, e: int)
    requires s.kind == Insert || s.kind == Delete
    requires 0 <= s.start.y
    requires Transforms(original, target, SnakeEdits(original, target, snakes), s.start.x, s.start.y, e)
    requires Explains(original, target, s)
    ensures Transforms(original, target, SnakeEdits(original, target, snakes + [s]), s.end.x, s.end.y, e + 1)
  {
    SnakeEditsSnoc(original, target, snakes, s);
    var es := SnakeEdits(original, target, snakes);
    var ops := SnakeOps(original, target, s);
    RenderAppend(es, ops);
    OriginalIndicesAppend(es, ops);
    EditCountAppend(es, ops);
    RangeAppend(0, s.start.x, s.end.x);
    assert target.items[..s.start.y] + target.items[s.start.y..s.end.y] == target.items[..s.end.y];
  }

  /** The trace of pass d on diagonal k stands for a script that reaches pass d's frontier point there with d edits. */
  ghost predicate TraceExplained<T>(original: Source<T>, target: Source<T>, d: nat, k: int)
    requires OnDiagonal(d, k)
  {
    Transforms(original, target, SnakeEdits(original, target, Trace(original.items, target.items, d, k)),
               FrontierPoint(Furthest(original.items, target.items, d, k), k).x,
               FrontierPoint(Furthest(original.items, target.items, d, k), k).y, d)
  }

  /**
   * Whether s is the last snake of the trace of pass d to diagonal k, which
   * ends inside the grid, with the facts about its shape the proofs below use.
   */
  ghost predicate IsLastSnake<T>(original: Source<T>, target: Source<T>, d: nat, k: int, s: Snake) {
    var a, b := original.items, target.items;
    OnDiagonal(d, k) && s == SnakeAt(a, b, d, k) &&
    Explains(original, target, s) &&
    s.end == FrontierPoint(Furthest(a, b, d, k), k) &&
    (d == 0 ==> s.kind == Equal && s.start == Point(0, -1)) &&
    (d > 0 ==>
      (s.kind == Insert || s.kind == Delete) && 0 <= s.start.x && 0 <= s.start.y && d - 1 <= s.start.x + s.start.y &&
      s.start == FrontierPoint(Furthest(a, b, d - 1, Parent(a, b, d, k)), Parent(a, b, d, k)) &&
      Furthest(a, b, d - 1, Parent(a, b, d, k)) <= |a| && Furthest(a, b, d - 1, Parent(a, b, d, k)) - Parent(a, b, d, k) <= |b|)
  }

  /** The last snake of a trace that ends inside the grid. */
  lemma LastSnake<T>(original: Source<T>, target: Source<T>, d: nat, k: int, s: Snake)
    requires OnDiagonal(d, k) && s == SnakeAt(original.items, target.items, d, k)
    requires Furthest(original.items, target.items, d, k) <= |original.items|
    requires Furthest(original.items, target.items, d, k) - k <= |target.items|
    ensures IsLastSnake(original, target, d, k, s)
  {
    var a, b := original.items, target.items;
    FurthestBounds(a, b, d, k);
    SnakeAtShape(a, b, d, k, s);
    if d > 0 {
      var j := Parent(a, b, d, k);
      FurthestBounds(a, b, d - 1, j);
      var f := Furthest(a, b, d - 1, j);
      assert s.start == FrontierPoint(f, j);
      assert 0 <= s.start.x && 0 <= s.start.y && d - 1 <= s.start.x + s.start.y;
    }
    assert WellPlaced(a, b, s);
    SnakeOpsMeaning(original, target, s);
  }

  /** A trace made of its last snake alone: pass 0, or a first edit right at the origin. */
  lemma TraceBase<T>(original: Source<T>, target: Source<T>, s: Snake, d: nat)
    requires Explains(original, target, s)
    requires (d == 0 && s.kind == Equal && s.start == Point(0, -1)) || (d == 1 && s.kind != Equal && s.start == Point(0, 0))
    ensures Transforms(original, target, SnakeEdits(original, target, [s]), s.end.x, s.end.y, d)
  {
    SnakeEditsSnoc(original, target, [], s);
    assert [] + [s] == [s];
    assert [] + SnakeOps(original, target, s) == SnakeOps(original, target, s);
  }

  /** TraceExplained, from the facts about a trace given by value. */
  lemma ConcludeTrace<T>(original: Source<T>, target: Source<T>, d: nat, k: int, trace: seq<Snake>, p: Point)
    requires OnDiagonal(d, k)
    requires Trace(original.items, target.items, d, k) == trace
    requires p == FrontierPoint(Furthest(original.items, target.items, d, k), k)
    requires Transforms(original, target, SnakeEdits(original, target, trace), p.x, p.y, d)
    ensures TraceExplained(original, target, d, k)
  {
  }

  /**
   * The snakes backtracking collects from a frontier point of pass d inside
   * the grid stand for a script that turns the original's prefix up to that
   * point's x into the target's prefix up to its y, with exactly d
   * insertions and deletions.
   */
  lemma {:induction false} TraceMeaning<T>(original: Source<T>, target: Source<T>, d: nat, k: int)
    requires OnDiagonal(d, k)
    requires Furthest(original.items, target.items, d, k) <= |original.items|
    requires Furthest(original.items, target.items, d, k) - k <= |target.items|
    ensures TraceExplained(original, target, d, k)
    decreases d
  {
    var s := SnakeAt(original.items, target.items, d, k);
    LastSnake(original, target, d, k, s);
    if d > 0 && (s.start.x > 0 || s.start.y > 0) {
      TraceMeaning(original, target, d - 1, Parent(original.items, target.items, d, k));
      TraceExtends(original, target, d, k, s);
    } else {
      TraceStarts(original, target, d, k, s);
    }
  }

  /** The base of TraceMeaning: a trace made of its last snake alone. */
  lemma TraceStarts<T>(original: Source<T>, target: Source<T>, d: nat, k: int, s: Snake)
    requires IsLastSnake(original, target, d, k, s) && !(d > 0 && (s.start.x > 0 || s.start.y > 0))
    ensures TraceExplained(original, target, d, k)
  {
    if d > 0 {
      assert s.start == Point(0, 0) && d == 1;
    }
    TraceAlone(original.items, target.items, d, k, s);
    TraceBase(original, target, s, d);
    ConcludeTrace(original, target, d, k, [s], s.end);
  }

  /** The step of TraceMeaning: a trace that goes on to pass d - 1 stands for that pass's script and one snake more. */
  lemma TraceExtends<T>(original: Source<T>, target: Source<T>, d: nat, k: int, s: Snake)
    requires IsLastSnake(original, target, d, k, s) && d > 0 && (s.start.x > 0 || s.start.y > 0)
    requires TraceExplained(original, target, d - 1, Parent(original.items, target.items, d, k))
    ensures TraceExplained(original, target, d, k)
  {
    var a, b := original.items, target.items;
    var prefix := Trace(a, b, d - 1, Parent(a, b, d, k));
    TraceGoesOn(a, b, d, k, s);
    TransformsExtend(original, target, prefix, s, d - 1);
    ConcludeTrace(original, target, d, k, prefix + [s], s.end);
  }
}
