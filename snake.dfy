/**
 * Snakes: one edit move followed by the longest run of diagonal moves. The
 * search and the path reconstruction compute a snake by the same rule from
 * the two neighbouring frontier values of a diagonal.
 */
module Snakes {
  import opened Operations
  import opened EditGraph
  import opened VArrays

  /** An edit of a given kind from start, then `diagonals` diagonal moves up to end. */
  datatype Snake = Snake(kind: OperationKind, start: Point, end: Point, diagonals: nat)

  /**
   * The direction rule on diagonal k in pass d: move down (an insertion) on
   * the lowest diagonal, or when the furthest point of diagonal k - 1 (left)
   * lies strictly before that of diagonal k + 1 (right); otherwise move right
   * (a deletion).
   */
  predicate GoesDown(k: int, d: int, left: int, right: int) {
    k == -d || (k != d && left < right)
  }

  /** The x coordinate the one move of the snake on diagonal k lands on: below the right neighbour's point, or right of the left one's. */
  function Landing(k: int, d: int, left: int, right: int): int {
    if GoesDown(k, d, left, right) then right else left + 1
  }

  /** The x coordinate a slide along diagonal k from x ends at. */
  function SlideFrom<T(==)>(a: seq<T>, b: seq<T>, x: int, k: int): int {
    x + Slide(a, b, x, x - k)
  }

  /**
   * The snake that ends on diagonal k in pass d, given the furthest x of
   * diagonals k - 1 (left) and k + 1 (right) after pass d - 1. It starts at
   * the furthest point of the neighbouring diagonal it comes from, makes one
   * move onto diagonal k, and then follows the maximal run of diagonal edges.
   * Its kind is Equal exactly when it starts above the graph (y < 0).
   */
  function SnakeOf<T(==)>(a: seq<T>, b: seq<T>, k: int, d: int, left: int, right: int): (s: Snake)
    ensures GoesDown(k, d, left, right) ==> s.start == Point(right, right - (k + 1))
    ensures !GoesDown(k, d, left, right) ==> s.start == Point(left, left - (k - 1))
    ensures s.end.x - s.end.y == k
    ensures s.kind == Equal <==> s.start.y < 0
    ensures s.kind != Equal ==> (s.kind == Insert <==> GoesDown(k, d, left, right))
    ensures s.kind != Unknown
  {
    var start := StartOf(k, d, left, right);
    var x := Landing(k, d, left, right);
    Snake(if start.y < 0 then Equal else if GoesDown(k, d, left, right) then Insert else Delete,
          start, Point(SlideFrom(a, b, x, k), SlideFrom(a, b, x, k) - k), Slide(a, b, x, x - k))
  }

  /** The point the snake on diagonal k starts from: the frontier point of the neighbouring diagonal the rule picks. */
  function StartOf(k: int, d: int, left: int, right: int): Point {
    if GoesDown(k, d, left, right) then Point(right, right - (k + 1)) else Point(left, left - (k - 1))
  }

  /**
   * One move from the snake's start lands on its diagonal, and from there
   * it follows diagonal edges up to its end, where no diagonal edge leaves.
   */
  lemma SnakeOfSlides<T>(a: seq<T>, b: seq<T>, k: int, d: int, left: int, right: int, s: Snake)
    requires s == SnakeOf(a, b, k, d, left, right)
    ensures Step(s.start, if GoesDown(k, d, left, right) then Down else Right) ==
            Point(s.end.x - s.diagonals, s.end.y - s.diagonals)
    ensures Run(a, b, s.end.x - s.diagonals, s.end.y - s.diagonals, s.diagonals)
    ensures !Matches(a, b, s.end.x, s.end.y)
  {
    var x := Landing(k, d, left, right);
    SlideMeaning(a, b, x, x - k);
  }

  /** The snake ends where one step from its start and a full slide lead. */
  lemma SnakeOfEnd<T>(a: seq<T>, b: seq<T>, k: int, d: int, left: int, right: int)
    ensures SnakeOf(a, b, k, d, left, right).end ==
      Point(SlideFrom(a, b, Landing(k, d, left, right), k), SlideFrom(a, b, Landing(k, d, left, right), k) - k)
  {
  }

  /**
   * Rebuilds the snake that ends on diagonal k from the frontier array v kept
   * after pass d, reading diagonal k - 1 only when k != -d and diagonal k + 1
   * only when the rule may move down.
   */
  function CalculateSnake<T(==)>(v: VArray, k: int, d: int, a: seq<T>, b: seq<T>): (s: Snake)
    requires v.Valid()
    requires k != -d ==> v.InRange(k - 1)
    requires k == -d || k != d ==> v.InRange(k + 1)
    reads v.cells
    ensures s.end.x - s.end.y == k
    ensures k == -d ==> s.start == Point(v.Get(k + 1), v.Y(k + 1))
    ensures k != -d && k == d ==> s.start == Point(v.Get(k - 1), v.Y(k - 1))
    ensures k != -d && k != d ==>
      if v.Get(k - 1) < v.Get(k + 1)
      then s.start == Point(v.Get(k + 1), v.Y(k + 1)) && s.kind != Delete
      else s.start == Point(v.Get(k - 1), v.Y(k - 1)) && s.kind != Insert
  {
    SnakeOf(a, b, k, d,
            if k != -d then v.Get(k - 1) else 0,
            if k == -d || k != d then v.Get(k + 1) else 0)
  }

  /**
   * The operations a snake contributes to the edit script: its edit, when it
   * has one (a Delete at the start's x in the original, or an Insert at the
   * start's y in the target), then one Equal per diagonal move at the
   * original's positions after the edit.
   */
  function SnakeOps<T>(original: Source<T>, target: Source<T>, s: Snake): seq<Edit<T>> {
    (if s.kind != Equal
     then [Edit(s.kind,
                if s.kind == Delete then s.start.x else if s.start.y == -1 then 0 else s.start.y,
                if s.kind == Delete then original else target)]
     else [])
    + EqualRun(original, s.start.x + (if s.kind == Delete then 1 else 0), s.diagonals)
  }

  /** Equal operations at positions from, from + 1, ..., from + count - 1 of the original. */
  function EqualRun<T>(original: Source<T>, from: int, count: nat): (es: seq<Edit<T>>)
    ensures |es| == count
    ensures forall i :: 0 <= i < count ==> es[i] == Edit(Equal, from + i, original)
  {
    seq(count, i => Edit(Equal, from + i, original))
  }

  /** The operations of a list of snakes, in order. */
  function SnakeEdits<T>(original: Source<T>, target: Source<T>, snakes: seq<Snake>): seq<Edit<T>> {
    if snakes == [] then []
    else SnakeEdits(original, target, snakes[..|snakes| - 1]) + SnakeOps(original, target, snakes[|snakes| - 1])
  }

  /** A run of Equal operations renders as the matching slice of the original and visits exactly those positions. */
  lemma {:induction false} EqualRunMeaning<T>(original: Source<T>, from: int, count: nat)
    requires 0 <= from && from + count <= |original.items|
    ensures Renderable(EqualRun(original, from, count))
    ensures Render(EqualRun(original, from, count)) == original.items[from..from + count]
    ensures OriginalIndices(EqualRun(original, from, count)) == Range(from, from + count)
    ensures EditCount(EqualRun(original, from, count)) == 0
    decreases count
  {
    if count > 0 {
      var es := EqualRun(original, from, count);
      assert es[1..] == EqualRun(original, from + 1, count - 1);
      EqualRunMeaning(original, from + 1, count - 1);
      assert original.items[from..from + count] == [original.items[from]] + original.items[from + 1..from + count];
    }
  }
}
