/**
 * The edit graph of two sequences a and b (Myers, "An O(ND) Difference
 * Algorithm and Its Variations", section 2). A point (x, y) says that the
 * first x elements of a and the first y elements of b have been consumed.
 * A move right deletes a[x], a move down inserts b[y], and a diagonal move
 * keeps a[x] when it equals b[y]. Right and down moves are allowed from any
 * point, also beyond (|a|, |b|): the search of the diff engine walks this
 * unbounded grid and only checks for x >= |a| and y >= |b|.
 */
module EditGraph {

  datatype Point = Point(x: int, y: int)

  datatype Move = Right | Down | Diagonal

  /** Whether the graph has a diagonal edge out of (x, y). */
  predicate Matches<T(==)>(a: seq<T>, b: seq<T>, x: int, y: int) {
    0 <= x < |a| && 0 <= y < |b| && a[x] == b[y]
  }

  /**
   * Whether count diagonal moves can be made in a row from (x, y): the next
   * count elements of a from x equal the next count elements of b from y.
   */
  ghost predicate Run<T>(a: seq<T>, b: seq<T>, x: int, y: int, count: nat) {
    count == 0 ||
    (0 <= x && 0 <= y && x + count <= |a| && y + count <= |b| && a[x..x + count] == b[y..y + count])
  }

  /** The number of diagonal moves that can be made in a row from (x, y). */
  function Slide<T(==)>(a: seq<T>, b: seq<T>, x: int, y: int): nat
    decreases |a| - x
  {
    if Matches(a, b, x, y) then 1 + Slide(a, b, x + 1, y + 1) else 0
  }

  /** A slide is made of diagonal edges, and no diagonal edge leaves the point after it. */
  lemma {:induction false} SlideMeaning<T>(a: seq<T>, b: seq<T>, x: int, y: int)
    ensures Run(a, b, x, y, Slide(a, b, x, y))
    ensures !Matches(a, b, x + Slide(a, b, x, y), y + Slide(a, b, x, y))
    decreases |a| - x
  {
    if Matches(a, b, x, y) {
      SlideMeaning(a, b, x + 1, y + 1);
      var s := Slide(a, b, x, y);
      assert a[x..x + s] == [a[x]] + a[x + 1..x + s];
      assert b[y..y + s] == [b[y]] + b[y + 1..y + s];
    }
  }

  /** A run starts with a diagonal edge and goes on with a run one move shorter. */
  lemma RunFirst<T>(a: seq<T>, b: seq<T>, x: int, y: int, count: nat)
    requires Run(a, b, x, y, count) && count > 0
    ensures Matches(a, b, x, y)
    ensures Run(a, b, x + 1, y + 1, count - 1)
  {
    assert a[x + 1..x + count] == a[x..x + count][1..];
    assert b[y + 1..y + count] == b[y..y + count][1..];
    assert a[x] == a[x..x + count][0];
    assert b[y] == b[y..y + count][0];
  }

  /** The point a move leads to. */
  function Step(p: Point, mv: Move): Point {
    match mv
    case Right => Point(p.x + 1, p.y)
    case Down => Point(p.x, p.y + 1)
    case Diagonal => Point(p.x + 1, p.y + 1)
  }

  /** The point a path that starts at (0, 0) ends at. */
  function End(path: seq<Move>): Point {
    if path == [] then Point(0, 0) else Step(End(path[..|path| - 1]), path[|path| - 1])
  }

  /** Whether every diagonal move of a path that starts at (0, 0) follows a diagonal edge. */
  ghost predicate ValidPath<T>(a: seq<T>, b: seq<T>, path: seq<Move>) {
    path == [] ||
    (var prefix := path[..|path| - 1];
     ValidPath(a, b, prefix) &&
     (path[|path| - 1] == Diagonal ==> Matches(a, b, End(prefix).x, End(prefix).y)))
  }

  /** The number of non-diagonal moves of a path: the edits it stands for. */
  function Cost(path: seq<Move>): nat {
    if path == [] then 0
    else Cost(path[..|path| - 1]) + (if path[|path| - 1] == Diagonal then 0 else 1)
  }

  /** The number of diagonal moves of a path. */
  function Kept(path: seq<Move>): nat {
    if path == [] then 0
    else Kept(path[..|path| - 1]) + (if path[|path| - 1] == Diagonal then 1 else 0)
  }

  function Repeat(mv: Move, count: nat): (r: seq<Move>)
    ensures |r| == count && forall i :: 0 <= i < count ==> r[i] == mv
  {
    seq(count, _ => mv)
  }

  /** Whether some element of a equals some element of b. */
  ghost predicate ShareElement<T>(a: seq<T>, b: seq<T>) {
    exists x, y :: Matches(a, b, x, y)
  }

  /**
   * A path from (0, 0) ends in the quadrant x, y >= 0 on a diagonal k = x - y
   * with |k| <= Cost and k of the parity of Cost; every move adds one or two to
   * x + y.
   */
  lemma {:induction false} PathShape(path: seq<Move>)
    ensures var e := End(path);
      0 <= e.x && 0 <= e.y &&
      e.x + e.y == Cost(path) + 2 * Kept(path) &&
      e.y - e.x <= Cost(path) && e.x - e.y <= Cost(path) &&
      (Cost(path) - (e.x - e.y)) % 2 == 0
  {
    if path != [] {
      PathShape(path[..|path| - 1]);
    }
  }

  /** The end point and the cost of a path with one more move. */
  lemma EndSnoc(path: seq<Move>, mv: Move)
    ensures End(path + [mv]) == Step(End(path), mv)
    ensures Cost(path + [mv]) == Cost(path) + (if mv == Diagonal then 0 else 1)
  {
    assert (path + [mv])[..|path|] == path;
  }

  /** Appending a path with one more move. */
  lemma AppendMove<T>(a: seq<T>, b: seq<T>, path: seq<Move>, mv: Move)
    requires ValidPath(a, b, path)
    requires mv == Diagonal ==> Matches(a, b, End(path).x, End(path).y)
    ensures ValidPath(a, b, path + [mv])
    ensures End(path + [mv]) == Step(End(path), mv)
    ensures Cost(path + [mv]) == Cost(path) + (if mv == Diagonal then 0 else 1)
  {
    assert (path + [mv])[..|path|] == path;
  }

  /** The point count moves mv lead to from p. */
  function Shift(p: Point, mv: Move, count: int): Point {
    match mv
    case Right => Point(p.x + count, p.y)
    case Down => Point(p.x, p.y + count)
    case Diagonal => Point(p.x + count, p.y + count)
  }

  /** Where a path extended by count moves mv ends. */
  lemma {:induction false} EndRepeat(path: seq<Move>, mv: Move, count: nat)
    ensures End(path + Repeat(mv, count)) == Shift(End(path), mv, count)
  {
    RepeatSnoc(path, mv, count);
    if count > 0 {
      EndRepeat(path, mv, count - 1);
      EndSnoc(path + Repeat(mv, count - 1), mv);
    }
  }

  /** What a path extended by count moves mv costs: nothing more for diagonal moves, one per move otherwise. */
  lemma {:induction false} CostRepeat(path: seq<Move>, mv: Move, count: nat)
    ensures Cost(path + Repeat(mv, count)) == Cost(path) + (if mv == Diagonal then 0 else count)
  {
    RepeatSnoc(path, mv, count);
    if count > 0 {
      CostRepeat(path, mv, count - 1);
      EndSnoc(path + Repeat(mv, count - 1), mv);
    }
  }

  /** A path extended by right or down moves, or by diagonal moves along a run of diagonal edges, stays valid. */
  lemma {:induction false} ValidRepeat<T>(a: seq<T>, b: seq<T>, path: seq<Move>, x: int, y: int, mv: Move, count: nat)
    requires ValidPath(a, b, path) && End(path) == Point(x, y)
    requires mv == Diagonal ==> Run(a, b, x, y, count)
    ensures ValidPath(a, b, path + Repeat(mv, count))
    decreases count
  {
    if count == 0 {
      assert path + Repeat(mv, 0) == path;
    } else {
      if mv == Diagonal {
        RunFirst(a, b, x, y, count);
      }
      AppendMove(a, b, path, mv);
      var next := Step(Point(x, y), mv);
      ValidRepeat(a, b, path + [mv], next.x, next.y, mv, count - 1);
      assert path + [mv] + Repeat(mv, count - 1) == path + Repeat(mv, count);
    }
  }

  /** A path can be extended by any number of right or down moves. */
  lemma AppendStraight<T>(a: seq<T>, b: seq<T>, path: seq<Move>, mv: Move, count: nat)
    requires ValidPath(a, b, path) && mv != Diagonal
    ensures ValidPath(a, b, path + Repeat(mv, count))
    ensures End(path + Repeat(mv, count)) ==
      if mv == Right then Point(End(path).x + count, End(path).y) else Point(End(path).x, End(path).y + count)
    ensures Cost(path + Repeat(mv, count)) == Cost(path) + count
  {
    ValidRepeat(a, b, path, End(path).x, End(path).y, mv, count);
    EndRepeat(path, mv, count);
    CostRepeat(path, mv, count);
  }

  /** A path that ends at (x, y) can be extended along a run of diagonal edges from there without adding to its cost. */
  lemma AppendDiagonals<T>(a: seq<T>, b: seq<T>, path: seq<Move>, x: int, y: int, count: nat)
    requires ValidPath(a, b, path) && End(path) == Point(x, y)
    requires Run(a, b, x, y, count)
    ensures ValidPath(a, b, path + Repeat(Diagonal, count))
    ensures End(path + Repeat(Diagonal, count)) == Point(x + count, y + count)
    ensures Cost(path + Repeat(Diagonal, count)) == Cost(path)
  {
    ValidRepeat(a, b, path, x, y, Diagonal, count);
    EndRepeat(path, Diagonal, count);
    CostRepeat(path, Diagonal, count);
  }

  /** Appending count copies of a move is appending count - 1 copies and then one more. */
  lemma RepeatSnoc(path: seq<Move>, mv: Move, count: nat)
    ensures count == 0 ==> path + Repeat(mv, count) == path
    ensures count > 0 ==> path + Repeat(mv, count) == (path + Repeat(mv, count - 1)) + [mv]
  {
    if count > 0 {
      var longer, shorter := path + Repeat(mv, count), path + Repeat(mv, count - 1);
      assert |longer| == |shorter| + 1;
      assert forall i :: 0 <= i < |longer| ==> longer[i] == (shorter + [mv])[i];
    } else {
      assert path + Repeat(mv, 0) == path;
    }
  }

  /** A path extended by one right or down move to (x, y) and a run of diagonal moves from there: one edit more. */
  lemma AppendSnake<T>(a: seq<T>, b: seq<T>, path: seq<Move>, mv: Move, x: int, y: int, count: nat)
    requires ValidPath(a, b, path) && mv != Diagonal && Step(End(path), mv) == Point(x, y)
    requires Run(a, b, x, y, count)
    ensures ValidPath(a, b, path + [mv] + Repeat(Diagonal, count))
    ensures End(path + [mv] + Repeat(Diagonal, count)) == Point(x + count, y + count)
    ensures Cost(path + [mv] + Repeat(Diagonal, count)) == Cost(path) + 1
  {
    AppendMove(a, b, path, mv);
    AppendDiagonals(a, b, path + [mv], x, y, count);
  }

  /**
   * The projection of a path onto the rectangle [0, |a|] x [0, |b|]: moves
   * that leave the rectangle are dropped.
   */
  ghost function Clip<T>(a: seq<T>, b: seq<T>, path: seq<Move>): seq<Move> {
    if path == [] then []
    else
      var prefix := path[..|path| - 1];
      var e := End(prefix);
      var clipped := Clip(a, b, prefix);
      match path[|path| - 1]
      case Diagonal => clipped + [Diagonal]
      case Right => if e.x >= |a| then clipped else clipped + [Right]
      case Down => if e.y >= |b| then clipped else clipped + [Down]
  }

  /**
   * Clipping keeps a path valid, moves its end point into the rectangle, and
   * saves one edit for every unit the end point lies outside of it.
   */
  ghost predicate ClipsWell<T>(a: seq<T>, b: seq<T>, path: seq<Move>) {
    var e, clipped := End(path), Clip(a, b, path);
    ValidPath(a, b, clipped) &&
    End(clipped) == Point(Min(e.x, |a|), Min(e.y, |b|)) &&
    Cost(clipped) == Cost(path) - Excess(e.x, |a|) - Excess(e.y, |b|)
  }

  /** Every valid path clips well. */
  lemma {:induction false} ClipPath<T>(a: seq<T>, b: seq<T>, path: seq<Move>)
    requires ValidPath(a, b, path)
    ensures ClipsWell(a, b, path)
  {
    if path == [] {
      assert Clip(a, b, path) == [];
    } else {
      var prefix, mv := path[..|path| - 1], path[|path| - 1];
      assert path == prefix + [mv];
      ClipPath(a, b, prefix);
      ClipStep(a, b, prefix, mv);
    }
  }

  /** One move more keeps a path that clips well clipping well. */
  lemma ClipStep<T>(a: seq<T>, b: seq<T>, prefix: seq<Move>, mv: Move)
    requires ValidPath(a, b, prefix) && ClipsWell(a, b, prefix)
    requires mv == Diagonal ==> Matches(a, b, End(prefix).x, End(prefix).y)
    ensures ClipsWell(a, b, prefix + [mv])
  {
    var e := End(prefix);
    if mv == Diagonal || (mv == Right && e.x < |a|) || (mv == Down && e.y < |b|) {
      ClipKeeps(a, b, prefix, mv);
    } else {
      ClipDrops(a, b, prefix, mv);
    }
  }

  /** A move that stays inside the rectangle is kept by the projection. */
  lemma ClipKeeps<T>(a: seq<T>, b: seq<T>, prefix: seq<Move>, mv: Move)
    requires ValidPath(a, b, prefix) && ClipsWell(a, b, prefix)
    requires mv == Diagonal ==> Matches(a, b, End(prefix).x, End(prefix).y)
    requires mv == Diagonal || (mv == Right && End(prefix).x < |a|) || (mv == Down && End(prefix).y < |b|)
    ensures ClipsWell(a, b, prefix + [mv])
  {
    var path := prefix + [mv];
    assert path[..|path| - 1] == prefix;
    PathShape(prefix);
    assert Clip(a, b, path) == Clip(a, b, prefix) + [mv];
    AppendMove(a, b, Clip(a, b, prefix), mv);
  }

  /** A move that leaves the rectangle is dropped by the projection, which then overshoots by one more unit. */
  lemma ClipDrops<T>(a: seq<T>, b: seq<T>, prefix: seq<Move>, mv: Move)
    requires ValidPath(a, b, prefix) && ClipsWell(a, b, prefix)
    requires (mv == Right && End(prefix).x >= |a|) || (mv == Down && End(prefix).y >= |b|)
    ensures ClipsWell(a, b, prefix + [mv])
  {
    var path := prefix + [mv];
    assert path[..|path| - 1] == prefix;
    PathShape(prefix);
    AppendMove(a, b, prefix, mv);
    assert Clip(a, b, path) == Clip(a, b, prefix);
  }

  function Min(x: int, y: int): int {
    if x <= y then x else y
  }

  /** How far x lies beyond the bound. */
  function Excess(x: int, bound: int): nat {
    if x <= bound then 0 else x - bound
  }

  /** A path that keeps at least one element witnesses an element the two sequences share. */
  lemma {:induction false} KeepingPathShares<T>(a: seq<T>, b: seq<T>, path: seq<Move>)
    requires ValidPath(a, b, path) && Kept(path) > 0
    ensures ShareElement(a, b)
  {
    var prefix := path[..|path| - 1];
    if path[|path| - 1] == Diagonal {
      assert Matches(a, b, End(prefix).x, End(prefix).y);
    } else {
      KeepingPathShares(a, b, prefix);
    }
  }

  /** A path extended by right moves up to column x and then by down moves up to row y. */
  lemma AppendCorner<T>(a: seq<T>, b: seq<T>, path: seq<Move>, x: int, y: int) returns (longer: seq<Move>)
    requires ValidPath(a, b, path) && End(path).x <= x && End(path).y <= y
    ensures ValidPath(a, b, longer) && End(longer) == Point(x, y)
    ensures Cost(longer) == Cost(path) + (x - End(path).x) + (y - End(path).y)
  {
    var e := End(path);
    AppendStraight(a, b, path, Right, x - e.x);
    var across := path + Repeat(Right, x - e.x);
    AppendStraight(a, b, across, Down, y - e.y);
    longer := across + Repeat(Down, y - e.y);
  }

  /** Two sequences that share an element are joined by a path that makes fewer than |a| + |b| edits. */
  lemma SharedElementPath<T>(a: seq<T>, b: seq<T>) returns (path: seq<Move>)
    requires ShareElement(a, b)
    ensures ValidPath(a, b, path) && End(path) == Point(|a|, |b|)
    ensures Cost(path) == |a| + |b| - 2
  {
    var x, y :| Matches(a, b, x, y);
    var toMatch := AppendCorner(a, b, [], x, y);
    AppendMove(a, b, toMatch, Diagonal);
    path := AppendCorner(a, b, toMatch + [Diagonal], |a|, |b|);
  }
}
