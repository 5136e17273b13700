/**
 * The diff engine (Myers, "An O(ND) Difference Algorithm and Its
 * Variations", the basic greedy algorithm): the forward search over the
 * passes d = 0, 1, ..., which keeps a copy of the frontier array after every
 * pass; the backtracking that rebuilds the snakes of the path from those
 * copies; and the translation of the snakes into operations.
 */
module MyersDiffEngine {
  import opened Operations
  import opened EditGraph
  import opened VArrays
  import opened Snakes
  import opened Frontier
  import opened Traces
  import opened WholeScripts

  /** What GetDiff returns, or the exception it throws. */
  datatype Diff<T> =
    | NoOperations                     // null: both sources are null
    | Ops(ops: seq<Operation<T>>)
    | NoDiffSolution                   // no pass of the search reached the corner
    | IndexOutOfRange                  // the preset store v[1] = 0 missed the array

  /** How the forward search ended. */
  datatype SearchOutcome = Found | Exhausted | OutOfRange

  /**
   * Whether the cells s of a frontier array covering [-max, max] hold what
   * pass d reads: the frontier of pass d - 1 on every diagonal of that pass
   * or, for pass 0, the preset zero on diagonal 1.
   */
  ghost predicate ReadsIn<T>(a: seq<T>, b: seq<T>, s: seq<int>, max: int, d: nat) {
    0 <= max && |s| == 2 * max + 1 &&
    (d == 0 ==> 1 <= max && Cell(s, max, 1) == 0) &&
    (d > 0 ==> FrontierIn(a, b, s, max, d - 1))
  }

  /** Whether the cells s hold the frontier of pass p on every diagonal of that pass. */
  ghost predicate FrontierIn<T>(a: seq<T>, b: seq<T>, s: seq<int>, max: int, p: nat)
    requires |s| == 2 * max + 1
  {
    forall j {:trigger OnDiagonal(p, j)} :: OnDiagonal(p, j) ==> -max <= j <= max && Cell(s, max, j) == Furthest(a, b, p, j)
  }

  /** Whether the cells s hold pass d's frontier on its diagonals below k, none of them at the corner. */
  ghost predicate DoneIn<T>(a: seq<T>, b: seq<T>, s: seq<int>, max: int, d: nat, k: int) {
    0 <= max && |s| == 2 * max + 1 &&
    forall j {:trigger OnDiagonal(d, j)} :: OnDiagonal(d, j) && j < k ==> -max <= j <= max && Cell(s, max, j) == Furthest(a, b, d, j) && !SolvedAt(a, b, d, j)
  }

  /** Whether v holds what pass d reads. */
  ghost predicate HoldsReads<T>(a: seq<T>, b: seq<T>, v: VArray, d: nat)
    reads v.cells
  {
    v.Valid() && ReadsIn(a, b, v.cells[..], v.max, d)
  }

  /** Whether v holds pass d's frontier below diagonal k, none of it at the corner. */
  ghost predicate PassDoneBelow<T>(a: seq<T>, b: seq<T>, v: VArray, d: nat, k: int)
    reads v.cells
  {
    v.Valid() && DoneIn(a, b, v.cells[..], v.max, d, k)
  }

  /** The window of the cells for diagonals [-w, w] keeps what pass d reads when pass d reads inside it. */
  lemma ReadsInWindow<T>(a: seq<T>, b: seq<T>, s: seq<int>, max: int, w: int, d: nat)
    requires ReadsIn(a, b, s, max, d) && 0 <= w <= max && (if d == 0 then 1 else d) <= w
    ensures ReadsIn(a, b, s[max - w..max + w + 1], w, d)
  {
    var t := s[max - w..max + w + 1];
    assert |t| == 2 * w + 1;
    forall j | -w <= j <= w
      ensures Cell(t, w, j) == Cell(s, max, j)
    {
      assert t[j + w] == s[max - w + j + w];
    }
    if d > 0 {
      forall j | OnDiagonal(d - 1, j)
        ensures -w <= j <= w && Cell(t, w, j) == Furthest(a, b, d - 1, j)
      {
        assert -max <= j <= max && Cell(s, max, j) == Furthest(a, b, d - 1, j);
      }
    }
  }

  /**
   * Storing pass d's frontier x on diagonal k keeps what pass d reads (it
   * lies on diagonals of the other parity) and, when the point is not at
   * the corner, extends the finished part of the pass past k.
   */
  lemma StoreStep<T>(a: seq<T>, b: seq<T>, s: seq<int>, max: int, d: nat, k: int)
    requires ReadsIn(a, b, s, max, d) && DoneIn(a, b, s, max, d, k)
    requires OnDiagonal(d, k) && -max <= k <= max
    ensures ReadsIn(a, b, s[k + max := Furthest(a, b, d, k)], max, d)
    ensures !SolvedAt(a, b, d, k) ==> DoneIn(a, b, s[k + max := Furthest(a, b, d, k)], max, d, k + 2)
  {
    StoreKeepsReads(a, b, s, max, d, k, Furthest(a, b, d, k));
    if !SolvedAt(a, b, d, k) {
      StoreExtendsDone(a, b, s, max, d, k);
    }
  }

  /** Storing any x on a diagonal of pass d keeps what pass d reads. */
  lemma StoreKeepsReads<T>(a: seq<T>, b: seq<T>, s: seq<int>, max: int, d: nat, k: int, x: int)
    requires ReadsIn(a, b, s, max, d) && OnDiagonal(d, k) && -max <= k <= max
    ensures ReadsIn(a, b, s[k + max := x], max, d)
  {
    var t := s[k + max := x];
    if d == 0 {
      assert Cell(t, max, 1) == Cell(s, max, 1);
    } else {
      forall j | OnDiagonal(d - 1, j)
        ensures -max <= j <= max && Cell(t, max, j) == Furthest(a, b, d - 1, j)
      {
        assert -max <= j <= max && Cell(s, max, j) == Furthest(a, b, d - 1, j);
        assert j != k;
        assert Cell(t, max, j) == Cell(s, max, j);
      }
    }
  }

  /** Storing pass d's frontier on diagonal k, away from the corner, extends the finished part past k. */
  lemma StoreExtendsDone<T>(a: seq<T>, b: seq<T>, s: seq<int>, max: int, d: nat, k: int)
    requires DoneIn(a, b, s, max, d, k) && OnDiagonal(d, k) && -max <= k <= max && !SolvedAt(a, b, d, k)
    ensures DoneIn(a, b, s[k + max := Furthest(a, b, d, k)], max, d, k + 2)
  {
    var t := s[k + max := Furthest(a, b, d, k)];
    forall j | OnDiagonal(d, j) && j < k + 2
      ensures -max <= j <= max && Cell(t, max, j) == Furthest(a, b, d, j) && !SolvedAt(a, b, d, j)
    {
      if j != k {
        assert j < k;
        assert -max <= j <= max && Cell(s, max, j) == Furthest(a, b, d, j);
        assert Cell(t, max, j) == Cell(s, max, j);
      }
    }
  }

  /**
   * The step pass d takes on diagonal k, as the search writes it with the
   * values it reads from v: it starts from the right neighbour's x (a move
   * down) or one past the left neighbour's x (a move right), and a slide from
   * there ends at pass d's frontier point.
   */
  lemma PassReads<T>(a: seq<T>, b: seq<T>, v: VArray, d: nat, k: int)
    requires HoldsReads(a, b, v, d) && OnDiagonal(d, k)
    ensures (k != -(d as int) ==> v.InRange(k - 1)) && (k == -(d as int) || k != d ==> v.InRange(k + 1))
    ensures var left := if k != -(d as int) then v.Get(k - 1) else 0;
      var right := if k == -(d as int) || k != d then v.Get(k + 1) else 0;
      var x := if GoesDown(k, d, left, right) then right else left + 1;
      0 <= x && 0 <= x - k && Furthest(a, b, d, k) == x + Slide(a, b, x, x - k)
  {
    ReadsAgree(a, b, v, d, k);
    StepStart(a, b, d, k);
    FurthestStep(a, b, d, k);
  }

  /** The values pass d reads from v are the neighbour reads of the frontier definition. */
  lemma ReadsAgree<T>(a: seq<T>, b: seq<T>, v: VArray, d: nat, k: int)
    requires HoldsReads(a, b, v, d) && OnDiagonal(d, k)
    ensures (k != -(d as int) ==> v.InRange(k - 1)) && (k == -(d as int) || k != d ==> v.InRange(k + 1))
    ensures LeftRead(a, b, d, k) == if k != -(d as int) then v.Get(k - 1) else 0
    ensures RightRead(a, b, d, k) == if k == -(d as int) || k != d then v.Get(k + 1) else 0
  {
    Neighbours(a, b, d, k);
    var s := v.cells[..];
    if d > 0 {
      if k != -(d as int) {
        assert OnDiagonal(d - 1, k - 1);
        assert v.Get(k - 1) == Cell(s, v.max, k - 1);
      }
      if k == -(d as int) || k != d {
        assert OnDiagonal(d - 1, k + 1);
        assert v.Get(k + 1) == Cell(s, v.max, k + 1);
      }
    } else {
      assert v.Get(1) == Cell(s, v.max, 1);
    }
  }

  /**
   * The array kept for pass d + 1 holds pass d's frontier: on every diagonal
   * j of pass d, the stored x and its y (VArray.Y) are the frontier point,
   * whose y is never negative.
   */
  lemma KeptFrontierY<T>(a: seq<T>, b: seq<T>, v: VArray, d: nat, j: int)
    requires HoldsReads(a, b, v, d + 1) && OnDiagonal(d, j)
    ensures v.InRange(j)
    ensures Point(v.Get(j), v.Y(j)) == FrontierPoint(Furthest(a, b, d, j), j)
    ensures 0 <= v.Y(j)
  {
    assert v.Get(j) == Cell(v.cells[..], v.max, j);
    FurthestBounds(a, b, d, j);
  }

  /** The point pass d's step on diagonal k starts its slide from lies in the quadrant x, y >= 0. */
  lemma StepStart<T>(a: seq<T>, b: seq<T>, d: nat, k: int)
    requires OnDiagonal(d, k)
    ensures var left := LeftRead(a, b, d, k);
      var right := RightRead(a, b, d, k);
      var x := if GoesDown(k, d, left, right) then right else left + 1;
      0 <= x && 0 <= x - k
  {
    Neighbours(a, b, d, k);
    if d > 0 {
      if k != -(d as int) {
        FurthestBounds(a, b, d - 1, k - 1);
      }
      if k == -(d as int) || k != d {
        FurthestBounds(a, b, d - 1, k + 1);
      }
    }
  }

  /** Rebuilding a snake from an array that holds what pass d reads gives pass d's snake. */
  lemma ReplayAgreesWithSearch<T>(a: seq<T>, b: seq<T>, v: VArray, d: nat, k: int)
    requires HoldsReads(a, b, v, d) && OnDiagonal(d, k)
    ensures (k != -(d as int) ==> v.InRange(k - 1)) && (k == -(d as int) || k != d ==> v.InRange(k + 1))
    ensures CalculateSnake(v, k, d, a, b) == SnakeAt(a, b, d, k)
  {
    ReadsAgree(a, b, v, d, k);
  }

  /**
   * A pass that finished without reaching the corner extends the passes that
   * did not, and leaves in v what the next pass reads.
   */
  lemma NoSolutionThrough<T>(a: seq<T>, b: seq<T>, v: VArray, d: nat)
    requires NoSolutionBefore(a, b, d) && PassDoneBelow(a, b, v, d, d + 2)
    ensures NoSolutionBefore(a, b, d + 1) && HoldsReads(a, b, v, d + 1)
  {
    forall j | OnDiagonal(d, j)
      ensures -v.max <= j <= v.max && Cell(v.cells[..], v.max, j) == Furthest(a, b, d, j)
    {
      assert j < d + 2;
    }
    forall e: nat, j | e < d + 1 && OnDiagonal(e, j)
      ensures !SolvedAt(a, b, e, j)
    {
      if e == d {
        assert j < d + 2;
      }
    }
  }

  /**
   * The slide of the search: from (x, y) it follows diagonal edges while both
   * positions are inside their sequences and hold equal elements.
   */
  method FollowDiagonal<T(==)>(a: seq<T>, b: seq<T>, x: int, y: int) returns (xEnd: int, yEnd: int)
    requires 0 <= x && 0 <= y
    ensures xEnd == x + Slide(a, b, x, y) && yEnd == y + Slide(a, b, x, y)
  {
    xEnd, yEnd := x, y;
    while xEnd < |a| && yEnd < |b| && a[xEnd] == b[yEnd]
      invariant x <= xEnd && yEnd - xEnd == y - x
      invariant xEnd + Slide(a, b, xEnd, yEnd) == x + Slide(a, b, x, y)
      decreases |a| - xEnd
    {
      xEnd := xEnd + 1;
      yEnd := yEnd + 1;
    }
  }

  /**
   * Pass d of the search: on each diagonal k = -d, -d + 2, ..., d in turn it
   * moves down or right from the furthest point of a neighbouring diagonal,
   * slides, and stores the x it reaches in v, stopping at the first point at
   * or beyond the corner. The cells pass d + 1 reads then hold pass d's
   * frontier; the cells pass d read are left alone.
   */
  method Pass<T(==)>(a: seq<T>, b: seq<T>, v: VArray, d: nat) returns (solved: bool, k: int)
    requires HoldsReads(a, b, v, d) && d <= v.max
    modifies v.cells
    ensures HoldsReads(a, b, v, d)
    ensures solved ==> OnDiagonal(d, k) && SolvedAt(a, b, d, k)
    ensures !solved ==> PassDoneBelow(a, b, v, d, d + 2)
  {
    k := -(d as int);
    solved := false;
    while k <= d
      invariant -(d as int) <= k <= d + 2 && (k + d) % 2 == 0
      invariant HoldsReads(a, b, v, d) && PassDoneBelow(a, b, v, d, k)
      invariant !solved
    {
      PassReads(a, b, v, d, k);
      var down := k == -(d as int) || (k != d && v.Get(k - 1) < v.Get(k + 1));
      var xStart := if down then v.Get(k + 1) else v.Get(k - 1);
      var xEnd, yEnd := FollowDiagonal(a, b, xStart + (if down then 0 else 1), xStart + (if down then 0 else 1) - k);
      ghost var before := v.cells[..];
      StoreStep(a, b, before, v.max, d, k);
      v.Set(k, xEnd);
      assert v.cells[..] == before[k + v.max := Furthest(a, b, d, k)];
      if xEnd < |a| || yEnd < |b| {
        k := k + 2;
        continue;
      }
      solved := true;
      break;
    }
  }

  /**
   * The forward search of GetDiff, over the passes d = 0, 1, ..., passes - 1
   * (GetDiff runs passes = |a| + |b| of them), keeping a copy of v after
   * every pass. Found: the last pass kept is the first that reached the
   * corner, and it reached it on diagonal |a| - |b|; Exhausted: no pass
   * reached it; OutOfRange: both sequences are empty, so the one-cell array
   * has no diagonal 1 for the preset zero.
   */
  method Search<T(==)>(a: seq<T>, b: seq<T>, passes: nat) returns (vs: seq<VArray>, outcome: SearchOutcome)
    requires passes <= |a| + |b| + 1
    ensures outcome == OutOfRange <==> |a| + |b| == 0
    ensures KeptCopies(a, b, vs)
    ensures outcome == Found ==>
      1 <= |vs| <= passes && NoSolutionBefore(a, b, |vs| - 1) &&
      OnDiagonal(|vs| - 1, |a| - |b|) && SolvedAt(a, b, |vs| - 1, |a| - |b|)
    ensures outcome == Exhausted ==> NoSolutionBefore(a, b, passes)
  {
    var v := new VArray(|a|, |b|);
    vs := [];
    if !v.InRange(1) {
      return vs, OutOfRange;
    }
    v.Set(1, 0);
    outcome := Exhausted;
    var d: nat := 0;
    while d < passes
      modifies v.cells
      invariant d <= passes && |vs| == d && v.max == |a| + |b|
      invariant HoldsReads(a, b, v, d) && KeptCopies(a, b, vs) && Apart(vs, v)
      invariant NoSolutionBefore(a, b, d) && outcome == Exhausted
    {
      var solved, k;
      solved, k, vs := PassAndCopy(a, b, v, vs, d);
      if solved {
        FirstSolution(a, b, d, k);
        outcome := Found;
        break;
      }
      d := d + 1;
    }
  }

  /**
   * One pass of the search followed by the copy of v kept for it: the kept
   * arrays grow by one, and a pass that does not reach the corner leaves v
   * ready for the next one.
   */
  method PassAndCopy<T(==)>(a: seq<T>, b: seq<T>, v: VArray, vs: seq<VArray>, d: nat)
    returns (solved: bool, k: int, kept: seq<VArray>)
    requires HoldsReads(a, b, v, d) && d <= v.max && |vs| == d
    requires KeptCopies(a, b, vs) && Apart(vs, v) && NoSolutionBefore(a, b, d)
    modifies v.cells
    ensures |kept| == d + 1 && kept[..d] == vs && KeptCopies(a, b, kept) && Apart(kept, v)
    ensures solved ==> OnDiagonal(d, k) && SolvedAt(a, b, d, k)
    ensures !solved ==> HoldsReads(a, b, v, d + 1) && NoSolutionBefore(a, b, d + 1)
  {
    solved, k := Pass(a, b, v, d);
    var snapshot := Snapshot(a, b, v, d);
    KeptCopiesSnoc(a, b, vs, snapshot, v);
    kept := vs + [snapshot];
    assert kept[..d] == vs;
    if !solved {
      NoSolutionThrough(a, b, v, d);
    }
  }

  /** The copy of v the search keeps after pass d: a fresh array that still holds what pass d reads. */
  method Snapshot<T>(a: seq<T>, b: seq<T>, v: VArray, d: nat) returns (c: VArray)
    requires HoldsReads(a, b, v, d) && d <= v.max
    ensures fresh(c.cells) && HoldsReads(a, b, c, d)
  {
    ReadsInWindow(a, b, v.cells[..], v.max, if d == 0 then 1 else d, d);
    c := v.Copy(d);
  }

  /** The arrays kept by the search, the copy for pass e at position e, each hold what their pass reads. */
  ghost predicate KeptCopies<T>(a: seq<T>, b: seq<T>, vs: seq<VArray>)
    reads set e | 0 <= e < |vs| :: vs[e].cells
  {
    forall e :: 0 <= e < |vs| ==> HoldsReads(a, b, vs[e], e)
  }

  /** None of the kept arrays shares its cells with the working array v. */
  ghost predicate Apart(vs: seq<VArray>, v: VArray) {
    forall e :: 0 <= e < |vs| ==> vs[e].cells != v.cells
  }

  /** Appending the copy for the next pass keeps the kept arrays valid and apart from v. */
  lemma KeptCopiesSnoc<T>(a: seq<T>, b: seq<T>, vs: seq<VArray>, c: VArray, v: VArray)
    requires KeptCopies(a, b, vs) && Apart(vs, v) && HoldsReads(a, b, c, |vs|) && c.cells != v.cells
    ensures KeptCopies(a, b, vs + [c]) && Apart(vs + [c], v)
  {
    var ws := vs + [c];
    forall e | 0 <= e < |ws|
      ensures HoldsReads(a, b, ws[e], e) && ws[e].cells != v.cells
    {
      if e < |vs| {
        assert ws[e] == vs[e];
      }
    }
  }

  /** The elements of s in the opposite order. */
  function Reversed<X>(s: seq<X>): (r: seq<X>)
    ensures |r| == |s| && forall i :: 0 <= i < |s| ==> r[i] == s[|s| - 1 - i]
  {
    if s == [] then [] else Reversed(s[1..]) + [s[0]]
  }

  /** Appending x and reversing puts x first. */
  lemma ReversedSnoc<X>(s: seq<X>, x: X)
    ensures Reversed(s + [x]) == [x] + Reversed(s)
  {
    assert |Reversed(s + [x])| == |[x] + Reversed(s)|;
    forall i | 0 <= i < |s| + 1
      ensures Reversed(s + [x])[i] == ([x] + Reversed(s))[i]
    {
      if i > 0 {
        assert (s + [x])[|s| - i] == s[|s| - 1 - (i - 1)];
      }
    }
  }

  /**
   * The trace of pass d to diagonal k is the trace to the start of pass
   * d's snake, when that start is past the origin, followed by the snake;
   * returned is the part before the snake.
   */
  lemma StepBack<T>(a: seq<T>, b: seq<T>, d: nat, k: int, s: Snake, trace: seq<Snake>) returns (earlier: seq<Snake>)
    requires IsTrace(a, b, d, k, trace) && s == SnakeAt(a, b, d, k)
    ensures trace == earlier + [s]
    ensures s.start.x > 0 || s.start.y > 0 ==> 1 <= d && IsTrace(a, b, d - 1, s.start.x - s.start.y, earlier)
    ensures !(s.start.x > 0 || s.start.y > 0) ==> earlier == []
  {
    if d > 0 && (s.start.x > 0 || s.start.y > 0) {
      earlier := TraceGoesBack(a, b, d, k, s, trace);
    } else {
      TraceStops(a, b, d, k, s, trace);
      earlier := [];
    }
  }

  /** A trace whose last snake starts past the origin is the trace of pass d - 1 from that snake's start, and the snake. */
  lemma TraceGoesBack<T>(a: seq<T>, b: seq<T>, d: nat, k: int, s: Snake, trace: seq<Snake>) returns (earlier: seq<Snake>)
    requires IsTrace(a, b, d, k, trace) && s == SnakeAt(a, b, d, k)
    requires d > 0 && (s.start.x > 0 || s.start.y > 0)
    ensures trace == earlier + [s] && IsTrace(a, b, d - 1, s.start.x - s.start.y, earlier)
  {
    TraceBack(a, b, d, k, s);
    earlier := Trace(a, b, d - 1, s.start.x - s.start.y);
  }

  /** A trace whose last snake starts at the origin or above it holds that snake alone. */
  lemma TraceStops<T>(a: seq<T>, b: seq<T>, d: nat, k: int, s: Snake, trace: seq<Snake>)
    requires IsTrace(a, b, d, k, trace) && s == SnakeAt(a, b, d, k)
    requires !(d > 0 && (s.start.x > 0 || s.start.y > 0))
    ensures !(s.start.x > 0 || s.start.y > 0) && trace == [s]
  {
    if d == 0 {
      assert k == 0;
      FirstSnakeStart(a, b);
    }
    TraceAlone(a, b, d, k, s);
  }

  /** Whether t is the trace of pass d to diagonal k. */
  ghost predicate IsTrace<T>(a: seq<T>, b: seq<T>, d: nat, k: int, t: seq<Snake>) {
    OnDiagonal(d, k) && t == Trace(a, b, d, k)
  }

  /** The snake of pass 0 starts at the point (0, -1) above the origin. */
  lemma FirstSnakeStart<T>(a: seq<T>, b: seq<T>)
    ensures SnakeAt(a, b, 0, 0).start == Point(0, -1)
  {
  }

  /**
   * The backtracking of GetDiff: from the corner it rebuilds, with the copy
   * kept for each pass from the last one down, the snake that ends at the
   * current point, and moves to that snake's start, until it reaches the
   * origin (or the point above it). The snakes, collected from last to
   * first and then reversed, are the trace of the last pass to the corner.
   */
  method Backtrack<T(==)>(a: seq<T>, b: seq<T>, vs: seq<VArray>) returns (snakes: seq<Snake>)
    requires KeptCopies(a, b, vs) && 1 <= |vs| && 1 <= |a| + |b| && OnDiagonal(|vs| - 1, |a| - |b|)
    ensures snakes == Trace(a, b, |vs| - 1, |a| - |b|)
  {
    var collected: seq<Snake> := [];
    var p := Point(|a|, |b|);
    var d := |vs| - 1;
    ghost var pending := Trace(a, b, d, |a| - |b|);
    ghost var whole := pending;
    assert pending + Reversed(collected) == pending;
    while p.x > 0 || p.y > 0
      invariant Backtracking(a, b, |vs|, whole, pending, collected, p, d)
      decreases d + 1
    {
      collected, p, d, pending := BacktrackOnce(a, b, vs, whole, pending, collected, p, d);
    }
    BacktrackDone(a, b, |vs|, whole, pending, collected, p, d);
    snakes := Reversed(collected);
  }

  /**
   * The state of the backtracking at point p with the copy for pass d
   * next: the whole trace is the snakes still pending followed by the
   * collected ones reversed; the pending snakes are the trace of pass d to
   * p while p is past the origin, and none once it is not.
   */
  ghost predicate Backtracking<T>(a: seq<T>, b: seq<T>, n: int, whole: seq<Snake>, pending: seq<Snake>,
                                  collected: seq<Snake>, p: Point, d: int) {
    -1 <= d < n && whole == pending + Reversed(collected) &&
    (p.x > 0 || p.y > 0 ==> 0 <= d && IsTrace(a, b, d, p.x - p.y, pending)) &&
    (!(p.x > 0 || p.y > 0) ==> pending == [])
  }

  /**
   * While p is past the origin there is a pass d whose kept copy rebuilds
   * the snake to p, and the snake it rebuilds is pass d's.
   */
  lemma BacktrackAt<T>(a: seq<T>, b: seq<T>, vs: seq<VArray>, whole: seq<Snake>, pending: seq<Snake>,
                       collected: seq<Snake>, p: Point, d: int)
    requires KeptCopies(a, b, vs)
    requires Backtracking(a, b, |vs|, whole, pending, collected, p, d) && (p.x > 0 || p.y > 0)
    ensures 0 <= d < |vs| && OnDiagonal(d, p.x - p.y)
    ensures var k := p.x - p.y; (k != -d ==> vs[d].InRange(k - 1)) && (k == -d || k != d ==> vs[d].InRange(k + 1))
    ensures CalculateSnake(vs[d], p.x - p.y, d, a, b) == SnakeAt(a, b, d, p.x - p.y)
  {
    ReplayAgreesWithSearch(a, b, vs[d], d, p.x - p.y);
  }

  /**
   * One step of the backtracking: the snake that ends at p, rebuilt with the
   * copy kept for pass d, is pass d's snake to p; it is collected, and the
   * backtracking moves to its start with the copy for pass d - 1 next.
   */
  method BacktrackOnce<T(==)>(a: seq<T>, b: seq<T>, vs: seq<VArray>, ghost whole: seq<Snake>, ghost pending: seq<Snake>,
                              collected: seq<Snake>, p: Point, d: int)
    returns (collected': seq<Snake>, p': Point, d': int, ghost pending': seq<Snake>)
    requires KeptCopies(a, b, vs)
    requires Backtracking(a, b, |vs|, whole, pending, collected, p, d) && (p.x > 0 || p.y > 0)
    ensures 0 <= d && OnDiagonal(d, p.x - p.y)
    ensures collected' == collected + [SnakeAt(a, b, d, p.x - p.y)] && p' == SnakeAt(a, b, d, p.x - p.y).start && d' == d - 1
    ensures Backtracking(a, b, |vs|, whole, pending', collected', p', d')
  {
    BacktrackAt(a, b, vs, whole, pending, collected, p, d);
    var snake := CalculateSnake(vs[d], p.x - p.y, d, a, b);
    pending' := BacktrackStep(a, b, |vs|, whole, pending, collected, p, d, snake);
    collected', p', d' := collected + [snake], snake.start, d - 1;
  }

  /** Collecting pass d's snake to p and moving to its start keeps the state of the backtracking. */
  lemma BacktrackStep<T>(a: seq<T>, b: seq<T>, n: int, whole: seq<Snake>, pending: seq<Snake>,
                         collected: seq<Snake>, p: Point, d: int, s: Snake) returns (earlier: seq<Snake>)
    requires Backtracking(a, b, n, whole, pending, collected, p, d) && (p.x > 0 || p.y > 0)
    requires 0 <= d && OnDiagonal(d, p.x - p.y) && s == SnakeAt(a, b, d, p.x - p.y)
    ensures Backtracking(a, b, n, whole, earlier, collected + [s], s.start, d - 1)
  {
    earlier := StepBack(a, b, d, p.x - p.y, s, pending);
    ReversedSnoc(collected, s);
    Regroup(earlier, s, Reversed(collected));
  }

  /** Once p is no longer past the origin, the collected snakes reversed are the whole trace. */
  lemma BacktrackDone<T>(a: seq<T>, b: seq<T>, n: int, whole: seq<Snake>, pending: seq<Snake>,
                         collected: seq<Snake>, p: Point, d: int)
    requires Backtracking(a, b, n, whole, pending, collected, p, d) && !(p.x > 0 || p.y > 0)
    ensures whole == Reversed(collected)
  {
    assert [] + Reversed(collected) == Reversed(collected);
  }

  /** Moving the last element of the first part to the front of the second keeps the concatenation. */
  lemma Regroup<X>(xs: seq<X>, x: X, ys: seq<X>)
    ensures (xs + [x]) + ys == xs + ([x] + ys)
  {
  }

  /**
   * The operations of the snakes in order: for each snake its edit, if it
   * has one, then one Equal per diagonal move. Every operation is new and
   * not marked as a conflict.
   */
  method SnakesToOperations<T>(original: Source<T>, target: Source<T>, snakes: seq<Snake>) returns (ops: seq<Operation<T>>)
    ensures Edits(ops) == SnakeEdits(original, target, snakes)
    ensures Unflagged(ops)
    ensures forall i | 0 <= i < |ops| :: fresh(ops[i])
  {
    ops := [];
    var i := 0;
    while i < |snakes|
      invariant 0 <= i <= |snakes|
      invariant Edits(ops) == SnakeEdits(original, target, snakes[..i]) && Unflagged(ops)
      invariant forall j | 0 <= j < |ops| :: fresh(ops[j])
    {
      ghost var done := ops;
      ops := AppendSnakeOperations(original, target, snakes[i], ops);
      forall j | 0 <= j < |ops|
        ensures fresh(ops[j])
      {
        if j < |done| {
          assert ops[j] == ops[..|done|][j];
        }
      }
      assert snakes[..i + 1] == snakes[..i] + [snakes[i]];
      SnakeEditsSnoc(original, target, snakes[..i], snakes[i]);
      i := i + 1;
    }
    assert snakes[..|snakes|] == snakes;
  }

  /**
   * One round of SnakesToOperations: appends to ops the snake's edit, if it
   * has one (a Delete at the start's x in the original, or an Insert at the
   * start's y in the target, y = -1 read as 0), then one Equal per diagonal
   * move, at the original's positions after the edit.
   */
  method AppendSnakeOperations<T>(original: Source<T>, target: Source<T>, snake: Snake, ops: seq<Operation<T>>)
    returns (result: seq<Operation<T>>)
    requires Unflagged(ops)
    ensures Edits(result) == Edits(ops) + SnakeOps(original, target, snake)
    ensures Unflagged(result)
    ensures |ops| <= |result| && result[..|ops|] == ops && forall i | |ops| <= i < |result| :: fresh(result[i])
  {
    result := ops;
    if snake.kind != Equal {
      var op := new Operation(
        snake.kind,
        if snake.kind == Delete then snake.start.x else if snake.start.y == -1 then 0 else snake.start.y,
        if snake.kind == Delete then original else target);
      EditsSnoc(result, op);
      result := result + [op];
    }
    ghost var head := result;
    result := AppendEquals(original, snake.start.x + (if snake.kind == Delete then 1 else 0), snake.diagonals, result);
    SnakeOpsParts(original, target, snake, Edits(ops), Edits(head), Edits(result));
  }

  /** Appends one Equal operation per diagonal move, at the original's positions from `from` on. */
  method AppendEquals<T>(original: Source<T>, from: int, count: nat, ops: seq<Operation<T>>)
    returns (result: seq<Operation<T>>)
    requires Unflagged(ops)
    ensures Edits(result) == Edits(ops) + EqualRun(original, from, count)
    ensures Unflagged(result)
    ensures |ops| <= |result| && result[..|ops|] == ops && forall i | |ops| <= i < |result| :: fresh(result[i])
  {
    result := ops;
    assert Edits(result) == Edits(ops) + EqualRun(original, from, 0);
    var i := 0;
    while i < count
      invariant 0 <= i <= count
      invariant Edits(result) == Edits(ops) + EqualRun(original, from, i) && Unflagged(result)
      invariant |ops| <= |result| && result[..|ops|] == ops && forall j | |ops| <= j < |result| :: fresh(result[j])
    {
      var op := new Operation(Equal, from + i, original);
      EditsSnoc(result, op);
      EqualSnoc(original, from, i, Edits(ops), Edits(result));
      result := result + [op];
      i := i + 1;
    }
  }

  /** Appending the Equal at from + j to a script ending in the run of j Equals from `from` lengthens the run. */
  lemma EqualSnoc<T>(original: Source<T>, from: int, j: nat, head: seq<Edit<T>>, es: seq<Edit<T>>)
    requires es == head + EqualRun(original, from, j)
    ensures es + [Edit(Equal, from + j, original)] == head + EqualRun(original, from, j + 1)
  {
    assert EqualRun(original, from, j + 1) == EqualRun(original, from, j) + [Edit(Equal, from + j, original)];
  }

  /** A script, then the snake's edit (if any), then its run of Equals, is the script followed by the snake's operations. */
  lemma SnakeOpsParts<T>(original: Source<T>, target: Source<T>, s: Snake,
                         before: seq<Edit<T>>, head: seq<Edit<T>>, es: seq<Edit<T>>)
    requires head == before + (if s.kind != Equal
                               then [Edit(s.kind,
                                          if s.kind == Delete then s.start.x else if s.start.y == -1 then 0 else s.start.y,
                                          if s.kind == Delete then original else target)]
                               else [])
    requires es == head + EqualRun(original, s.start.x + (if s.kind == Delete then 1 else 0), s.diagonals)
    ensures es == before + SnakeOps(original, target, s)
  {
  }

  /**
   * The operations for a lone source: none (null) when the source is
   * missing, otherwise one new Insert per element, in order.
   */
  method BuildOperationsForSingleSource<T>(source: Source?<T>) returns (r: Option<seq<Operation<T>>>)
    ensures source == null <==> r == None
    ensures source != null ==> Edits(r.value) == InsertAll(source)
    ensures r.Some? ==> Unflagged(r.value)
    ensures r.Some? ==> forall i | 0 <= i < |r.value| :: fresh(r.value[i])
  {
    if source == null {
      return None;
    }
    var operations: seq<Operation<T>> := [];
    var i := 0;
    while i < source.Length()
      invariant 0 <= i <= |source.items|
      invariant Edits(operations) == Inserts(source, 0, i)
      invariant Unflagged(operations)
      invariant forall j | 0 <= j < |operations| :: fresh(operations[j])
    {
      var op := new Operation(Insert, i, source);
      EditsSnoc(operations, op);
      assert Inserts(source, 0, i + 1) == Inserts(source, 0, i) + [op.AsEdit()];
      operations := operations + [op];
      i := i + 1;
    }
    return Some(operations);
  }

  /**
   * A shortest edit script from original to target: it renders the whole
   * target, visits every position of the original in order, and no path
   * through the edit graph to the corner has fewer insertions and deletions.
   */
  ghost predicate ShortestScript<T>(original: Source<T>, target: Source<T>, es: seq<Edit<T>>) {
    var a, b := original.items, target.items;
    Transforms(original, target, es, |a|, |b|, EditCount(es)) &&
    forall path :: ValidPath(a, b, path) && End(path) == Point(|a|, |b|) ==> EditCount(es) <= Cost(path)
  }

  /**
   * Whether es is the script of the trace that backtracking follows from
   * the corner, in the first pass that reaches it.
   */
  ghost predicate TraceScript<T>(original: Source<T>, target: Source<T>, es: seq<Edit<T>>) {
    var a, b := original.items, target.items;
    exists d: nat :: FirstCorner(a, b, d) && es == SnakeEdits(original, target, Trace(a, b, d, |a| - |b|))
  }

  /** The trace of the first pass that reached the corner witnesses TraceScript. */
  lemma TraceScriptOf<T>(original: Source<T>, target: Source<T>, d: nat, es: seq<Edit<T>>)
    requires FirstCorner(original.items, target.items, d)
    requires es == SnakeEdits(original, target, Trace(original.items, target.items, d, |original.items| - |target.items|))
    ensures TraceScript(original, target, es)
  {
  }

  /**
   * The diff of two present sources with a search of the given number of
   * passes: the search, then the backtracking and the translation into
   * operations. IndexOutOfRange exactly when both sources are empty;
   * NoDiffSolution only when no pass reached the corner; otherwise a
   * shortest edit script, found by a pass before the last one allowed.
   */
  method Compare<T(==)>(original: Source<T>, target: Source<T>, passes: nat) returns (r: Diff<T>)
    requires passes <= |original.items| + |target.items| + 1
    ensures r != NoOperations
    ensures r == IndexOutOfRange <==> |original.items| + |target.items| == 0
    ensures r == NoDiffSolution ==> NoSolutionBefore(original.items, target.items, passes)
    ensures r.Ops? ==> ShortestScript(original, target, Edits(r.ops)) && EditCount(Edits(r.ops)) < passes
    ensures r.Ops? ==> TraceScript(original, target, Edits(r.ops))
    ensures r.Ops? && EditCount(Edits(r.ops)) < |original.items| + |target.items| ==> ShareElement(original.items, target.items)
    ensures r.Ops? ==> Unflagged(r.ops)
    ensures r.Ops? ==> forall i | 0 <= i < |r.ops| :: fresh(r.ops[i])
  {
    var a, b := original.items, target.items;
    var vs, outcome := Search(a, b, passes);
    if outcome == OutOfRange {
      return IndexOutOfRange;
    }
    if outcome == Exhausted {
      return NoDiffSolution;
    }
    var ops := Solve(original, target, a, b, vs);
    r := Ops(ops);
  }

  /**
   * The operations of a search that reached the corner in its last pass:
   * backtracking gives the trace of that pass, and its operations form a
   * shortest script.
   */
  method Solve<T(==)>(original: Source<T>, target: Source<T>, a: seq<T>, b: seq<T>, vs: seq<VArray>)
    returns (ops: seq<Operation<T>>)
    requires a == original.items && b == target.items && 1 <= |a| + |b|
    requires KeptCopies(a, b, vs) && 1 <= |vs| && NoSolutionBefore(a, b, |vs| - 1)
    requires OnDiagonal(|vs| - 1, |a| - |b|) && SolvedAt(a, b, |vs| - 1, |a| - |b|)
    ensures ShortestScript(original, target, Edits(ops)) && EditCount(Edits(ops)) == |vs| - 1
    ensures |vs| - 1 < |a| + |b| ==> ShareElement(a, b)
    ensures Edits(ops) == SnakeEdits(original, target, Trace(a, b, |vs| - 1, |a| - |b|))
    ensures TraceScript(original, target, Edits(ops))
    ensures Unflagged(ops)
    ensures forall i | 0 <= i < |ops| :: fresh(ops[i])
  {
    var snakes := Backtrack(a, b, vs);
    ops := SnakesToOperations(original, target, snakes);
    FoundScript(original, target, a, b, |vs| - 1, snakes, Edits(ops));
  }

  /**
   * When pass d is the first to reach the corner, the operations of its
   * trace form a shortest script, with d edits; and when d < |a| + |b| the
   * sources share an element.
   */
  lemma FoundScript<T>(original: Source<T>, target: Source<T>, a: seq<T>, b: seq<T>, d: nat, snakes: seq<Snake>, es: seq<Edit<T>>)
    requires a == original.items && b == target.items
    requires NoSolutionBefore(a, b, d) && OnDiagonal(d, |a| - |b|) && SolvedAt(a, b, d, |a| - |b|)
    requires snakes == Trace(a, b, d, |a| - |b|) && es == SnakeEdits(original, target, snakes)
    ensures ShortestScript(original, target, es) && EditCount(es) == d
    ensures d < |a| + |b| ==> ShareElement(a, b)
    ensures TraceScript(original, target, es)
  {
    FirstSolution(a, b, d, |a| - |b|);
    if d < |a| + |b| {
      SolutionMeansShared(a, b, d, |a| - |b|);
    }
    CornerTrace(original, target, a, b, d, snakes);
    TraceScriptOf(original, target, d, es);
  }

  /** The operations of a trace of pass d that ends at the corner turn the original into the target with d edits. */
  lemma CornerTrace<T>(original: Source<T>, target: Source<T>, a: seq<T>, b: seq<T>, d: nat, snakes: seq<Snake>)
    requires a == original.items && b == target.items
    requires OnDiagonal(d, |a| - |b|) && Furthest(a, b, d, |a| - |b|) == |a| && snakes == Trace(a, b, d, |a| - |b|)
    ensures Transforms(original, target, SnakeEdits(original, target, snakes), |a|, |b|, d)
  {
    var k := |a| - |b|;
    assert Furthest(a, b, d, k) - k == |b|;
    TraceMeaning(original, target, d, k);
    assert FrontierPoint(Furthest(a, b, d, k), k) == Point(|a|, |b|);
  }

  /**
   * GetDiff as written: a missing source gives the inserts of the other
   * one (nothing when both are missing); two present sources are compared
   * with |a| + |b| passes, d = 0, ..., |a| + |b| - 1. So it finds a shortest
   * script exactly when the sources share an element, and throws
   * NoDiffSolution when they share none although deleting everything and
   * inserting everything is a script (ReplaceAllMeaning).
   */
  method GetDiff<T(==)>(original: Source?<T>, target: Source?<T>) returns (r: Diff<T>)
    ensures original == null && target == null ==> r == NoOperations
    ensures original != null && target == null ==> r.Ops? && Edits(r.ops) == InsertAll(original)
    ensures original == null && target != null ==> r.Ops? && Edits(r.ops) == InsertAll(target)
    ensures original != null && target != null ==>
      var a, b := original.items, target.items;
      (r == IndexOutOfRange <==> |a| + |b| == 0) &&
      (r == NoDiffSolution <==> 1 <= |a| + |b| && !ShareElement(a, b)) &&
      (r.Ops? <==> ShareElement(a, b)) &&
      (r.Ops? ==> ShortestScript(original, target, Edits(r.ops)) && TraceScript(original, target, Edits(r.ops)))
    ensures r.Ops? ==> Unflagged(r.ops)
    ensures r.Ops? ==> forall i | 0 <= i < |r.ops| :: fresh(r.ops[i])
  {
    if original == null || target == null {
      var single := BuildOperationsForSingleSource(original);
      if single.None? {
        single := BuildOperationsForSingleSource(target);
      }
      return if single.Some? then Ops(single.value) else NoOperations;
    }
    var a, b := original.items, target.items;
    r := Compare(original, target, |a| + |b|);
    if r == NoDiffSolution {
      NoSolutionMeansDisjoint(a, b);
    }
  }

  /**
   * GetDiff as evidently intended: two empty sources give the empty
   * script, and the search is allowed its last pass, d = |a| + |b|, so
   * every pair of present sources gets a shortest script. Missing sources
   * are handled as in GetDiff.
   */
  method GetDiffIntended<T(==)>(original: Source?<T>, target: Source?<T>) returns (r: Diff<T>)
    ensures original == null && target == null ==> r == NoOperations
    ensures original != null && target == null ==> r.Ops? && Edits(r.ops) == InsertAll(original)
    ensures original == null && target != null ==> r.Ops? && Edits(r.ops) == InsertAll(target)
    ensures original != null && target != null ==> r.Ops? && ShortestScript(original, target, Edits(r.ops))
    ensures r.Ops? ==> Unflagged(r.ops) && forall i | 0 <= i < |r.ops| :: fresh(r.ops[i])
  {
    if original == null || target == null {
      r := GetDiff(original, target);
      return;
    }
    var a, b := original.items, target.items;
    if |a| + |b| == 0 {
      return Ops([]);
    }
    r := Compare(original, target, |a| + |b| + 1);
    if r == NoDiffSolution {
      LastPassSolves(a, b);
      assert false;
    }
  }
}
