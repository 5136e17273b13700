/**
 * The diff engine on the inputs of its tests: the frontier of every pass,
 * the first pass that reaches the corner, the snakes backtracking collects
 * and the script they stand for, worked out one step at a time.
 */
module DiffExamples {
  import opened Operations
  import opened EditGraph
  import opened Snakes
  import opened Frontier
  import opened Traces
  import opened MyersDiffEngine
  import opened WholeScripts
  import opened MergeEngines

  /** Pass d's frontier on diagonal k, from the values it reads on diagonals k - 1 (left) and k + 1 (right). */
  lemma FrontierFrom<T>(a: seq<T>, b: seq<T>, d: nat, k: int, left: int, right: int)
    requires OnDiagonal(d, k)
    requires k != -(d as int) ==> Furthest(a, b, d - 1, k - 1) == left
    requires d != 0 && (k == -(d as int) || k != d) ==> Furthest(a, b, d - 1, k + 1) == right
    requires k == -(d as int) ==> left == 0
    requires !(d != 0 && (k == -(d as int) || k != d)) ==> right == 0
    ensures Furthest(a, b, d, k) == SlideFrom(a, b, Landing(k, d, left, right), k)
  {
    Neighbours(a, b, d, k);
    FurthestStep(a, b, d, k);
  }

  /** Pass d's snake on diagonal k, and the diagonal of pass d - 1 it starts from, from the values pass d reads. */
  lemma SnakeFrom<T>(a: seq<T>, b: seq<T>, d: nat, k: int, left: int, right: int)
    requires OnDiagonal(d, k)
    requires k != -(d as int) ==> Furthest(a, b, d - 1, k - 1) == left
    requires d != 0 && (k == -(d as int) || k != d) ==> Furthest(a, b, d - 1, k + 1) == right
    requires k == -(d as int) ==> left == 0
    requires !(d != 0 && (k == -(d as int) || k != d)) ==> right == 0
    ensures SnakeAt(a, b, d, k) == SnakeOf(a, b, k, d, left, right)
    ensures d > 0 ==> Parent(a, b, d, k) == if GoesDown(k, d, left, right) then k + 1 else k - 1
  {
    Neighbours(a, b, d, k);
  }

  /** The sources of the diff test, "ABCABBA" to "CBABAC". */
  predicate TestSources(a: seq<char>, b: seq<char>) {
    a == "ABCABBA" && b == "CBABAC"
  }

  /** The frontier of pass 0 for the diff test, "ABCABBA" to "CBABAC". */
  lemma TestPass0(a: seq<char>, b: seq<char>)
    requires TestSources(a, b)
    ensures Furthest(a, b, 0, 0) == 0
  {
    assert !Matches(a, b, 0, 0);
    FrontierFrom(a, b, 0, 0, 0, 0);
  }

  /** The frontier of pass 1 for the diff test, "ABCABBA" to "CBABAC". */
  lemma TestPass1(a: seq<char>, b: seq<char>)
    requires TestSources(a, b)
    ensures Furthest(a, b, 1, -1) == 0
    ensures Furthest(a, b, 1, 1) == 1
  {
    TestPass0(a, b);
    assert !Matches(a, b, 0, 1);
    FrontierFrom(a, b, 1, -1, 0, 0);
    assert !Matches(a, b, 1, 0);
    FrontierFrom(a, b, 1, 1, 0, 0);
  }

  /** The frontier of pass 2 for the diff test, "ABCABBA" to "CBABAC". */
  lemma TestPass2(a: seq<char>, b: seq<char>)
    requires TestSources(a, b)
    ensures Furthest(a, b, 2, -2) == 2
    ensures Furthest(a, b, 2, 0) == 2
    ensures Furthest(a, b, 2, 2) == 3
  {
    TestPass1(a, b);
    assert !Matches(a, b, 2, 4);
    assert Slide(a, b, 1, 3) == 1;
    assert Slide(a, b, 0, 2) == 2;
    FrontierFrom(a, b, 2, -2, 0, 0);
    assert !Matches(a, b, 2, 2);
    assert Slide(a, b, 1, 1) == 1;
    FrontierFrom(a, b, 2, 0, 0, 1);
    assert !Matches(a, b, 3, 1);
    assert Slide(a, b, 2, 0) == 1;
    FrontierFrom(a, b, 2, 2, 1, 0);
  }

  /** The frontier of pass 3 for the diff test, "ABCABBA" to "CBABAC". */
  lemma TestPass3(a: seq<char>, b: seq<char>)
    requires TestSources(a, b)
    ensures Furthest(a, b, 3, -3) == 3
    ensures Furthest(a, b, 3, -1) == 4
    ensures Furthest(a, b, 3, 1) == 5
    ensures Furthest(a, b, 3, 3) == 5
  {
    TestPass2(a, b);
    assert !Matches(a, b, 3, 6);
    assert Slide(a, b, 2, 5) == 1;
    FrontierFrom(a, b, 3, -3, 0, 2);
    assert !Matches(a, b, 4, 5);
    assert Slide(a, b, 3, 4) == 1;
    FrontierFrom(a, b, 3, -1, 2, 2);
    assert !Matches(a, b, 5, 4);
    assert Slide(a, b, 4, 3) == 1;
    assert Slide(a, b, 3, 2) == 2;
    FrontierFrom(a, b, 3, 1, 2, 3);
    assert !Matches(a, b, 5, 2);
    assert Slide(a, b, 4, 1) == 1;
    FrontierFrom(a, b, 3, 3, 3, 0);
  }

  /** The frontier of pass 4 for the diff test, "ABCABBA" to "CBABAC". */
  lemma TestPass4(a: seq<char>, b: seq<char>)
    requires TestSources(a, b)
    ensures Furthest(a, b, 4, -4) == 3
    ensures Furthest(a, b, 4, -2) == 4
    ensures Furthest(a, b, 4, 0) == 5
    ensures Furthest(a, b, 4, 2) == 7
    ensures Furthest(a, b, 4, 4) == 7
  {
    TestPass3(a, b);
    assert !Matches(a, b, 3, 7);
    FrontierFrom(a, b, 4, -4, 0, 3);
    assert !Matches(a, b, 4, 6);
    FrontierFrom(a, b, 4, -2, 3, 4);
    assert !Matches(a, b, 5, 5);
    FrontierFrom(a, b, 4, 0, 4, 5);
    assert !Matches(a, b, 7, 5);
    assert Slide(a, b, 6, 4) == 1;
    FrontierFrom(a, b, 4, 2, 5, 5);
    assert !Matches(a, b, 7, 3);
    assert Slide(a, b, 6, 2) == 1;
    FrontierFrom(a, b, 4, 4, 5, 0);
  }

  /** The frontier of pass 5 for the diff test, "ABCABBA" to "CBABAC". */
  lemma TestPass5(a: seq<char>, b: seq<char>)
    requires TestSources(a, b)
    ensures Furthest(a, b, 5, -5) == 3
    ensures Furthest(a, b, 5, -3) == 4
    ensures Furthest(a, b, 5, -1) == 5
    ensures Furthest(a, b, 5, 1) == 7
    ensures Furthest(a, b, 5, 3) == 8
    ensures Furthest(a, b, 5, 5) == 8
  {
    TestPass4(a, b);
    assert !Matches(a, b, 3, 8);
    FrontierFrom(a, b, 5, -5, 0, 3);
    assert !Matches(a, b, 4, 7);
    FrontierFrom(a, b, 5, -3, 3, 4);
    assert !Matches(a, b, 5, 6);
    FrontierFrom(a, b, 5, -1, 4, 5);
    assert !Matches(a, b, 7, 6);
    FrontierFrom(a, b, 5, 1, 5, 7);
    assert !Matches(a, b, 8, 5);
    FrontierFrom(a, b, 5, 3, 7, 7);
    assert !Matches(a, b, 8, 3);
    FrontierFrom(a, b, 5, 5, 7, 0);
  }

  /** No pass before pass 5 reaches the corner for the diff test, "ABCABBA" to "CBABAC". */
  lemma TestNoCornerBefore(a: seq<char>, b: seq<char>)
    requires TestSources(a, b)
    ensures NoSolutionBefore(a, b, 5)
  {
    TestPass0(a, b);
    TestPass1(a, b);
    TestPass2(a, b);
    TestPass3(a, b);
    TestPass4(a, b);
    forall e: nat, j | e < 5 && OnDiagonal(e, j)
      ensures !SolvedAt(a, b, e, j)
    {
      if e == 0 {
        assert j == 0;
      } else if e == 1 {
        assert j == -1 || j == 1;
      } else if e == 2 {
        assert j == -2 || j == 0 || j == 2;
      } else if e == 3 {
        assert j == -3 || j == -1 || j == 1 || j == 3;
      } else {
        assert j == -4 || j == -2 || j == 0 || j == 2 || j == 4;
      }
    }
  }

  /** The snakes backtracking collects from the corner for the diff test, "ABCABBA" to "CBABAC", in order. */
  lemma TestTrace(a: seq<char>, b: seq<char>)
    requires TestSources(a, b)
    ensures FirstCorner(a, b, 5)
    ensures Trace(a, b, 5, 1) == [
      Snake(Delete, Point(0, 0), Point(1, 0), 0),
      Snake(Delete, Point(1, 0), Point(3, 1), 1),
      Snake(Insert, Point(3, 1), Point(5, 4), 2),
      Snake(Delete, Point(5, 4), Point(7, 5), 1),
      Snake(Insert, Point(7, 5), Point(7, 6), 0)
    ]
  {
    TestNoCornerBefore(a, b);
    TestPass0(a, b);
    TestPass1(a, b);
    TestPass2(a, b);
    TestPass3(a, b);
    TestPass4(a, b);
    TestPass5(a, b);
    assert !Matches(a, b, 1, 0);
    SnakeFrom(a, b, 1, 1, 0, 0);
    TraceAlone(a, b, 1, 1, Snake(Delete, Point(0, 0), Point(1, 0), 0));
    assert Trace(a, b, 1, 1) == [Snake(Delete, Point(0, 0), Point(1, 0), 0)];
    assert !Matches(a, b, 3, 1);
    assert Slide(a, b, 2, 0) == 1;
    SnakeFrom(a, b, 2, 2, 1, 0);
    TraceGoesOn(a, b, 2, 2, Snake(Delete, Point(1, 0), Point(3, 1), 1));
    assert Trace(a, b, 2, 2) == [Snake(Delete, Point(0, 0), Point(1, 0), 0), Snake(Delete, Point(1, 0), Point(3, 1), 1)];
    assert !Matches(a, b, 5, 4);
    assert Slide(a, b, 4, 3) == 1;
    assert Slide(a, b, 3, 2) == 2;
    SnakeFrom(a, b, 3, 1, 2, 3);
    TraceGoesOn(a, b, 3, 1, Snake(Insert, Point(3, 1), Point(5, 4), 2));
    assert Trace(a, b, 3, 1) == [Snake(Delete, Point(0, 0), Point(1, 0), 0), Snake(Delete, Point(1, 0), Point(3, 1), 1), Snake(Insert, Point(3, 1), Point(5, 4), 2)];
    assert !Matches(a, b, 7, 5);
    assert Slide(a, b, 6, 4) == 1;
    SnakeFrom(a, b, 4, 2, 5, 5);
    TraceGoesOn(a, b, 4, 2, Snake(Delete, Point(5, 4), Point(7, 5), 1));
    assert Trace(a, b, 4, 2) == [Snake(Delete, Point(0, 0), Point(1, 0), 0), Snake(Delete, Point(1, 0), Point(3, 1), 1), Snake(Insert, Point(3, 1), Point(5, 4), 2), Snake(Delete, Point(5, 4), Point(7, 5), 1)];
    assert !Matches(a, b, 7, 6);
    SnakeFrom(a, b, 5, 1, 5, 7);
    TraceGoesOn(a, b, 5, 1, Snake(Insert, Point(7, 5), Point(7, 6), 0));
    assert Trace(a, b, 5, 1) == [Snake(Delete, Point(0, 0), Point(1, 0), 0), Snake(Delete, Point(1, 0), Point(3, 1), 1), Snake(Insert, Point(3, 1), Point(5, 4), 2), Snake(Delete, Point(5, 4), Point(7, 5), 1), Snake(Insert, Point(7, 5), Point(7, 6), 0)];
  }

  /** The operations of the snakes of the diff test, "ABCABBA" to "CBABAC". */
  lemma TestSnakeEdits(original: Source<char>, target: Source<char>)
    ensures SnakeEdits(original, target, [Snake(Delete, Point(0, 0), Point(1, 0), 0), Snake(Delete, Point(1, 0), Point(3, 1), 1), Snake(Insert, Point(3, 1), Point(5, 4), 2), Snake(Delete, Point(5, 4), Point(7, 5), 1), Snake(Insert, Point(7, 5), Point(7, 6), 0)]) ==
      [Edit(Delete, 0, original), Edit(Delete, 1, original), Edit(Equal, 2, original), Edit(Insert, 1, target), Edit(Equal, 3, original), Edit(Equal, 4, original), Edit(Delete, 5, original), Edit(Equal, 6, original), Edit(Insert, 5, target)]
  {
    assert EqualRun(original, 1, 0) == [];
    assert SnakeOps(original, target, Snake(Delete, Point(0, 0), Point(1, 0), 0)) == [Edit(Delete, 0, original)];
    SnakeEditsSnoc(original, target, [], Snake(Delete, Point(0, 0), Point(1, 0), 0));
    assert SnakeEdits(original, target, [Snake(Delete, Point(0, 0), Point(1, 0), 0)]) == [Edit(Delete, 0, original)];
    assert EqualRun(original, 2, 1) == [Edit(Equal, 2, original)];
    assert SnakeOps(original, target, Snake(Delete, Point(1, 0), Point(3, 1), 1)) == [Edit(Delete, 1, original), Edit(Equal, 2, original)];
    SnakeEditsSnoc(original, target, [Snake(Delete, Point(0, 0), Point(1, 0), 0)], Snake(Delete, Point(1, 0), Point(3, 1), 1));
    assert [Snake(Delete, Point(0, 0), Point(1, 0), 0)] + [Snake(Delete, Point(1, 0), Point(3, 1), 1)] == [Snake(Delete, Point(0, 0), Point(1, 0), 0), Snake(Delete, Point(1, 0), Point(3, 1), 1)];
    assert [Edit(Delete, 0, original)] + [Edit(Delete, 1, original), Edit(Equal, 2, original)] == [Edit(Delete, 0, original), Edit(Delete, 1, original), Edit(Equal, 2, original)];
    assert SnakeEdits(original, target, [Snake(Delete, Point(0, 0), Point(1, 0), 0), Snake(Delete, Point(1, 0), Point(3, 1), 1)]) == [Edit(Delete, 0, original), Edit(Delete, 1, original), Edit(Equal, 2, original)];
    assert EqualRun(original, 3, 2) == [Edit(Equal, 3, original), Edit(Equal, 4, original)];
    assert SnakeOps(original, target, Snake(Insert, Point(3, 1), Point(5, 4), 2)) == [Edit(Insert, 1, target), Edit(Equal, 3, original), Edit(Equal, 4, original)];
    SnakeEditsSnoc(original, target, [Snake(Delete, Point(0, 0), Point(1, 0), 0), Snake(Delete, Point(1, 0), Point(3, 1), 1)], Snake(Insert, Point(3, 1), Point(5, 4), 2));
    assert [Snake(Delete, Point(0, 0), Point(1, 0), 0), Snake(Delete, Point(1, 0), Point(3, 1), 1)] + [Snake(Insert, Point(3, 1), Point(5, 4), 2)] == [Snake(Delete, Point(0, 0), Point(1, 0), 0), Snake(Delete, Point(1, 0), Point(3, 1), 1), Snake(Insert, Point(3, 1), Point(5, 4), 2)];
    assert [Edit(Delete, 0, original), Edit(Delete, 1, original), Edit(Equal, 2, original)] + [Edit(Insert, 1, target), Edit(Equal, 3, original), Edit(Equal, 4, original)] == [Edit(Delete, 0, original), Edit(Delete, 1, original), Edit(Equal, 2, original), Edit(Insert, 1, target), Edit(Equal, 3, original), Edit(Equal, 4, original)];
    assert SnakeEdits(original, target, [Snake(Delete, Point(0, 0), Point(1, 0), 0), Snake(Delete, Point(1, 0), Point(3, 1), 1), Snake(Insert, Point(3, 1), Point(5, 4), 2)]) == [Edit(Delete, 0, original), Edit(Delete, 1, original), Edit(Equal, 2, original), Edit(Insert, 1, target), Edit(Equal, 3, original), Edit(Equal, 4, original)];
    assert EqualRun(original, 6, 1) == [Edit(Equal, 6, original)];
    assert SnakeOps(original, target, Snake(Delete, Point(5, 4), Point(7, 5), 1)) == [Edit(Delete, 5, original), Edit(Equal, 6, original)];
    SnakeEditsSnoc(original, target, [Snake(Delete, Point(0, 0), Point(1, 0), 0), Snake(Delete, Point(1, 0), Point(3, 1), 1), Snake(Insert, Point(3, 1), Point(5, 4), 2)], Snake(Delete, Point(5, 4), Point(7, 5), 1));
    assert [Snake(Delete, Point(0, 0), Point(1, 0), 0), Snake(Delete, Point(1, 0), Point(3, 1), 1), Snake(Insert, Point(3, 1), Point(5, 4), 2)] + [Snake(Delete, Point(5, 4), Point(7, 5), 1)] == [Snake(Delete, Point(0, 0), Point(1, 0), 0), Snake(Delete, Point(1, 0), Point(3, 1), 1), Snake(Insert, Point(3, 1), Point(5, 4), 2), Snake(Delete, Point(5, 4), Point(7, 5), 1)];
    assert [Edit(Delete, 0, original), Edit(Delete, 1, original), Edit(Equal, 2, original), Edit(Insert, 1, target), Edit(Equal, 3, original), Edit(Equal, 4, original)] + [Edit(Delete, 5, original), Edit(Equal, 6, original)] == [Edit(Delete, 0, original), Edit(Delete, 1, original), Edit(Equal, 2, original), Edit(Insert, 1, target), Edit(Equal, 3, original), Edit(Equal, 4, original), Edit(Delete, 5, original), Edit(Equal, 6, original)];
    assert SnakeEdits(original, target, [Snake(Delete, Point(0, 0), Point(1, 0), 0), Snake(Delete, Point(1, 0), Point(3, 1), 1), Snake(Insert, Point(3, 1), Point(5, 4), 2), Snake(Delete, Point(5, 4), Point(7, 5), 1)]) == [Edit(Delete, 0, original), Edit(Delete, 1, original), Edit(Equal, 2, original), Edit(Insert, 1, target), Edit(Equal, 3, original), Edit(Equal, 4, original), Edit(Delete, 5, original), Edit(Equal, 6, original)];
    assert EqualRun(original, 7, 0) == [];
    assert SnakeOps(original, target, Snake(Insert, Point(7, 5), Point(7, 6), 0)) == [Edit(Insert, 5, target)];
    SnakeEditsSnoc(original, target, [Snake(Delete, Point(0, 0), Point(1, 0), 0), Snake(Delete, Point(1, 0), Point(3, 1), 1), Snake(Insert, Point(3, 1), Point(5, 4), 2), Snake(Delete, Point(5, 4), Point(7, 5), 1)], Snake(Insert, Point(7, 5), Point(7, 6), 0));
    assert [Snake(Delete, Point(0, 0), Point(1, 0), 0), Snake(Delete, Point(1, 0), Point(3, 1), 1), Snake(Insert, Point(3, 1), Point(5, 4), 2), Snake(Delete, Point(5, 4), Point(7, 5), 1)] + [Snake(Insert, Point(7, 5), Point(7, 6), 0)] == [Snake(Delete, Point(0, 0), Point(1, 0), 0), Snake(Delete, Point(1, 0), Point(3, 1), 1), Snake(Insert, Point(3, 1), Point(5, 4), 2), Snake(Delete, Point(5, 4), Point(7, 5), 1), Snake(Insert, Point(7, 5), Point(7, 6), 0)];
    assert [Edit(Delete, 0, original), Edit(Delete, 1, original), Edit(Equal, 2, original), Edit(Insert, 1, target), Edit(Equal, 3, original), Edit(Equal, 4, original), Edit(Delete, 5, original), Edit(Equal, 6, original)] + [Edit(Insert, 5, target)] == [Edit(Delete, 0, original), Edit(Delete, 1, original), Edit(Equal, 2, original), Edit(Insert, 1, target), Edit(Equal, 3, original), Edit(Equal, 4, original), Edit(Delete, 5, original), Edit(Equal, 6, original), Edit(Insert, 5, target)];
    assert SnakeEdits(original, target, [Snake(Delete, Point(0, 0), Point(1, 0), 0), Snake(Delete, Point(1, 0), Point(3, 1), 1), Snake(Insert, Point(3, 1), Point(5, 4), 2), Snake(Delete, Point(5, 4), Point(7, 5), 1), Snake(Insert, Point(7, 5), Point(7, 6), 0)]) == [Edit(Delete, 0, original), Edit(Delete, 1, original), Edit(Equal, 2, original), Edit(Insert, 1, target), Edit(Equal, 3, original), Edit(Equal, 4, original), Edit(Delete, 5, original), Edit(Equal, 6, original), Edit(Insert, 5, target)];
  }

  /**
   * The script of the diff test, "ABCABBA" to "CBABAC": the operations of the trace of the
   * first pass that reaches the corner.
   */
  lemma TestScript(original: Source<char>, target: Source<char>)
    requires TestSources(original.items, target.items)
    ensures forall es :: TraceScript(original, target, es) <==> es == [
      Edit(Delete, 0, original),
      Edit(Delete, 1, original),
      Edit(Equal, 2, original),
      Edit(Insert, 1, target),
      Edit(Equal, 3, original),
      Edit(Equal, 4, original),
      Edit(Delete, 5, original),
      Edit(Equal, 6, original),
      Edit(Insert, 5, target)
    ]
  {
    var a, b := original.items, target.items;
    TestTrace(a, b);
    forall d: nat | FirstCorner(a, b, d) ensures d == 5 {
      FirstCornerUnique(a, b, d, 5);
    }
    TestSnakeEdits(original, target);
  }

  /** The sources of the second script of the first merge test, "ABCABBA" to "ABCABBAD". */
  predicate AppendedSources(a: seq<char>, b: seq<char>) {
    a == "ABCABBA" && b == "ABCABBAD"
  }

  /** The frontier of pass 0 for the second script of the first merge test, "ABCABBA" to "ABCABBAD". */
  lemma AppendedPass0(a: seq<char>, b: seq<char>)
    requires AppendedSources(a, b)
    ensures Furthest(a, b, 0, 0) == 7
  {
    assert !Matches(a, b, 7, 7);
    assert Slide(a, b, 6, 6) == 1;
    assert Slide(a, b, 5, 5) == 2;
    assert Slide(a, b, 4, 4) == 3;
    assert Slide(a, b, 3, 3) == 4;
    assert Slide(a, b, 2, 2) == 5;
    assert Slide(a, b, 1, 1) == 6;
    assert Slide(a, b, 0, 0) == 7;
    FrontierFrom(a, b, 0, 0, 0, 0);
  }

  /** The frontier of pass 1 for the second script of the first merge test, "ABCABBA" to "ABCABBAD". */
  lemma AppendedPass1(a: seq<char>, b: seq<char>)
    requires AppendedSources(a, b)
    ensures Furthest(a, b, 1, -1) == 7
    ensures Furthest(a, b, 1, 1) == 8
  {
    AppendedPass0(a, b);
    assert !Matches(a, b, 7, 8);
    FrontierFrom(a, b, 1, -1, 0, 7);
    assert !Matches(a, b, 8, 7);
    FrontierFrom(a, b, 1, 1, 7, 0);
  }

  /** No pass before pass 1 reaches the corner for the second script of the first merge test, "ABCABBA" to "ABCABBAD". */
  lemma AppendedNoCornerBefore(a: seq<char>, b: seq<char>)
    requires AppendedSources(a, b)
    ensures NoSolutionBefore(a, b, 1)
  {
    AppendedPass0(a, b);
    forall e: nat, j | e < 1 && OnDiagonal(e, j)
      ensures !SolvedAt(a, b, e, j)
    {
      assert j == 0;
    }
  }

  /** The snakes backtracking collects from the corner for the second script of the first merge test, "ABCABBA" to "ABCABBAD", in order. */
  lemma AppendedTrace(a: seq<char>, b: seq<char>)
    requires AppendedSources(a, b)
    ensures FirstCorner(a, b, 1)
    ensures Trace(a, b, 1, -1) == [
      Snake(Equal, Point(0, -1), Point(7, 7), 7),
      Snake(Insert, Point(7, 7), Point(7, 8), 0)
    ]
  {
    AppendedNoCornerBefore(a, b);
    AppendedPass0(a, b);
    AppendedPass1(a, b);
    assert !Matches(a, b, 7, 7);
    assert Slide(a, b, 6, 6) == 1;
    assert Slide(a, b, 5, 5) == 2;
    assert Slide(a, b, 4, 4) == 3;
    assert Slide(a, b, 3, 3) == 4;
    assert Slide(a, b, 2, 2) == 5;
    assert Slide(a, b, 1, 1) == 6;
    assert Slide(a, b, 0, 0) == 7;
    SnakeFrom(a, b, 0, 0, 0, 0);
    TraceAlone(a, b, 0, 0, Snake(Equal, Point(0, -1), Point(7, 7), 7));
    assert Trace(a, b, 0, 0) == [Snake(Equal, Point(0, -1), Point(7, 7), 7)];
    assert !Matches(a, b, 7, 8);
    SnakeFrom(a, b, 1, -1, 0, 7);
    TraceGoesOn(a, b, 1, -1, Snake(Insert, Point(7, 7), Point(7, 8), 0));
    assert Trace(a, b, 1, -1) == [Snake(Equal, Point(0, -1), Point(7, 7), 7), Snake(Insert, Point(7, 7), Point(7, 8), 0)];
  }

  /** The operations of the snakes of the second script of the first merge test, "ABCABBA" to "ABCABBAD". */
  lemma AppendedSnakeEdits(original: Source<char>, target: Source<char>)
    ensures SnakeEdits(original, target, [Snake(Equal, Point(0, -1), Point(7, 7), 7), Snake(Insert, Point(7, 7), Point(7, 8), 0)]) ==
      [Edit(Equal, 0, original), Edit(Equal, 1, original), Edit(Equal, 2, original), Edit(Equal, 3, original), Edit(Equal, 4, original), Edit(Equal, 5, original), Edit(Equal, 6, original), Edit(Insert, 7, target)]
  {
    assert EqualRun(original, 0, 7) == [Edit(Equal, 0, original), Edit(Equal, 1, original), Edit(Equal, 2, original), Edit(Equal, 3, original), Edit(Equal, 4, original), Edit(Equal, 5, original), Edit(Equal, 6, original)];
    assert SnakeOps(original, target, Snake(Equal, Point(0, -1), Point(7, 7), 7)) == [Edit(Equal, 0, original), Edit(Equal, 1, original), Edit(Equal, 2, original), Edit(Equal, 3, original), Edit(Equal, 4, original), Edit(Equal, 5, original), Edit(Equal, 6, original)];
    SnakeEditsSnoc(original, target, [], Snake(Equal, Point(0, -1), Point(7, 7), 7));
    assert SnakeEdits(original, target, [Snake(Equal, Point(0, -1), Point(7, 7), 7)]) == [Edit(Equal, 0, original), Edit(Equal, 1, original), Edit(Equal, 2, original), Edit(Equal, 3, original), Edit(Equal, 4, original), Edit(Equal, 5, original), Edit(Equal, 6, original)];
    assert EqualRun(original, 7, 0) == [];
    assert SnakeOps(original, target, Snake(Insert, Point(7, 7), Point(7, 8), 0)) == [Edit(Insert, 7, target)];
    SnakeEditsSnoc(original, target, [Snake(Equal, Point(0, -1), Point(7, 7), 7)], Snake(Insert, Point(7, 7), Point(7, 8), 0));
    assert [Snake(Equal, Point(0, -1), Point(7, 7), 7)] + [Snake(Insert, Point(7, 7), Point(7, 8), 0)] == [Snake(Equal, Point(0, -1), Point(7, 7), 7), Snake(Insert, Point(7, 7), Point(7, 8), 0)];
    assert [Edit(Equal, 0, original), Edit(Equal, 1, original), Edit(Equal, 2, original), Edit(Equal, 3, original), Edit(Equal, 4, original), Edit(Equal, 5, original), Edit(Equal, 6, original)] + [Edit(Insert, 7, target)] == [Edit(Equal, 0, original), Edit(Equal, 1, original), Edit(Equal, 2, original), Edit(Equal, 3, original), Edit(Equal, 4, original), Edit(Equal, 5, original), Edit(Equal, 6, original), Edit(Insert, 7, target)];
    assert SnakeEdits(original, target, [Snake(Equal, Point(0, -1), Point(7, 7), 7), Snake(Insert, Point(7, 7), Point(7, 8), 0)]) == [Edit(Equal, 0, original), Edit(Equal, 1, original), Edit(Equal, 2, original), Edit(Equal, 3, original), Edit(Equal, 4, original), Edit(Equal, 5, original), Edit(Equal, 6, original), Edit(Insert, 7, target)];
  }

  /**
   * The script of the second script of the first merge test, "ABCABBA" to "ABCABBAD": the operations of the trace of the
   * first pass that reaches the corner.
   */
  lemma AppendedScript(original: Source<char>, target: Source<char>)
    requires AppendedSources(original.items, target.items)
    ensures forall es :: TraceScript(original, target, es) <==> es == [
      Edit(Equal, 0, original),
      Edit(Equal, 1, original),
      Edit(Equal, 2, original),
      Edit(Equal, 3, original),
      Edit(Equal, 4, original),
      Edit(Equal, 5, original),
      Edit(Equal, 6, original),
      Edit(Insert, 7, target)
    ]
  {
    var a, b := original.items, target.items;
    AppendedTrace(a, b);
    forall d: nat | FirstCorner(a, b, d) ensures d == 1 {
      FirstCornerUnique(a, b, d, 1);
    }
    AppendedSnakeEdits(original, target);
  }

  /**
   * The sources of the second merge test: "ABC" to "AB" followed by a
   * letter that is not in "ABC" (the test uses "ABD" and "ABR").
   */
  predicate ChangedLastSources(a: seq<char>, b: seq<char>) {
    a == "ABC" && |b| == 3 && b[0] == 'A' && b[1] == 'B' && b[2] !in "ABC"
  }

  /** The frontier of pass 0 for the scripts of the second merge test, "ABC" to "AB" and a new last letter. */
  lemma ChangedLastPass0(a: seq<char>, b: seq<char>)
    requires ChangedLastSources(a, b)
    ensures Furthest(a, b, 0, 0) == 2
  {
    assert !Matches(a, b, 2, 2);
    assert Slide(a, b, 1, 1) == 1;
    assert Slide(a, b, 0, 0) == 2;
    FrontierFrom(a, b, 0, 0, 0, 0);
  }

  /** The frontier of pass 1 for the scripts of the second merge test, "ABC" to "AB" and a new last letter. */
  lemma ChangedLastPass1(a: seq<char>, b: seq<char>)
    requires ChangedLastSources(a, b)
    ensures Furthest(a, b, 1, -1) == 2
    ensures Furthest(a, b, 1, 1) == 3
  {
    ChangedLastPass0(a, b);
    assert !Matches(a, b, 2, 3);
    FrontierFrom(a, b, 1, -1, 0, 2);
    assert !Matches(a, b, 3, 2);
    FrontierFrom(a, b, 1, 1, 2, 0);
  }

  /** The frontier of pass 2 for the scripts of the second merge test, "ABC" to "AB" and a new last letter. */
  lemma ChangedLastPass2(a: seq<char>, b: seq<char>)
    requires ChangedLastSources(a, b)
    ensures Furthest(a, b, 2, -2) == 2
    ensures Furthest(a, b, 2, 0) == 3
    ensures Furthest(a, b, 2, 2) == 4
  {
    ChangedLastPass1(a, b);
    assert !Matches(a, b, 2, 4);
    FrontierFrom(a, b, 2, -2, 0, 2);
    assert !Matches(a, b, 3, 3);
    FrontierFrom(a, b, 2, 0, 2, 3);
    assert !Matches(a, b, 4, 2);
    FrontierFrom(a, b, 2, 2, 3, 0);
  }

  /** No pass before pass 2 reaches the corner for the scripts of the second merge test, "ABC" to "AB" and a new last letter. */
  lemma ChangedLastNoCornerBefore(a: seq<char>, b: seq<char>)
    requires ChangedLastSources(a, b)
    ensures NoSolutionBefore(a, b, 2)
  {
    ChangedLastPass0(a, b);
    ChangedLastPass1(a, b);
    forall e: nat, j | e < 2 && OnDiagonal(e, j)
      ensures !SolvedAt(a, b, e, j)
    {
      if e == 0 {
        assert j == 0;
      } else {
        assert j == -1 || j == 1;
      }
    }
  }

  /** The snakes backtracking collects from the corner for the scripts of the second merge test, "ABC" to "AB" and a new last letter, in order. */
  lemma ChangedLastTrace(a: seq<char>, b: seq<char>)
    requires ChangedLastSources(a, b)
    ensures FirstCorner(a, b, 2)
    ensures Trace(a, b, 2, 0) == [
      Snake(Equal, Point(0, -1), Point(2, 2), 2),
      Snake(Delete, Point(2, 2), Point(3, 2), 0),
      Snake(Insert, Point(3, 2), Point(3, 3), 0)
    ]
  {
    ChangedLastNoCornerBefore(a, b);
    ChangedLastPass0(a, b);
    ChangedLastPass1(a, b);
    ChangedLastPass2(a, b);
    assert !Matches(a, b, 2, 2);
    assert Slide(a, b, 1, 1) == 1;
    assert Slide(a, b, 0, 0) == 2;
    SnakeFrom(a, b, 0, 0, 0, 0);
    TraceAlone(a, b, 0, 0, Snake(Equal, Point(0, -1), Point(2, 2), 2));
    assert Trace(a, b, 0, 0) == [Snake(Equal, Point(0, -1), Point(2, 2), 2)];
    assert !Matches(a, b, 3, 2);
    SnakeFrom(a, b, 1, 1, 2, 0);
    TraceGoesOn(a, b, 1, 1, Snake(Delete, Point(2, 2), Point(3, 2), 0));
    assert Trace(a, b, 1, 1) == [Snake(Equal, Point(0, -1), Point(2, 2), 2), Snake(Delete, Point(2, 2), Point(3, 2), 0)];
    assert !Matches(a, b, 3, 3);
    SnakeFrom(a, b, 2, 0, 2, 3);
    TraceGoesOn(a, b, 2, 0, Snake(Insert, Point(3, 2), Point(3, 3), 0));
    assert Trace(a, b, 2, 0) == [Snake(Equal, Point(0, -1), Point(2, 2), 2), Snake(Delete, Point(2, 2), Point(3, 2), 0), Snake(Insert, Point(3, 2), Point(3, 3), 0)];
  }

  /** The operations of the snakes of the scripts of the second merge test, "ABC" to "AB" and a new last letter. */
  lemma ChangedLastSnakeEdits(original: Source<char>, target: Source<char>)
    ensures SnakeEdits(original, target, [Snake(Equal, Point(0, -1), Point(2, 2), 2), Snake(Delete, Point(2, 2), Point(3, 2), 0), Snake(Insert, Point(3, 2), Point(3, 3), 0)]) ==
      [Edit(Equal, 0, original), Edit(Equal, 1, original), Edit(Delete, 2, original), Edit(Insert, 2, target)]
  {
    assert EqualRun(original, 0, 2) == [Edit(Equal, 0, original), Edit(Equal, 1, original)];
    assert SnakeOps(original, target, Snake(Equal, Point(0, -1), Point(2, 2), 2)) == [Edit(Equal, 0, original), Edit(Equal, 1, original)];
    SnakeEditsSnoc(original, target, [], Snake(Equal, Point(0, -1), Point(2, 2), 2));
    assert SnakeEdits(original, target, [Snake(Equal, Point(0, -1), Point(2, 2), 2)]) == [Edit(Equal, 0, original), Edit(Equal, 1, original)];
    assert EqualRun(original, 3, 0) == [];
    assert SnakeOps(original, target, Snake(Delete, Point(2, 2), Point(3, 2), 0)) == [Edit(Delete, 2, original)];
    SnakeEditsSnoc(original, target, [Snake(Equal, Point(0, -1), Point(2, 2), 2)], Snake(Delete, Point(2, 2), Point(3, 2), 0));
    assert [Snake(Equal, Point(0, -1), Point(2, 2), 2)] + [Snake(Delete, Point(2, 2), Point(3, 2), 0)] == [Snake(Equal, Point(0, -1), Point(2, 2), 2), Snake(Delete, Point(2, 2), Point(3, 2), 0)];
    assert [Edit(Equal, 0, original), Edit(Equal, 1, original)] + [Edit(Delete, 2, original)] == [Edit(Equal, 0, original), Edit(Equal, 1, original), Edit(Delete, 2, original)];
    assert SnakeEdits(original, target, [Snake(Equal, Point(0, -1), Point(2, 2), 2), Snake(Delete, Point(2, 2), Point(3, 2), 0)]) == [Edit(Equal, 0, original), Edit(Equal, 1, original), Edit(Delete, 2, original)];
    assert EqualRun(original, 3, 0) == [];
    assert SnakeOps(original, target, Snake(Insert, Point(3, 2), Point(3, 3), 0)) == [Edit(Insert, 2, target)];
    SnakeEditsSnoc(original, target, [Snake(Equal, Point(0, -1), Point(2, 2), 2), Snake(Delete, Point(2, 2), Point(3, 2), 0)], Snake(Insert, Point(3, 2), Point(3, 3), 0));
    assert [Snake(Equal, Point(0, -1), Point(2, 2), 2), Snake(Delete, Point(2, 2), Point(3, 2), 0)] + [Snake(Insert, Point(3, 2), Point(3, 3), 0)] == [Snake(Equal, Point(0, -1), Point(2, 2), 2), Snake(Delete, Point(2, 2), Point(3, 2), 0), Snake(Insert, Point(3, 2), Point(3, 3), 0)];
    assert [Edit(Equal, 0, original), Edit(Equal, 1, original), Edit(Delete, 2, original)] + [Edit(Insert, 2, target)] == [Edit(Equal, 0, original), Edit(Equal, 1, original), Edit(Delete, 2, original), Edit(Insert, 2, target)];
    assert SnakeEdits(original, target, [Snake(Equal, Point(0, -1), Point(2, 2), 2), Snake(Delete, Point(2, 2), Point(3, 2), 0), Snake(Insert, Point(3, 2), Point(3, 3), 0)]) == [Edit(Equal, 0, original), Edit(Equal, 1, original), Edit(Delete, 2, original), Edit(Insert, 2, target)];
  }

  /**
   * The script for the second merge test, "ABC" to "AB" and a new last letter: the operations of the trace of the
   * first pass that reaches the corner.
   */
  lemma ChangedLastScript(original: Source<char>, target: Source<char>)
    requires ChangedLastSources(original.items, target.items)
    ensures forall es :: TraceScript(original, target, es) <==> es == [
      Edit(Equal, 0, original),
      Edit(Equal, 1, original),
      Edit(Delete, 2, original),
      Edit(Insert, 2, target)
    ]
  {
    var a, b := original.items, target.items;
    ChangedLastTrace(a, b);
    forall d: nat | FirstCorner(a, b, d) ensures d == 2 {
      FirstCornerUnique(a, b, d, 2);
    }
    ChangedLastSnakeEdits(original, target);
  }

  /**
   * Frontier points may lie below the target: for "AB" against the empty
   * target, no pass before pass 2 reaches the corner, and pass 1's point on
   * diagonal -1, which the array kept for pass 2 holds, has y = 1 > 0.
   */
  lemma FrontierBelowTarget(a: seq<char>, b: seq<char>)
    requires a == "AB" && b == ""
    ensures NoSolutionBefore(a, b, 2)
    ensures FrontierPoint(Furthest(a, b, 1, -1), -1) == Point(0, 1) && 1 > |b|
  {
    FrontierFrom(a, b, 0, 0, 0, 0);
    FrontierFrom(a, b, 1, -1, 0, 0);
    FrontierFrom(a, b, 1, 1, 0, 0);
    assert Furthest(a, b, 1, 1) == 1;
    forall e: nat, j | e < 2 && OnDiagonal(e, j)
      ensures !SolvedAt(a, b, e, j)
    {
      if e == 0 {
        assert j == 0;
      } else {
        assert j == -1 || j == 1;
      }
    }
  }

  /**
   * Two one-element sources with different elements: they share no
   * element, so GetDiff throws NoDiffSolution, although deleting the one
   * element and inserting the other is a script with two edits.
   */
  lemma DisjointSourcesFail(original: Source<char>, target: Source<char>)
    requires original.items == "A" && target.items == "B"
    ensures !ShareElement(original.items, target.items)
    ensures 1 <= |original.items| + |target.items|
    ensures Transforms(original, target, DeleteAll(original) + InsertAll(target), 1, 1, 2)
  {
    ReplaceAllMeaning(original, target);
  }

  /**
   * Two empty sources: GetDiff fails on its first store, although the
   * empty script is a shortest script between them.
   */
  lemma EmptySourcesFail<T>(original: Source<T>, target: Source<T>)
    requires original.items == [] && target.items == []
    ensures |original.items| + |target.items| == 0
    ensures ShortestScript(original, target, [])
  {
    assert Range(0, 0) == [];
  }

  /** The kinds of the edits of a script, in order. */
  function EditKinds<T>(es: seq<Edit<T>>): seq<OperationKind> {
    seq(|es|, i requires 0 <= i < |es| => es[i].kind)
  }

  /** The kinds of a list of operations are the kinds of its edits. */
  lemma KindsOfEdits<T>(ops: seq<Operation<T>>)
    ensures Kinds(ops) == EditKinds(Edits(ops))
  {
  }

  /** The kinds of the diff test's script. */
  lemma TestScriptKinds(original: Source<char>, target: Source<char>, es: seq<Edit<char>>)
    requires TestSources(original.items, target.items) && TraceScript(original, target, es)
    ensures EditKinds(es) == [Delete, Delete, Equal, Insert, Equal, Equal, Delete, Equal, Insert]
  {
    TestScript(original, target);
  }

  /** The kinds of the script for "ABCABBA" to "ABCABBAD". */
  lemma AppendedScriptKinds(original: Source<char>, target: Source<char>, es: seq<Edit<char>>)
    requires AppendedSources(original.items, target.items) && TraceScript(original, target, es)
    ensures EditKinds(es) == [Equal, Equal, Equal, Equal, Equal, Equal, Equal, Insert]
  {
    AppendedScript(original, target);
  }

  /** The kinds of the script for "ABC" to "AB" and a new last letter. */
  lemma ChangedLastScriptKinds(original: Source<char>, target: Source<char>, es: seq<Edit<char>>)
    requires ChangedLastSources(original.items, target.items) && TraceScript(original, target, es)
    ensures EditKinds(es) == [Equal, Equal, Delete, Insert]
  {
    ChangedLastScript(original, target);
  }

  /**
   * The first merge test diffs "ABCABBA" against "CBABAC" and against
   * "ABCABBAD": the operations GetDiff returns for those have the kinds
   * MergeTestExample assumes.
   */
  lemma MergeTestFromDiffs(original: Source<char>, target1: Source<char>, target2: Source<char>,
                           ops1: seq<Operation<char>>, ops2: seq<Operation<char>>)
    requires TestSources(original.items, target1.items) && AppendedSources(original.items, target2.items)
    requires TraceScript(original, target1, Edits(ops1)) && TraceScript(original, target2, Edits(ops2))
    ensures MergeTestScripts(ops1, ops2)
  {
    TestScriptKinds(original, target1, Edits(ops1));
    AppendedScriptKinds(original, target2, Edits(ops2));
    KindsOfEdits(ops1);
    KindsOfEdits(ops2);
  }

  /**
   * The second merge test diffs "ABC" against "ABD" and against "ABR": the
   * operations GetDiff returns for those have the kinds ExampleScripts
   * describes.
   */
  lemma AcceptFirstTestFromDiffs(original: Source<char>, target1: Source<char>, target2: Source<char>,
                                 ops1: seq<Operation<char>>, ops2: seq<Operation<char>>)
    requires ChangedLastSources(original.items, target1.items) && ChangedLastSources(original.items, target2.items)
    requires TraceScript(original, target1, Edits(ops1)) && TraceScript(original, target2, Edits(ops2))
    ensures ExampleScripts(ops1, ops2)
  {
    ChangedLastScriptKinds(original, target1, Edits(ops1));
    ChangedLastScriptKinds(original, target2, Edits(ops2));
    KindsOfEdits(ops1);
    KindsOfEdits(ops2);
    assert Kinds(ops1) == Kinds(ops2) == [Equal, Equal, Delete, Insert];
  }
}
