/**
 * The merge engine: it lines up two operation lists (two edit scripts from
 * the same original) position by position and builds the final list. At a
 * position only one list reaches, that list's operation is taken. Where
 * both reach and the kinds differ, the operation of the larger kind value
 * wins (Insert over Delete over Equal over Unknown). Where the kinds are
 * equal the two operations conflict: the strategy for that kind decides
 * which of them are taken, and both are flagged (or unflagged) as a
 * conflict as the strategy says.
 */
module MergeEngines {
  import opened Operations
  import opened ResolveStrategies

  /** The strategies of an engine as a value: one per kind that has an entry, and the fallback for the others. */
  datatype StrategyTable = StrategyTable(entries: map<OperationKind, ResolveStrategy>, fallback: ResolveStrategy)
  {
    /** The strategy for conflicts between operations of the given kind. */
    function For(kind: OperationKind): ResolveStrategy {
      if kind !in entries then fallback else entries[kind]
    }
  }

  function Max(x: int, y: int): int {
    if x >= y then x else y
  }

  /** Whether position i holds operations of the same kind in both lists, resolved by the given action. */
  predicate Resolves<T>(ops1: seq<Operation<T>>, ops2: seq<Operation<T>>, table: StrategyTable, i: int, action: ResolveStrategyAction) {
    0 <= i < |ops1| && i < |ops2| && ops1[i].kind == ops2[i].kind && table.For(ops1[i].kind).action == action
  }

  /** The operations position i contributes to the merge, as the engine decides them. */
  function Contribution<T>(ops1: seq<Operation<T>>, ops2: seq<Operation<T>>, table: StrategyTable, i: nat): seq<Operation<T>>
    requires i < |ops1| || i < |ops2|
  {
    if i >= |ops1| then [ops2[i]]
    else if i >= |ops2| then [ops1[i]]
    else if ops1[i].kind != ops2[i].kind then
      [if ops1[i].kind.Value() > ops2[i].kind.Value() then ops1[i] else ops2[i]]
    else Resolve(table.For(ops1[i].kind).action, ops1[i], ops2[i])
  }

  /**
   * Whether the operation of the first list at position i is taken: it is
   * alone there, or it has the larger kind, or it has the same kind as the
   * other one and the strategy for that kind accepts the first side.
   */
  predicate TakesFirst<T>(ops1: seq<Operation<T>>, ops2: seq<Operation<T>>, table: StrategyTable, i: nat) {
    i < |ops1| &&
    (i >= |ops2| ||
     ops1[i].kind.Value() > ops2[i].kind.Value() ||
     (ops1[i].kind == ops2[i].kind && table.For(ops1[i].kind).action.AcceptsFirst()))
  }

  /** Whether the operation of the second list at position i is taken; the mirror image of TakesFirst. */
  predicate TakesSecond<T>(ops1: seq<Operation<T>>, ops2: seq<Operation<T>>, table: StrategyTable, i: nat) {
    i < |ops2| &&
    (i >= |ops1| ||
     ops2[i].kind.Value() > ops1[i].kind.Value() ||
     (ops1[i].kind == ops2[i].kind && table.For(ops1[i].kind).action.AcceptsSecond()))
  }

  /**
   * Position by position, the merge is the decision table of the two sides:
   * the first side's operation if it is taken, then the second side's if it
   * is taken. Of two operations of different kinds exactly one is taken;
   * two is the most a position contributes, and it contributes two exactly
   * for a conflict resolved by AcceptAll and none exactly for one resolved
   * by Ignore.
   */
  lemma ContributionBySide<T>(ops1: seq<Operation<T>>, ops2: seq<Operation<T>>, table: StrategyTable, i: nat)
    requires i < |ops1| || i < |ops2|
    ensures Contribution(ops1, ops2, table, i) ==
      (if TakesFirst(ops1, ops2, table, i) then [ops1[i]] else []) +
      (if TakesSecond(ops1, ops2, table, i) then [ops2[i]] else [])
    ensures i < |ops1| && i < |ops2| && ops1[i].kind != ops2[i].kind ==>
      TakesFirst(ops1, ops2, table, i) != TakesSecond(ops1, ops2, table, i)
    ensures |Contribution(ops1, ops2, table, i)| <= 2
    ensures |Contribution(ops1, ops2, table, i)| == 2 <==> Resolves(ops1, ops2, table, i, AcceptAll)
    ensures |Contribution(ops1, ops2, table, i)| == 0 <==> Resolves(ops1, ops2, table, i, Ignore)
  {
    if i < |ops1| && i < |ops2| && ops1[i].kind != ops2[i].kind {
      KindValueInjective(ops1[i].kind, ops2[i].kind);
    }
  }

  /** Different kinds have different values, so the priority between two different kinds is strict. */
  lemma KindValueInjective(k1: OperationKind, k2: OperationKind)
    requires k1 != k2
    ensures k1.Value() != k2.Value()
  {
  }

  /** The merge of positions 0, ..., n - 1, in position order. */
  function MergedUpTo<T>(ops1: seq<Operation<T>>, ops2: seq<Operation<T>>, table: StrategyTable, n: nat): seq<Operation<T>>
    requires n <= Max(|ops1|, |ops2|)
  {
    if n == 0 then [] else MergedUpTo(ops1, ops2, table, n - 1) + Contribution(ops1, ops2, table, n - 1)
  }

  /** The merge of two non-empty operation lists: every position of the longer one, in order. */
  function Merged<T>(ops1: seq<Operation<T>>, ops2: seq<Operation<T>>, table: StrategyTable): seq<Operation<T>> {
    MergedUpTo(ops1, ops2, table, Max(|ops1|, |ops2|))
  }

  /** Every operation of the merge comes from one of the two lists. */
  lemma {:induction false} MergedFromInputs<T>(ops1: seq<Operation<T>>, ops2: seq<Operation<T>>, table: StrategyTable, n: nat)
    requires n <= Max(|ops1|, |ops2|)
    ensures forall op :: op in MergedUpTo(ops1, ops2, table, n) ==> op in ops1 || op in ops2
  {
    if n > 0 {
      MergedFromInputs(ops1, ops2, table, n - 1);
      ContributionBySide(ops1, ops2, table, n - 1);
    }
  }

  /** Whether each of the first n positions contributes one operation: none holds a conflict resolved by AcceptAll or Ignore. */
  predicate OneEach<T>(ops1: seq<Operation<T>>, ops2: seq<Operation<T>>, table: StrategyTable, n: int) {
    forall i :: 0 <= i < n ==> !Resolves(ops1, ops2, table, i, AcceptAll) && !Resolves(ops1, ops2, table, i, Ignore)
  }

  /**
   * The merge of n positions is at most twice as long as n, and exactly as
   * long when each position contributes one operation.
   */
  lemma {:induction false} MergedLength<T>(ops1: seq<Operation<T>>, ops2: seq<Operation<T>>, table: StrategyTable, n: nat)
    requires n <= Max(|ops1|, |ops2|)
    ensures |MergedUpTo(ops1, ops2, table, n)| <= 2 * n
    ensures OneEach(ops1, ops2, table, n) ==> |MergedUpTo(ops1, ops2, table, n)| == n
  {
    if n > 0 {
      MergedLength(ops1, ops2, table, n - 1);
      ContributionBySide(ops1, ops2, table, n - 1);
      assert |MergedUpTo(ops1, ops2, table, n)| ==
        |MergedUpTo(ops1, ops2, table, n - 1)| + |Contribution(ops1, ops2, table, n - 1)|;
    }
  }

  /** The action with the two sides exchanged. */
  function SwapSides(action: ResolveStrategyAction): (swapped: ResolveStrategyAction)
    ensures swapped.AcceptsFirst() == action.AcceptsSecond() && swapped.AcceptsSecond() == action.AcceptsFirst()
  {
    match action
    case AcceptFirst => AcceptSecond
    case AcceptSecond => AcceptFirst
    case other => other
  }

  /** Whether every strategy of mirror takes the opposite side of the strategy of table for the same kind. */
  predicate Mirrors(table: StrategyTable, mirror: StrategyTable) {
    forall kind :: mirror.For(kind).action == SwapSides(table.For(kind).action)
  }

  /**
   * The merge does not depend on which list comes first: exchanging the
   * lists and the sides of every strategy gives the same merge, as long as
   * no conflict is resolved by AcceptAll (which takes the first side's
   * operation before the second's).
   */
  lemma {:induction false} MergeSymmetric<T>(ops1: seq<Operation<T>>, ops2: seq<Operation<T>>, table: StrategyTable,
                                             mirror: StrategyTable, n: nat)
    requires n <= Max(|ops1|, |ops2|) && Mirrors(table, mirror)
    requires forall i :: 0 <= i < n ==> !Resolves(ops1, ops2, table, i, AcceptAll)
    ensures MergedUpTo(ops1, ops2, table, n) == MergedUpTo(ops2, ops1, mirror, n)
    decreases n
  {
    if n > 0 {
      MergeSymmetric(ops1, ops2, table, mirror, n - 1);
      ContributionSymmetric(ops1, ops2, table, mirror, n - 1);
      AppendEqual(MergedUpTo(ops1, ops2, table, n - 1), MergedUpTo(ops2, ops1, mirror, n - 1),
                  Contribution(ops1, ops2, table, n - 1), Contribution(ops2, ops1, mirror, n - 1));
    }
  }

  /** One position of MergeSymmetric. */
  lemma ContributionSymmetric<T>(ops1: seq<Operation<T>>, ops2: seq<Operation<T>>, table: StrategyTable,
                                 mirror: StrategyTable, i: nat)
    requires i < |ops1| || i < |ops2|
    requires Mirrors(table, mirror) && !Resolves(ops1, ops2, table, i, AcceptAll)
    ensures Contribution(ops1, ops2, table, i) == Contribution(ops2, ops1, mirror, i)
  {
    ContributionBySide(ops1, ops2, table, i);
    ContributionBySide(ops2, ops1, mirror, i);
    if i < |ops1| && i < |ops2| {
      assert mirror.For(ops2[i].kind).action == SwapSides(table.For(ops2[i].kind).action);
    }
    assert TakesFirst(ops1, ops2, table, i) == TakesSecond(ops2, ops1, mirror, i);
    assert TakesSecond(ops1, ops2, table, i) == TakesFirst(ops2, ops1, mirror, i);
  }

  /**
   * Merging a list with an empty one gives the list, on either side: the
   * early return of the engine agrees with what its loop would build.
   */
  lemma {:induction false} MergeWithEmpty<T>(ops: seq<Operation<T>>, table: StrategyTable, n: nat)
    requires n <= |ops|
    ensures MergedUpTo(ops, [], table, n) == ops[..n]
    ensures MergedUpTo([], ops, table, n) == ops[..n]
  {
    if n > 0 {
      MergeWithEmpty(ops, table, n - 1);
      SliceSnoc(ops, n);
    }
  }

  /**
   * Merging a list with itself gives the list back when every conflict it
   * meets is resolved by taking one side: each position holds the same
   * operation twice, and one copy is taken.
   */
  lemma {:induction false} MergeWithItself<T>(ops: seq<Operation<T>>, table: StrategyTable, n: nat)
    requires n <= |ops|
    requires forall i :: 0 <= i < |ops| ==> table.For(ops[i].kind).action in {AcceptFirst, AcceptSecond}
    ensures MergedUpTo(ops, ops, table, n) == ops[..n]
  {
    if n > 0 {
      MergeWithItself(ops, table, n - 1);
      SliceSnoc(ops, n);
    }
  }

  /** Equal sequences followed by equal sequences are equal. */
  lemma AppendEqual<X>(xs: seq<X>, ys: seq<X>, xs': seq<X>, ys': seq<X>)
    requires xs == ys && xs' == ys'
    ensures xs + xs' == ys + ys'
  {
  }

  /** A prefix of a sequence is the prefix one shorter and its last element. */
  lemma SliceSnoc<X>(s: seq<X>, n: nat)
    requires 0 < n <= |s|
    ensures s[..n] == s[..n - 1] + [s[n - 1]]
  {
  }

  /**
   * The kinds of the scripts of the first merge test: "ABCABBA" to "CBABAC"
   * (Delete, Delete, Equal, Insert, Equal, Equal, Delete, Equal, Insert) and
   * "ABCABBA" to "ABCABBAD" (seven Equals, then an Insert).
   */
  predicate MergeTestScripts<T>(ops1: seq<Operation<T>>, ops2: seq<Operation<T>>) {
    Kinds(ops1) == [Delete, Delete, Equal, Insert, Equal, Equal, Delete, Equal, Insert] &&
    Kinds(ops2) == [Equal, Equal, Equal, Equal, Equal, Equal, Equal, Insert]
  }

  /**
   * In the first merge test, with AcceptFirst for every conflict, the merge
   * takes the first script except at position 7, where the second script's
   * Insert outranks the first script's Equal.
   */
  lemma MergeTestExample<T>(ops1: seq<Operation<T>>, ops2: seq<Operation<T>>)
    requires MergeTestScripts(ops1, ops2)
    ensures Merged(ops1, ops2, StrategyTable(map[], ResolveStrategy(AcceptFirst, false))) ==
      ops1[..7] + [ops2[7], ops1[8]]
  {
    var table := StrategyTable(map[], ResolveStrategy(AcceptFirst, false));
    assert |ops1| == |Kinds(ops1)| == 9 && |ops2| == |Kinds(ops2)| == 8;
    forall i | 0 <= i < 9
      ensures Contribution(ops1, ops2, table, i) == [if i == 7 then ops2[7] else ops1[i]]
    {
      assert ops1[i].kind == Kinds(ops1)[i];
      if i < 8 {
        assert ops2[i].kind == Kinds(ops2)[i];
      }
    }
    MergedPrefixes(ops1, ops2);
  }

  /** The prefixes of the merge in the first merge test, one position at a time. */
  lemma MergedPrefixes<T>(ops1: seq<Operation<T>>, ops2: seq<Operation<T>>)
    requires |ops1| == 9 && |ops2| == 8
    requires forall i :: 0 <= i < 9 ==>
      Contribution(ops1, ops2, StrategyTable(map[], ResolveStrategy(AcceptFirst, false)), i) == [if i == 7 then ops2[7] else ops1[i]]
    ensures MergedUpTo(ops1, ops2, StrategyTable(map[], ResolveStrategy(AcceptFirst, false)), 9) == ops1[..7] + [ops2[7], ops1[8]]
  {
    var table := StrategyTable(map[], ResolveStrategy(AcceptFirst, false));
    forall n | 0 <= n <= 7
      ensures MergedUpTo(ops1, ops2, table, n) == ops1[..n]
    {
      MergedFirstPrefix(ops1, ops2, table, n);
    }
    assert MergedUpTo(ops1, ops2, table, 8) == ops1[..7] + [ops2[7]];
  }

  /** Where every position below n contributes its first operation, the merge of those positions is the first list's prefix. */
  lemma {:induction false} MergedFirstPrefix<T>(ops1: seq<Operation<T>>, ops2: seq<Operation<T>>, table: StrategyTable, n: nat)
    requires n <= |ops1| && n <= Max(|ops1|, |ops2|)
    requires forall i :: 0 <= i < n ==> Contribution(ops1, ops2, table, i) == [ops1[i]]
    ensures MergedUpTo(ops1, ops2, table, n) == ops1[..n]
  {
    if n > 0 {
      MergedFirstPrefix(ops1, ops2, table, n - 1);
      SliceSnoc(ops1, n);
    }
  }

  /**
   * The scripts of the second merge test, from "ABC" to "ABD" and to
   * "ABR": both are Equal, Equal, Delete, Insert.
   */
  predicate ExampleScripts<T>(ops1: seq<Operation<T>>, ops2: seq<Operation<T>>) {
    |ops1| == 4 && |ops2| == 4 &&
    ops1[0].kind == ops2[0].kind == Equal && ops1[1].kind == ops2[1].kind == Equal &&
    ops1[2].kind == ops2[2].kind == Delete && ops1[3].kind == ops2[3].kind == Insert
  }

  /** The strategies of the second merge test: AcceptFirst throughout, flagged except for Equal and Delete. */
  function ExampleTable(): StrategyTable {
    StrategyTable(map[Equal := ResolveStrategy(AcceptFirst, false), Delete := ResolveStrategy(AcceptFirst, false)],
                  ResolveStrategy(AcceptFirst, true))
  }

  /** The strategy the test's table gives each kind: only Insert conflicts are flagged. */
  lemma ExampleTableLookups()
    ensures ExampleTable().For(Equal) == ResolveStrategy(AcceptFirst, false)
    ensures ExampleTable().For(Delete) == ResolveStrategy(AcceptFirst, false)
    ensures ExampleTable().For(Insert) == ResolveStrategy(AcceptFirst, true)
  {
    var entries := map[Equal := ResolveStrategy(AcceptFirst, false), Delete := ResolveStrategy(AcceptFirst, false)];
    assert ExampleTable().entries == entries;
    assert Equal in entries && entries[Equal] == ResolveStrategy(AcceptFirst, false);
    assert Delete in entries && entries[Delete] == ResolveStrategy(AcceptFirst, false);
    assert Insert !in entries;
  }

  /**
   * Two lists of the same length with the same kind at every position, each
   * kind resolved by AcceptFirst: the merge is the first list, and every
   * operation of both lists is in a conflict pair, so the merge sets its
   * flag to the strategy's mark.
   */
  lemma AcceptFirstThroughout<T>(ops1: seq<Operation<T>>, ops2: seq<Operation<T>>, table: StrategyTable)
    requires |ops1| == |ops2|
    requires forall i :: 0 <= i < |ops1| ==> ops1[i].kind == ops2[i].kind && table.For(ops1[i].kind).action == AcceptFirst
    ensures Merged(ops1, ops2, table) == ops1
    ensures forall i :: 0 <= i < |ops1| ==> InConflict(ops1, ops2, ops1[i]) && InConflict(ops1, ops2, ops2[i])
  {
    SameKindsConflict(ops1, ops2);
    forall i | 0 <= i < |ops1|
      ensures Contribution(ops1, ops2, table, i) == [ops1[i]]
    {
    }
    MergedFirstPrefix(ops1, ops2, table, |ops1|);
    assert ops1[..|ops1|] == ops1;
  }

  /** The second merge test satisfies the conditions of AcceptFirstThroughout. */
  lemma ExampleAcceptsFirst<T>(ops1: seq<Operation<T>>, ops2: seq<Operation<T>>)
    requires ExampleScripts(ops1, ops2)
    ensures forall i :: 0 <= i < |ops1| ==> ops1[i].kind == ops2[i].kind && ExampleTable().For(ops1[i].kind).action == AcceptFirst
  {
    ExampleTableLookups();
  }

  /** In the second merge test the merge is the first script. */
  lemma AcceptFirstConflictExample<T>(ops1: seq<Operation<T>>, ops2: seq<Operation<T>>)
    requires ExampleScripts(ops1, ops2)
    ensures Merged(ops1, ops2, ExampleTable()) == ops1
  {
    ExampleAcceptsFirst(ops1, ops2);
    AcceptFirstThroughout(ops1, ops2, ExampleTable());
  }

  /**
   * In the second merge test all four positions are conflicts; with the
   * marks of ExampleTableLookups, only the two Insert operations end up
   * flagged.
   */
  lemma AcceptFirstConflictFlags<T>(ops1: seq<Operation<T>>, ops2: seq<Operation<T>>)
    requires ExampleScripts(ops1, ops2)
    ensures forall i :: 0 <= i < 4 ==> InConflict(ops1, ops2, ops1[i]) && InConflict(ops1, ops2, ops2[i])
  {
    SameKindConflicts(ops1, ops2, 0);
    SameKindConflicts(ops1, ops2, 1);
    SameKindConflicts(ops1, ops2, 2);
    SameKindConflicts(ops1, ops2, 3);
  }

  /** Two lists of the same length with the same kind at every position: every operation of both is in a conflict pair. */
  lemma SameKindsConflict<T>(ops1: seq<Operation<T>>, ops2: seq<Operation<T>>)
    requires |ops1| == |ops2|
    requires forall i :: 0 <= i < |ops1| ==> ops1[i].kind == ops2[i].kind
    ensures forall i :: 0 <= i < |ops1| ==> InConflict(ops1, ops2, ops1[i]) && InConflict(ops1, ops2, ops2[i])
  {
    forall i | 0 <= i < |ops1|
      ensures InConflict(ops1, ops2, ops1[i]) && InConflict(ops1, ops2, ops2[i])
    {
      SameKindConflicts(ops1, ops2, i);
    }
  }

  /** Two operations of the same kind at a position both lists reach are a conflict pair. */
  lemma SameKindConflicts<T>(ops1: seq<Operation<T>>, ops2: seq<Operation<T>>, i: int)
    requires 0 <= i < |ops1| && i < |ops2| && ops1[i].kind == ops2[i].kind
    ensures InConflict(ops1, ops2, ops1[i]) && InConflict(ops1, ops2, ops2[i])
  {
    assert ops1[i] in ConflictPair(ops1, ops2, i);
    assert ops2[i] in ConflictPair(ops1, ops2, i);
  }

  /** The objects of a list that may be missing. */
  function Objects<T>(ops: Option<seq<Operation<T>>>): set<Operation<T>> {
    if ops.None? then {} else set op | op in ops.value
  }

  /** The two operations at position i when they have the same kind: the pair whose flags the merge sets there. */
  function ConflictPair<T>(ops1: seq<Operation<T>>, ops2: seq<Operation<T>>, i: int): set<Operation<T>> {
    if 0 <= i < |ops1| && i < |ops2| && ops1[i].kind == ops2[i].kind then {ops1[i], ops2[i]} else {}
  }

  /** Whether op belongs to the pair of same-kind operations at some position below n. */
  ghost predicate InConflictBelow<T>(ops1: seq<Operation<T>>, ops2: seq<Operation<T>>, op: Operation<T>, n: int) {
    exists i :: 0 <= i < n && op in ConflictPair(ops1, ops2, i)
  }

  /** Whether op belongs to the pair of same-kind operations at some position: the operations whose flag the merge sets. */
  ghost predicate InConflict<T>(ops1: seq<Operation<T>>, ops2: seq<Operation<T>>, op: Operation<T>) {
    InConflictBelow(ops1, ops2, op, |ops1|)
  }

  /** Position n adds its pair of same-kind operations, if any, to the conflicts. */
  lemma ConflictStep<T>(ops1: seq<Operation<T>>, ops2: seq<Operation<T>>, n: nat)
    ensures forall op :: InConflictBelow(ops1, ops2, op, n + 1) <==>
      InConflictBelow(ops1, ops2, op, n) || op in ConflictPair(ops1, ops2, n)
  {
    forall op | InConflictBelow(ops1, ops2, op, n + 1) && !InConflictBelow(ops1, ops2, op, n)
      ensures op in ConflictPair(ops1, ops2, n)
    {
      var i :| 0 <= i < n + 1 && op in ConflictPair(ops1, ops2, i);
      assert i == n;
    }
  }

  /** No position at or beyond the end of the first list holds a conflict. */
  lemma ConflictBeyond<T>(ops1: seq<Operation<T>>, ops2: seq<Operation<T>>, n: nat)
    requires n >= |ops1|
    ensures forall op :: InConflictBelow(ops1, ops2, op, n) <==> InConflict(ops1, ops2, op)
  {
    forall op | InConflictBelow(ops1, ops2, op, n)
      ensures InConflict(ops1, ops2, op)
    {
      var i :| 0 <= i < n && op in ConflictPair(ops1, ops2, i);
    }
  }

  /**
   * A merge engine: the strategies it applies to conflicts, by kind, and
   * the default strategy for kinds without an entry.
   */
  class MergeEngine {
    var conflictStrategies: map<OperationKind, ResolveStrategy>
    const defaultStrategy: ResolveStrategy

    /** An engine with the given default strategy and no strategy by kind. */
    constructor (defaultStrategy: ResolveStrategy)
      ensures this.defaultStrategy == defaultStrategy && conflictStrategies == map[]
    {
      this.defaultStrategy := defaultStrategy;
      conflictStrategies := map[];
    }

    /** An engine whose default strategy is made of the given action and flag. */
    constructor WithAction(action: ResolveStrategyAction, markAsConflict: bool)
      ensures defaultStrategy == ResolveStrategy(action, markAsConflict) && conflictStrategies == map[]
    {
      defaultStrategy := ResolveStrategy(action, markAsConflict);
      conflictStrategies := map[];
    }

    /** The strategies of the engine as a value. */
    function Table(): StrategyTable
      reads this
    {
      StrategyTable(conflictStrategies, defaultStrategy)
    }

    /**
     * Adds the strategy for a kind; a kind that already has one is refused
     * (the dictionary throws) and the table stays as it was.
     */
    method AddStrategy(kind: OperationKind, strategy: ResolveStrategy) returns (added: bool)
      modifies this
      ensures added <==> kind !in old(conflictStrategies)
      ensures conflictStrategies == if added then old(conflictStrategies)[kind := strategy] else old(conflictStrategies)
      ensures Table().For(kind) == if added then strategy else old(Table().For(kind))
    {
      added := kind !in conflictStrategies;
      if added {
        conflictStrategies := conflictStrategies[kind := strategy];
      }
    }

    /**
     * The merged list of two operation lists, either of which may be
     * missing. A missing list gives the other one, and an empty list gives
     * the other one if that is non-empty, in both cases with no flag
     * touched. Otherwise the result is the merge, and every operation of a
     * conflict is flagged as the strategy for its kind says; the flags of
     * all other operations are left alone.
     */
    method GetMergeOperations<T>(operations1: Option<seq<Operation<T>>>, operations2: Option<seq<Operation<T>>>)
      returns (result: Option<seq<Operation<T>>>)
      modifies Objects(operations1), Objects(operations2)
      ensures operations1.None? || operations2.None? ==>
        result == (if operations1.Some? then operations1 else operations2)
      ensures operations1.Some? && operations2.Some? && (operations1.value == [] || operations2.value == []) ==>
        result == (if operations1.value != [] then operations1 else operations2)
      ensures operations1.Some? && operations2.Some? && operations1.value != [] && operations2.value != [] ==>
        result == Some(Merged(operations1.value, operations2.value, Table()))
      ensures forall op | op in Objects(operations1) + Objects(operations2) ::
        op.isConflict ==
          if operations1.Some? && operations2.Some? && InConflict(operations1.value, operations2.value, op)
          then Table().For(op.kind).markAsConflict
          else old(op.isConflict)
    {
      if operations1.None? || operations2.None? {
        return if operations1.Some? then operations1 else operations2;
      }
      if operations1.value == [] || operations2.value == [] {
        return if operations1.value != [] then operations1 else operations2;
      }
      var final := MergeLists(operations1.value, operations2.value);
      result := Some(final);
    }

    /**
     * The loop of the merge over two lists: every position of the longer
     * list in order, with the flags of the conflicts set as the strategy
     * for their kind says and no other flag touched.
     */
    method MergeLists<T>(ops1: seq<Operation<T>>, ops2: seq<Operation<T>>) returns (final: seq<Operation<T>>)
      modifies set op | op in ops1, set op | op in ops2
      ensures final == Merged(ops1, ops2, Table())
      ensures forall op | op in ops1 || op in ops2 ::
        op.isConflict == if InConflict(ops1, ops2, op) then Table().For(op.kind).markAsConflict else old(op.isConflict)
    {
      var max := Max(|ops1|, |ops2|);
      final := [];
      for i := 0 to max
        invariant final == MergedUpTo(ops1, ops2, Table(), i)
        invariant forall op | op in ops1 || op in ops2 ::
          op.isConflict == if InConflictBelow(ops1, ops2, op, i) then Table().For(op.kind).markAsConflict else old(op.isConflict)
      {
        ConflictStep(ops1, ops2, i);
        final := MergeAt(ops1, ops2, i, final);
      }
      ConflictBeyond(ops1, ops2, max);
    }

    /**
     * One round of the merge loop: the operations of position i are
     * appended. When they have the same kind, the strategy for that kind
     * decides which ones, and both are flagged as it says.
     */
    method MergeAt<T>(ops1: seq<Operation<T>>, ops2: seq<Operation<T>>, i: nat, final: seq<Operation<T>>)
      returns (longer: seq<Operation<T>>)
      requires i < |ops1| || i < |ops2|
      modifies ConflictPair(ops1, ops2, i)
      ensures longer == final + Contribution(ops1, ops2, Table(), i)
      ensures forall op | op in ConflictPair(ops1, ops2, i) :: op.isConflict == Table().For(op.kind).markAsConflict
    {
      if i >= |ops1| || i >= |ops2| {
        longer := final + [if i < |ops1| then ops1[i] else ops2[i]];
      } else if ops1[i].kind != ops2[i].kind {
        longer := final + [if ops1[i].kind.Value() > ops2[i].kind.Value() then ops1[i] else ops2[i]];
      } else {
        var op1, op2 := ops1[i], ops2[i];
        var strategy := if op1.kind !in conflictStrategies then defaultStrategy else conflictStrategies[op1.kind];
        op2.isConflict := strategy.markAsConflict;
        op1.isConflict := strategy.markAsConflict;
        match strategy.action
        case AcceptAll => longer := final + [op1, op2];
        case AcceptFirst => longer := final + [op1];
        case AcceptSecond => longer := final + [op2];
        case Ignore => longer := final;
      }
    }
  }
}
