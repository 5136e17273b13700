/** How a conflict between two same-kind operations is resolved. */
module ResolveStrategies {

  /** What to keep when two operations at the same position have the same kind. */
  datatype ResolveStrategyAction =
    | Ignore        // accept no change from either side
    | AcceptAll     // accept the changes of both sides
    | AcceptFirst   // accept only the change of the first side
    | AcceptSecond  // accept only the change of the second side
  {
    /** Whether the change of the first side is accepted. */
    predicate AcceptsFirst() {
      this == AcceptAll || this == AcceptFirst
    }

    /** Whether the change of the second side is accepted. */
    predicate AcceptsSecond() {
      this == AcceptAll || this == AcceptSecond
    }
  }

  /** An action paired with whether both conflicting operations are flagged as a conflict. */
  datatype ResolveStrategy = ResolveStrategy(action: ResolveStrategyAction, markAsConflict: bool)

  /**
   * What an action keeps of a conflicting pair: the first element when the
   * action accepts the first side, then the second when it accepts the second.
   */
  function Resolve<X>(action: ResolveStrategyAction, first: X, second: X): (kept: seq<X>)
    ensures |kept| <= 2
    ensures kept == [] <==> action == Ignore
    ensures |kept| == 2 <==> action == AcceptAll
    ensures kept == (if action.AcceptsFirst() then [first] else []) + (if action.AcceptsSecond() then [second] else [])
  {
    match action
    case AcceptAll => [first, second]
    case AcceptFirst => [first]
    case AcceptSecond => [second]
    case Ignore => []
  }
}
