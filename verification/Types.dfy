/** Identifiers and records shared by the engine's components. */
module Types {
  // A token is a hyperedge of the multihistory; its identifier is its creation index.
  type TokenId = int
  type EventId = int
  // Positive atoms are vertices, negative atoms are pattern variables.
  type Atom = int
  type AtomsVector = seq<Atom>

  // The place of an input that a partial match has not filled yet.
  const UNMATCHED: int := -1
  // The rule of the "fake" event that creates the initial tokens.
  const INITIAL_CONDITION_RULE: int := -1
  const MAX_INT64: int := 0x7FFF_FFFF_FFFF_FFFF

  datatype Option<+T> = None | Some(value: T)

  datatype Event = Event(rule: int, inputs: seq<TokenId>, outputs: seq<TokenId>, generation: int)

  datatype Match = Match(rule: int, inputs: seq<TokenId>)

  datatype SelectionFunction = SelectAll | SelectSpacelike

  datatype Rule = Rule(inputs: seq<AtomsVector>, outputs: seq<AtomsVector>, selection: SelectionFunction)

  datatype SeparationType = Unknown | Identical | Timelike | Spacelike | Branchlike

  datatype TerminationReason =
    | NotTerminated | MaxEvents | MaxGenerationsLocal | MaxFinalAtoms | MaxFinalAtomDegree | MaxFinalTokens
    | Complete | AbortedByCaller | TimeConstrained

  ghost predicate Distinct<T>(s: seq<T>) {
    forall i, j :: 0 <= i < j < |s| ==> s[i] != s[j]
  }
}
