/**
 Proof steps of the native varisat proof format, as read by the checker.
 */
module ProofSteps {
  import opened Lits

  /** Hash of a clause's literals; the hash function itself is a parameter of the checker. */
  type ClauseHash = nat

  datatype ProofStep =
    /** Addition of a clause that follows by unit propagation from the clauses with the given hashes. */
    | AtClause(clause: seq<Lit>, propagationHashes: seq<ClauseHash>)
    /** Addition of unit clauses, each justified by a single clause with the given hash. */
    | UnitClauses(units: seq<(Lit, ClauseHash)>)
    /** Deletion of a clause. */
    | DeleteClause(clause: seq<Lit>)
}
