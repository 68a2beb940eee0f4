# varisat proof checker, modelled in Dafny

This project models two parts of the varisat SAT solver's proof checking.

**The native varisat proof format.** A proof is a stream of steps:
- an *AT clause* (a clause together with the hashes of the clauses that propagate it);
- a list of *unit clauses*, each with the hash of the clause that implies it;
- a *clause deletion*.

Each step is a tag token (0, 1 or 2) followed by length-prefixed lists of tokens. The model writes a step to a token sequence and parses it back. It proves that parsing a written step returns that step and consumes exactly its tokens.

**The checker state machine.** The checker holds the formula as a multiset of non-unit clauses plus a partial assignment of unit clauses. Clauses are identified by increasing ids. The checker:
- adds the clauses of the input formula, detecting duplicates and conflicting units;
- checks each proof step by reverse unit propagation (RUP);
- deletes clauses by reference count;
- compacts its literal buffer from time to time.

The top of the model is the loop that parses and checks steps until the empty clause has been derived. It is proved sound: if a proof is accepted for a formula, no assignment satisfies all the formula's clauses (`ProofChecker.ProofRefutesFormula`).

## Layout

| file | module | what it holds |
|---|---|---|
| `options.dfy` | `Options` | `Option` |
| `lits.dfy` | `Lits` | literal codes, sorting and deduplication of clauses |
| `proof_step.dfy` | `ProofSteps` | the three kinds of proof step |
| `varisat_format.dfy` | `VarisatFormat` | writer and parser of the token format, with round-trip lemmas |
| `clause_multiset.dfy` | `ClauseMultiset` | the abstract formula: buckets of clauses by hash, with reference counts |
| `clause_store.dfy` | `ClauseStore` | inline or buffered literal storage, insertion, deletion and garbage collection, each proved against the abstract formula |
| `units.dfy` | `Units` | unit clauses as a partial assignment, the undo trail, and truth under a total assignment |
| `semantics.dfy` | `Semantics` | truth of clauses and of the clause multiset |
| `rup.dfy` | `Rup` | the propagation check of one clause, and its soundness |
| `checker.dfy` | `Checker` | checker state, storing and deleting clauses, adding the input formula |
| `check_step.dfy` | `StepChecker` | checking one proof step |
| `check_proof.dfy` | `ProofChecker` | the step loop, its agreement with the format, and soundness |
| `checker_examples.dfy` | `CheckerExamples` | the scenarios of the source's unit tests |

## Modelling decisions

**Literals** are their integer codes: variable `Var(l) = l / 2`, negated when `l` is odd. DIMACS literal 1 is code 0, and -1 is code 1.

**Tokens.** A token is a `nat`. The variable-length byte encoding of tokens is not modelled.

**The clause hash** is a parameter `hash: seq<Lit> -> ClauseHash` of every operation that needs one. Clauses are always matched by literal equality, so nothing depends on the hash beyond which bucket a clause is in.

**Unit clauses.** The source keeps them in a vector indexed by variable (`Vec<Option<UnitClause>>`), grown on demand. The model uses a `map<nat, UnitClause>`, and a missing key is the vector's `None`.

**The clause map.** The source stores clauses in a `HashMap<ClauseHash, SmallVec<[Clause; 1]>>`. The model uses `map<ClauseHash, seq<Clause>>`. Garbage collection visits the buckets in ascending hash order, which is one instance of the map's unspecified iteration order. The result does not depend on that order.

**Errors are terminal.** `check_proof` gives up at the first error, so the model's operations return `Err` without a state. The one exception is the RUP check, which reports the unit assignment it leaves behind. It does this because a `ClauseNotFound` failure returns before the temporary assignments are undone (`varisat/src/checker.rs:514-521`).

**Proof processors** are modelled as the sequence of `CheckedStep`s that would be reported to them. A processor failing (`ProofProcessorError`) is not modelled.

## Model

| member | source | states |
|---|---|---|
| Lits.Sort | varisat/src/checker.rs:258 | sorting a clause yields an ascending permutation of its literals |
| Lits.Dedup | varisat/src/checker.rs:259 | dropping repeats keeps the same set of literals, never lengthens the clause, and turns a sorted clause into a strictly ascending one |
| Lits.Normalize | varisat/src/checker.rs:254-259 | the normalised clause is strictly ascending, so sorted and free of duplicates, and has exactly the literals of the input |
| Lits.NormalizeDependsOnLiterals | varisat/src/checker.rs:254-259 | two clauses with the same set of literals normalise to the same clause, whatever their order or repetitions |
| Lits.NormalizeOfNormal | varisat/src/checker.rs:315-321 | a clause that is already sorted and duplicate-free, as store_clause requires, is left unchanged by normalisation |
| Lits.NormalizeIdempotent | varisat/src/checker.rs:254-259 | normalising twice is the same as normalising once |
| VarisatFormat.WriteStepStartsWithTag | varisat/src/proof/varisat.rs:10-38 | an encoded step starts with its tag: 0 exactly for an AT clause, 1 exactly for unit clauses, 2 exactly for a deletion |
| VarisatFormat.ReadLiterals | varisat/src/proof/varisat.rs:80-89 | reading a literal list succeeds exactly when the stream holds the length token and that many literals; the tokens consumed are the encoding of the list read, and a short stream is an unexpected end of input |
| VarisatFormat.ReadHashes | varisat/src/proof/varisat.rs:100-109 | reading a hash list succeeds exactly when the stream holds the length token and that many hashes; the tokens consumed are the encoding of the list read |
| VarisatFormat.ReadUnitPairs | varisat/src/proof/varisat.rs:129-133 | reading n unit clauses succeeds exactly when 2n tokens are available, and consumes them as n (literal, hash) pairs in order |
| VarisatFormat.ReadUnitClauses | varisat/src/proof/varisat.rs:121-135 | reading a unit clause list succeeds exactly when the stream holds the count and twice that many tokens; the tokens consumed are the encoding of the list read |
| VarisatFormat.ParseAtClause | varisat/src/proof/varisat.rs:50-57 | after tag 0 the parser reads a literal list and a hash list, gives an AT clause whose encoding is exactly the tokens consumed, and keeps the lists in its literal and hash buffers |
| VarisatFormat.ParseUnitClauses | varisat/src/proof/varisat.rs:58-61 | after tag 1 the parser reads a unit clause list, whose encoding is exactly the tokens consumed, into its unit buffer |
| VarisatFormat.ParseDeleteClause | varisat/src/proof/varisat.rs:62-65 | after tag 2 the parser reads a literal list into its literal buffer, giving a deletion whose encoding is exactly the tokens consumed |
| VarisatFormat.ParseStep | varisat/src/proof/varisat.rs:48-68 | an empty stream is an unexpected end of input; a tag above 2 is a parse error; a parsed step consumes exactly its own encoding and at least one token |
| VarisatFormat.ReadLiteralsOfWritten | varisat/src/proof/varisat.rs:71-89 | reading back a written literal list gives the same literals in order and leaves the following tokens untouched |
| VarisatFormat.ReadHashesOfWritten | varisat/src/proof/varisat.rs:91-109 | reading back a written hash list gives the same hashes in order and leaves the following tokens untouched |
| VarisatFormat.ReadUnitPairsOfWritten | varisat/src/proof/varisat.rs:112-135 | reading back the interleaved (literal, hash) tokens of n unit clauses gives the same pairs in order |
| VarisatFormat.ReadUnitClausesOfWritten | varisat/src/proof/varisat.rs:111-135 | reading back a written unit clause list gives the same pairs in order and leaves the following tokens untouched |
| VarisatFormat.ParseAtClauseOfWritten | varisat/src/proof/varisat.rs:48-57 | parsing a written AT clause step gives back its clause and hashes and stops right after it |
| VarisatFormat.ParseUnitClausesOfWritten | varisat/src/proof/varisat.rs:58-61 | parsing a written unit clauses step gives back its pairs and stops right after it |
| VarisatFormat.ParseDeleteClauseOfWritten | varisat/src/proof/varisat.rs:62-65 | parsing a written deletion step gives back its clause and stops right after it |
| VarisatFormat.ParseStepOfWritten | varisat/src/proof/varisat.rs:15-68 | for every step and every following tokens, parsing the step's encoding succeeds, returns the same step and leaves exactly the following tokens |
| VarisatFormat.ParsedStepIgnoresBuffers | varisat/src/proof/varisat.rs:81-135 | since every reader clears its buffer first, whether parsing succeeds, the step parsed, the error and the tokens left do not depend on what the parser read before |
| VarisatFormat.ParseFirstOfWritten | varisat/src/proof/varisat.rs:48-68 | parsing a concatenation of encoded steps yields the first step and leaves the encodings of the others |
| ClauseStore.NewClauseLits | varisat/src/checker.rs:111-134 | storing a clause's literals reads back the same literals; the buffer only grows, by the clause's length when it has more than three literals and not at all otherwise |
| ClauseStore.SliceOfExtended | varisat/src/checker.rs:136-150 | appending to the literal buffer leaves the literals of every stored clause unchanged |
| ClauseStore.Insert | varisat/src/checker.rs:332-355 | storing a clause of two or more literals acts on the viewed formula exactly as adding one copy to the clause multiset, with the same returned id and new-entry flag, and keeps the store consistent |
| ClauseStore.Delete | varisat/src/checker.rs:419-448 | deleting fails exactly when no stored clause has the literals; otherwise it acts on the viewed formula exactly as removing one copy, keeps the buffer, and never lowers the garbage count |
| ClauseStore.RelocateBucket | varisat/src/checker.rs:473-477 | copying a bucket's literals into a new buffer only extends that buffer and leaves the bucket's ids, counts and literals as they were |
| ClauseStore.Ascending | varisat/src/checker.rs:472 | the keys enumerated for the traversal are exactly the hashes present in the map |
| ClauseStore.AscendingSorted | varisat/src/checker.rs:472 | the enumeration visits the hashes in strictly ascending order, so each bucket exactly once |
| ClauseStore.Relocate | varisat/src/checker.rs:468-480 | relocating every bucket into a fresh buffer leaves the viewed formula unchanged |
| ClauseStore.CollectGarbage | varisat/src/checker.rs:462-482 | garbage collection never changes any stored clause's id, reference count or literals; it does nothing while at most half the buffer is garbage, and otherwise resets the garbage count to zero |
| ClauseMultiset.Find | varisat/src/checker.rs:336-344 | the matching candidate is the first clause of the bucket whose literals equal the given ones, and there is none exactly when no clause in the bucket has them |
| ClauseMultiset.Add | varisat/src/checker.rs:332-355 | adding a clause raises its count by one and leaves every other count alone; it reports a new entry under the fresh id exactly when the clause was absent, and otherwise the id it already has |
| ClauseMultiset.AddInvariants | varisat/src/checker.rs:346-354 | adding keeps every bucket free of repeated clauses and of units, with positive counts, and keeps every id below a bound when the fresh id is below it or the clause was present |
| ClauseMultiset.Remove | varisat/src/checker.rs:430-454 | removing fails exactly when the clause's count is zero; otherwise its count drops by one, all other counts stay, and its id is reported exactly when the last copy went |
| ClauseMultiset.RemoveInvariants | varisat/src/checker.rs:430-447 | removing keeps the buckets well formed and every id below the bound, and leaves all other buckets alone |
| Units.LitValue | varisat/src/checker.rs:307-313 | a literal has a value exactly when its variable has a unit, and the unit returned with the value is that variable's unit |
| Units.LitValueSound | varisat/src/checker.rs:307-313 | under an assignment that agrees with the units, a literal's value read from the units is its truth value |
| Units.UndoRecorded | varisat/src/checker.rs:614-617 | undoing the trail in reverse cancels an assignment whose previous value was recorded on the trail |
| Semantics.NormalizeTrue | varisat/src/checker.rs:254-259 | normalising a clause never changes whether it holds |
| Semantics.AddTrue | varisat/src/checker.rs:332-355 | adding a clause to the multiset conjoins it: the result holds exactly when the old formula and the clause hold |
| Semantics.RemoveTrue | varisat/src/checker.rs:430-447 | removing a copy of a clause keeps every satisfying assignment satisfying |
| Rup.Push | varisat/src/checker.rs:505-510 | an assignment recorded on the trail is cancelled by undoing the trail |
| Rup.AssumeFalse | varisat/src/checker.rs:499-511 | assuming the clause's literals false changes nothing that undoing the trail does not restore |
| Rup.AssumeFalseSound | varisat/src/checker.rs:499-511 | under an assignment falsifying the clause, assuming its literals false keeps the units agreeing with it |
| Rup.ScanLits | varisat/src/checker.rs:531-562 | scanning a candidate's literals only makes trail-recorded assignments and only extends the trace |
| Rup.ScanSound | varisat/src/checker.rs:531-562 | when a scan finds no unassigned literal, every literal of the candidate is false; when it finds exactly one, every other literal is false |
| Rup.CheckCandidate | varisat/src/checker.rs:525-596 | a candidate that conflicts ends the trace with its own id; every assignment it makes is undone by the trail |
| Rup.CandidateSound | varisat/src/checker.rs:566-596 | a candidate clause that holds under the assignment never conflicts, and whatever it propagates keeps the units agreeing with the assignment |
| Rup.CheckCandidates | varisat/src/checker.rs:525-597 | a conflict within a bucket ends the trace with the id of a clause of that bucket |
| Rup.CandidatesSound | varisat/src/checker.rs:525-597 | a bucket of clauses that all hold never conflicts and keeps the units agreeing with the assignment |
| Rup.CheckHashes | varisat/src/checker.rs:513-598 | a hash without clauses stops propagation as not found; a conflict ends the trace with the id of a clause with one of the given hashes |
| Rup.HashesSound | varisat/src/checker.rs:513-598 | when the units and the formula hold, propagation never reaches a conflict |
| Rup.CheckClauseWithHashes | varisat/src/checker.rs:487-627 | the units come back unchanged, with an empty trail, unless a hash names no clause, when the trail still undoes to them; without hashes the check fails; the trace ends with a clause with one of the hashes |
| Rup.AssumeFalseSpec | varisat/src/checker.rs:498-511 | assuming a clause false leaves the variables outside the clause as they were and, when the clause has no complementary literals, makes every one of its literals false |
| Rup.ScanClassifies | varisat/src/checker.rs:531-562 | a scan keeps every known value; it stops as satisfied exactly when some literal is true, and otherwise counts the unassigned literals and keeps the last one seen |
| Rup.CandidateEffect | varisat/src/checker.rs:525-596 | a candidate conflicts exactly when all its literals are false; a candidate with no true literal and exactly one unassigned literal makes that literal true and gives no other variable a value (the values of `PropagateOne`); any other candidate changes no value; known values are kept |
| Rup.CandidatesEffect | varisat/src/checker.rs:525-597 | a bucket containing a clause all of whose literals are false always conflicts, and a conflict names a clause of the bucket that is falsified |
| Rup.CandidatesPropagate | varisat/src/checker.rs:525-597 | a bucket conflicts exactly when unit propagation through its clauses in order (`Propagated`, each unit clause making its one unassigned literal true) reaches a clause that is all false; without a conflict the units end with exactly the values that propagation gives |
| Rup.ConflictsInExists | varisat/src/checker.rs:525-597 | unit propagation through a bucket conflicts exactly when some clause of the bucket is all false under the values that propagating the clauses before it gives |
| Rup.HashesPropagate | varisat/src/checker.rs:513-598 | the hashes yield a conflict exactly when unit propagation through their buckets in order reaches a falsified clause before any hash without stored clauses; when all buckets are propagated without one, every hash names clauses |
| Rup.HashesPropagatedValues | varisat/src/checker.rs:513-598 | when all buckets are propagated without a conflict, the units hold exactly the values unit propagation through the buckets gives |
| Rup.ImpliedIffConflict | varisat/src/checker.rs:487-627 | a clause is implied exactly when unit propagation from the units with the clause assumed false, through the hashed buckets in order, reaches a falsified clause before any unknown hash; the check fails exactly when every hash is known and no conflict is reached |
| Rup.HashesEffect | varisat/src/checker.rs:513-598 | when every hash names stored clauses and one of those clauses is falsified, propagation finds a conflict; a conflict names a falsified clause with one of the hashes |
| Rup.ImpliedWhenFalsified | varisat/src/checker.rs:495-598 | a clause without complementary literals is accepted when every hash names stored clauses and one of those clauses has each literal either in the clause or made false by a unit on a variable the clause does not mention |
| Rup.RupSound | varisat/src/checker.rs:77-86 | a clause accepted as an asymmetric tautology holds under every assignment satisfying the units and the clause multiset |
| Checker.NewChecker | varisat/src/checker.rs:234-237 | a new checker is consistent, not unsat, at step 0 with next id 0, and has no units and no clauses |
| Checker.StoreUnitClause | varisat/src/checker.rs:364-404 | a new unit gets the next id; a unit already true keeps its id and changes nothing; a unit already false makes the checker unsat, records the two conflicting ids and consumes the next id |
| Checker.StoreUnitClauseHolds | varisat/src/checker.rs:364-404 | storing a unit clause conjoins its literal to the formula, with a conflicting unit making it unsatisfiable |
| Checker.StoreUnitClauseEffect | varisat/src/checker.rs:364-404 | storing a unit clause keeps every known value and unsat, and makes its literal true unless the checker is unsat; the clause counts as new exactly when its literal was not already true |
| Checker.StoreClause | varisat/src/checker.rs:321-358 | the empty clause takes the next id and makes the checker unsat; a single literal is stored as a unit; a longer clause is one more copy in the multiset, new exactly when absent, and only a new clause consumes an id |
| Checker.StoreClauseHolds | varisat/src/checker.rs:321-358 | storing a clause conjoins it to the checker's formula |
| Checker.AddClause | varisat/src/checker.rs:249-288 | once unsat nothing changes; otherwise one step is reported with the next id and the normalised clause, and it is a duplicate step naming an earlier id exactly when the clause was already present |
| Checker.AddClauseHolds | varisat/src/checker.rs:249-288 | adding a clause conjoins it to the checker's formula |
| Checker.AddClauseCounts | varisat/src/checker.rs:336-355 | adding a clause of two or more literals raises the count of its normalised form by one and leaves every other count, every other bucket and the units alone |
| Checker.AddFormula | varisat/src/checker.rs:239-246 | the input clauses are numbered consecutively from the next id, one step per clause until the checker is unsat |
| Checker.AddFormulaHolds | varisat/src/checker.rs:239-246 | after adding a formula the checker's formula holds exactly when it held before and every input clause holds |
| Checker.DeleteClause | varisat/src/checker.rs:411-460 | deletion fails with InvalidDelete exactly for a clause shorter than two literals or not present; otherwise exactly one copy goes, all other counts stay, and the id is returned exactly when the last copy went |
| Checker.DeleteClauseHolds | varisat/src/checker.rs:411-460 | deleting a clause keeps every satisfying assignment satisfying |
| Checker.AddThenDelete | varisat/src/checker.rs:430-444 | a new clause added and then deleted is reported with the next id, gives that id back on deletion, and leaves every clause count as before |
| Checker.ProcessUnitConflicts | varisat/src/checker.rs:759-773 | a recorded unit conflict is reported as the empty clause with the next id, whose propagations are exactly the two conflicting unit ids in the order recorded, both smaller; with no conflict nothing is reported |
| StepChecker.CheckClause | varisat/src/checker.rs:487-627 | a check without hashes fails; a first hash without clauses is ClauseNotFound; any not-found hash is one of the given hashes with no clauses; the check succeeds exactly when propagation from the negated clause reaches a conflict, with that propagation's trace, and fails as ClauseCheckFailed for the clause exactly when propagation ends without one |
| StepChecker.CheckClauseSound | varisat/src/checker.rs:77-86 | a clause the check accepts holds under every assignment satisfying the checker's formula |
| StepChecker.CheckUnit | varisat/src/checker.rs:681-697 | a unit clause is accepted exactly when the clause check of that single literal with its hash succeeds; it fails only as ClauseCheckFailed for that unit or ClauseNotFound for its hash; at most one step is reported, an AT step of the unit with the next id |
| StepChecker.CheckUnitEffect | varisat/src/checker.rs:681-697 | an accepted unit clause leaves the stored clauses alone, keeps every known value and unsat, and makes the literal true unless the checker became unsat; a step is reported exactly when the literal was not already true |
| StepChecker.CheckUnitSound | varisat/src/checker.rs:681-697 | storing a checked unit clause keeps every satisfying assignment satisfying |
| StepChecker.CheckUnits | varisat/src/checker.rs:680-699 | checking a list of units keeps the checker consistent and the step number fixed, never lowers the next id, and reports only AT steps of single-literal clauses, at most one per unit |
| StepChecker.CheckUnitsCons | varisat/src/checker.rs:680-699 | the units are checked in order: a rejected first unit is the rejection of the whole list, and otherwise the list is accepted or rejected as the rest is, from the checker the first unit left |
| StepChecker.CheckUnitsEffect | varisat/src/checker.rs:680-699 | after an accepted list of unit clauses the stored clauses are unchanged, every known value and unsat are kept, and every listed literal is true unless the checker became unsat |
| StepChecker.CheckUnitsSound | varisat/src/checker.rs:680-699 | checking a list of unit clauses keeps every satisfying assignment satisfying |
| StepChecker.CheckAtClause | varisat/src/checker.rs:632-659 | the step is accepted exactly when the clause check of the normalised clause succeeds, and otherwise fails with that check's error; at most one step is reported, an AT step of the normalised clause with the next id; without hashes it fails as ClauseCheckFailed for the normalised clause, and with an empty first bucket as ClauseNotFound for that hash |
| StepChecker.StoreClauseAdds | varisat/src/checker.rs:321-358 | storing a clause of two or more literals raises its count by one and leaves every other count, the units and unsat alone; a unit clause keeps the stored clauses and makes its literal true unless the checker is unsat; the empty clause makes the checker unsat |
| StepChecker.CheckAtClauseAdds | varisat/src/checker.rs:632-659 | an accepted AT clause is added to the formula in its normalised form, with the effects stated for storing a clause |
| StepChecker.CheckAtClauseSound | varisat/src/checker.rs:632-659 | an accepted AT clause keeps every satisfying assignment satisfying |
| StepChecker.CheckDelete | varisat/src/checker.rs:660-679 | the clause is normalised first; deletion fails with InvalidDelete exactly when the normalised clause is short or absent, and otherwise lowers its count by one, leaves every other count, the units and unsat alone, and reports a deletion step carrying the clause's id exactly when its last copy went |
| StepChecker.CheckDeleteSound | varisat/src/checker.rs:660-679 | a deletion step keeps every satisfying assignment satisfying |
| StepChecker.CheckStep | varisat/src/checker.rs:630-703 | every reported clause is sorted and duplicate-free; the step number is unchanged and ids only grow; an AT clause step reports at most one step, adding the normalised clause under the next id; deletion and AT clause errors are as for the individual steps |
| StepChecker.CheckStepEffect | varisat/src/checker.rs:630-703 | an AT clause step is accepted exactly when its normalised clause passes the clause check, and is then added to the formula; an accepted deletion removes one copy, leaves all else alone and reports the id exactly when the last copy went; accepted unit clauses leave the stored clauses alone and are all true afterwards unless the checker became unsat |
| StepChecker.CheckStepSound | varisat/src/checker.rs:630-703 | every accepted step keeps every satisfying assignment satisfying |
| ProofChecker.NextRound | varisat/src/checker.rs:725-752 | end of input is ProofIncomplete and a bad tag is a parse error, both at the next step number; a round that goes on keeps the checker consistent and consumes input; a round that stops is an error |
| ProofChecker.CheckProof | varisat/src/checker.rs:721-756 | an accepted proof ends unsat; an unsat checker reports only its unit conflict; an empty or mis-tagged proof fails at the next step number |
| ProofChecker.CheckProofIgnoresParser | varisat/src/checker.rs:722-733 | reusing one parser across steps does not change the outcome of the check |
| ProofChecker.CheckProofOfWritten | varisat/src/checker.rs:725-733 | checking an encoded step followed by more input checks that step and then continues with the input after it |
| ProofChecker.CheckProofOfWrittenSteps | varisat/src/checker.rs:721-756 | the loop over a concatenation of encoded steps checks the steps in order, exactly as checking them directly |
| ProofChecker.CheckProofSound | varisat/src/checker.rs:721-756 | no assignment satisfies the formula of a checker from which a proof is accepted |
| ProofChecker.ProofRefutesFormula | varisat/src/checker.rs:721-756 | when a proof is accepted after loading a formula, every assignment falsifies one of the formula's clauses |
| CheckerExamples.ConflictingUnits | varisat/src/checker.rs:795-807 | the formula with the units 1 and -1 makes the checker unsat and records the ids 0 and 1 as the conflict |
| CheckerExamples.UnknownDeleteFor | varisat/src/checker.rs:809-824 | after a formula of two clauses, deleting a clause of two or more literals that is neither of them fails with InvalidDelete |
| CheckerExamples.RejectsUnknownDelete | varisat/src/checker.rs:809-824 | after the formula 1 2 3, -4 5, deleting -5 4 fails with InvalidDelete naming the normalised clause |
| CheckerExamples.RefCountsFor | varisat/src/checker.rs:826-857 | a clause given twice deletes twice, once more after being added again, and a further deletion fails with InvalidDelete |
| CheckerExamples.DeleteFollowsRefCounts | varisat/src/checker.rs:826-857 | the reference count scenario for the clause 1 2 3 |
| CheckerExamples.ReportsMissingHash | varisat/src/checker.rs:859-875 | after the formula 1 2 3, an AT step naming hash 0 fails with ClauseNotFound, provided 1 2 3 does not hash to 0 |
| CheckerExamples.RejectsUnimpliedClause | varisat/src/checker.rs:877-893 | after the formula 1 2 3, the empty clause without propagation hashes fails with ClauseCheckFailed |
| CheckerExamples.LoadsRefutableFormula | varisat/src/checker.rs:239-246 | loading the formula 1 2, -1, -2 stores the clause 1 2 once and makes both its literals false, without a conflict |
| CheckerExamples.DerivesEmptyClause | varisat/src/checker.rs:632-659 | with 1 and 2 false and the clause 1 2 stored, the AT step of the empty clause propagating the hash of 1 2 is accepted and makes the checker unsat |
| CheckerExamples.AcceptsOneStep | varisat/src/checker.rs:721-756 | a proof whose first step is accepted and makes the checker unsat is accepted, whatever tokens follow |
| CheckerExamples.AcceptsRefutation | varisat/src/checker.rs:721-756 | the proof tokens 0, 0, 1 and the hash of 1 2, one AT step deriving the empty clause, are accepted for the formula 1 2, -1, -2 |

## Left out

- Integer widths. Ids, steps, hashes, lengths and buffer offsets are unbounded. The `u32` reference count overflow panic (`expect("ref_count overflow")`) and the literal buffer size limit of `ClauseLits::new` are not modelled.
- I/O. `io::Read`, `BufReader` and the `IoError` variant for read errors other than end of input are not modelled, and neither is logging. The proof is a token sequence given in full.
- The variable-length integer encoding (`read_u64`, `write_u64`) and `Lit::code`/`Lit::from_code`. These are not part of this model; literals are their codes.
- `clause_hash` is not part of this model. It is a parameter.
- `add_dimacs_cnf` and the DIMACS parser. `add_formula` takes the clauses as a sequence.
- Proof processors: `add_processor`, `process_step` and the `ProofProcessorError` they can raise. The reported steps are returned as a log instead.
- The trace edges, the back-marking of unused trace items, and `trace_ids` (`varisat/src/checker.rs:600-612`). These only matter to processors. The model keeps the trace as the ids of the clauses used, in order.
- The `write_lrat` module and the `unsafe transmute` representation of inline literals.
- The solver-based property test `checked_unsat_via_dimacs`, which depends on the whole solver.
- Rup.CheckClauseWithHashes: it does not state which ids the trace holds beyond its last element (the conflicting clause). The trace is computed as in the source, but its earlier entries are not characterised.
- StepChecker.CheckUnits: it does not state how many ids a list of units consumes, only that ids never go down.
- VarisatFormat.ParseStep: an unknown tag is reported as `BadTag` carrying the tag, where the source gives a plain "parse error" message (`varisat/src/proof/varisat.rs:66`). The inputs that fail are the same; the tag is extra information.
- Rup.ImpliedWhenFalsified: states a sufficient condition only, for a clause of the named buckets that the assumed literals and the units falsify directly. The exact condition, with conflicts reached through earlier propagations, is Rup.ImpliedIffConflict, stated against the unit propagation of `Propagated` and `PropagatedHashes`.
- ProofChecker.CheckProof: reading a step can only fail by end of input or a bad tag, because I/O errors are not modelled.

## Notes on the source

- A deletion adds a clause's buffered literals to the garbage count each time its reference count drops, not only when the clause goes away (`varisat/src/checker.rs:435`). Garbage collection may therefore run while live clauses still use those literals. It copies them into the new buffer, so nothing is lost. The model counts garbage as written and proves that collection preserves every clause.
- After `ClauseNotFound`, the temporary assignments of the RUP check stay in place (`varisat/src/checker.rs:514-521`). This is harmless, because `check_proof` stops at the first error. The model returns these assignments and proves that the trail still undoes them.
