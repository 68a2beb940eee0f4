/**
 The checker's state and its clause operations: storing clauses of the input
 formula, storing unit clauses, and deleting clauses.

 The checker's formula is the multiset of its stored non-unit clauses
 together with its known unit clauses. Clause ids are handed out in
 increasing order from `nextClauseId`. Once the empty clause has been derived,
 or two input unit clauses contradict each other, the checker is `unsat` and
 accepts further input clauses without looking at them.
 */
module Checker {
  import opened Options
  import opened Lits
  import opened ProofSteps
  import opened Units
  import opened Semantics
  import CM = ClauseMultiset
  import CS = ClauseStore
  import VF = VarisatFormat

  datatype CheckerError =
    /** The proof ended before unsatisfiability was derived. */
    | ProofIncomplete(step: nat)
    /** A step could not be parsed. */
    | ParseError(step: nat, cause: VF.ParseError)
    /** A deleted clause is a unit, empty, or not present. */
    | InvalidDelete(step: nat, clause: seq<Lit>)
    /** A propagation hash names no stored clause. */
    | ClauseNotFound(step: nat, hash: ClauseHash)
    /** A clause does not follow by unit propagation from the given clauses. */
    | ClauseCheckFailed(step: nat, clause: seq<Lit>)

  datatype Result<+T> = Ok(value: T) | Err(error: CheckerError)

  /** A step as reported to proof processors; its clause is always normalised. */
  datatype CheckedStep =
    | AddClauseStep(id: nat, clause: seq<Lit>)
    /** A repeated input clause: a fresh id is consumed, but the clause keeps the id `sameAsId`. */
    | DuplicatedClauseStep(id: nat, sameAsId: nat, clause: seq<Lit>)
    /** A clause added by unit propagation, with the ids of the clauses used. */
    | AtClauseStep(id: nat, clause: seq<Lit>, propagations: seq<nat>)
    | DeleteClauseStep(id: nat, clause: seq<Lit>)

  datatype Checker = Checker(
    /** Number of the proof step being checked. */
    step: nat,
    nextClauseId: nat,
    /** The non-unit clauses. */
    store: CS.Store,
    /** The unit clauses, as a partial assignment. */
    units: Units,
    unsat: bool,
    /** The ids of two contradicting input unit clauses. */
    unitConflict: Option<(nat, nat)>)

  /** A fresh checker: no clauses, no units, nothing derived yet. */
  function NewChecker(): (r: Checker)
    ensures Valid(r) && !r.unsat && r.step == 0 && r.nextClauseId == 0
    ensures r.units == map[] && Clauses(r) == map[]
  {
    Checker(0, 0, CS.EmptyStore, map[], false, None)
  }

  /**
   The store is consistent, every id in use is below `nextClauseId`, every
   known unit is a unit clause of the formula, and a recorded unit conflict
   names two earlier clauses and comes with `unsat`.
   */
  predicate Valid(c: Checker) {
    && CS.Valid(c.store)
    && CM.IdsBelow(CS.StoreView(c.store), c.nextClauseId)
    && (forall v :: v in c.units ==> c.units[v].id.Global? && c.units[v].id.id < c.nextClauseId)
    && (c.unitConflict.Some? ==> c.unsat && c.unitConflict.value.0 < c.unitConflict.value.1 < c.nextClauseId)
  }

  /** The non-unit clauses of the checker's formula. */
  function Clauses(c: Checker): CM.Formula
    requires CS.Valid(c.store)
  {
    CS.StoreView(c.store)
  }

  /** The assignment satisfies the checker's formula: it is not unsat, and all its units and clauses hold. */
  ghost predicate Holds(alpha: Assignment, c: Checker)
    requires Valid(c)
  {
    !c.unsat && Agrees(alpha, c.units) && FormulaTrue(alpha, Clauses(c))
  }

  /** The id of a reported step. */
  function StepId(s: CheckedStep): nat {
    s.id
  }

  // Storing clauses

  /**
   Stores the unit clause `l`. A literal not yet known becomes a unit with the
   next id. A literal already true keeps its unit's id and nothing is added.
   A literal already false makes the checker unsat and records the two
   conflicting unit ids; the new clause still consumes the next id.
   */
  function StoreUnitClause(c: Checker, l: Lit): (r: (Checker, nat, bool))
    requires Valid(c)
    ensures Valid(r.0)
    ensures r.0.step == c.step && r.0.store == c.store
    ensures r.2 <==> LitValue(c.units, l).None? || !LitValue(c.units, l).value.0
    ensures r.2 ==> r.1 == c.nextClauseId && r.0.nextClauseId == c.nextClauseId + 1
    ensures !r.2 ==> r.0 == c && r.1 < c.nextClauseId && LitValue(c.units, l).value.1.id == Global(r.1)
    ensures LitValue(c.units, l).None? ==>
              && r.0.units == c.units[Var(l) := UnitClause(Global(r.1), IsPositive(l))]
              && r.0.unsat == c.unsat && r.0.unitConflict == c.unitConflict
    ensures LitValue(c.units, l).Some? && !LitValue(c.units, l).value.0 ==>
              && r.0.units == c.units && r.0.unsat
              && r.0.unitConflict == Some((LitValue(c.units, l).value.1.id.id, r.1))
  {
    match LitValue(c.units, l)
    case None =>
      var id := c.nextClauseId;
      (c.(units := c.units[Var(l) := UnitClause(Global(id), IsPositive(l))], nextClauseId := id + 1), id, true)
    case Some((true, unit)) =>
      (c, unit.id.id, false)
    case Some((false, unit)) =>
      var id := c.nextClauseId;
      (c.(unsat := true, unitConflict := Some((unit.id.id, id)), nextClauseId := id + 1), id, true)
  }

  /**
   After storing a unit clause its literal is true, unless the checker is
   unsat; known values and unsat are kept. The clause is new exactly when its
   literal was not already true.
   */
  lemma StoreUnitClauseEffect(c: Checker, l: Lit)
    requires Valid(c)
    ensures Extends(c.units, StoreUnitClause(c, l).0.units)
    ensures c.unsat ==> StoreUnitClause(c, l).0.unsat
    ensures StoreUnitClause(c, l).0.unsat || KnownTrue(StoreUnitClause(c, l).0.units, l)
    ensures StoreUnitClause(c, l).2 <==> !KnownTrue(c.units, l)
  {
    if LitValue(c.units, l).None? {
      assert Var(l) !in c.units;
    }
  }

  /** Storing a unit clause conjoins its literal to the checker's formula. */
  lemma StoreUnitClauseHolds(alpha: Assignment, c: Checker, l: Lit)
    requires Valid(c)
    ensures Holds(alpha, StoreUnitClause(c, l).0) <==> Holds(alpha, c) && LitTrue(alpha, l)
  {
    var r := StoreUnitClause(c, l);
    match LitValue(c.units, l)
    case None =>
      forall v | v in r.0.units && v != Var(l) ensures v in c.units && r.0.units[v] == c.units[v] {
      }
    case Some((b, unit)) =>
      if Agrees(alpha, c.units) {
        LitValueSound(alpha, c.units, l);
      }
  }

  /**
   Stores a normalised clause. The empty clause gets the next id and makes
   the checker unsat; a unit clause is stored as a unit; a longer clause gets
   one more copy in the clause multiset, under a new id when it was absent.
   */
  function StoreClause(c: Checker, lits: seq<Lit>, hash: seq<Lit> -> ClauseHash): (r: (Checker, nat, bool))
    requires Valid(c)
    ensures Valid(r.0)
    ensures r.0.step == c.step
    ensures r.2 ==> r.1 == c.nextClauseId && r.0.nextClauseId == c.nextClauseId + 1
    ensures !r.2 ==> r.1 < c.nextClauseId && r.0.nextClauseId == c.nextClauseId
    ensures |lits| == 0 ==> r.0.unsat && r.2
    ensures |lits| == 1 ==> r == StoreUnitClause(c, lits[0])
    ensures |lits| >= 2 ==>
              && Clauses(r.0) == CM.Add(Clauses(c), hash(lits), lits, c.nextClauseId).0
              && r.1 == CM.Add(Clauses(c), hash(lits), lits, c.nextClauseId).1
              && (r.2 <==> CM.Count(Clauses(c), hash(lits), lits) == 0)
              && r.0.units == c.units && r.0.unsat == c.unsat && r.0.unitConflict == c.unitConflict
  {
    if |lits| == 0 then
      (c.(nextClauseId := c.nextClauseId + 1, unsat := true), c.nextClauseId, true)
    else if |lits| == 1 then
      StoreUnitClause(c, lits[0])
    else
      var f := Clauses(c);
      var h := hash(lits);
      var (store', id, added) := CS.Insert(c.store, h, lits, c.nextClauseId);
      CM.AddInvariants(f, h, lits, c.nextClauseId, c.nextClauseId + 1);
      CM.AddInvariants(f, h, lits, c.nextClauseId, c.nextClauseId);
      CM.AddShape(f, h, lits, c.nextClauseId);
      var c' := c.(store := store', nextClauseId := if added then c.nextClauseId + 1 else c.nextClauseId);
      assert !added ==> id < c.nextClauseId by {
        if !added {
          var b := CM.Bucket(f, h);
          var i := CM.Find(b, lits).value;
          assert h in f && i < |f[h]|;
        }
      }
      (c', id, added)
  }

  /** Storing a clause conjoins it to the checker's formula. */
  lemma StoreClauseHolds(alpha: Assignment, c: Checker, lits: seq<Lit>, hash: seq<Lit> -> ClauseHash)
    requires Valid(c)
    ensures Holds(alpha, StoreClause(c, lits, hash).0) <==> Holds(alpha, c) && ClauseTrue(alpha, lits)
  {
    if |lits| == 1 {
      StoreUnitClauseHolds(alpha, c, lits[0]);
      assert ClauseTrue(alpha, lits) <==> LitTrue(alpha, lits[0]);
    } else if |lits| >= 2 {
      AddTrue(alpha, Clauses(c), hash(lits), lits, c.nextClauseId);
    }
  }

  /**
   Adds a clause of the input formula. Nothing happens once the checker is
   unsat. Otherwise the normalised clause is stored and exactly one step is
   reported, whose id is the next id: a repeated clause consumes that id in a
   DuplicatedClause step naming the id it already has, so the input clauses
   are numbered consecutively.
   */
  function AddClause(c: Checker, clause: seq<Lit>, hash: seq<Lit> -> ClauseHash): (r: (Checker, seq<CheckedStep>))
    requires Valid(c)
    ensures Valid(r.0)
    ensures r.0.step == c.step
    ensures c.unsat ==> r == (c, [])
    ensures !c.unsat ==> |r.1| == 1 && StepId(r.1[0]) == c.nextClauseId && r.0.nextClauseId == c.nextClauseId + 1
    ensures !c.unsat ==> r.1[0].clause == Normalize(clause)
    ensures !c.unsat ==> (r.1[0].DuplicatedClauseStep? <==> Present(c, Normalize(clause), hash))
    ensures !c.unsat && r.1[0].DuplicatedClauseStep? ==> r.1[0].sameAsId < c.nextClauseId
  {
    if c.unsat then
      (c, [])
    else
      var lits := Normalize(clause);
      var (c', id, added) := StoreClause(c, lits, hash);
      if added then
        (c', [AddClauseStep(id, lits)])
      else
        (c'.(nextClauseId := c'.nextClauseId + 1), [DuplicatedClauseStep(c'.nextClauseId, id, lits)])
  }

  /** The clause is already part of the checker's formula: a stored non-unit clause or a true unit. */
  predicate Present(c: Checker, lits: seq<Lit>, hash: seq<Lit> -> ClauseHash)
    requires Valid(c)
  {
    || (|lits| >= 2 && CM.Count(Clauses(c), hash(lits), lits) > 0)
    || (|lits| == 1 && LitValue(c.units, lits[0]).Some? && LitValue(c.units, lits[0]).value.0)
  }

  /** Adding a clause conjoins it to the checker's formula, unless the checker is already unsat. */
  lemma AddClauseHolds(alpha: Assignment, c: Checker, clause: seq<Lit>, hash: seq<Lit> -> ClauseHash)
    requires Valid(c)
    ensures Holds(alpha, AddClause(c, clause, hash).0) <==> Holds(alpha, c) && ClauseTrue(alpha, clause)
  {
    if !c.unsat {
      StoreClauseHolds(alpha, c, Normalize(clause), hash);
      NormalizeTrue(alpha, clause);
    }
  }

  /** The steps of `log` have the ids `start`, `start + 1`, ... in order. */
  predicate ConsecutiveIds(log: seq<CheckedStep>, start: nat) {
    forall i :: 0 <= i < |log| ==> StepId(log[i]) == start + i
  }

  lemma ConsecutiveAppend(a: seq<CheckedStep>, b: seq<CheckedStep>, start: nat)
    requires ConsecutiveIds(a, start) && ConsecutiveIds(b, start + |a|)
    ensures ConsecutiveIds(a + b, start)
  {
    assert forall i :: |a| <= i < |a + b| ==> (a + b)[i] == b[i - |a|];
  }

  /** All clauses of a formula hold. */
  predicate AllTrue(alpha: Assignment, clauses: seq<seq<Lit>>) {
    forall i :: 0 <= i < |clauses| ==> ClauseTrue(alpha, clauses[i])
  }

  lemma AllTrueCons(alpha: Assignment, clauses: seq<seq<Lit>>)
    requires |clauses| > 0
    ensures AllTrue(alpha, clauses) <==> ClauseTrue(alpha, clauses[0]) && AllTrue(alpha, clauses[1..])
  {
    assert forall i :: 1 <= i < |clauses| ==> clauses[i] == clauses[1..][i - 1];
  }

  /**
   Adding a non-unit clause adds one copy of its normalised form to the
   clause multiset and leaves every other clause, every other hash bucket
   and the units alone.
   */
  lemma AddClauseCounts(c: Checker, clause: seq<Lit>, hash: seq<Lit> -> ClauseHash)
    requires Valid(c) && !c.unsat && |Normalize(clause)| >= 2
    ensures var n := Normalize(clause);
            var c' := AddClause(c, clause, hash).0;
            && CM.Count(Clauses(c'), hash(n), n) == CM.Count(Clauses(c), hash(n), n) + 1
            && (forall h, lits :: h != hash(n) || lits != n ==> CM.Count(Clauses(c'), h, lits) == CM.Count(Clauses(c), h, lits))
            && (forall h :: h != hash(n) ==> CM.Bucket(Clauses(c'), h) == CM.Bucket(Clauses(c), h))
            && c'.units == c.units && !c'.unsat
  {
    var n := Normalize(clause);
    CM.AddShape(Clauses(c), hash(n), n, c.nextClauseId);
    assert Clauses(AddClause(c, clause, hash).0) == Clauses(StoreClause(c, n, hash).0);
  }

  /** Adds the clauses of a formula in order. */
  function AddFormula(c: Checker, clauses: seq<seq<Lit>>, hash: seq<Lit> -> ClauseHash): (r: (Checker, seq<CheckedStep>))
    requires Valid(c)
    ensures Valid(r.0)
    ensures r.0.step == c.step
    ensures r.0.nextClauseId == c.nextClauseId + |r.1|
    ensures ConsecutiveIds(r.1, c.nextClauseId)
    ensures c.unsat ==> r == (c, [])
    ensures !r.0.unsat ==> |r.1| == |clauses|
    decreases |clauses|
  {
    if |clauses| == 0 then
      (c, [])
    else
      var (c1, log1) := AddClause(c, clauses[0], hash);
      var (c2, log2) := AddFormula(c1, clauses[1..], hash);
      ConsecutiveAppend(log1, log2, c.nextClauseId);
      (c2, log1 + log2)
  }

  /** Adding a non-empty formula adds its first clause, then the others. */
  lemma AddFormulaCons(c: Checker, clauses: seq<seq<Lit>>, hash: seq<Lit> -> ClauseHash)
    requires Valid(c) && |clauses| > 0
    ensures AddFormula(c, clauses, hash).0 == AddFormula(AddClause(c, clauses[0], hash).0, clauses[1..], hash).0
  {
  }

  /** Adding a formula conjoins all its clauses to the checker's formula. */
  lemma {:induction false} AddFormulaHolds(alpha: Assignment, c: Checker, clauses: seq<seq<Lit>>, hash: seq<Lit> -> ClauseHash)
    requires Valid(c)
    ensures Holds(alpha, AddFormula(c, clauses, hash).0) <==> Holds(alpha, c) && AllTrue(alpha, clauses)
    decreases |clauses|
  {
    if |clauses| > 0 {
      AddClauseHolds(alpha, c, clauses[0], hash);
      AddFormulaHolds(alpha, AddClause(c, clauses[0], hash).0, clauses[1..], hash);
      AllTrueCons(alpha, clauses);
    }
  }

  // Deleting clauses

  /**
   Deletes one copy of a normalised clause. Units, the empty clause and
   clauses not present cannot be deleted. Returns the clause's id when its
   last copy went; the literal buffer is compacted afterwards if needed.
   */
  function DeleteClause(c: Checker, lits: seq<Lit>, hash: seq<Lit> -> ClauseHash): (r: Result<(Checker, Option<nat>)>)
    requires Valid(c)
    ensures r.Err? <==> |lits| < 2 || CM.Count(Clauses(c), hash(lits), lits) == 0
    ensures r.Err? ==> r.error == InvalidDelete(c.step, lits)
    ensures r.Ok? ==> Valid(r.value.0)
    ensures r.Ok? ==> r.value.0 == c.(store := r.value.0.store)
    ensures r.Ok? ==> CM.Count(Clauses(r.value.0), hash(lits), lits) == CM.Count(Clauses(c), hash(lits), lits) - 1
    ensures r.Ok? ==> forall h', lits' :: h' != hash(lits) || lits' != lits ==>
                        CM.Count(Clauses(r.value.0), h', lits') == CM.Count(Clauses(c), h', lits')
    ensures r.Ok? ==> (r.value.1.Some? <==> CM.Count(Clauses(c), hash(lits), lits) == 1)
    ensures r.Ok? && r.value.1.Some? ==> r.value.1.value == CM.IdOf(Clauses(c), hash(lits), lits)
  {
    if |lits| < 2 then
      Err(InvalidDelete(c.step, lits))
    else
      var f := Clauses(c);
      var h := hash(lits);
      match CS.Delete(c.store, h, lits)
      case None => Err(InvalidDelete(c.step, lits))
      case Some((store', id)) =>
        var i := CM.Find(CM.Bucket(f, h), lits).value;
        assert CM.Remove(f, h, lits).value.0 == CM.RemovedFormula(f, h, i);
        CM.RemoveInvariants(f, h, i, c.nextClauseId);
        Ok((c.(store := CS.CollectGarbage(store')), id))
  }

  /** Deleting a clause keeps every assignment that satisfies the checker's formula. */
  lemma DeleteClauseHolds(alpha: Assignment, c: Checker, lits: seq<Lit>, hash: seq<Lit> -> ClauseHash)
    requires Valid(c) && DeleteClause(c, lits, hash).Ok?
    requires Holds(alpha, c)
    ensures Holds(alpha, DeleteClause(c, lits, hash).value.0)
  {
    RemoveTrue(alpha, Clauses(c), hash(lits), lits);
  }

  /**
   Deleting a non-unit clause right after adding it to a formula that did
   not contain it gives back its id and leaves every clause count as before.
   */
  lemma AddThenDelete(c: Checker, lits: seq<Lit>, hash: seq<Lit> -> ClauseHash)
    requires Valid(c) && !c.unsat
    requires StrictlySorted(lits) && |lits| >= 2
    requires CM.Count(Clauses(c), hash(lits), lits) == 0
    ensures AddClause(c, lits, hash).1 == [AddClauseStep(c.nextClauseId, lits)]
    ensures DeleteClause(AddClause(c, lits, hash).0, lits, hash).Ok?
    ensures DeleteClause(AddClause(c, lits, hash).0, lits, hash).value.1 == Some(c.nextClauseId)
    ensures forall h', lits' :: CM.Count(Clauses(DeleteClause(AddClause(c, lits, hash).0, lits, hash).value.0), h', lits')
                                == CM.Count(Clauses(c), h', lits')
  {
    NormalizeOfNormal(lits);
    var h := hash(lits);
    var c1 := AddClause(c, lits, hash).0;
    assert c1 == StoreClause(c, lits, hash).0;
    var f := Clauses(c);
    var f1 := Clauses(c1);
    assert f1 == CM.Add(f, h, lits, c.nextClauseId).0;
    CM.AddShape(f, h, lits, c.nextClauseId);
    assert CM.Count(f1, h, lits) == 1;
    assert CM.IdOf(f1, h, lits) == c.nextClauseId;
    var r := DeleteClause(c1, lits, hash);
    assert r.Ok?;
    var f2 := Clauses(r.value.0);
    forall h', lits' ensures CM.Count(f2, h', lits') == CM.Count(f, h', lits') {
      if h' != h || lits' != lits {
        assert CM.Count(f1, h', lits') == CM.Count(f, h', lits');
      }
    }
  }

  /** The step reported for a unit conflict, once the proof is complete: the empty clause, from the two conflicting units. */
  function ProcessUnitConflicts(c: Checker): (r: seq<CheckedStep>)
    requires Valid(c)
    ensures c.unitConflict.None? <==> r == []
    ensures r != [] ==> |r| == 1 && r[0].AtClauseStep? && r[0].clause == [] && r[0].id == c.nextClauseId
    ensures r != [] ==> |r[0].propagations| == 2 && forall i :: 0 <= i < 2 ==> r[0].propagations[i] < r[0].id
    ensures c.unitConflict.Some? ==> r[0].propagations == [c.unitConflict.value.0, c.unitConflict.value.1]
  {
    match c.unitConflict
    case None => []
    case Some((a, b)) => [AtClauseStep(c.nextClauseId, [], [a, b])]
  }
}
