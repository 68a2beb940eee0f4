/**
 Checking one proof step.

 A clause addition is checked by reverse unit propagation against the
 checker's units and the clauses with the given hashes, then stored; a
 deletion removes one copy of the clause; a list of unit clauses is checked
 and stored unit by unit, each against the single clause its hash names.
 Every clause is normalised before it is checked, stored or reported.
 */
module StepChecker {
  import opened Options
  import opened Lits
  import opened ProofSteps
  import opened Units
  import opened Semantics
  import opened CK = Checker
  import CM = ClauseMultiset
  import Rup

  /** Runs the propagation check of `lits` and turns its failures into checker errors. */
  function CheckClause(c: Checker, lits: seq<Lit>, hashes: seq<ClauseHash>): (r: Result<seq<nat>>)
    requires Valid(c)
    ensures |hashes| == 0 ==> r == Err(ClauseCheckFailed(c.step, lits))
    ensures |hashes| > 0 && CM.Bucket(Clauses(c), hashes[0]) == [] ==> r == Err(ClauseNotFound(c.step, hashes[0]))
    ensures r.Err? ==> r.error == ClauseCheckFailed(c.step, lits) || r.error.ClauseNotFound?
    ensures r.Err? && r.error.ClauseNotFound? ==>
              r.error.step == c.step && r.error.hash in hashes && CM.Bucket(Clauses(c), r.error.hash) == []
    ensures r.Ok? ==> Rup.CheckClauseWithHashes(c.units, Clauses(c), lits, hashes).result == Rup.Implied(r.value)
    ensures r.Ok? <==> Rup.CheckClauseWithHashes(c.units, Clauses(c), lits, hashes).result.Implied?
    ensures Rup.CheckClauseWithHashes(c.units, Clauses(c), lits, hashes).result.CheckFailed? ==>
              r == Err(ClauseCheckFailed(c.step, lits))
  {
    match Rup.CheckClauseWithHashes(c.units, Clauses(c), lits, hashes).result
    case Implied(trace) => Ok(trace)
    case ClauseNotFound(h) => Err(ClauseNotFound(c.step, h))
    case CheckFailed => Err(ClauseCheckFailed(c.step, lits))
  }

  /** An accepted clause holds under every assignment satisfying the checker's formula. */
  lemma CheckClauseSound(alpha: Assignment, c: Checker, lits: seq<Lit>, hashes: seq<ClauseHash>)
    requires Valid(c) && CheckClause(c, lits, hashes).Ok?
    requires Holds(alpha, c)
    ensures ClauseTrue(alpha, lits)
  {
    Rup.RupSound(alpha, c.units, Clauses(c), lits, hashes);
  }

  /**
   The normalised clause `n` has joined the formula of `c` to give that of
   `c'`: one more stored copy of a clause of two literals or more and
   nothing else changed, a known-true literal (or unsat) for a unit clause,
   unsat for the empty clause.
   */
  ghost predicate Added(c: Checker, c': Checker, n: seq<Lit>, hash: seq<Lit> -> ClauseHash)
    requires Valid(c) && Valid(c')
  {
    && (|n| >= 2 ==>
          && CM.Count(Clauses(c'), hash(n), n) == CM.Count(Clauses(c), hash(n), n) + 1
          && (forall h, lits :: h != hash(n) || lits != n ==> CM.Count(Clauses(c'), h, lits) == CM.Count(Clauses(c), h, lits))
          && c'.units == c.units && c'.unsat == c.unsat)
    && (|n| == 1 ==> c'.store == c.store && Extends(c.units, c'.units) && (c'.unsat || KnownTrue(c'.units, n[0])))
    && (|n| == 0 ==> c'.unsat)
  }

  /** Checks and stores one unit clause; it is reported as an AT step when it was not already known. */
  function CheckUnit(c: Checker, l: Lit, h: ClauseHash): (r: Result<(Checker, seq<CheckedStep>)>)
    requires Valid(c)
    ensures r.Ok? <==> CheckClause(c, [l], [h]).Ok?
    ensures r.Ok? ==> Valid(r.value.0)
    ensures r.Ok? ==> r.value.0.step == c.step && r.value.0.nextClauseId >= c.nextClauseId
    ensures r.Ok? ==> |r.value.1| <= 1
    ensures r.Ok? ==> forall i :: 0 <= i < |r.value.1| ==>
                        r.value.1[i].AtClauseStep? && r.value.1[i].id == c.nextClauseId && r.value.1[i].clause == [l]
    ensures r.Err? ==> r.error == ClauseCheckFailed(c.step, [l]) || r.error == ClauseNotFound(c.step, h)
  {
    var checked := CheckClause(c, [l], [h]);
    if checked.Err? then
      Err(checked.error)
    else
      var stored := StoreUnitClause(c, l);
      Ok((stored.0, if stored.2 then [AtClauseStep(stored.1, [l], checked.value)] else []))
  }

  /**
   An accepted unit clause is true afterwards, unless the checker is unsat;
   it is reported exactly when it was not already true. Known values and
   unsat are kept, and the non-unit clauses are untouched.
   */
  lemma CheckUnitEffect(c: Checker, l: Lit, h: ClauseHash)
    requires Valid(c) && CheckUnit(c, l, h).Ok?
    ensures CheckUnit(c, l, h).value.0.store == c.store
    ensures Extends(c.units, CheckUnit(c, l, h).value.0.units)
    ensures c.unsat ==> CheckUnit(c, l, h).value.0.unsat
    ensures CheckUnit(c, l, h).value.0.unsat || KnownTrue(CheckUnit(c, l, h).value.0.units, l)
    ensures |CheckUnit(c, l, h).value.1| == 1 <==> !KnownTrue(c.units, l)
  {
    StoreUnitClauseEffect(c, l);
  }

  /** A checked unit clause holds under every assignment satisfying the checker's formula, which keeps holding. */
  lemma CheckUnitSound(alpha: Assignment, c: Checker, l: Lit, h: ClauseHash)
    requires Valid(c) && CheckUnit(c, l, h).Ok?
    requires Holds(alpha, c)
    ensures Holds(alpha, CheckUnit(c, l, h).value.0)
  {
    CheckClauseSound(alpha, c, [l], [h]);
    var k :| 0 <= k < 1 && LitTrue(alpha, [l][k]);
    StoreUnitClauseHolds(alpha, c, l);
  }

  /** Every step of `log` is an AT step of a unit clause. */
  predicate UnitSteps(log: seq<CheckedStep>) {
    forall i :: 0 <= i < |log| ==> log[i].AtClauseStep? && |log[i].clause| == 1
  }

  lemma UnitStepsAppend(a: seq<CheckedStep>, b: seq<CheckedStep>)
    requires UnitSteps(a) && UnitSteps(b)
    ensures UnitSteps(a + b)
  {
    assert forall i :: |a| <= i < |a + b| ==> (a + b)[i] == b[i - |a|];
  }

  /** Checks and stores unit clauses in order, stopping at the first that fails. */
  function CheckUnits(c: Checker, units: seq<(Lit, ClauseHash)>): (r: Result<(Checker, seq<CheckedStep>)>)
    requires Valid(c)
    ensures r.Ok? ==> Valid(r.value.0)
    ensures r.Ok? ==> r.value.0.step == c.step && r.value.0.nextClauseId >= c.nextClauseId
    ensures r.Ok? ==> |r.value.1| <= |units|
    ensures r.Ok? ==> UnitSteps(r.value.1)
    decreases |units|
  {
    if |units| == 0 then
      Ok((c, []))
    else
      var first := CheckUnit(c, units[0].0, units[0].1);
      if first.Err? then
        Err(first.error)
      else
        var others := CheckUnits(first.value.0, units[1..]);
        if others.Err? then
          others
        else
          UnitStepsAppend(first.value.1, others.value.1);
          Ok((others.value.0, first.value.1 + others.value.1))
  }

  /**
   After accepted unit clauses every one of them is true, unless the checker
   is unsat; known values and unsat are kept, and the non-unit clauses are
   untouched.
   */
  lemma {:induction false} CheckUnitsEffect(c: Checker, units: seq<(Lit, ClauseHash)>)
    requires Valid(c) && CheckUnits(c, units).Ok?
    ensures var r := CheckUnits(c, units).value.0;
            && r.store == c.store && Extends(c.units, r.units) && (c.unsat ==> r.unsat)
            && UnitsTrue(r.units, r.unsat, units)
    decreases |units|
  {
    if |units| > 0 {
      CheckUnitsCons(c, units);
      var c1 := CheckUnit(c, units[0].0, units[0].1).value.0;
      var r := CheckUnits(c1, units[1..]).value.0;
      CheckUnitEffect(c, units[0].0, units[0].1);
      CheckUnitsEffect(c1, units[1..]);
      ExtendsTrans(c.units, c1.units, r.units);
      UnitsTrueCons(units, c1.units, c1.unsat, r.units, r.unsat);
    }
  }

  /** Every literal of `units` is true in `u`, unless `unsat` holds. */
  predicate UnitsTrue(u: Units, unsat: bool, units: seq<(Lit, ClauseHash)>) {
    forall k :: 0 <= k < |units| ==> unsat || KnownTrue(u, units[k].0)
  }

  /** The first unit made true stays true in an extension that also makes the rest true. */
  lemma UnitsTrueCons(units: seq<(Lit, ClauseHash)>, u1: Units, unsat1: bool, r: Units, unsat: bool)
    requires |units| > 0 && (unsat1 || KnownTrue(u1, units[0].0))
    requires Extends(u1, r) && (unsat1 ==> unsat)
    requires UnitsTrue(r, unsat, units[1..])
    ensures UnitsTrue(r, unsat, units)
  {
    ExtendsLit(u1, r, units[0].0);
    forall k | 1 <= k < |units| ensures unsat || KnownTrue(r, units[k].0) {
      assert units[k] == units[1..][k - 1];
    }
  }


  /** Checking a non-empty list of unit clauses checks the first, then the others: it stops at the first rejected unit. */
  lemma CheckUnitsCons(c: Checker, units: seq<(Lit, ClauseHash)>)
    requires Valid(c) && |units| > 0
    ensures CheckUnit(c, units[0].0, units[0].1).Err? ==>
              CheckUnits(c, units) == Err(CheckUnit(c, units[0].0, units[0].1).error)
    ensures CheckUnit(c, units[0].0, units[0].1).Ok? ==>
              var c1 := CheckUnit(c, units[0].0, units[0].1).value.0;
              && (CheckUnits(c, units).Err? <==> CheckUnits(c1, units[1..]).Err?)
              && (CheckUnits(c, units).Err? ==> CheckUnits(c, units).error == CheckUnits(c1, units[1..]).error)
              && (CheckUnits(c, units).Ok? ==> CheckUnits(c, units).value.0 == CheckUnits(c1, units[1..]).value.0)
  {
  }

  /** Checking unit clauses keeps every assignment that satisfies the checker's formula. */
  lemma {:induction false} CheckUnitsSound(alpha: Assignment, c: Checker, units: seq<(Lit, ClauseHash)>)
    requires Valid(c) && CheckUnits(c, units).Ok?
    requires Holds(alpha, c)
    ensures Holds(alpha, CheckUnits(c, units).value.0)
    decreases |units|
  {
    if |units| > 0 {
      CheckUnitSound(alpha, c, units[0].0, units[0].1);
      CheckUnitsSound(alpha, CheckUnit(c, units[0].0, units[0].1).value.0, units[1..]);
    }
  }

  /** What an AT clause step reports: at most one step, adding `lits` under the id `id`. */
  predicate AtClauseLog(log: seq<CheckedStep>, id: nat, lits: seq<Lit>) {
    |log| <= 1 && forall i :: 0 <= i < |log| ==> log[i].AtClauseStep? && log[i].id == id && log[i].clause == lits
  }

  /** Checks an AT clause step: the normalised clause must be implied by propagation, and is then stored. */
  function CheckAtClause(c: Checker, clause: seq<Lit>, hashes: seq<ClauseHash>, hash: seq<Lit> -> ClauseHash)
    : (r: Result<(Checker, seq<CheckedStep>)>)
    requires Valid(c)
    ensures r.Ok? ==> Valid(r.value.0)
    ensures r.Ok? ==> r.value.0.step == c.step && r.value.0.nextClauseId >= c.nextClauseId
    ensures r.Ok? ==> AtClauseLog(r.value.1, c.nextClauseId, Normalize(clause))
    ensures |hashes| == 0 ==> r == Err(ClauseCheckFailed(c.step, Normalize(clause)))
    ensures |hashes| > 0 && CM.Bucket(Clauses(c), hashes[0]) == [] ==> r == Err(ClauseNotFound(c.step, hashes[0]))
    ensures r.Ok? <==> CheckClause(c, Normalize(clause), hashes).Ok?
    ensures r.Err? ==> r.error == CheckClause(c, Normalize(clause), hashes).error
  {
    var lits := Normalize(clause);
    var checked := CheckClause(c, lits, hashes);
    if checked.Err? then
      Err(checked.error)
    else
      var stored := StoreClause(c, lits, hash);
      var log := if stored.2 then [AtClauseStep(stored.1, lits, checked.value)] else [];
      assert stored.2 ==> stored.1 == c.nextClauseId;
      Ok((stored.0, log))
  }

  /** An accepted AT clause is added to the checker's formula in its normalised form. */
  lemma CheckAtClauseAdds(c: Checker, clause: seq<Lit>, hashes: seq<ClauseHash>, hash: seq<Lit> -> ClauseHash)
    requires Valid(c) && CheckAtClause(c, clause, hashes, hash).Ok?
    ensures Added(c, CheckAtClause(c, clause, hashes, hash).value.0, Normalize(clause), hash)
  {
    StoreClauseAdds(c, Normalize(clause), hash);
  }

  /** Storing a normalised clause adds it to the checker's formula. */
  lemma StoreClauseAdds(c: Checker, n: seq<Lit>, hash: seq<Lit> -> ClauseHash)
    requires Valid(c)
    ensures Added(c, StoreClause(c, n, hash).0, n, hash)
  {
    if |n| == 1 {
      assert StoreClause(c, n, hash) == StoreUnitClause(c, n[0]);
    }
  }

  /**
   One copy of the normalised clause `n` has left the formula of `c` to give
   that of `c'`; no other clause and no unit changed.
   */
  ghost predicate Deleted(c: Checker, c': Checker, n: seq<Lit>, hash: seq<Lit> -> ClauseHash)
    requires Valid(c) && Valid(c')
  {
    && CM.Count(Clauses(c'), hash(n), n) == CM.Count(Clauses(c), hash(n), n) - 1
    && (forall h, lits :: h != hash(n) || lits != n ==> CM.Count(Clauses(c'), h, lits) == CM.Count(Clauses(c), h, lits))
    && c'.units == c.units && c'.unsat == c.unsat
  }

  /**
   Checks a deletion step: one copy of the normalised clause is removed. A
   step naming the clause's id is reported exactly when its last copy went.
   */
  function CheckDelete(c: Checker, clause: seq<Lit>, hash: seq<Lit> -> ClauseHash): (r: Result<(Checker, seq<CheckedStep>)>)
    requires Valid(c)
    ensures r.Ok? ==> Valid(r.value.0)
    ensures r.Ok? ==> r.value.0.step == c.step && r.value.0.nextClauseId == c.nextClauseId
    ensures r.Ok? ==> r.value.0.units == c.units && r.value.0.unsat == c.unsat
    ensures r.Ok? ==> CM.Count(Clauses(r.value.0), hash(Normalize(clause)), Normalize(clause))
                      == CM.Count(Clauses(c), hash(Normalize(clause)), Normalize(clause)) - 1
    ensures r.Ok? ==> forall h, lits :: h != hash(Normalize(clause)) || lits != Normalize(clause) ==>
                        CM.Count(Clauses(r.value.0), h, lits) == CM.Count(Clauses(c), h, lits)
    ensures r.Ok? ==> |r.value.1| <= 1
    ensures r.Ok? ==> (|r.value.1| == 1 <==> CM.Count(Clauses(c), hash(Normalize(clause)), Normalize(clause)) == 1)
    ensures r.Ok? && |r.value.1| == 1 ==>
              r.value.1[0] == DeleteClauseStep(CM.IdOf(Clauses(c), hash(Normalize(clause)), Normalize(clause)), Normalize(clause))
    ensures r.Err? <==> |Normalize(clause)| < 2 || CM.Count(Clauses(c), hash(Normalize(clause)), Normalize(clause)) == 0
    ensures r.Err? ==> r.error == InvalidDelete(c.step, Normalize(clause))
  {
    var lits := Normalize(clause);
    match CK.DeleteClause(c, lits, hash)
    case Err(e) => Err(e)
    case Ok(d) => Ok((d.0, if d.1.Some? then [DeleteClauseStep(d.1.value, lits)] else []))
  }

  /**
   Checks one proof step. On success the step number is unchanged, ids only
   grow, and every reported clause is sorted and free of duplicates. An AT
   clause is accepted exactly when its normalised form passes the
   propagation check, and is then added to the formula; a deletion removes
   one copy; accepted unit clauses are all true afterwards, unless the
   checker became unsat.
   */
  function CheckStep(c: Checker, step: ProofStep, hash: seq<Lit> -> ClauseHash): (r: Result<(Checker, seq<CheckedStep>)>)
    requires Valid(c)
    ensures r.Ok? ==> Valid(r.value.0)
    ensures r.Ok? ==> r.value.0.step == c.step && r.value.0.nextClauseId >= c.nextClauseId
    ensures r.Ok? ==> forall i :: 0 <= i < |r.value.1| ==> StrictlySorted(r.value.1[i].clause)
    ensures r.Ok? && step.AtClause? ==> AtClauseLog(r.value.1, c.nextClauseId, Normalize(step.clause))
    ensures step.AtClause? && |step.propagationHashes| == 0 ==>
              r == Err(ClauseCheckFailed(c.step, Normalize(step.clause)))
    ensures step.AtClause? && |step.propagationHashes| > 0 && CM.Bucket(Clauses(c), step.propagationHashes[0]) == [] ==>
              r == Err(ClauseNotFound(c.step, step.propagationHashes[0]))
    ensures step.DeleteClause? ==>
              (r.Err? <==> |Normalize(step.clause)| < 2 ||
                           CM.Count(Clauses(c), hash(Normalize(step.clause)), Normalize(step.clause)) == 0)
    ensures step.DeleteClause? && r.Err? ==> r.error == InvalidDelete(c.step, Normalize(step.clause))
  {
    match step
    case AtClause(clause, hashes) => CheckAtClause(c, clause, hashes, hash)
    case DeleteClause(clause) => CheckDelete(c, clause, hash)
    case UnitClauses(units) => CheckUnits(c, units)
  }

  /**
   What an accepted step does to the formula: an AT clause is accepted
   exactly when its normalised form passes the propagation check, and is
   then added; a deletion removes one copy; accepted unit clauses are all
   true afterwards, unless the checker became unsat, and the non-unit clauses
   stay as they were.
   */
  lemma CheckStepEffect(c: Checker, step: ProofStep, hash: seq<Lit> -> ClauseHash)
    requires Valid(c)
    ensures step.AtClause? ==> (CheckStep(c, step, hash).Ok? <==> CheckClause(c, Normalize(step.clause), step.propagationHashes).Ok?)
    ensures step.AtClause? && CheckStep(c, step, hash).Ok? ==> Added(c, CheckStep(c, step, hash).value.0, Normalize(step.clause), hash)
    ensures step.DeleteClause? && CheckStep(c, step, hash).Ok? ==> Deleted(c, CheckStep(c, step, hash).value.0, Normalize(step.clause), hash)
    ensures step.DeleteClause? && CheckStep(c, step, hash).Ok? ==>
              var n := Normalize(step.clause);
              var log := CheckStep(c, step, hash).value.1;
              && (|log| == 1 <==> CM.Count(Clauses(c), hash(n), n) == 1)
              && (|log| == 1 ==> log == [DeleteClauseStep(CM.IdOf(Clauses(c), hash(n), n), n)])
    ensures step.UnitClauses? && CheckStep(c, step, hash).Ok? ==>
              && CheckStep(c, step, hash).value.0.store == c.store
              && Extends(c.units, CheckStep(c, step, hash).value.0.units)
              && UnitsTrue(CheckStep(c, step, hash).value.0.units, CheckStep(c, step, hash).value.0.unsat, step.units)
  {
    match step
    case AtClause(clause, hashes) =>
      if CheckAtClause(c, clause, hashes, hash).Ok? {
        CheckAtClauseAdds(c, clause, hashes, hash);
      }
    case DeleteClause(clause) =>
    case UnitClauses(units) =>
      if CheckUnits(c, units).Ok? {
        CheckUnitsEffect(c, units);
      }
  }

  /** An accepted AT clause step keeps every assignment that satisfies the checker's formula. */
  lemma CheckAtClauseSound(alpha: Assignment, c: Checker, clause: seq<Lit>, hashes: seq<ClauseHash>, hash: seq<Lit> -> ClauseHash)
    requires Valid(c) && CheckAtClause(c, clause, hashes, hash).Ok?
    requires Holds(alpha, c)
    ensures Holds(alpha, CheckAtClause(c, clause, hashes, hash).value.0)
  {
    var lits := Normalize(clause);
    CheckClauseSound(alpha, c, lits, hashes);
    StoreClauseHolds(alpha, c, lits, hash);
  }

  /** A deletion step keeps every assignment that satisfies the checker's formula. */
  lemma CheckDeleteSound(alpha: Assignment, c: Checker, clause: seq<Lit>, hash: seq<Lit> -> ClauseHash)
    requires Valid(c) && CheckDelete(c, clause, hash).Ok?
    requires Holds(alpha, c)
    ensures Holds(alpha, CheckDelete(c, clause, hash).value.0)
  {
    DeleteClauseHolds(alpha, c, Normalize(clause), hash);
  }

  /** Every step the checker accepts keeps every assignment that satisfies its formula. */
  lemma CheckStepSound(alpha: Assignment, c: Checker, step: ProofStep, hash: seq<Lit> -> ClauseHash)
    requires Valid(c) && CheckStep(c, step, hash).Ok?
    requires Holds(alpha, c)
    ensures Holds(alpha, CheckStep(c, step, hash).value.0)
  {
    match step
    case AtClause(clause, hashes) =>
      assert CheckStep(c, step, hash) == CheckAtClause(c, clause, hashes, hash);
      CheckAtClauseSound(alpha, c, clause, hashes, hash);
    case DeleteClause(clause) =>
      assert CheckStep(c, step, hash) == CheckDelete(c, clause, hash);
      CheckDeleteSound(alpha, c, clause, hash);
    case UnitClauses(units) =>
      assert CheckStep(c, step, hash) == CheckUnits(c, units);
      CheckUnitsSound(alpha, c, units);
  }
}
