/**
 The reverse unit propagation check of a clause.

 A clause is accepted when assuming all its literals false and propagating
 the clauses with the given hashes, in order, runs into a clause whose
 literals are all false. Propagation visits each candidate clause once: a
 clause with a true literal is skipped, a clause with exactly one unassigned
 literal makes it true, and a clause with none left is the conflict. Every
 assignment made during the check is recorded on the trail and undone
 afterwards, except when a hash names no stored clause: the check then stops
 at once and leaves its assignments in place.

 The trace lists the ids of the clauses used, in the order they were used:
 unit clauses of the formula whose literals were read as false, clauses that
 propagated, and last the conflicting clause.
 */
module Rup {
  import opened Options
  import opened Lits
  import opened ProofSteps
  import opened Units
  import opened Semantics
  import CM = ClauseMultiset

  datatype RupState = RupState(units: Units, trail: Trail, trace: seq<nat>)

  /** Gives the variable of `l` the unit `unit`, recording its previous unit on the trail. */
  function Push(st: RupState, l: Lit, unit: UnitClause): (r: RupState)
    ensures Undo(r.units, r.trail) == Undo(st.units, st.trail)
  {
    UndoRecorded(st.units, st.trail, l, unit);
    RupState(st.units[Var(l) := unit], st.trail + [(l, Get(st.units, Var(l)))], st.trace)
  }

  /** The variables of the literals `lits`. */
  function Vars(lits: seq<Lit>): set<nat> {
    set k | 0 <= k < |lits| :: Var(lits[k])
  }

  lemma VarsCons(lits: seq<Lit>)
    requires |lits| > 0
    ensures Vars(lits) == {Var(lits[0])} + Vars(lits[1..])
  {
    forall v | v in Vars(lits) ensures v == Var(lits[0]) || v in Vars(lits[1..]) {
      var k :| 0 <= k < |lits| && Var(lits[k]) == v;
      if k > 0 {
        assert lits[1..][k - 1] == lits[k];
      }
    }
    forall v | v in Vars(lits[1..]) ensures v in Vars(lits) {
      var k :| 0 <= k < |lits[1..]| && Var(lits[1..][k]) == v;
      assert lits[k + 1] == lits[1..][k];
    }
  }

  /** No two literals of `lits` are complementary. */
  predicate Consistent(lits: seq<Lit>) {
    forall i, j :: 0 <= i < |lits| && 0 <= j < |lits| && Var(lits[i]) == Var(lits[j]) ==> lits[i] == lits[j]
  }

  /** Assumes every literal of the clause under check false, overwriting what the units knew of its variables. */
  function AssumeFalse(st: RupState, lits: seq<Lit>): (r: RupState)
    ensures Undo(r.units, r.trail) == Undo(st.units, st.trail)
    ensures r.trace == st.trace
    decreases |lits|
  {
    if |lits| == 0 then
      st
    else
      AssumeFalse(Push(st, lits[0], UnitClause(InClause, IsNegative(lits[0]))), lits[1..])
  }

  /**
   Variables outside the clause keep their units, and when the clause has
   no complementary literals all its literals end up false.
   */
  lemma {:induction false} AssumeFalseSpec(st: RupState, lits: seq<Lit>)
    ensures forall v :: v !in Vars(lits) ==> Get(AssumeFalse(st, lits).units, v) == Get(st.units, v)
    ensures Consistent(lits) ==> forall k :: 0 <= k < |lits| ==> KnownFalse(AssumeFalse(st, lits).units, lits[k])
    decreases |lits|
  {
    if |lits| > 0 {
      var l := lits[0];
      var st' := Push(st, l, UnitClause(InClause, IsNegative(l)));
      var r := AssumeFalse(st', lits[1..]);
      assert AssumeFalse(st, lits) == r;
      AssumeFalseSpec(st', lits[1..]);
      VarsCons(lits);
      if Consistent(lits) {
        assert forall k :: 1 <= k < |lits| ==> lits[k] == lits[1..][k - 1];
        assert Consistent(lits[1..]);
        if Var(l) in Vars(lits[1..]) {
          var k :| 0 <= k < |lits[1..]| && Var(lits[1..][k]) == Var(l);
          assert lits[1..][k] == lits[k + 1] == l;
        } else {
          assert Get(r.units, Var(l)) == Get(st'.units, Var(l));
        }
      }
    }
  }

  /** Some literal of `lits` is true under the units. */
  predicate SomeTrue(u: Units, lits: seq<Lit>) {
    exists k :: 0 <= k < |lits| && KnownTrue(u, lits[k])
  }

  /** Every literal of `lits` is false under the units. */
  predicate AllFalse(u: Units, lits: seq<Lit>) {
    forall k :: 0 <= k < |lits| ==> KnownFalse(u, lits[k])
  }

  /** The literals of `lits` whose variable has no known value, in order. */
  function Unassigned(u: Units, lits: seq<Lit>): (r: seq<Lit>)
    ensures forall x :: x in r ==> x in lits && LitValue(u, x).None?
    decreases |lits|
  {
    if |lits| == 0 then [] else (if LitValue(u, lits[0]).None? then [lits[0]] else []) + Unassigned(u, lits[1..])
  }

  /** The clause is unit under the units: no literal is true and exactly one is unassigned. */
  predicate IsUnit(u: Units, lits: seq<Lit>) {
    !SomeTrue(u, lits) && |Unassigned(u, lits)| == 1
  }

  lemma SomeTrueCons(u: Units, lits: seq<Lit>)
    requires |lits| > 0
    ensures SomeTrue(u, lits) <==> KnownTrue(u, lits[0]) || SomeTrue(u, lits[1..])
  {
    assert forall k :: 1 <= k < |lits| ==> lits[k] == lits[1..][k - 1];
    if SomeTrue(u, lits[1..]) {
      var k :| 0 <= k < |lits[1..]| && KnownTrue(u, lits[1..][k]);
      assert KnownTrue(u, lits[k + 1]);
    }
  }

  /** Whether a clause has a true literal, and its unassigned literals, depend only on the values of the units. */
  lemma {:induction false} ScanSameValues(u: Units, u': Units, lits: seq<Lit>)
    requires SameValues(u, u')
    ensures SomeTrue(u, lits) <==> SomeTrue(u', lits)
    ensures Unassigned(u, lits) == Unassigned(u', lits)
    decreases |lits|
  {
    if |lits| > 0 {
      SameValuesLit(u, u', lits[0]);
      SomeTrueCons(u, lits);
      SomeTrueCons(u', lits);
      ScanSameValues(u, u', lits[1..]);
    }
  }

  /** A clause is falsified exactly when it has neither a true nor an unassigned literal. */
  lemma {:induction false} AllFalseScan(u: Units, lits: seq<Lit>)
    ensures AllFalse(u, lits) <==> !SomeTrue(u, lits) && |Unassigned(u, lits)| == 0
    decreases |lits|
  {
    if |lits| > 0 {
      SomeTrueCons(u, lits);
      AllFalseScan(u, lits[1..]);
      assert forall k :: 1 <= k < |lits| ==> lits[k] == lits[1..][k - 1];
      if !SomeTrue(u, lits) && |Unassigned(u, lits)| == 0 {
        assert forall k :: 0 <= k < |lits[1..]| ==> KnownFalse(u, lits[1..][k]);
      }
    }
  }

  /** A falsified clause stays falsified when the units grow. */
  lemma AllFalseExtends(u: Units, u': Units, lits: seq<Lit>)
    requires Extends(u, u') && AllFalse(u, lits)
    ensures AllFalse(u', lits)
  {
    forall k | 0 <= k < |lits| ensures KnownFalse(u', lits[k]) {
      ExtendsLit(u, u', lits[k]);
    }
  }

  datatype Scan =
    /** A literal of the clause is true. */
    | Satisfied(st: RupState)
    /** No literal is true; `count` literals are unassigned and `unassigned` is the last of them. */
    | Scanned(st: RupState, count: nat, unassigned: Option<Lit>)

  /** Overwriting the unit of a false literal's variable by another unit making it false keeps the values. */
  lemma RelabelFalse(st: RupState, l: Lit, id: UnitId)
    requires KnownFalse(st.units, l)
    ensures SameValues(st.units, Push(st, l, UnitClause(id, IsNegative(l))).units)
  {
  }

  /**
   Reads the literals of a candidate clause. A literal made false by a unit
   clause of the formula is rewritten as a propagation of the trace, and the
   unit clause's id is appended to the trace.
   */
  function ScanLits(st: RupState, lits: seq<Lit>, count: nat, unassigned: Option<Lit>): (r: Scan)
    ensures Undo(r.st.units, r.st.trail) == Undo(st.units, st.trail)
    ensures st.trace <= r.st.trace
    decreases |lits|
  {
    if |lits| == 0 then
      Scanned(st, count, unassigned)
    else
      match LitValue(st.units, lits[0])
      case Some((true, _)) => Satisfied(st)
      case Some((false, unit)) =>
        var st' :=
          if unit.id.Global? then
            Push(st, lits[0], UnitClause(TracePos(|st.trace|), IsNegative(lits[0]))).(trace := st.trace + [unit.id.id])
          else
            st;
        ScanLits(st', lits[1..], count, unassigned)
      case None => ScanLits(st, lits[1..], count + 1, Some(lits[0]))
  }

  /**
   A scan is satisfied exactly when a literal is true under the units;
   otherwise it counts the unassigned literals and keeps the last of them.
   The values of the units stay the same.
   */
  lemma {:induction false} ScanClassifies(st: RupState, lits: seq<Lit>, count: nat, unassigned: Option<Lit>)
    ensures SameValues(st.units, ScanLits(st, lits, count, unassigned).st.units)
    ensures ScanLits(st, lits, count, unassigned).Satisfied? <==> SomeTrue(st.units, lits)
    ensures ScanLits(st, lits, count, unassigned).Scanned? ==>
              ScanLits(st, lits, count, unassigned).count == count + |Unassigned(st.units, lits)|
    ensures ScanLits(st, lits, count, unassigned).Scanned? ==>
              ScanLits(st, lits, count, unassigned).unassigned
              == if |Unassigned(st.units, lits)| == 0 then unassigned else Some(Last(Unassigned(st.units, lits)))
    decreases |lits|
  {
    if |lits| > 0 {
      SomeTrueCons(st.units, lits);
      match LitValue(st.units, lits[0])
      case Some((true, _)) =>
      case Some((false, unit)) =>
        var st' :=
          if unit.id.Global? then
            Push(st, lits[0], UnitClause(TracePos(|st.trace|), IsNegative(lits[0]))).(trace := st.trace + [unit.id.id])
          else
            st;
        if unit.id.Global? {
          RelabelFalse(st, lits[0], TracePos(|st.trace|));
        }
        ScanSameValues(st.units, st'.units, lits[1..]);
        ScanClassifies(st', lits[1..], count, unassigned);
        assert ScanLits(st, lits, count, unassigned) == ScanLits(st', lits[1..], count, unassigned);
        assert Unassigned(st.units, lits) == Unassigned(st.units, lits[1..]);
        SameValuesTrans(st.units, st'.units, ScanLits(st', lits[1..], count, unassigned).st.units);
      case None =>
        ScanClassifies(st, lits[1..], count + 1, Some(lits[0]));
        assert ScanLits(st, lits, count, unassigned) == ScanLits(st, lits[1..], count + 1, Some(lits[0]));
        assert Unassigned(st.units, lits) == [lits[0]] + Unassigned(st.units, lits[1..]);
    }
  }

  datatype Step = Conflict(st: RupState) | Continue(st: RupState)

  /** Propagates one candidate clause. */
  function CheckCandidate(st: RupState, e: CM.Entry): (r: Step)
    ensures Undo(r.st.units, r.st.trail) == Undo(st.units, st.trail)
    ensures st.trace <= r.st.trace
    ensures r.Conflict? ==> |r.st.trace| > 0 && Last(r.st.trace) == e.id
  {
    match ScanLits(st, e.lits, 0, None)
    case Satisfied(st') => Continue(st')
    case Scanned(st', count, unassigned) =>
      if unassigned.None? then
        Conflict(st'.(trace := st'.trace + [e.id]))
      else if count == 1 then
        var l := unassigned.value;
        var st'' := Push(st', l, UnitClause(TracePos(|st'.trace|), IsPositive(l)));
        Continue(st''.(trace := st''.trace + [e.id]))
      else
        Continue(st')
  }

  /**
   Unit propagation by one clause, on values alone: a unit clause makes its
   one unassigned literal true and any other clause changes nothing. The
   unit's id is immaterial here, as `SameValues` ignores ids.
   */
  function PropagateOne(u: Units, lits: seq<Lit>): Units {
    if IsUnit(u, lits) then
      var l := Unassigned(u, lits)[0];
      u[Var(l) := UnitClause(InClause, IsPositive(l))]
    else
      u
  }

  /** Unit propagation by the clauses of `b`, one after another. */
  function Propagated(u: Units, b: seq<CM.Entry>): Units
    decreases |b|
  {
    if |b| == 0 then u else Propagated(PropagateOne(u, b[0].lits), b[1..])
  }

  /**
   Unit propagation through the clauses of `b` in order reaches a clause that
   is all false: the first clause is, or the rest conflict once it has
   propagated.
   */
  ghost predicate ConflictsIn(u: Units, b: seq<CM.Entry>)
    decreases |b|
  {
    |b| > 0 && (AllFalse(u, b[0].lits) || ConflictsIn(PropagateOne(u, b[0].lits), b[1..]))
  }

  /**
   A candidate conflicts exactly when the units falsify it, and when it is
   unit its unassigned literal is made true. Otherwise the values of the
   units do not change; they are never withdrawn. A candidate that does not
   conflict leaves the values `PropagateOne` gives: a unit clause assigns the
   variable of its unassigned literal and nothing else.
   */
  lemma CandidateEffect(st: RupState, e: CM.Entry)
    ensures Extends(st.units, CheckCandidate(st, e).st.units)
    ensures CheckCandidate(st, e).Conflict? <==> AllFalse(st.units, e.lits)
    ensures CheckCandidate(st, e).Conflict? ==> AllFalse(CheckCandidate(st, e).st.units, e.lits)
    ensures IsUnit(st.units, e.lits) ==> KnownTrue(CheckCandidate(st, e).st.units, Unassigned(st.units, e.lits)[0])
    ensures !IsUnit(st.units, e.lits) ==> SameValues(st.units, CheckCandidate(st, e).st.units)
    ensures CheckCandidate(st, e).Continue? ==> SameValues(PropagateOne(st.units, e.lits), CheckCandidate(st, e).st.units)
  {
    AllFalseScan(st.units, e.lits);
    ScanClassifies(st, e.lits, 0, None);
    match ScanLits(st, e.lits, 0, None)
    case Satisfied(st') =>
    case Scanned(st', count, unassigned) =>
      if unassigned.None? {
        AllFalseExtends(st.units, st'.units, e.lits);
      } else if count == 1 {
        var l := unassigned.value;
        assert l in Unassigned(st.units, e.lits);
        assert l == Unassigned(st.units, e.lits)[0];
        SameValuesUpdate(st.units, st'.units, Var(l), UnitClause(InClause, IsPositive(l)),
                         UnitClause(TracePos(|st'.trace|), IsPositive(l)));
      }
  }

  /** Propagates the clauses of one bucket in order, stopping at a conflict. */
  function CheckCandidates(st: RupState, b: seq<CM.Entry>): (r: Step)
    ensures Undo(r.st.units, r.st.trail) == Undo(st.units, st.trail)
    ensures st.trace <= r.st.trace
    ensures r.Conflict? ==> |r.st.trace| > 0 && exists j :: 0 <= j < |b| && b[j].id == Last(r.st.trace)
    decreases |b|
  {
    if |b| == 0 then
      Continue(st)
    else
      match CheckCandidate(st, b[0])
      case Conflict(st') => Conflict(st')
      case Continue(st') =>
        var r := CheckCandidates(st', b[1..]);
        assert r.Conflict? ==> exists j :: 1 <= j < |b| && b[j].id == Last(r.st.trace) by {
          if r.Conflict? {
            var j :| 0 <= j < |b[1..]| && b[1..][j].id == Last(r.st.trace);
            assert b[j + 1] == b[1..][j];
          }
        }
        r
  }

  /**
   A clause of the bucket falsified by the units at the start always ends
   the bucket in a conflict, and a conflict is with a clause of the bucket
   that the final units falsify. Values are never withdrawn.
   */
  lemma {:induction false} CandidatesEffect(st: RupState, b: seq<CM.Entry>)
    ensures Extends(st.units, CheckCandidates(st, b).st.units)
    ensures (exists j :: 0 <= j < |b| && AllFalse(st.units, b[j].lits)) ==> CheckCandidates(st, b).Conflict?
    ensures CheckCandidates(st, b).Conflict? ==>
              exists j :: 0 <= j < |b| && b[j].id == Last(CheckCandidates(st, b).st.trace)
                          && AllFalse(CheckCandidates(st, b).st.units, b[j].lits)
    decreases |b|
  {
    if |b| > 0 {
      CandidateEffect(st, b[0]);
      var st' := CheckCandidate(st, b[0]).st;
      if CheckCandidate(st, b[0]).Continue? {
        var r := CheckCandidates(st', b[1..]);
        assert CheckCandidates(st, b) == r;
        CandidatesEffect(st', b[1..]);
        ExtendsTrans(st.units, st'.units, r.st.units);
        assert forall j :: 1 <= j < |b| ==> b[j] == b[1..][j - 1];
        if j :| 0 <= j < |b| && AllFalse(st.units, b[j].lits) {
          AllFalseExtends(st.units, st'.units, b[j].lits);
          assert AllFalse(st'.units, b[1..][j - 1].lits);
        }
        if r.Conflict? {
          var j :| 0 <= j < |b[1..]| && b[1..][j].id == Last(r.st.trace) && AllFalse(r.st.units, b[1..][j].lits);
          assert b[j + 1] == b[1..][j];
        }
      }
    }
  }

  lemma PropagateOneSameValues(u: Units, u': Units, lits: seq<Lit>)
    requires SameValues(u, u')
    ensures SameValues(PropagateOne(u, lits), PropagateOne(u', lits))
  {
    ScanSameValues(u, u', lits);
    if IsUnit(u, lits) {
      var l := Unassigned(u, lits)[0];
      SameValuesUpdate(u, u', Var(l), UnitClause(InClause, IsPositive(l)), UnitClause(InClause, IsPositive(l)));
    }
  }

  /** Propagation depends on the values of the units only. */
  lemma {:induction false} PropagatedSameValues(u: Units, u': Units, b: seq<CM.Entry>)
    requires SameValues(u, u')
    ensures SameValues(Propagated(u, b), Propagated(u', b))
    decreases |b|
  {
    if |b| > 0 {
      PropagateOneSameValues(u, u', b[0].lits);
      PropagatedSameValues(PropagateOne(u, b[0].lits), PropagateOne(u', b[0].lits), b[1..]);
    }
  }

  lemma AllFalseSameValues(u: Units, u': Units, lits: seq<Lit>)
    requires SameValues(u, u')
    ensures AllFalse(u, lits) <==> AllFalse(u', lits)
  {
    forall k | 0 <= k < |lits| {
      SameValuesLit(u, u', lits[k]);
    }
  }

  lemma {:induction false} ConflictsInSameValues(u: Units, u': Units, b: seq<CM.Entry>)
    requires SameValues(u, u')
    ensures ConflictsIn(u, b) <==> ConflictsIn(u', b)
    decreases |b|
  {
    if |b| > 0 {
      AllFalseSameValues(u, u', b[0].lits);
      PropagateOneSameValues(u, u', b[0].lits);
      ConflictsInSameValues(PropagateOne(u, b[0].lits), PropagateOne(u', b[0].lits), b[1..]);
    }
  }

  lemma PropagatedPrefix(u: Units, b: seq<CM.Entry>, k: nat)
    requires 0 < k <= |b|
    ensures Propagated(u, b[..k]) == Propagated(PropagateOne(u, b[0].lits), b[1..][..k - 1])
  {
    assert b[..k][0] == b[0];
    assert b[..k][1..] == b[1..][..k - 1];
  }

  /**
   A bucket conflicts exactly when some clause of it is all false under the
   values that propagating the clauses before it gives.
   */
  lemma {:induction false} ConflictsInExists(u: Units, b: seq<CM.Entry>)
    ensures ConflictsIn(u, b) <==> exists k :: 0 <= k < |b| && AllFalse(Propagated(u, b[..k]), b[k].lits)
    decreases |b|
  {
    if |b| > 0 {
      var p := PropagateOne(u, b[0].lits);
      ConflictsInExists(p, b[1..]);
      assert b[..0] == [];
      if ConflictsIn(p, b[1..]) {
        var k :| 0 <= k < |b[1..]| && AllFalse(Propagated(p, b[1..][..k]), b[1..][k].lits);
        PropagatedPrefix(u, b, k + 1);
        assert b[1..][k] == b[k + 1];
        assert AllFalse(Propagated(u, b[..k + 1]), b[k + 1].lits);
      }
      if k :| 0 < k < |b| && AllFalse(Propagated(u, b[..k]), b[k].lits) {
        PropagatedPrefix(u, b, k);
        assert b[k] == b[1..][k - 1];
        assert AllFalse(Propagated(p, b[1..][..k - 1]), b[1..][k - 1].lits);
      }
    }
  }

  /**
   Propagating a bucket conflicts exactly when unit propagation through its
   clauses, in order, reaches a clause that is all false; when it does not,
   the units end with the values unit propagation gives.
   */
  lemma {:induction false} CandidatesPropagate(st: RupState, b: seq<CM.Entry>)
    ensures CheckCandidates(st, b).Conflict? <==> ConflictsIn(st.units, b)
    ensures CheckCandidates(st, b).Continue? ==> SameValues(Propagated(st.units, b), CheckCandidates(st, b).st.units)
    decreases |b|
  {
    if |b| > 0 {
      CandidateEffect(st, b[0]);
      if CheckCandidate(st, b[0]).Continue? {
        var p := PropagateOne(st.units, b[0].lits);
        var st' := CheckCandidate(st, b[0]).st;
        var r := CheckCandidates(st', b[1..]);
        assert CheckCandidates(st, b) == r;
        CandidatesPropagate(st', b[1..]);
        ConflictsInSameValues(p, st'.units, b[1..]);
        if r.Continue? {
          PropagatedSameValues(p, st'.units, b[1..]);
          SameValuesTrans(Propagated(p, b[1..]), Propagated(st'.units, b[1..]), r.st.units);
        }
      }
    }
  }

  datatype Propagation =
    | Found(st: RupState)
    | NotFound(st: RupState, hash: ClauseHash)
    | Exhausted(st: RupState)

  /** Some clause with one of the given hashes is falsified by the units. */
  predicate FalsifiedIn(u: Units, f: CM.Formula, hashes: seq<ClauseHash>) {
    exists i, j :: 0 <= i < |hashes| && 0 <= j < |CM.Bucket(f, hashes[i])| && AllFalse(u, CM.Bucket(f, hashes[i])[j].lits)
  }

  /** `id` is the id of a clause with one of the given hashes that the units falsify. */
  predicate ConflictIn(u: Units, f: CM.Formula, hashes: seq<ClauseHash>, id: nat) {
    exists i, j :: 0 <= i < |hashes| && 0 <= j < |CM.Bucket(f, hashes[i])|
                   && CM.Bucket(f, hashes[i])[j].id == id && AllFalse(u, CM.Bucket(f, hashes[i])[j].lits)
  }

  /** Every hash names at least one stored clause. */
  predicate AllHashesKnown(f: CM.Formula, hashes: seq<ClauseHash>) {
    forall i :: 0 <= i < |hashes| ==> CM.Bucket(f, hashes[i]) != []
  }

  /** Propagates the buckets of the given hashes in order, stopping at a conflict or at a hash without clauses. */
  function CheckHashes(st: RupState, f: CM.Formula, hashes: seq<ClauseHash>): (r: Propagation)
    ensures Undo(r.st.units, r.st.trail) == Undo(st.units, st.trail)
    ensures r.NotFound? ==> r.hash in hashes && CM.Bucket(f, r.hash) == []
    ensures AllHashesKnown(f, hashes) ==> !r.NotFound?
    ensures |hashes| > 0 && CM.Bucket(f, hashes[0]) == [] ==> r == NotFound(st, hashes[0])
    ensures r.Found? ==> |r.st.trace| > 0
    ensures r.Found? ==> InHashedBucket(f, hashes, Last(r.st.trace))
    decreases |hashes|
  {
    if |hashes| == 0 then
      Exhausted(st)
    else if |CM.Bucket(f, hashes[0])| == 0 then
      NotFound(st, hashes[0])
    else
      match CheckCandidates(st, CM.Bucket(f, hashes[0]))
      case Conflict(st') =>
        var j :| 0 <= j < |CM.Bucket(f, hashes[0])| && CM.Bucket(f, hashes[0])[j].id == Last(st'.trace);
        assert InHashedBucket(f, hashes, Last(st'.trace)) by { InHashedBucketAt(f, hashes, 0, j); }
        Found(st')
      case Continue(st') =>
        var r := CheckHashes(st', f, hashes[1..]);
        if r.Found? then InHashedBucketTail(f, hashes, Last(r.st.trace)); r else r
  }

  /**
   When every hash names some clauses and one of them is falsified by the
   units at the start, a conflict is found; a conflict found is with a
   clause of one of the hashes that the final units falsify.
   */
  lemma {:induction false} HashesEffect(st: RupState, f: CM.Formula, hashes: seq<ClauseHash>)
    ensures Extends(st.units, CheckHashes(st, f, hashes).st.units)
    ensures AllHashesKnown(f, hashes) && FalsifiedIn(st.units, f, hashes) ==> CheckHashes(st, f, hashes).Found?
    ensures CheckHashes(st, f, hashes).Found? ==>
              ConflictIn(CheckHashes(st, f, hashes).st.units, f, hashes, Last(CheckHashes(st, f, hashes).st.trace))
    decreases |hashes|
  {
    if |hashes| > 0 && |CM.Bucket(f, hashes[0])| > 0 {
      var b := CM.Bucket(f, hashes[0]);
      CandidatesEffect(st, b);
      var st' := CheckCandidates(st, b).st;
      if CheckCandidates(st, b).Conflict? {
        var j :| 0 <= j < |b| && b[j].id == Last(st'.trace) && AllFalse(st'.units, b[j].lits);
        ConflictInAt(st'.units, f, hashes, 0, j);
      } else {
        var r := CheckHashes(st', f, hashes[1..]);
        assert CheckHashes(st, f, hashes) == r;
        HashesEffect(st', f, hashes[1..]);
        ExtendsTrans(st.units, st'.units, r.st.units);
        assert forall i :: 1 <= i < |hashes| ==> hashes[i] == hashes[1..][i - 1];
        if AllHashesKnown(f, hashes) && FalsifiedIn(st.units, f, hashes) {
          var i, j :| 0 <= i < |hashes| && 0 <= j < |CM.Bucket(f, hashes[i])| && AllFalse(st.units, CM.Bucket(f, hashes[i])[j].lits);
          assert i > 0;
          AllFalseExtends(st.units, st'.units, CM.Bucket(f, hashes[i])[j].lits);
          assert AllFalse(st'.units, CM.Bucket(f, hashes[1..][i - 1])[j].lits);
          assert AllHashesKnown(f, hashes[1..]);
        }
        if r.Found? {
          ConflictInTail(r.st.units, f, hashes, Last(r.st.trace));
        }
      }
    }
  }

  /** Unit propagation through the buckets of the given hashes, one after another. */
  function PropagatedHashes(u: Units, f: CM.Formula, hashes: seq<ClauseHash>): Units
    decreases |hashes|
  {
    if |hashes| == 0 then u else PropagatedHashes(Propagated(u, CM.Bucket(f, hashes[0])), f, hashes[1..])
  }

  /**
   Unit propagation through the buckets of the hashes in order reaches a
   clause that is all false before any hash that names no stored clause.
   */
  ghost predicate ConflictsInHashes(u: Units, f: CM.Formula, hashes: seq<ClauseHash>)
    decreases |hashes|
  {
    && |hashes| > 0
    && CM.Bucket(f, hashes[0]) != []
    && (|| ConflictsIn(u, CM.Bucket(f, hashes[0]))
        || ConflictsInHashes(Propagated(u, CM.Bucket(f, hashes[0])), f, hashes[1..]))
  }

  lemma AllHashesKnownCons(f: CM.Formula, hashes: seq<ClauseHash>)
    requires |hashes| > 0
    ensures AllHashesKnown(f, hashes) <==> CM.Bucket(f, hashes[0]) != [] && AllHashesKnown(f, hashes[1..])
  {
    assert forall i :: 1 <= i < |hashes| ==> hashes[i] == hashes[1..][i - 1];
  }

  lemma {:induction false} PropagatedHashesSameValues(u: Units, u': Units, f: CM.Formula, hashes: seq<ClauseHash>)
    requires SameValues(u, u')
    ensures SameValues(PropagatedHashes(u, f, hashes), PropagatedHashes(u', f, hashes))
    decreases |hashes|
  {
    if |hashes| > 0 {
      var b := CM.Bucket(f, hashes[0]);
      PropagatedSameValues(u, u', b);
      PropagatedHashesSameValues(Propagated(u, b), Propagated(u', b), f, hashes[1..]);
    }
  }

  lemma {:induction false} ConflictsInHashesSameValues(u: Units, u': Units, f: CM.Formula, hashes: seq<ClauseHash>)
    requires SameValues(u, u')
    ensures ConflictsInHashes(u, f, hashes) <==> ConflictsInHashes(u', f, hashes)
    decreases |hashes|
  {
    if |hashes| > 0 {
      var b := CM.Bucket(f, hashes[0]);
      ConflictsInSameValues(u, u', b);
      PropagatedSameValues(u, u', b);
      ConflictsInHashesSameValues(Propagated(u, b), Propagated(u', b), f, hashes[1..]);
    }
  }

  /**
   The buckets yield a conflict exactly when unit propagation through them,
   in order, reaches a falsified clause before any hash without clauses; when
   every bucket is propagated without a conflict, every hash names clauses.
   */
  lemma {:induction false} HashesPropagate(st: RupState, f: CM.Formula, hashes: seq<ClauseHash>)
    ensures CheckHashes(st, f, hashes).Found? <==> ConflictsInHashes(st.units, f, hashes)
    ensures CheckHashes(st, f, hashes).Exhausted? ==> AllHashesKnown(f, hashes)
    decreases |hashes|
  {
    if |hashes| > 0 {
      var b := CM.Bucket(f, hashes[0]);
      AllHashesKnownCons(f, hashes);
      if |b| > 0 {
        CandidatesPropagate(st, b);
        if CheckCandidates(st, b).Continue? {
          var st' := CheckCandidates(st, b).st;
          var r := CheckHashes(st', f, hashes[1..]);
          assert CheckHashes(st, f, hashes) == r;
          HashesPropagate(st', f, hashes[1..]);
          ConflictsInHashesSameValues(Propagated(st.units, b), st'.units, f, hashes[1..]);
        }
      }
    }
  }

  /** When every bucket is propagated without a conflict, the units hold the values unit propagation gives. */
  lemma {:induction false} HashesPropagatedValues(st: RupState, f: CM.Formula, hashes: seq<ClauseHash>)
    ensures CheckHashes(st, f, hashes).Exhausted? ==>
              SameValues(PropagatedHashes(st.units, f, hashes), CheckHashes(st, f, hashes).st.units)
    decreases |hashes|
  {
    if |hashes| > 0 {
      var b := CM.Bucket(f, hashes[0]);
      if |b| > 0 {
        CandidatesPropagate(st, b);
        if CheckCandidates(st, b).Continue? {
          var p := Propagated(st.units, b);
          var st' := CheckCandidates(st, b).st;
          var r := CheckHashes(st', f, hashes[1..]);
          assert CheckHashes(st, f, hashes) == r;
          HashesPropagatedValues(st', f, hashes[1..]);
          if r.Exhausted? {
            PropagatedHashesSameValues(p, st'.units, f, hashes[1..]);
            SameValuesTrans(PropagatedHashes(p, f, hashes[1..]), PropagatedHashes(st'.units, f, hashes[1..]), r.st.units);
          }
        }
      }
    }
  }

  lemma ConflictInAt(u: Units, f: CM.Formula, hashes: seq<ClauseHash>, i: nat, j: nat)
    requires i < |hashes| && j < |CM.Bucket(f, hashes[i])| && AllFalse(u, CM.Bucket(f, hashes[i])[j].lits)
    ensures ConflictIn(u, f, hashes, CM.Bucket(f, hashes[i])[j].id)
  {
  }

  lemma ConflictInTail(u: Units, f: CM.Formula, hashes: seq<ClauseHash>, id: nat)
    requires |hashes| > 0 && ConflictIn(u, f, hashes[1..], id)
    ensures ConflictIn(u, f, hashes, id)
  {
    var i, j :| 0 <= i < |hashes[1..]| && 0 <= j < |CM.Bucket(f, hashes[1..][i])|
                && CM.Bucket(f, hashes[1..][i])[j].id == id && AllFalse(u, CM.Bucket(f, hashes[1..][i])[j].lits);
    ConflictInAt(u, f, hashes, i + 1, j);
  }

  /** `id` is the id of a stored clause with one of the given hashes. */
  predicate InHashedBucket(f: CM.Formula, hashes: seq<ClauseHash>, id: nat) {
    exists i, j :: 0 <= i < |hashes| && 0 <= j < |CM.Bucket(f, hashes[i])| && CM.Bucket(f, hashes[i])[j].id == id
  }

  lemma InHashedBucketAt(f: CM.Formula, hashes: seq<ClauseHash>, i: nat, j: nat)
    requires i < |hashes| && j < |CM.Bucket(f, hashes[i])|
    ensures InHashedBucket(f, hashes, CM.Bucket(f, hashes[i])[j].id)
  {
  }

  lemma InHashedBucketTail(f: CM.Formula, hashes: seq<ClauseHash>, id: nat)
    requires |hashes| > 0 && InHashedBucket(f, hashes[1..], id)
    ensures InHashedBucket(f, hashes, id)
  {
    var i, j :| 0 <= i < |hashes[1..]| && 0 <= j < |CM.Bucket(f, hashes[1..][i])| && CM.Bucket(f, hashes[1..][i])[j].id == id;
    InHashedBucketAt(f, hashes, i + 1, j);
  }

  datatype RupResult =
    /** The clause is implied; the ids of the clauses used, ending with the conflicting clause. */
    | Implied(trace: seq<nat>)
    /** A propagation hash names no stored clause. */
    | ClauseNotFound(hash: ClauseHash)
    /** Propagation ended without a conflict. */
    | CheckFailed

  /** The result of a check, with the units and trail it leaves behind. */
  datatype RupOutcome = RupOutcome(units: Units, trail: Trail, result: RupResult)

  /**
   Checks that `lits` follows by unit propagation from the units and the
   clauses of `f` with the given hashes. The units come back unchanged and
   the trail empty, except after ClauseNotFound, which returns with the
   temporary assignments still in place and recorded on the trail.
   */
  function CheckClauseWithHashes(units: Units, f: CM.Formula, lits: seq<Lit>, hashes: seq<ClauseHash>): (r: RupOutcome)
    ensures !r.result.ClauseNotFound? ==> r.units == units && r.trail == []
    ensures r.result.ClauseNotFound? ==> Undo(r.units, r.trail) == units
    ensures r.result.ClauseNotFound? ==> r.result.hash in hashes && CM.Bucket(f, r.result.hash) == []
    ensures AllHashesKnown(f, hashes) ==> !r.result.ClauseNotFound?
    ensures |hashes| > 0 && CM.Bucket(f, hashes[0]) == [] ==> r.result == ClauseNotFound(hashes[0])
    ensures |hashes| == 0 ==> r.result == CheckFailed
    ensures r.result.Implied? ==> |r.result.trace| > 0 && InHashedBucket(f, hashes, Last(r.result.trace))
  {
    var st := AssumeFalse(RupState(units, [], []), lits);
    match CheckHashes(st, f, hashes)
    case NotFound(st', h) => RupOutcome(st'.units, st'.trail, ClauseNotFound(h))
    case Found(st') => RupOutcome(Undo(st'.units, st'.trail), [], Implied(st'.trace))
    case Exhausted(st') => RupOutcome(Undo(st'.units, st'.trail), [], CheckFailed)
  }

  /**
   `l` is false once the clause `lits` is assumed false: it is a literal of
   the clause, or the units make it false and the clause does not mention its
   variable.
   */
  predicate ForcedFalse(units: Units, lits: seq<Lit>, l: Lit) {
    l in lits || (KnownFalse(units, l) && Var(l) !in Vars(lits))
  }

  /**
   Acceptance: a clause without complementary literals is implied when every
   hash names some stored clauses and one of those clauses becomes falsified
   as soon as the clause is assumed false.
   */
  lemma ImpliedWhenFalsified(units: Units, f: CM.Formula, lits: seq<Lit>, hashes: seq<ClauseHash>, i: nat, j: nat)
    requires Consistent(lits) && AllHashesKnown(f, hashes)
    requires i < |hashes| && j < |CM.Bucket(f, hashes[i])|
    requires forall k :: 0 <= k < |CM.Bucket(f, hashes[i])[j].lits| ==> ForcedFalse(units, lits, CM.Bucket(f, hashes[i])[j].lits[k])
    ensures CheckClauseWithHashes(units, f, lits, hashes).result.Implied?
  {
    var st := AssumeFalse(RupState(units, [], []), lits);
    AssumeFalseSpec(RupState(units, [], []), lits);
    var c := CM.Bucket(f, hashes[i])[j].lits;
    forall k | 0 <= k < |c| ensures KnownFalse(st.units, c[k]) {
      if c[k] !in lits {
        assert Get(st.units, Var(c[k])) == Get(units, Var(c[k]));
      }
    }
    assert FalsifiedIn(st.units, f, hashes);
    HashesEffect(st, f, hashes);
  }

  /** The last element of a non-empty sequence, or 0 for the empty one. */
  /**
   Acceptance, exactly: the clause is implied if and only if unit propagation
   from the units with the clause assumed false, through the buckets of the
   hashes in order, reaches a falsified clause before any hash that names no
   stored clause. The check fails if and only if every hash names some
   clauses and propagation through all of them finds no conflict.
   */
  lemma ImpliedIffConflict(units: Units, f: CM.Formula, lits: seq<Lit>, hashes: seq<ClauseHash>)
    ensures CheckClauseWithHashes(units, f, lits, hashes).result.Implied?
            <==> ConflictsInHashes(AssumeFalse(RupState(units, [], []), lits).units, f, hashes)
    ensures CheckClauseWithHashes(units, f, lits, hashes).result.CheckFailed?
            <==> AllHashesKnown(f, hashes) && !ConflictsInHashes(AssumeFalse(RupState(units, [], []), lits).units, f, hashes)
  {
    HashesPropagate(AssumeFalse(RupState(units, [], []), lits), f, hashes);
  }

  function Last(s: seq<nat>): nat {
    if |s| == 0 then 0 else s[|s| - 1]
  }

  // Soundness: an accepted clause holds wherever the formula and its units hold

  lemma {:induction false} AssumeFalseSound(alpha: Assignment, st: RupState, lits: seq<Lit>)
    requires Agrees(alpha, st.units)
    requires forall k :: 0 <= k < |lits| ==> !LitTrue(alpha, lits[k])
    ensures Agrees(alpha, AssumeFalse(st, lits).units)
    decreases |lits|
  {
    if |lits| > 0 {
      AgreesAssign(alpha, st.units, lits[0], InClause, false);
      AssumeFalseSound(alpha, Push(st, lits[0], UnitClause(InClause, IsNegative(lits[0]))), lits[1..]);
    }
  }

  /**
   Scanning keeps the units agreeing with the assignment. When no literal
   was unassigned, all literals are false under it; when exactly one was,
   all others are.
   */
  lemma {:induction false} ScanSound(alpha: Assignment, st: RupState, lits: seq<Lit>, count: nat, unassigned: Option<Lit>)
    requires Agrees(alpha, st.units)
    ensures var r := ScanLits(st, lits, count, unassigned);
            && Agrees(alpha, r.st.units)
            && (r.Scanned? ==> r.count >= count)
            && (r.Scanned? && r.count == count ==>
                  r.unassigned == unassigned && forall k :: 0 <= k < |lits| ==> !LitTrue(alpha, lits[k]))
            && (r.Scanned? && r.count > count ==> r.unassigned.Some?)
            && (r.Scanned? && r.count == count + 1 ==>
                  forall k :: 0 <= k < |lits| ==> lits[k] == r.unassigned.value || !LitTrue(alpha, lits[k]))
    decreases |lits|
  {
    if |lits| > 0 {
      var l := lits[0];
      assert forall k :: 1 <= k < |lits| ==> lits[k] == lits[1..][k - 1];
      match LitValue(st.units, l)
      case Some((true, _)) =>
      case Some((false, unit)) =>
        LitValueSound(alpha, st.units, l);
        if unit.id.Global? {
          AgreesAssign(alpha, st.units, l, TracePos(|st.trace|), false);
          var st' := Push(st, l, UnitClause(TracePos(|st.trace|), IsNegative(l))).(trace := st.trace + [unit.id.id]);
          ScanSound(alpha, st', lits[1..], count, unassigned);
        } else {
          ScanSound(alpha, st, lits[1..], count, unassigned);
        }
      case None =>
        ScanSound(alpha, st, lits[1..], count + 1, Some(l));
    }
  }

  /** A clause that holds under the assignment never conflicts, and propagating it keeps the units agreeing. */
  lemma CandidateSound(alpha: Assignment, st: RupState, e: CM.Entry)
    requires Agrees(alpha, st.units) && ClauseTrue(alpha, e.lits)
    ensures CheckCandidate(st, e).Continue?
    ensures Agrees(alpha, CheckCandidate(st, e).st.units)
  {
    ScanSound(alpha, st, e.lits, 0, None);
    var k :| 0 <= k < |e.lits| && LitTrue(alpha, e.lits[k]);
    match ScanLits(st, e.lits, 0, None)
    case Satisfied(_) =>
    case Scanned(st', count, unassigned) =>
      if unassigned.Some? && count == 1 {
        AgreesAssign(alpha, st'.units, unassigned.value, TracePos(|st'.trace|), true);
      }
  }

  lemma {:induction false} CandidatesSound(alpha: Assignment, st: RupState, b: seq<CM.Entry>)
    requires Agrees(alpha, st.units)
    requires forall j :: 0 <= j < |b| ==> ClauseTrue(alpha, b[j].lits)
    ensures CheckCandidates(st, b).Continue?
    ensures Agrees(alpha, CheckCandidates(st, b).st.units)
    decreases |b|
  {
    if |b| > 0 {
      CandidateSound(alpha, st, b[0]);
      CandidatesSound(alpha, CheckCandidate(st, b[0]).st, b[1..]);
    }
  }

  lemma {:induction false} HashesSound(alpha: Assignment, st: RupState, f: CM.Formula, hashes: seq<ClauseHash>)
    requires Agrees(alpha, st.units) && CM.WellFormed(f) && FormulaTrue(alpha, f)
    ensures !CheckHashes(st, f, hashes).Found?
    decreases |hashes|
  {
    if |hashes| > 0 && |CM.Bucket(f, hashes[0])| > 0 {
      var b := CM.Bucket(f, hashes[0]);
      forall j | 0 <= j < |b| ensures ClauseTrue(alpha, b[j].lits) {
        EntryTrue(alpha, f, hashes[0], j);
      }
      CandidatesSound(alpha, st, b);
      HashesSound(alpha, CheckCandidates(st, b).st, f, hashes[1..]);
    }
  }

  /**
   Soundness of the check: every assignment that satisfies the units and the
   stored clauses also satisfies a clause the check accepts.
   */
  lemma RupSound(alpha: Assignment, units: Units, f: CM.Formula, lits: seq<Lit>, hashes: seq<ClauseHash>)
    requires Agrees(alpha, units) && CM.WellFormed(f) && FormulaTrue(alpha, f)
    requires CheckClauseWithHashes(units, f, lits, hashes).result.Implied?
    ensures ClauseTrue(alpha, lits)
  {
    if !ClauseTrue(alpha, lits) {
      var st0 := RupState(units, [], []);
      AssumeFalseSound(alpha, st0, lits);
      HashesSound(alpha, AssumeFalse(st0, lits), f, hashes);
    }
  }
}
