/**
 The scenarios of the checker's unit tests, stated for an arbitrary clause
 hash function; only the missing-hash scenario needs the hash of the clause
 1 2 3 to differ from the hash it asks for.

 DIMACS literals are written by their codes: variable `v` (counting from 1)
 has the codes `2 * (v - 1)` when positive and `2 * (v - 1) + 1` when
 negated, so 1, -1, 2, 3, 4, -4, 5, -5 are 0, 1, 2, 4, 6, 7, 8, 9.
 */
module CheckerExamples {
  import opened Options
  import opened Lits
  import opened ProofSteps
  import opened Units
  import CM = ClauseMultiset
  import opened CK = Checker
  import opened StepChecker
  import Rup
  import VF = VarisatFormat
  import ProofChecker

  /** Adding the units 1 and -1 makes the checker unsat and records the two unit ids. */
  lemma ConflictingUnits(hash: seq<Lit> -> ClauseHash)
    ensures AddFormula(NewChecker(), [[0], [1]], hash).0.unsat
    ensures AddFormula(NewChecker(), [[0], [1]], hash).0.unitConflict == Some((0, 1))
  {
    NormalizeOfNormal([0]);
    NormalizeOfNormal([1]);
    var c1 := AddClause(NewChecker(), [0], hash).0;
    assert c1.units == map[0 := UnitClause(Global(0), true)];
    var c2 := AddClause(c1, [1], hash).0;
    assert c2.unsat && c2.unitConflict == Some((0, 1));
    assert AddFormula(c1, [[1]], hash).0 == c2 by {
      assert [[1]][1..] == [];
    }
    assert [[0], [1]][1..] == [[1]];
  }

  /** Adding a formula of two clauses adds the first, then the second. */
  lemma AddTwo(c: Checker, x: seq<Lit>, y: seq<Lit>, hash: seq<Lit> -> ClauseHash)
    requires Valid(c)
    ensures AddFormula(c, [x, y], hash).0 == AddClause(AddClause(c, x, hash).0, y, hash).0
  {
    AddFormulaCons(c, [x, y], hash);
    assert [x, y][1..] == [y];
    var c1 := AddClause(c, x, hash).0;
    AddFormulaCons(c1, [y], hash);
    assert [y][1..] == [];
  }

  /** Adding a formula of one clause adds that clause. */
  lemma AddOne(c: Checker, x: seq<Lit>, hash: seq<Lit> -> ClauseHash)
    requires Valid(c)
    ensures AddFormula(c, [x], hash).0 == AddClause(c, x, hash).0
  {
    AddFormulaCons(c, [x], hash);
    assert [x][1..] == [];
  }

  lemma EmptyCounts(h: ClauseHash, lits: seq<Lit>)
    ensures CM.Count(Clauses(NewChecker()), h, lits) == 0
    ensures CM.Bucket(Clauses(NewChecker()), h) == []
  {
  }

  const Clause123: seq<Lit> := [0, 2, 4]

  lemma Clause123Normal()
    ensures Normalize(Clause123) == Clause123
  {
    NormalizeOfNormal(Clause123);
  }

  /** A deletion step is checked as a deletion. */
  lemma DeleteStep(c: Checker, clause: seq<Lit>, hash: seq<Lit> -> ClauseHash)
    requires Valid(c)
    ensures CheckStep(c, DeleteClause(clause), hash) == CheckDelete(c, clause, hash)
  {
  }

  /** Deleting a clause that differs from both clauses of the formula is invalid. */
  lemma UnknownDeleteFor(x: seq<Lit>, y: seq<Lit>, z: seq<Lit>, hash: seq<Lit> -> ClauseHash)
    requires |Normalize(x)| >= 2 && |Normalize(y)| >= 2 && |Normalize(z)| >= 2
    requires Normalize(z) != Normalize(x) && Normalize(z) != Normalize(y)
    ensures var c := AddFormula(NewChecker(), [x, y], hash).0;
            CheckStep(c, DeleteClause(z), hash) == Err(InvalidDelete(c.step, Normalize(z)))
  {
    var n := Normalize(z);
    var c1 := AddClause(NewChecker(), x, hash).0;
    var c2 := AddClause(c1, y, hash).0;
    assert CM.Count(Clauses(NewChecker()), hash(n), n) == 0 by { EmptyCounts(hash(n), n); }
    assert CM.Count(Clauses(c1), hash(n), n) == 0 && !c1.unsat by { AddClauseCounts(NewChecker(), x, hash); }
    assert CM.Count(Clauses(c2), hash(n), n) == 0 && !c2.unsat by { AddClauseCounts(c1, y, hash); }
    AddTwo(NewChecker(), x, y, hash);
    DeleteStep(c2, z, hash);
  }

  lemma Clause78Normal()
    ensures Normalize([7, 8]) == [7, 8]
  {
    NormalizeOfNormal([7, 8]);
  }

  /** The clause -5 4 normalises to 4 -5, its literals in ascending code order. */
  lemma Clause96Normal()
    ensures Normalize([9, 6]) == [6, 9]
  {
    NormalizeOfNormal([6, 9]);
    NormalizeDependsOnLiterals([9, 6], [6, 9]);
  }

  /** Deleting the clause -5 4, which was never added, is an invalid deletion. */
  lemma RejectsUnknownDelete(hash: seq<Lit> -> ClauseHash)
    ensures var c := AddFormula(NewChecker(), [Clause123, [7, 8]], hash).0;
            CheckStep(c, DeleteClause([9, 6]), hash) == Err(InvalidDelete(c.step, [6, 9]))
  {
    Clause123Normal();
    Clause78Normal();
    Clause96Normal();
    UnknownDeleteFor(Clause123, [7, 8], [9, 6], hash);
  }

  /** After the formula `x x`, deleting `x` twice succeeds. */
  lemma DeleteTwiceFor(x: seq<Lit>, hash: seq<Lit> -> ClauseHash)
    requires |Normalize(x)| >= 2
    ensures var c0 := AddFormula(NewChecker(), [x, x], hash).0;
            var r1 := CheckStep(c0, DeleteClause(x), hash);
            && r1.Ok?
            && CM.Count(Clauses(r1.value.0), hash(Normalize(x)), Normalize(x)) == 1
            && !r1.value.0.unsat
  {
    var n := Normalize(x);
    var c1 := AddClause(NewChecker(), x, hash).0;
    var c0 := AddClause(c1, x, hash).0;
    assert CM.Count(Clauses(NewChecker()), hash(n), n) == 0 by { EmptyCounts(hash(n), n); }
    assert CM.Count(Clauses(c1), hash(n), n) == 1 && !c1.unsat by { AddClauseCounts(NewChecker(), x, hash); }
    assert CM.Count(Clauses(c0), hash(n), n) == 2 && !c0.unsat by { AddClauseCounts(c1, x, hash); }
    AddTwo(NewChecker(), x, x, hash);
    DeleteStep(c0, x, hash);
  }

  /** With one stored copy of `x`, adding `x` again allows exactly two more deletions. */
  lemma AddThenDeleteFor(c: Checker, x: seq<Lit>, hash: seq<Lit> -> ClauseHash)
    requires Valid(c) && !c.unsat && |Normalize(x)| >= 2
    requires CM.Count(Clauses(c), hash(Normalize(x)), Normalize(x)) == 1
    ensures var c2 := AddClause(c, x, hash).0;
            var r3 := CheckStep(c2, DeleteClause(x), hash);
            && r3.Ok?
            && var r4 := CheckStep(r3.value.0, DeleteClause(x), hash);
               && r4.Ok?
               && CheckStep(r4.value.0, DeleteClause(x), hash) == Err(InvalidDelete(r4.value.0.step, Normalize(x)))
  {
    var c2 := AddClause(c, x, hash).0;
    AddClauseCounts(c, x, hash);
    DeleteStep(c2, x, hash);
    var r3 := CheckStep(c2, DeleteClause(x), hash);
    DeleteStep(r3.value.0, x, hash);
    var r4 := CheckStep(r3.value.0, DeleteClause(x), hash);
    DeleteStep(r4.value.0, x, hash);
  }

  /**
   A clause added twice can be deleted twice; adding it once more allows one
   more deletion, and a further deletion is invalid.
   */
  lemma RefCountsFor(x: seq<Lit>, hash: seq<Lit> -> ClauseHash)
    requires |Normalize(x)| >= 2
    ensures var c0 := AddFormula(NewChecker(), [x, x], hash).0;
            var r1 := CheckStep(c0, DeleteClause(x), hash);
            && r1.Ok?
            && var c2 := AddClause(r1.value.0, x, hash).0;
               var r3 := CheckStep(c2, DeleteClause(x), hash);
               && r3.Ok?
               && var r4 := CheckStep(r3.value.0, DeleteClause(x), hash);
                  && r4.Ok?
                  && CheckStep(r4.value.0, DeleteClause(x), hash) == Err(InvalidDelete(r4.value.0.step, Normalize(x)))
  {
    DeleteTwiceFor(x, hash);
    var c0 := AddFormula(NewChecker(), [x, x], hash).0;
    var r1 := CheckStep(c0, DeleteClause(x), hash);
    AddThenDeleteFor(r1.value.0, x, hash);
  }

  /** The reference counting example for the clause 1 2 3. */
  lemma DeleteFollowsRefCounts(hash: seq<Lit> -> ClauseHash)
    ensures var c0 := AddFormula(NewChecker(), [Clause123, Clause123], hash).0;
            var r1 := CheckStep(c0, DeleteClause(Clause123), hash);
            && r1.Ok?
            && var c2 := AddClause(r1.value.0, Clause123, hash).0;
               var r3 := CheckStep(c2, DeleteClause(Clause123), hash);
               && r3.Ok?
               && var r4 := CheckStep(r3.value.0, DeleteClause(Clause123), hash);
                  && r4.Ok?
                  && CheckStep(r4.value.0, DeleteClause(Clause123), hash) == Err(InvalidDelete(r4.value.0.step, Clause123))
  {
    Clause123Normal();
    RefCountsFor(Clause123, hash);
  }

  /** A propagation hash that names no stored clause is reported as not found. */
  lemma ReportsMissingHash(hash: seq<Lit> -> ClauseHash)
    requires hash(Clause123) != 0
    ensures var c := AddFormula(NewChecker(), [Clause123], hash).0;
            CheckStep(c, AtClause([], [0]), hash) == Err(ClauseNotFound(c.step, 0))
  {
    var c := AddClause(NewChecker(), Clause123, hash).0;
    assert CM.Bucket(Clauses(c), 0) == [] by {
      Clause123Normal();
      AddClauseCounts(NewChecker(), Clause123, hash);
      EmptyCounts(0, []);
    }
    AddOne(NewChecker(), Clause123, hash);
  }

  /** The empty clause does not follow from the clause 1 2 3 by propagation alone. */
  lemma RejectsUnimpliedClause(hash: seq<Lit> -> ClauseHash)
    ensures var c := AddFormula(NewChecker(), [Clause123], hash).0;
            CheckStep(c, AtClause([], []), hash) == Err(ClauseCheckFailed(c.step, []))
  {
    NormalizeOfNormal([]);
    AddOne(NewChecker(), Clause123, hash);
  }

  /** Adding a formula of three clauses adds them in order. */
  lemma AddThree(c: Checker, x: seq<Lit>, y: seq<Lit>, z: seq<Lit>, hash: seq<Lit> -> ClauseHash)
    requires Valid(c)
    ensures AddFormula(c, [x, y, z], hash).0 == AddClause(AddClause(AddClause(c, x, hash).0, y, hash).0, z, hash).0
  {
    AddFormulaCons(c, [x, y, z], hash);
    assert [x, y, z][1..] == [y, z];
    AddTwo(AddClause(c, x, hash).0, y, z, hash);
  }

  /** The unit clause `l` of a variable without a value gives `l` a unit and leaves the stored clauses alone. */
  lemma AddNewUnit(c: Checker, l: Lit, hash: seq<Lit> -> ClauseHash)
    requires Valid(c) && !c.unsat && Var(l) !in c.units
    ensures var c' := AddClause(c, [l], hash).0;
            && !c'.unsat && c'.store == c.store
            && c'.units == c.units[Var(l) := UnitClause(Global(c.nextClauseId), IsPositive(l))]
  {
    NormalizeOfNormal([l]);
    assert LitValue(c.units, l).None?;
  }

  const Clause12: seq<Lit> := [0, 2]

  /** Loading the formula `1 2`, `-1`, `-2` stores the clause 1 2 once and makes both its literals false. */
  lemma LoadsRefutableFormula(hash: seq<Lit> -> ClauseHash)
    ensures var c := AddFormula(NewChecker(), [Clause12, [1], [3]], hash).0;
            && !c.unsat && KnownFalse(c.units, 0) && KnownFalse(c.units, 2)
            && CM.Count(Clauses(c), hash(Clause12), Clause12) == 1
  {
    NormalizeOfNormal(Clause12);
    EmptyCounts(hash(Clause12), Clause12);
    AddClauseCounts(NewChecker(), Clause12, hash);
    var c1 := AddClause(NewChecker(), Clause12, hash).0;
    AddNewUnit(c1, 1, hash);
    var c2 := AddClause(c1, [1], hash).0;
    AddNewUnit(c2, 3, hash);
    AddThree(NewChecker(), Clause12, [1], [3], hash);
  }

  /** With the literals 1 and 2 false and the clause 1 2 stored, propagating that clause derives the empty clause. */
  lemma DerivesEmptyClause(c: Checker, hash: seq<Lit> -> ClauseHash)
    requires Valid(c) && KnownFalse(c.units, 0) && KnownFalse(c.units, 2)
    requires CM.Count(Clauses(c), hash(Clause12), Clause12) == 1
    ensures CheckStep(c, AtClause([], [hash(Clause12)]), hash).Ok?
    ensures CheckStep(c, AtClause([], [hash(Clause12)]), hash).value.0.unsat
  {
    var f := Clauses(c);
    var h := hash(Clause12);
    var j := CM.Find(CM.Bucket(f, h), Clause12).value;
    assert Rup.Vars([]) == {};
    assert Rup.AllHashesKnown(f, [h]);
    Rup.ImpliedWhenFalsified(c.units, f, [], [h], 0, j);
    NormalizeOfNormal([]);
    CheckStepEffect(c, AtClause([], [h]), hash);
  }

  /** A proof whose first step makes the checker unsat is accepted, whatever tokens follow that step. */
  lemma AcceptsOneStep(c: Checker, step: ProofStep, rest: seq<VF.Token>, hash: seq<Lit> -> ClauseHash)
    requires Valid(c) && !c.unsat
    requires CheckStep(ProofChecker.Advance(c), step, hash).Ok?
    requires CheckStep(ProofChecker.Advance(c), step, hash).value.0.unsat
    ensures ProofChecker.CheckProof(c, VF.DefaultParser, VF.WriteStep(step) + rest, hash).Ok?
  {
    ProofChecker.CheckProofOfWritten(c, VF.DefaultParser, step, rest, hash);
    var c' := CheckStep(ProofChecker.Advance(c), step, hash).value.0;
    assert ProofChecker.CheckProof(c', VF.DefaultParser, rest, hash).Ok?;
  }

  /** The tokens of the AT clause step deriving the empty clause with one hash: the tag 0, no literals, the hash. */
  lemma EmptyClauseTokens(h: ClauseHash)
    ensures VF.WriteStep(AtClause([], [h])) + [] == [0, 0, 1, h]
  {
  }

  /**
   The proof of one step, the AT clause deriving the empty clause by
   propagating the clause 1 2, refutes the formula `1 2`, `-1`, `-2`.
   */
  lemma AcceptsRefutation(hash: seq<Lit> -> ClauseHash)
    ensures var c := AddFormula(NewChecker(), [Clause12, [1], [3]], hash).0;
            ProofChecker.CheckProof(c, VF.DefaultParser, [0, 0, 1, hash(Clause12)], hash).Ok?
  {
    LoadsRefutableFormula(hash);
    var c := AddFormula(NewChecker(), [Clause12, [1], [3]], hash).0;
    var step := AtClause([], [hash(Clause12)]);
    DerivesEmptyClause(ProofChecker.Advance(c), hash);
    AcceptsOneStep(c, step, [], hash);
    EmptyClauseTokens(hash(Clause12));
  }
}
