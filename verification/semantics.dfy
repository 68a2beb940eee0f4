/**
 Truth of clauses and of the checker's clause multiset under a total
 assignment. A stored formula holds when every clause present in it, with a
 positive count, has a true literal.
 */
module Semantics {
  import opened Lits
  import opened ProofSteps
  import opened Units
  import CM = ClauseMultiset

  predicate ClauseTrue(alpha: Assignment, c: seq<Lit>) {
    exists k :: 0 <= k < |c| && LitTrue(alpha, c[k])
  }

  ghost predicate FormulaTrue(alpha: Assignment, f: CM.Formula) {
    forall h, lits :: CM.Count(f, h, lits) > 0 ==> ClauseTrue(alpha, lits)
  }

  /** Normalising a clause does not change when it holds. */
  lemma NormalizeTrue(alpha: Assignment, c: seq<Lit>)
    ensures ClauseTrue(alpha, Normalize(c)) <==> ClauseTrue(alpha, c)
  {
    var n := Normalize(c);
    if ClauseTrue(alpha, c) {
      var k :| 0 <= k < |c| && LitTrue(alpha, c[k]);
      assert c[k] in n;
    }
    if ClauseTrue(alpha, n) {
      var k :| 0 <= k < |n| && LitTrue(alpha, n[k]);
      assert n[k] in c;
    }
  }

  /** Every stored entry of a well formed formula is one of its clauses. */
  lemma EntryTrue(alpha: Assignment, f: CM.Formula, h: ClauseHash, j: nat)
    requires CM.WellFormed(f) && FormulaTrue(alpha, f)
    requires j < |CM.Bucket(f, h)|
    ensures ClauseTrue(alpha, CM.Bucket(f, h)[j].lits)
  {
    assert h in f;
    CM.FindDistinct(f[h], j);
    assert CM.Count(f, h, CM.Bucket(f, h)[j].lits) > 0;
  }

  /** Adding a clause to a formula conjoins it. */
  lemma AddTrue(alpha: Assignment, f: CM.Formula, h: ClauseHash, lits: seq<Lit>, freshId: nat)
    requires CM.WellFormed(f)
    ensures FormulaTrue(alpha, CM.Add(f, h, lits, freshId).0) <==> FormulaTrue(alpha, f) && ClauseTrue(alpha, lits)
  {
    var f' := CM.Add(f, h, lits, freshId).0;
    if FormulaTrue(alpha, f) && ClauseTrue(alpha, lits) {
      forall h', lits' | CM.Count(f', h', lits') > 0 ensures ClauseTrue(alpha, lits') {
        if h' != h || lits' != lits {
          assert CM.Count(f, h', lits') > 0;
        }
      }
    }
    if FormulaTrue(alpha, f') {
      assert CM.Count(f', h, lits) > 0;
      forall h', lits' | CM.Count(f, h', lits') > 0 ensures ClauseTrue(alpha, lits') {
        if h' != h || lits' != lits {
          assert CM.Count(f', h', lits') > 0;
        }
      }
    }
  }

  /** Removing a copy of a clause keeps a formula true. */
  lemma RemoveTrue(alpha: Assignment, f: CM.Formula, h: ClauseHash, lits: seq<Lit>)
    requires CM.WellFormed(f) && CM.Remove(f, h, lits).Some?
    requires FormulaTrue(alpha, f)
    ensures FormulaTrue(alpha, CM.Remove(f, h, lits).value.0)
  {
    var f' := CM.Remove(f, h, lits).value.0;
    forall h', lits' | CM.Count(f', h', lits') > 0 ensures ClauseTrue(alpha, lits') {
      assert CM.Count(f, h', lits') > 0;
    }
  }
}
