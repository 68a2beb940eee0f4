/**
 The proof checking loop.

 Until the checker is unsat, the loop advances the step number, parses the
 next step from the proof stream and checks it. A stream that ends first
 leaves the proof incomplete; a step that cannot be parsed or checked ends
 the check with an error carrying the step number. Once unsat, a unit
 conflict recorded while loading the formula is reported as the derivation
 of the empty clause.
 */
module ProofChecker {
  import opened Lits
  import opened ProofSteps
  import opened Units
  import opened Semantics
  import opened CK = Checker
  import opened StepChecker
  import VF = VarisatFormat

  /** Puts the steps `log` in front of those reported by `r`, unless `r` is an error. */
  function Prepend(log: seq<CheckedStep>, r: Result<(Checker, seq<CheckedStep>)>): Result<(Checker, seq<CheckedStep>)> {
    if r.Err? then r else Ok((r.value.0, log + r.value.1))
  }

  /** The checker at the start of a round: its step number moves on, nothing else changes. */
  function Advance(c: Checker): (r: Checker)
    requires Valid(c)
    ensures Valid(r) && r.step == c.step + 1
    ensures r == c.(step := c.step + 1)
  {
    c.(step := c.step + 1)
  }

  /** What one round of the loop leads to: the end of the check, or the next round. */
  datatype Round =
    | Done(result: Result<(Checker, seq<CheckedStep>)>)
    | Next(c: Checker, p: VF.Parser, rest: seq<VF.Token>, log: seq<CheckedStep>)

  /** One round of the loop: advance the step number, then parse and check one step. */
  function NextRound(c: Checker, p: VF.Parser, src: seq<VF.Token>, hash: seq<Lit> -> ClauseHash): (r: Round)
    requires Valid(c) && !c.unsat
    ensures r.Next? ==> Valid(r.c) && |r.rest| < |src|
    ensures r.Done? ==> r.result.Err?
    ensures |src| == 0 ==> r == Done(Err(ProofIncomplete(c.step + 1)))
    ensures |src| > 0 && src[0] > VF.CodeDeleteClause ==> r == Done(Err(ParseError(c.step + 1, VF.BadTag(src[0]))))
  {
    var c1 := Advance(c);
    var parsed := VF.ParseStep(p, src);
    if parsed.Err? then
      if parsed.error == VF.UnexpectedEof then Done(Err(ProofIncomplete(c1.step))) else Done(Err(ParseError(c1.step, parsed.error)))
    else
      var checked := CheckStep(c1, parsed.value.1, hash);
      if checked.Err? then Done(Err(checked.error)) else Next(checked.value.0, parsed.value.0, parsed.rest, checked.value.1)
  }

  /** Checks the proof held in the token stream `src`, starting from checker `c` and parser `p`. */
  function CheckProof(c: Checker, p: VF.Parser, src: seq<VF.Token>, hash: seq<Lit> -> ClauseHash): (r: Result<(Checker, seq<CheckedStep>)>)
    requires Valid(c)
    ensures r.Ok? ==> Valid(r.value.0) && r.value.0.unsat
    ensures c.unsat ==> r == Ok((c, ProcessUnitConflicts(c)))
    ensures !c.unsat && |src| == 0 ==> r == Err(ProofIncomplete(c.step + 1))
    ensures !c.unsat && |src| > 0 && src[0] > VF.CodeDeleteClause ==> r == Err(ParseError(c.step + 1, VF.BadTag(src[0])))
    decreases |src|
  {
    if c.unsat then
      Ok((c, ProcessUnitConflicts(c)))
    else
      match NextRound(c, p, src, hash)
      case Done(r) => r
      case Next(c', p', rest, log) => Prepend(log, CheckProof(c', p', rest, hash))
  }

  /** One round does not depend on what the parser read before, except for the parser it passes on. */
  lemma NextRoundIgnoresParser(c: Checker, p: VF.Parser, q: VF.Parser, src: seq<VF.Token>, hash: seq<Lit> -> ClauseHash)
    requires Valid(c) && !c.unsat
    ensures NextRound(c, p, src, hash).Done? <==> NextRound(c, q, src, hash).Done?
    ensures NextRound(c, p, src, hash).Done? ==> NextRound(c, p, src, hash) == NextRound(c, q, src, hash)
    ensures NextRound(c, p, src, hash).Next? ==>
              NextRound(c, p, src, hash) == NextRound(c, q, src, hash).(p := NextRound(c, p, src, hash).p)
  {
    VF.ParsedStepIgnoresBuffers(p, q, src);
  }

  /** The outcome of checking does not depend on what the parser read before. */
  lemma {:induction false} CheckProofIgnoresParser(c: Checker, p: VF.Parser, q: VF.Parser, src: seq<VF.Token>, hash: seq<Lit> -> ClauseHash)
    requires Valid(c)
    ensures CheckProof(c, p, src, hash) == CheckProof(c, q, src, hash)
    decreases |src|
  {
    if !c.unsat {
      NextRoundIgnoresParser(c, p, q, src, hash);
      var rp := NextRound(c, p, src, hash);
      var rq := NextRound(c, q, src, hash);
      if rp.Next? {
        CheckProofIgnoresParser(rp.c, rp.p, rq.p, rp.rest, hash);
      }
    }
  }

  /** Checking an encoded step followed by more tokens checks that step, then goes on with the tokens after it. */
  lemma CheckProofOfWritten(c: Checker, p: VF.Parser, s: ProofStep, rest: seq<VF.Token>, hash: seq<Lit> -> ClauseHash)
    requires Valid(c) && !c.unsat
    ensures var checked := CheckStep(Advance(c), s, hash);
            && (checked.Err? ==> CheckProof(c, p, VF.WriteStep(s) + rest, hash) == Err(checked.error))
            && (checked.Ok? ==> CheckProof(c, p, VF.WriteStep(s) + rest, hash)
                                == Prepend(checked.value.1, CheckProof(checked.value.0, VF.DefaultParser, rest, hash)))
  {
    var src := VF.WriteStep(s) + rest;
    VF.ParseStepOfWritten(p, s, rest);
    var parsed := VF.ParseStep(p, src);
    var checked := CheckStep(Advance(c), s, hash);
    if checked.Ok? {
      CheckProofIgnoresParser(checked.value.0, parsed.value.0, VF.DefaultParser, rest, hash);
    }
  }

  /**
   Checking steps one after the other without parsing: the reference the
   loop over an encoded proof is compared with.
   */
  function Replay(c: Checker, steps: seq<ProofStep>, rest: seq<VF.Token>, hash: seq<Lit> -> ClauseHash): Result<(Checker, seq<CheckedStep>)>
    requires Valid(c)
    decreases |steps|
  {
    if c.unsat then
      Ok((c, ProcessUnitConflicts(c)))
    else if |steps| == 0 then
      CheckProof(c, VF.DefaultParser, rest, hash)
    else
      var checked := CheckStep(Advance(c), steps[0], hash);
      if checked.Err? then Err(checked.error) else Prepend(checked.value.1, Replay(checked.value.0, steps[1..], rest, hash))
  }

  /** The inductive step of `CheckProofOfWrittenSteps`: one encoded step, then the others. */
  lemma WrittenStepsCons(c: Checker, p: VF.Parser, steps: seq<ProofStep>, rest: seq<VF.Token>, hash: seq<Lit> -> ClauseHash)
    requires Valid(c) && !c.unsat && |steps| > 0
    requires var checked := CheckStep(Advance(c), steps[0], hash);
             checked.Ok? ==> CheckProof(checked.value.0, VF.DefaultParser, VF.WriteSteps(steps[1..]) + rest, hash)
                             == Replay(checked.value.0, steps[1..], rest, hash)
    ensures CheckProof(c, p, VF.WriteSteps(steps) + rest, hash) == Replay(c, steps, rest, hash)
  {
    var tail := VF.WriteSteps(steps[1..]) + rest;
    VF.WriteStepsCons(steps, rest);
    CheckProofOfWritten(c, p, steps[0], tail, hash);
    var checked := CheckStep(Advance(c), steps[0], hash);
    if checked.Ok? {
      assert Replay(c, steps, rest, hash) == Prepend(checked.value.1, Replay(checked.value.0, steps[1..], rest, hash));
    }
  }

  /** The loop over an encoded proof checks its steps in order, as if they were given directly. */
  lemma {:induction false} CheckProofOfWrittenSteps(c: Checker, p: VF.Parser, steps: seq<ProofStep>, rest: seq<VF.Token>, hash: seq<Lit> -> ClauseHash)
    requires Valid(c)
    ensures CheckProof(c, p, VF.WriteSteps(steps) + rest, hash) == Replay(c, steps, rest, hash)
    decreases |steps|
  {
    if |steps| == 0 {
      assert VF.WriteSteps(steps) + rest == rest;
      CheckProofIgnoresParser(c, p, VF.DefaultParser, rest, hash);
    } else if !c.unsat {
      var checked := CheckStep(Advance(c), steps[0], hash);
      if checked.Ok? {
        CheckProofOfWrittenSteps(checked.value.0, VF.DefaultParser, steps[1..], rest, hash);
      }
      WrittenStepsCons(c, p, steps, rest, hash);
    }
  }

  /** An accepted proof leaves no assignment satisfying the checker's formula it started from. */
  lemma {:induction false} CheckProofSound(alpha: Assignment, c: Checker, p: VF.Parser, src: seq<VF.Token>, hash: seq<Lit> -> ClauseHash)
    requires Valid(c) && CheckProof(c, p, src, hash).Ok?
    ensures !Holds(alpha, c)
    decreases |src|
  {
    if !c.unsat && Holds(alpha, c) {
      var c1 := Advance(c);
      assert Holds(alpha, c1);
      var parsed := VF.ParseStep(p, src);
      var r := NextRound(c, p, src, hash);
      assert r.Next? && r.c == CheckStep(c1, parsed.value.1, hash).value.0;
      CheckStepSound(alpha, c1, parsed.value.1, hash);
      CheckProofSound(alpha, r.c, r.p, r.rest, hash);
    }
  }

  /**
   The checker is sound: when a proof is accepted for a formula, no
   assignment satisfies all the formula's clauses.
   */
  lemma ProofRefutesFormula(alpha: Assignment, clauses: seq<seq<Lit>>, src: seq<VF.Token>, hash: seq<Lit> -> ClauseHash)
    requires CheckProof(AddFormula(NewChecker(), clauses, hash).0, VF.DefaultParser, src, hash).Ok?
    ensures exists i :: 0 <= i < |clauses| && !ClauseTrue(alpha, clauses[i])
  {
    var c := AddFormula(NewChecker(), clauses, hash).0;
    CheckProofSound(alpha, c, VF.DefaultParser, src, hash);
    assert Holds(alpha, NewChecker());
    AddFormulaHolds(alpha, NewChecker(), clauses, hash);
  }
}
