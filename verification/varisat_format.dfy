/**
 Writer and parser for proof steps in the native varisat format.

 The stream is modelled as a sequence of unsigned integer tokens; each token
 stands for one variable-length encoded integer of the byte stream. A step is
 its tag code followed by length-prefixed lists: a literal list is its length
 followed by the literal codes, a hash list its length followed by the hashes,
 and a unit clause list its length followed by interleaved (literal code,
 hash) pairs.
 */
module VarisatFormat {
  import opened Lits
  import opened ProofSteps

  /** One unsigned integer of the proof stream. */
  type Token = nat

  const CodeAtClause: Token := 0
  const CodeUnitClauses: Token := 1
  const CodeDeleteClause: Token := 2

  /** The tag code that starts the encoding of a step. */
  function StepCode(step: ProofStep): Token {
    match step
    case AtClause(_, _) => CodeAtClause
    case UnitClauses(_) => CodeUnitClauses
    case DeleteClause(_) => CodeDeleteClause
  }

  datatype ParseError =
    /** The stream ended inside a step or before it. */
    | UnexpectedEof
    /** The tag code of a step is not one of the three known codes. */
    | BadTag(tag: Token)

  /** Outcome of reading a value from the front of a token stream. */
  datatype Read<+T> = Ok(value: T, rest: seq<Token>) | Err(error: ParseError)

  // Writing

  function WriteLiterals(lits: seq<Lit>): seq<Token> {
    [|lits|] + lits
  }

  function WriteHashes(hashes: seq<ClauseHash>): seq<Token> {
    [|hashes|] + hashes
  }

  /** Interleaved literal codes and hashes of unit clauses. */
  function UnitTokens(units: seq<(Lit, ClauseHash)>): seq<Token> {
    if |units| == 0 then [] else [units[0].0, units[0].1] + UnitTokens(units[1..])
  }

  function WriteUnitClauses(units: seq<(Lit, ClauseHash)>): seq<Token> {
    [|units|] + UnitTokens(units)
  }

  /** The encoding of a step after its tag code. */
  function StepBody(step: ProofStep): seq<Token> {
    match step
    case AtClause(clause, hashes) => WriteLiterals(clause) + WriteHashes(hashes)
    case UnitClauses(units) => WriteUnitClauses(units)
    case DeleteClause(clause) => WriteLiterals(clause)
  }

  function WriteStep(step: ProofStep): seq<Token> {
    [StepCode(step)] + StepBody(step)
  }

  /**
   Concatenation is associative. Stated once for any element type, so that
   the proofs below can regroup a written prefix without asking the solver
   to compare the concatenations element by element.
   */
  lemma AppendAssoc<T>(a: seq<T>, b: seq<T>, c: seq<T>)
    ensures (a + b) + c == a + (b + c)
  {
  }

  /** Each step's encoding starts with its tag code: 0, 1 or 2. */
  lemma WriteStepStartsWithTag(step: ProofStep)
    ensures |WriteStep(step)| > 0
    ensures WriteStep(step)[0] == StepCode(step) <= CodeDeleteClause
    ensures step.AtClause? <==> WriteStep(step)[0] == 0
    ensures step.UnitClauses? <==> WriteStep(step)[0] == 1
    ensures step.DeleteClause? <==> WriteStep(step)[0] == 2
  {
  }

  // Reading

  function ReadToken(src: seq<Token>): (r: Read<Token>)
    ensures r.Ok? <==> |src| > 0
    ensures r.Ok? ==> src == [r.value] + r.rest
    ensures r.Err? ==> r.error == UnexpectedEof
  {
    if |src| == 0 then Err(UnexpectedEof) else Ok(src[0], src[1..])
  }

  /** Reads `n` tokens, one at a time. */
  function ReadTokens(src: seq<Token>, n: nat): (r: Read<seq<Token>>)
    ensures r.Ok? <==> n <= |src|
    ensures r.Ok? ==> |r.value| == n && src == r.value + r.rest
    ensures r.Err? ==> r.error == UnexpectedEof
  {
    if n == 0 then
      Ok([], src)
    else
      var first := ReadToken(src);
      if first.Err? then
        Err(first.error)
      else
        var others := ReadTokens(first.rest, n - 1);
        if others.Err? then
          others
        else
          AppendAssoc([first.value], others.value, others.rest);
          Ok([first.value] + others.value, others.rest)
  }

  /** Reads a literal list into a freshly cleared buffer. */
  function ReadLiterals(src: seq<Token>): (r: Read<seq<Lit>>)
    ensures r.Ok? <==> |src| > 0 && src[0] < |src|
    ensures r.Ok? ==> src == WriteLiterals(r.value) + r.rest
    ensures r.Err? ==> r.error == UnexpectedEof
  {
    match ReadToken(src)
    case Err(e) => Err(e)
    case Ok(len, rest) =>
      match ReadTokens(rest, len)
      case Err(e) => Err(e)
      case Ok(codes, rest') => Ok(codes, rest')
  }

  /** Reads a hash list into a freshly cleared buffer. */
  function ReadHashes(src: seq<Token>): (r: Read<seq<ClauseHash>>)
    ensures r.Ok? <==> |src| > 0 && src[0] < |src|
    ensures r.Ok? ==> src == WriteHashes(r.value) + r.rest
    ensures r.Err? ==> r.error == UnexpectedEof
  {
    match ReadToken(src)
    case Err(e) => Err(e)
    case Ok(len, rest) =>
      match ReadTokens(rest, len)
      case Err(e) => Err(e)
      case Ok(hashes, rest') => Ok(hashes, rest')
  }

  /** Reads one (literal code, hash) pair. */
  function ReadPair(src: seq<Token>): (r: Read<(Lit, ClauseHash)>)
    ensures r.Ok? <==> 2 <= |src|
    ensures r.Ok? ==> r.value == (src[0], src[1]) && r.rest == src[2..]
    ensures r.Err? ==> r.error == UnexpectedEof
  {
    match ReadToken(src)
    case Err(e) => Err(e)
    case Ok(lit, rest) =>
      match ReadToken(rest)
      case Err(e) => Err(e)
      case Ok(hash, rest') => Ok((lit, hash), rest')
  }

  /** Reads `n` (literal code, hash) pairs, one pair at a time. */
  function ReadUnitPairs(src: seq<Token>, n: nat): (r: Read<seq<(Lit, ClauseHash)>>)
    ensures r.Ok? <==> 2 * n <= |src|
    ensures r.Ok? ==> |r.value| == n && src == UnitTokens(r.value) + r.rest
    ensures r.Err? ==> r.error == UnexpectedEof
  {
    if n == 0 then
      Ok([], src)
    else
      var pair := ReadPair(src);
      if pair.Err? then
        Err(pair.error)
      else
        var others := ReadUnitPairs(pair.rest, n - 1);
        if others.Err? then
          others
        else
          var r := [pair.value] + others.value;
          assert r[1..] == others.value;
          Ok(r, others.rest)
  }

  /** Reads a unit clause list into a freshly cleared buffer. */
  function ReadUnitClauses(src: seq<Token>): (r: Read<seq<(Lit, ClauseHash)>>)
    ensures r.Ok? <==> |src| > 0 && 2 * src[0] < |src|
    ensures r.Ok? ==> src == WriteUnitClauses(r.value) + r.rest
    ensures r.Err? ==> r.error == UnexpectedEof
  {
    match ReadToken(src)
    case Err(e) => Err(e)
    case Ok(len, rest) =>
      match ReadUnitPairs(rest, len)
      case Err(e) => Err(e)
      case Ok(units, rest') => Ok(units, rest')
  }

  /**
   The parser's reusable buffers. Parsing a step overwrites the buffers that
   step uses and leaves the others as they were.
   */
  datatype Parser = Parser(litBuf: seq<Lit>, hashBuf: seq<ClauseHash>, unitBuf: seq<(Lit, ClauseHash)>)

  const DefaultParser := Parser([], [], [])

  /** Parses the body of an AT clause step, the tokens after its tag. */
  function ParseAtClause(p: Parser, src: seq<Token>): (r: Read<(Parser, ProofStep)>)
    ensures r.Ok? ==> src == StepBody(r.value.1) + r.rest && r.value.1.AtClause?
    ensures r.Ok? ==> r.value.0 == p.(litBuf := r.value.1.clause, hashBuf := r.value.1.propagationHashes)
    ensures r.Err? ==> r.error == UnexpectedEof
  {
    var lits := ReadLiterals(src);
    if lits.Err? then
      Err(lits.error)
    else
      var hashes := ReadHashes(lits.rest);
      if hashes.Err? then
        Err(hashes.error)
      else
        var step := AtClause(lits.value, hashes.value);
        AppendAssoc(WriteLiterals(lits.value), WriteHashes(hashes.value), hashes.rest);
        Ok((p.(litBuf := lits.value, hashBuf := hashes.value), step), hashes.rest)
  }

  /** Parses the body of a unit clauses step, the tokens after its tag. */
  function ParseUnitClauses(p: Parser, src: seq<Token>): (r: Read<(Parser, ProofStep)>)
    ensures r.Ok? ==> src == StepBody(r.value.1) + r.rest && r.value.1.UnitClauses?
    ensures r.Ok? ==> r.value.0 == p.(unitBuf := r.value.1.units)
    ensures r.Err? ==> r.error == UnexpectedEof
  {
    var units := ReadUnitClauses(src);
    if units.Err? then
      Err(units.error)
    else
      Ok((p.(unitBuf := units.value), UnitClauses(units.value)), units.rest)
  }

  /** Parses the body of a clause deletion step, the tokens after its tag. */
  function ParseDeleteClause(p: Parser, src: seq<Token>): (r: Read<(Parser, ProofStep)>)
    ensures r.Ok? ==> src == StepBody(r.value.1) + r.rest && r.value.1.DeleteClause?
    ensures r.Ok? ==> r.value.0 == p.(litBuf := r.value.1.clause)
    ensures r.Err? ==> r.error == UnexpectedEof
  {
    var lits := ReadLiterals(src);
    if lits.Err? then
      Err(lits.error)
    else
      Ok((p.(litBuf := lits.value), DeleteClause(lits.value)), lits.rest)
  }

  /**
   Parses one step. Whatever parses is exactly the encoding of the returned
   step followed by the unread rest, so parsing consumes at least one token.
   */
  function ParseStep(p: Parser, src: seq<Token>): (r: Read<(Parser, ProofStep)>)
    ensures |src| == 0 ==> r == Err(UnexpectedEof)
    ensures |src| > 0 && src[0] > CodeDeleteClause ==> r == Err(BadTag(src[0]))
    ensures r.Err? && r.error.BadTag? ==> r.error.tag == src[0] > CodeDeleteClause
    ensures r.Ok? ==> src == WriteStep(r.value.1) + r.rest
    ensures r.Ok? ==> |r.rest| < |src|
  {
    if |src| == 0 then
      Err(UnexpectedEof)
    else
      var body :=
        if src[0] == CodeAtClause then ParseAtClause(p, src[1..])
        else if src[0] == CodeUnitClauses then ParseUnitClauses(p, src[1..])
        else if src[0] == CodeDeleteClause then ParseDeleteClause(p, src[1..])
        else Err(BadTag(src[0]));
      assert body.Ok? ==> src[0] == StepCode(body.value.1);
      assert body.Ok? ==> src == [src[0]] + src[1..] == [src[0]] + (StepBody(body.value.1) + body.rest);
      assert body.Ok? ==> src == WriteStep(body.value.1) + body.rest by {
        if body.Ok? {
          AppendAssoc([src[0]], StepBody(body.value.1), body.rest);
        }
      }
      body
  }

  // Round trips

  /** The tokens of unit clauses start with the literal code and hash of the first. */
  lemma UnitTokensCons(units: seq<(Lit, ClauseHash)>, rest: seq<Token>)
    requires |units| > 0
    ensures UnitTokens(units) + rest == [units[0].0, units[0].1] + (UnitTokens(units[1..]) + rest)
  {
  }

  lemma {:induction false} ReadUnitPairsOfWritten(units: seq<(Lit, ClauseHash)>, rest: seq<Token>)
    ensures ReadUnitPairs(UnitTokens(units) + rest, |units|) == Ok(units, rest)
    decreases |units|
  {
    if |units| > 0 {
      var tail := UnitTokens(units[1..]) + rest;
      var src := UnitTokens(units) + rest;
      UnitTokensCons(units, rest);
      assert src[2..] == tail;
      assert ReadPair(src) == Ok(units[0], tail);
      ReadUnitPairsOfWritten(units[1..], rest);
      assert [units[0]] + units[1..] == units;
    }
  }

  /** A literal list reads back as itself, whatever follows it. */
  lemma ReadLiteralsOfWritten(lits: seq<Lit>, rest: seq<Token>)
    ensures ReadLiterals(WriteLiterals(lits) + rest) == Ok(lits, rest)
  {
    var src := WriteLiterals(lits) + rest;
    assert src[1..] == lits + rest;
    var r := ReadTokens(src[1..], |lits|);
    assert r.value + r.rest == lits + rest;
    assert r.value == (r.value + r.rest)[..|lits|];
  }

  /** A hash list reads back as itself, whatever follows it. */
  lemma ReadHashesOfWritten(hashes: seq<ClauseHash>, rest: seq<Token>)
    ensures ReadHashes(WriteHashes(hashes) + rest) == Ok(hashes, rest)
  {
    var src := WriteHashes(hashes) + rest;
    assert src[1..] == hashes + rest;
    var r := ReadTokens(src[1..], |hashes|);
    assert r.value + r.rest == hashes + rest;
    assert r.value == (r.value + r.rest)[..|hashes|];
  }

  /** A unit clause list reads back as itself, in order, whatever follows it. */
  lemma ReadUnitClausesOfWritten(units: seq<(Lit, ClauseHash)>, rest: seq<Token>)
    ensures ReadUnitClauses(WriteUnitClauses(units) + rest) == Ok(units, rest)
  {
    var src := WriteUnitClauses(units) + rest;
    assert src[1..] == UnitTokens(units) + rest;
    ReadUnitPairsOfWritten(units, rest);
  }

  lemma ParseAtClauseOfWritten(p: Parser, clause: seq<Lit>, hashes: seq<ClauseHash>, rest: seq<Token>)
    ensures ParseStep(p, WriteStep(AtClause(clause, hashes)) + rest)
            == Ok((p.(litBuf := clause, hashBuf := hashes), AtClause(clause, hashes)), rest)
  {
    var src := WriteStep(AtClause(clause, hashes)) + rest;
    var tail := WriteLiterals(clause) + (WriteHashes(hashes) + rest);
    assert src == [CodeAtClause] + tail;
    assert ReadToken(src) == Ok(CodeAtClause, tail);
    ReadLiteralsOfWritten(clause, WriteHashes(hashes) + rest);
    ReadHashesOfWritten(hashes, rest);
  }

  lemma ParseUnitClausesOfWritten(p: Parser, units: seq<(Lit, ClauseHash)>, rest: seq<Token>)
    ensures ParseStep(p, WriteStep(UnitClauses(units)) + rest)
            == Ok((p.(unitBuf := units), UnitClauses(units)), rest)
  {
    var src := WriteStep(UnitClauses(units)) + rest;
    var tail := WriteUnitClauses(units) + rest;
    assert src == [CodeUnitClauses] + tail;
    assert ReadToken(src) == Ok(CodeUnitClauses, tail);
    ReadUnitClausesOfWritten(units, rest);
  }

  lemma ParseDeleteClauseOfWritten(p: Parser, clause: seq<Lit>, rest: seq<Token>)
    ensures ParseStep(p, WriteStep(DeleteClause(clause)) + rest)
            == Ok((p.(litBuf := clause), DeleteClause(clause)), rest)
  {
    var src := WriteStep(DeleteClause(clause)) + rest;
    var tail := WriteLiterals(clause) + rest;
    assert src == [CodeDeleteClause] + tail;
    assert ReadToken(src) == Ok(CodeDeleteClause, tail);
    ReadLiteralsOfWritten(clause, rest);
  }

  /**
   Decoding an encoded step gives back the same step and consumes exactly its
   encoding, whatever the parser read before and whatever follows.
   */
  lemma ParseStepOfWritten(p: Parser, step: ProofStep, rest: seq<Token>)
    ensures ParseStep(p, WriteStep(step) + rest).Ok?
    ensures ParseStep(p, WriteStep(step) + rest).value.1 == step
    ensures ParseStep(p, WriteStep(step) + rest).rest == rest
  {
    match step
    case AtClause(clause, hashes) => ParseAtClauseOfWritten(p, clause, hashes, rest);
    case UnitClauses(units) => ParseUnitClausesOfWritten(p, units, rest);
    case DeleteClause(clause) => ParseDeleteClauseOfWritten(p, clause, rest);
  }

  /**
   The step parsed from a stream does not depend on the parser's buffers: each
   reader clears its buffer before filling it.
   */
  lemma ParsedStepIgnoresBuffers(p: Parser, q: Parser, src: seq<Token>)
    ensures ParseStep(p, src).Ok? <==> ParseStep(q, src).Ok?
    ensures ParseStep(p, src).Ok? ==>
              ParseStep(p, src).value.1 == ParseStep(q, src).value.1 &&
              ParseStep(p, src).rest == ParseStep(q, src).rest
    ensures ParseStep(p, src).Err? ==> ParseStep(p, src).error == ParseStep(q, src).error
  {
    if |src| > 0 {
      var body := src[1..];
      if src[0] == CodeAtClause {
        assert ParseStep(p, src) == ParseAtClause(p, body) && ParseStep(q, src) == ParseAtClause(q, body);
      } else if src[0] == CodeUnitClauses {
        assert ParseStep(p, src) == ParseUnitClauses(p, body) && ParseStep(q, src) == ParseUnitClauses(q, body);
      } else if src[0] == CodeDeleteClause {
        assert ParseStep(p, src) == ParseDeleteClause(p, body) && ParseStep(q, src) == ParseDeleteClause(q, body);
      }
    }
  }

  /** The concatenated encoding of a list of steps, as a proof file holds them. */
  function WriteSteps(steps: seq<ProofStep>): seq<Token> {
    if |steps| == 0 then [] else WriteStep(steps[0]) + WriteSteps(steps[1..])
  }

  /** The encoding of several steps starts with the encoding of the first. */
  lemma WriteStepsCons(steps: seq<ProofStep>, rest: seq<Token>)
    requires |steps| > 0
    ensures WriteSteps(steps) + rest == WriteStep(steps[0]) + (WriteSteps(steps[1..]) + rest)
  {
    AppendAssoc(WriteStep(steps[0]), WriteSteps(steps[1..]), rest);
  }

  /** Parsing the encoding of several steps yields the first step and leaves the encoding of the others. */
  lemma ParseFirstOfWritten(p: Parser, steps: seq<ProofStep>, rest: seq<Token>)
    requires |steps| > 0
    ensures ParseStep(p, WriteSteps(steps) + rest).Ok?
    ensures ParseStep(p, WriteSteps(steps) + rest).value.1 == steps[0]
    ensures ParseStep(p, WriteSteps(steps) + rest).rest == WriteSteps(steps[1..]) + rest
  {
    assert WriteSteps(steps) + rest == WriteStep(steps[0]) + (WriteSteps(steps[1..]) + rest);
    ParseStepOfWritten(p, steps[0], WriteSteps(steps[1..]) + rest);
  }
}
