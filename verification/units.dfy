/**
 Known unit clauses as a partial assignment, with the trail used to undo
 temporary assignments.

 The checker keeps a vector indexed by variable holding an optional unit
 clause per variable, grown with empty slots whenever a larger index is
 written. Reading past its end gives no unit, so the vector is modelled as a
 finite map from variable index to unit clause: growing it changes nothing
 that can be observed.
 */
module Units {
  import opened Options
  import opened Lits

  /** Where a known value of a variable comes from. */
  datatype UnitId =
    /** A unit clause of the formula, with its clause id. */
    | Global(id: nat)
    /** A propagation of the running clause check, by its position in the trace. */
    | TracePos(pos: nat)
    /** A literal of the clause under check, assumed false. */
    | InClause

  /** A known value of a variable and its origin. */
  datatype UnitClause = UnitClause(id: UnitId, value: bool)

  type Units = map<nat, UnitClause>

  /** Assignments saved before they were overwritten: the literal written and the previous unit of its variable. */
  type Trail = seq<(Lit, Option<UnitClause>)>

  function Get(u: Units, v: nat): Option<UnitClause> {
    if v in u then Some(u[v]) else None
  }

  /**
   The value of literal `l` if its variable is known, with the unit that
   gives it. A literal is true when its variable's value differs from its
   negation flag.
   */
  function LitValue(u: Units, l: Lit): (r: Option<(bool, UnitClause)>)
    ensures r.None? <==> Get(u, Var(l)).None?
    ensures r.Some? ==> Get(u, Var(l)) == Some(r.value.1)
  {
    match Get(u, Var(l))
    case None => None
    case Some(unit) => Some((unit.value != IsNegative(l), unit))
  }

  /** The units make `l` true. */
  predicate KnownTrue(u: Units, l: Lit) {
    LitValue(u, l).Some? && LitValue(u, l).value.0
  }

  /** The units make `l` false. */
  predicate KnownFalse(u: Units, l: Lit) {
    LitValue(u, l).Some? && !LitValue(u, l).value.0
  }

  /** `u'` gives every variable known to `u` the same value, whatever unit it comes from. */
  predicate Extends(u: Units, u': Units) {
    forall v :: v in u ==> v in u' && u'[v].value == u[v].value
  }

  /** `u` and `u'` know the same variables with the same values. */
  predicate SameValues(u: Units, u': Units) {
    Extends(u, u') && u'.Keys <= u.Keys
  }

  lemma ExtendsTrans(u: Units, u': Units, u'': Units)
    requires Extends(u, u') && Extends(u', u'')
    ensures Extends(u, u'')
  {
  }

  lemma SameValuesTrans(u: Units, u': Units, u'': Units)
    requires SameValues(u, u') && SameValues(u', u'')
    ensures SameValues(u, u'')
  {
  }

  lemma SameValuesSym(u: Units, u': Units)
    requires SameValues(u, u')
    ensures SameValues(u', u)
  {
  }

  /** Giving one variable the same value on both sides keeps the values equal. */
  lemma SameValuesUpdate(u: Units, u': Units, v: nat, a: UnitClause, a': UnitClause)
    requires SameValues(u, u') && a.value == a'.value
    ensures SameValues(u[v := a], u'[v := a'])
  {
  }

  /** A literal known true or false stays so in every extension. */
  lemma ExtendsLit(u: Units, u': Units, l: Lit)
    requires Extends(u, u')
    ensures KnownTrue(u, l) ==> KnownTrue(u', l)
    ensures KnownFalse(u, l) ==> KnownFalse(u', l)
  {
  }

  /** Units with the same values agree on every literal. */
  lemma SameValuesLit(u: Units, u': Units, l: Lit)
    requires SameValues(u, u')
    ensures LitValue(u, l).None? <==> LitValue(u', l).None?
    ensures KnownTrue(u, l) <==> KnownTrue(u', l)
    ensures KnownFalse(u, l) <==> KnownFalse(u', l)
  {
  }

  /** Puts back the unit `saved` that variable `Var(l)` held before. */
  function Restore(u: Units, l: Lit, saved: Option<UnitClause>): Units {
    match saved
    case None => u - {Var(l)}
    case Some(unit) => u[Var(l) := unit]
  }

  /** Undoes the assignments recorded on the trail, the most recent first. */
  function Undo(u: Units, trail: Trail): Units
    decreases |trail|
  {
    if |trail| == 0 then
      u
    else
      var last := trail[|trail| - 1];
      Undo(Restore(u, last.0, last.1), trail[..|trail| - 1])
  }

  /**
   Overwriting the unit of a literal's variable while recording the previous
   one on the trail is invisible once the trail is undone.
   */
  lemma UndoRecorded(u: Units, trail: Trail, l: Lit, unit: UnitClause)
    ensures Undo(u[Var(l) := unit], trail + [(l, Get(u, Var(l)))]) == Undo(u, trail)
  {
    var t := trail + [(l, Get(u, Var(l)))];
    assert t[..|t| - 1] == trail;
    assert Restore(u[Var(l) := unit], l, Get(u, Var(l))) == u;
  }

  // Meaning of units under a total assignment

  /** A total assignment of truth values to variables. */
  type Assignment = nat -> bool

  predicate LitTrue(alpha: Assignment, l: Lit) {
    alpha(Var(l)) != IsNegative(l)
  }

  /** Every known unit holds under the assignment. */
  predicate Agrees(alpha: Assignment, u: Units) {
    forall v :: v in u ==> alpha(v) == u[v].value
  }

  /** A literal with a known value has that value under every assignment that agrees with the units. */
  lemma LitValueSound(alpha: Assignment, u: Units, l: Lit)
    requires Agrees(alpha, u)
    requires LitValue(u, l).Some?
    ensures LitTrue(alpha, l) == LitValue(u, l).value.0
  {
  }

  /** Giving a literal's variable the value that makes the literal `b` keeps the units agreeing with an assignment under which the literal is `b`. */
  lemma AgreesAssign(alpha: Assignment, u: Units, l: Lit, id: UnitId, b: bool)
    requires Agrees(alpha, u) && LitTrue(alpha, l) == b
    ensures Agrees(alpha, u[Var(l) := UnitClause(id, b != IsNegative(l))])
  {
  }
}
