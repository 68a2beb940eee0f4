/**
 Literals and clause normalisation.

 A literal is represented by its code: the variable index times two, plus one
 when the literal is negated. Literals are ordered by their code, which is the
 order `sort_unstable` uses on them. A clause is normalised by sorting its
 literals and removing adjacent duplicates, so that a normalised clause is a
 strictly increasing sequence of codes.
 */
module Lits {

  /** A literal, by its code. */
  type Lit = nat

  /** Index of the literal's variable. */
  function Var(l: Lit): nat {
    l / 2
  }

  predicate IsNegative(l: Lit) {
    l % 2 == 1
  }

  predicate IsPositive(l: Lit) {
    !IsNegative(l)
  }

  predicate Sorted(s: seq<Lit>) {
    forall i, j :: 0 <= i < j < |s| ==> s[i] <= s[j]
  }

  predicate StrictlySorted(s: seq<Lit>) {
    forall i, j :: 0 <= i < j < |s| ==> s[i] < s[j]
  }

  /** Inserts `x` into a sorted sequence, keeping it sorted. */
  function Insert(x: Lit, s: seq<Lit>): (r: seq<Lit>)
    requires Sorted(s)
    ensures Sorted(r)
    ensures multiset(r) == multiset(s) + multiset{x}
    ensures |r| == |s| + 1 && r[0] == if |s| == 0 || x <= s[0] then x else s[0]
  {
    if |s| == 0 || x <= s[0] then
      [x] + s
    else
      var tail := Insert(x, s[1..]);
      InsertBehind(x, s, tail);
      [s[0]] + tail
  }

  /** Putting the head of `s` back in front of the insertion into its tail keeps the result sorted. */
  lemma InsertBehind(x: Lit, s: seq<Lit>, tail: seq<Lit>)
    requires Sorted(s) && |s| > 0 && s[0] < x
    requires Sorted(tail) && multiset(tail) == multiset(s[1..]) + multiset{x}
    requires |tail| == |s| && tail[0] == if |s| == 1 || x <= s[1] then x else s[1]
    ensures Sorted([s[0]] + tail)
    ensures multiset([s[0]] + tail) == multiset(s) + multiset{x}
  {
    assert s == [s[0]] + s[1..];
    assert s[0] <= tail[0];
    assert forall i :: 1 <= i < |tail| + 1 ==> ([s[0]] + tail)[i] == tail[i - 1];
  }

  /** The literals of `s` in ascending order (`sort_unstable`). */
  function Sort(s: seq<Lit>): (r: seq<Lit>)
    ensures Sorted(r)
    ensures multiset(r) == multiset(s)
  {
    if |s| == 0 then
      []
    else
      assert s == [s[0]] + s[1..];
      Insert(s[0], Sort(s[1..]))
  }

  /** Removes consecutive repeated literals, keeping the first of each run (`dedup`). */
  function Dedup(s: seq<Lit>): (r: seq<Lit>)
    ensures forall x :: x in r <==> x in s
    ensures |r| <= |s|
    ensures |s| > 0 ==> |r| > 0 && r[0] == s[0]
    ensures Sorted(s) ==> StrictlySorted(r)
  {
    if |s| <= 1 then
      s
    else if s[0] == s[1] then
      Dedup(s[1..])
    else
      var tail := Dedup(s[1..]);
      assert s == [s[0]] + s[1..];
      [s[0]] + tail
  }

  /** A clause's literals sorted and free of duplicates, as the checker stores and reports them. */
  function Normalize(clause: seq<Lit>): (r: seq<Lit>)
    ensures StrictlySorted(r)
    ensures forall x :: x in r <==> x in clause
  {
    var sorted := Sort(clause);
    assert forall x :: x in sorted <==> x in multiset(sorted);
    Dedup(sorted)
  }

  /** Two strictly sorted sequences with the same literals start with the same, least, literal. */
  lemma StrictlySortedHeads(a: seq<Lit>, b: seq<Lit>)
    requires StrictlySorted(a) && StrictlySorted(b)
    requires forall x :: x in a <==> x in b
    requires |a| > 0
    ensures |b| > 0 && a[0] == b[0]
  {
    assert a[0] in b;
    assert b[0] in a;
  }

  /** With the same first literal, the rests of two such sequences have the same literals too. */
  lemma StrictlySortedTails(a: seq<Lit>, b: seq<Lit>)
    requires StrictlySorted(a) && StrictlySorted(b)
    requires forall x :: x in a <==> x in b
    requires |a| > 0 && |b| > 0 && a[0] == b[0]
    ensures StrictlySorted(a[1..]) && StrictlySorted(b[1..])
    ensures forall x :: x in a[1..] <==> x in b[1..]
  {
    forall x ensures x in a[1..] <==> x in b[1..] {
      if x in a[1..] {
        var i :| 1 <= i < |a| && a[i] == x;
        assert x in b;
        assert x != b[0];
      }
      if x in b[1..] {
        var i :| 1 <= i < |b| && b[i] == x;
        assert x in a;
        assert x != a[0];
      }
    }
  }

  /** Two strictly sorted sequences with the same literals are equal. */
  lemma {:induction false} StrictlySortedUnique(a: seq<Lit>, b: seq<Lit>)
    requires StrictlySorted(a) && StrictlySorted(b)
    requires forall x :: x in a <==> x in b
    ensures a == b
    decreases |a|
  {
    if |a| > 0 {
      StrictlySortedHeads(a, b);
      StrictlySortedTails(a, b);
      StrictlySortedUnique(a[1..], b[1..]);
      assert a == [a[0]] + a[1..];
      assert b == [b[0]] + b[1..];
    } else if |b| > 0 {
      StrictlySortedHeads(b, a);
    }
  }

  /** Normalisation depends only on the set of literals of a clause. */
  lemma NormalizeDependsOnLiterals(c: seq<Lit>, d: seq<Lit>)
    requires forall x :: x in c <==> x in d
    ensures Normalize(c) == Normalize(d)
  {
    StrictlySortedUnique(Normalize(c), Normalize(d));
  }

  /** A clause that is already sorted and duplicate free is its own normal form. */
  lemma NormalizeOfNormal(c: seq<Lit>)
    requires StrictlySorted(c)
    ensures Normalize(c) == c
  {
    StrictlySortedUnique(Normalize(c), c);
  }

  /** Normalising twice is the same as normalising once. */
  lemma NormalizeIdempotent(c: seq<Lit>)
    ensures Normalize(Normalize(c)) == Normalize(c)
  {
    NormalizeOfNormal(Normalize(c));
  }
}
