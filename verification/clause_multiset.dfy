/**
 The checker's non-unit clauses, seen abstractly.

 The formula is a multiset of clauses: clauses are grouped by their hash, and
 each stored clause has an id and a reference count saying how often it is
 present. This module works on literal sequences; the concrete storage of the
 literals (inline or in a shared buffer) is in module ClauseStore, which is
 proved to implement the operations defined here.
 */
module ClauseMultiset {
  import opened Options
  import opened Lits
  import opened ProofSteps

  /** A stored non-unit clause: its id, how often it is present, and its literals. */
  datatype Entry = Entry(id: nat, refCount: nat, lits: seq<Lit>)

  /** Stored clauses, indexed by hash. */
  type Formula = map<ClauseHash, seq<Entry>>

  function Bucket(f: Formula, h: ClauseHash): seq<Entry> {
    if h in f then f[h] else []
  }

  /** Index of the first entry of `b` whose literals are `lits`. */
  function Find(b: seq<Entry>, lits: seq<Lit>): (r: Option<nat>)
    ensures r.Some? ==> r.value < |b| && b[r.value].lits == lits
    ensures r.Some? ==> forall j :: 0 <= j < r.value ==> b[j].lits != lits
    ensures r.None? ==> forall j :: 0 <= j < |b| ==> b[j].lits != lits
  {
    if |b| == 0 then
      None
    else if b[0].lits == lits then
      Some(0)
    else
      match Find(b[1..], lits)
      case None => None
      case Some(i) => Some(i + 1)
  }

  /** Reference counts are positive, stored clauses are not units, and no clause is stored twice. */
  predicate BucketWellFormed(b: seq<Entry>) {
    && (forall i :: 0 <= i < |b| ==> b[i].refCount >= 1 && |b[i].lits| >= 2)
    && (forall i, j :: 0 <= i < j < |b| ==> b[i].lits != b[j].lits)
  }

  predicate WellFormed(f: Formula) {
    forall h :: h in f ==> BucketWellFormed(f[h])
  }

  /** Every stored clause has an id below `n`. */
  predicate IdsBelow(f: Formula, n: nat) {
    forall h, i :: h in f && 0 <= i < |f[h]| ==> f[h][i].id < n
  }

  /** How often the clause `lits` is present in bucket `b`. */
  function Multiplicity(b: seq<Entry>, lits: seq<Lit>): nat {
    match Find(b, lits)
    case Some(i) => b[i].refCount
    case None => 0
  }

  /** How often the clause `lits` is present among the clauses with hash `h`. */
  function Count(f: Formula, h: ClauseHash, lits: seq<Lit>): nat {
    Multiplicity(Bucket(f, h), lits)
  }

  /** Id of the stored copy of `lits`. */
  function IdOf(f: Formula, h: ClauseHash, lits: seq<Lit>): nat
    requires Find(Bucket(f, h), lits).Some?
  {
    Bucket(f, h)[Find(Bucket(f, h), lits).value].id
  }

  // Facts about Find

  /** `r` is the index of the first entry with literals `lits`, or None when there is none. */
  predicate IsFirst(b: seq<Entry>, lits: seq<Lit>, r: Option<nat>) {
    match r
    case None => forall j :: 0 <= j < |b| ==> b[j].lits != lits
    case Some(i) => i < |b| && b[i].lits == lits && forall j :: 0 <= j < i ==> b[j].lits != lits
  }

  lemma {:induction false} FindUnique(b: seq<Entry>, lits: seq<Lit>, r: Option<nat>)
    requires IsFirst(b, lits, r)
    ensures Find(b, lits) == r
    decreases |b|
  {
    if |b| > 0 && b[0].lits != lits {
      var r1 := match r case None => None case Some(i) => Some(i - 1);
      assert IsFirst(b[1..], lits, r1);
      FindUnique(b[1..], lits, r1);
    }
  }

  /** Find only looks at the literals of the entries. */
  lemma FindSameLits(b: seq<Entry>, b': seq<Entry>, lits: seq<Lit>)
    requires |b| == |b'|
    requires forall j :: 0 <= j < |b| ==> b[j].lits == b'[j].lits
    ensures Find(b, lits) == Find(b', lits)
  {
    FindUnique(b', lits, Find(b, lits));
  }

  lemma FindAppend(b: seq<Entry>, e: Entry, lits: seq<Lit>)
    ensures Find(b + [e], lits) ==
            if Find(b, lits).Some? then Find(b, lits)
            else if e.lits == lits then Some(|b|)
            else None
  {
    var b' := b + [e];
    assert forall j :: 0 <= j < |b| ==> b'[j] == b[j];
    FindUnique(b', lits, if Find(b, lits).Some? then Find(b, lits)
                         else if e.lits == lits then Some(|b|)
                         else None);
  }

  /** In a bucket without repeated clauses, an entry is found exactly where it is. */
  lemma FindDistinct(b: seq<Entry>, j: nat)
    requires BucketWellFormed(b)
    requires j < |b|
    ensures Find(b, b[j].lits) == Some(j)
  {
    FindUnique(b, b[j].lits, Some(j));
  }

  /** Entry `j` of `b` once entry `i` has been dropped. */
  lemma RemovedIndex(b: seq<Entry>, i: nat, j: nat)
    requires i < |b| && j < |b| - 1
    ensures |b[..i] + b[i + 1..]| == |b| - 1
    ensures (b[..i] + b[i + 1..])[j] == if j < i then b[j] else b[j + 1]
  {
  }

  /** A clause other than `b[i].lits` that `b` lacks is missing once `b[i]` is dropped. */
  lemma FindRemovedNone(b: seq<Entry>, i: nat, lits: seq<Lit>)
    requires i < |b| && Find(b, lits).None?
    ensures Find(b[..i] + b[i + 1..], lits).None?
  {
    var b' := b[..i] + b[i + 1..];
    forall k | 0 <= k < |b'| ensures b'[k].lits != lits {
      RemovedIndex(b, i, k);
    }
    FindUnique(b', lits, None);
  }

  /** A clause other than `b[i].lits` first found at `j` is found at `j`, or `j - 1` past `i`, once `b[i]` is dropped. */
  lemma FindRemovedSome(b: seq<Entry>, i: nat, lits: seq<Lit>, j: nat)
    requires i < |b| && b[i].lits != lits && Find(b, lits) == Some(j)
    ensures j != i
    ensures Find(b[..i] + b[i + 1..], lits) == Some(if j < i then j else j - 1)
  {
    var b' := b[..i] + b[i + 1..];
    var j' := if j < i then j else j - 1;
    RemovedIndex(b, i, j');
    forall k | 0 <= k < j' ensures b'[k].lits != lits {
      RemovedIndex(b, i, k);
    }
    FindUnique(b', lits, Some(j'));
  }

  // Changing one entry of a bucket

  /** Raising the count of the entry that holds `b[i].lits` changes only that clause's multiplicity. */
  lemma BumpMultiplicity(b: seq<Entry>, i: nat, lits: seq<Lit>)
    requires i < |b| && Find(b, b[i].lits) == Some(i)
    ensures Multiplicity(b[i := b[i].(refCount := b[i].refCount + 1)], lits)
            == Multiplicity(b, lits) + (if lits == b[i].lits then 1 else 0)
  {
    FindSameLits(b, b[i := b[i].(refCount := b[i].refCount + 1)], lits);
  }

  /** Lowering the count of the entry that holds `b[i].lits` changes only that clause's multiplicity. */
  lemma DropMultiplicity(b: seq<Entry>, i: nat, lits: seq<Lit>)
    requires i < |b| && Find(b, b[i].lits) == Some(i) && b[i].refCount >= 1
    ensures Multiplicity(b[i := b[i].(refCount := b[i].refCount - 1)], lits)
            == Multiplicity(b, lits) - (if lits == b[i].lits then 1 else 0)
  {
    FindSameLits(b, b[i := b[i].(refCount := b[i].refCount - 1)], lits);
  }

  /** Appending a new entry with count 1 changes only that clause's multiplicity. */
  lemma AppendMultiplicity(b: seq<Entry>, e: Entry, lits: seq<Lit>)
    requires Find(b, e.lits).None? && e.refCount == 1
    ensures Multiplicity(b + [e], lits) == Multiplicity(b, lits) + (if lits == e.lits then 1 else 0)
  {
    FindAppend(b, e, lits);
  }

  /** In a well-formed bucket, removing the entry of `b[i].lits` makes that clause absent and changes nothing else. */
  lemma RemoveMultiplicity(b: seq<Entry>, i: nat, lits: seq<Lit>)
    requires BucketWellFormed(b) && i < |b|
    ensures Multiplicity(b[..i] + b[i + 1..], lits)
            == if lits == b[i].lits then 0 else Multiplicity(b, lits)
  {
    var b' := b[..i] + b[i + 1..];
    if lits == b[i].lits {
      forall k | 0 <= k < |b'| ensures b'[k].lits != lits {
        RemovedIndex(b, i, k);
      }
      FindUnique(b', lits, None);
    } else {
      match Find(b, lits)
      case None => FindRemovedNone(b, i, lits);
      case Some(j) =>
        FindRemovedSome(b, i, lits, j);
        RemovedIndex(b, i, if j < i then j else j - 1);
    }
  }

  /** Bucket `b` with one more copy of `lits`. */
  function AddedBucket(b: seq<Entry>, lits: seq<Lit>, freshId: nat): seq<Entry> {
    match Find(b, lits)
    case Some(i) => b[i := b[i].(refCount := b[i].refCount + 1)]
    case None => b + [Entry(freshId, 1, lits)]
  }

  /** Adding to a bucket raises the multiplicity of `lits` by one and of nothing else. */
  lemma AddedMultiplicity(b: seq<Entry>, lits: seq<Lit>, freshId: nat, lits': seq<Lit>)
    ensures Multiplicity(AddedBucket(b, lits, freshId), lits') == Multiplicity(b, lits') + (if lits' == lits then 1 else 0)
  {
    match Find(b, lits)
    case Some(i) => BumpMultiplicity(b, i, lits');
    case None => AppendMultiplicity(b, Entry(freshId, 1, lits), lits');
  }

  /** Adding to bucket `h` raises the count of `lits` under `h` by one and of nothing else. */
  lemma AddedCounts(f: Formula, h: ClauseHash, lits: seq<Lit>, freshId: nat)
    ensures forall h', lits' :: Count(f[h := AddedBucket(Bucket(f, h), lits, freshId)], h', lits')
                               == Count(f, h', lits') + (if h' == h && lits' == lits then 1 else 0)
  {
    var f' := f[h := AddedBucket(Bucket(f, h), lits, freshId)];
    forall h', lits' ensures Count(f', h', lits') == Count(f, h', lits') + (if h' == h && lits' == lits then 1 else 0) {
      if h' == h {
        AddedMultiplicity(Bucket(f, h), lits, freshId, lits');
      } else {
        assert Bucket(f', h') == Bucket(f, h');
      }
    }
  }

  /**
   Adds one copy of `lits` under hash `h`. If the clause is present, its
   reference count grows and its id is returned; otherwise a new entry with
   `freshId` and reference count 1 is appended. The returned flag says whether
   a new entry was made.
   */
  function Add(f: Formula, h: ClauseHash, lits: seq<Lit>, freshId: nat): (r: (Formula, nat, bool))
    requires WellFormed(f)
    ensures Count(r.0, h, lits) == Count(f, h, lits) + 1
    ensures forall h', lits' :: h' != h || lits' != lits ==> Count(r.0, h', lits') == Count(f, h', lits')
    ensures r.2 <==> Count(f, h, lits) == 0
    ensures r.2 ==> r.1 == freshId
    ensures !r.2 ==> r.1 == IdOf(f, h, lits)
  {
    var b := Bucket(f, h);
    AddedCounts(f, h, lits, freshId);
    var found := Find(b, lits);
    (f[h := AddedBucket(b, lits, freshId)], if found.Some? then b[found.value].id else freshId, found.None?)
  }

  /** Adding never makes a new entry for a clause already present, and touches only bucket `h`. */
  lemma AddShape(f: Formula, h: ClauseHash, lits: seq<Lit>, freshId: nat)
    requires WellFormed(f)
    ensures var r := Add(f, h, lits, freshId);
      && |Bucket(r.0, h)| == |Bucket(f, h)| + (if r.2 then 1 else 0)
      && Find(Bucket(r.0, h), lits).Some? && IdOf(r.0, h, lits) == r.1
      && (forall h' :: h' != h ==> Bucket(r.0, h') == Bucket(f, h'))
  {
    var b := Bucket(f, h);
    assert Add(f, h, lits, freshId).0 == f[h := AddedBucket(b, lits, freshId)];
    match Find(b, lits)
    case Some(i) =>
      FindSameLits(b, b[i := b[i].(refCount := b[i].refCount + 1)], lits);
    case None =>
      FindAppend(b, Entry(freshId, 1, lits), lits);
  }

  lemma AddedBucketInvariants(b: seq<Entry>, lits: seq<Lit>, freshId: nat, n: nat)
    requires BucketWellFormed(b) && |lits| >= 2
    ensures BucketWellFormed(AddedBucket(b, lits, freshId))
    ensures (forall j :: 0 <= j < |b| ==> b[j].id < n) && (Find(b, lits).Some? || freshId < n) ==>
              forall j :: 0 <= j < |AddedBucket(b, lits, freshId)| ==> AddedBucket(b, lits, freshId)[j].id < n
  {
    if Find(b, lits).None? {
      var b' := b + [Entry(freshId, 1, lits)];
      assert forall j :: 0 <= j < |b| ==> b'[j] == b[j];
    }
  }

  /**
   Adding a non-unit clause keeps the formula well formed, and keeps all ids
   below `n` when the fresh id is below `n` or is not used.
   */
  lemma AddInvariants(f: Formula, h: ClauseHash, lits: seq<Lit>, freshId: nat, n: nat)
    requires WellFormed(f) && |lits| >= 2
    ensures WellFormed(Add(f, h, lits, freshId).0)
    ensures IdsBelow(f, n) && (freshId < n || !Add(f, h, lits, freshId).2) ==> IdsBelow(Add(f, h, lits, freshId).0, n)
  {
    var b := Bucket(f, h);
    assert Add(f, h, lits, freshId).0 == f[h := AddedBucket(b, lits, freshId)];
    assert Add(f, h, lits, freshId).2 == Find(b, lits).None?;
    AddedBucketInvariants(b, lits, freshId, n);
  }

  /**
   Removes one copy of `lits` from the clauses with hash `h`, or gives None
   when the clause is not present. The copy's entry disappears when its
   reference count reaches zero, and then its id is returned; an emptied
   bucket is dropped.
   */
  function Remove(f: Formula, h: ClauseHash, lits: seq<Lit>): (r: Option<(Formula, Option<nat>)>)
    requires WellFormed(f)
    ensures r.None? <==> Count(f, h, lits) == 0
    ensures r.Some? ==> Count(r.value.0, h, lits) == Count(f, h, lits) - 1
    ensures r.Some? ==> forall h', lits' :: h' != h || lits' != lits ==>
                          Count(r.value.0, h', lits') == Count(f, h', lits')
    ensures r.Some? ==> (r.value.1.Some? <==> Count(f, h, lits) == 1)
    ensures r.Some? && r.value.1.Some? ==> r.value.1.value == IdOf(f, h, lits)
  {
    var b := Bucket(f, h);
    match Find(b, lits)
    case None => None
    case Some(i) =>
      RemovedCounts(f, h, lits, i);
      Some((RemovedFormula(f, h, i), if b[i].refCount == 1 then Some(b[i].id) else None))
  }

  /** The bucket that replaces bucket `h` when a copy of `lits` is removed. */
  function RemovedBucket(b: seq<Entry>, i: nat): seq<Entry>
    requires i < |b| && b[i].refCount >= 1
  {
    if b[i].refCount == 1 then b[..i] + b[i + 1..] else b[i := b[i].(refCount := b[i].refCount - 1)]
  }

  /** The formula once bucket `h` has lost one copy of its entry `i`. */
  function RemovedFormula(f: Formula, h: ClauseHash, i: nat): Formula
    requires i < |Bucket(f, h)| && Bucket(f, h)[i].refCount >= 1
  {
    var b' := RemovedBucket(Bucket(f, h), i);
    if |b'| == 0 then f - {h} else f[h := b']
  }

  /** Removing the `i`-th entry of a bucket lowers the multiplicity of its literals by one and of nothing else. */
  lemma RemovedBucketMultiplicity(b: seq<Entry>, i: nat, lits: seq<Lit>, lits': seq<Lit>)
    requires BucketWellFormed(b) && Find(b, lits) == Some(i)
    ensures Multiplicity(RemovedBucket(b, i), lits') == Multiplicity(b, lits') - (if lits' == lits then 1 else 0)
  {
    if b[i].refCount == 1 {
      assert RemovedBucket(b, i) == b[..i] + b[i + 1..];
      RemoveMultiplicity(b, i, lits');
      assert lits' == lits ==> Multiplicity(b, lits') == 1;
    } else {
      assert RemovedBucket(b, i) == b[i := b[i].(refCount := b[i].refCount - 1)];
      DropMultiplicity(b, i, lits');
    }
  }

  lemma RemovedCounts(f: Formula, h: ClauseHash, lits: seq<Lit>, i: nat)
    requires WellFormed(f)
    requires Find(Bucket(f, h), lits) == Some(i)
    ensures forall h', lits' :: Count(RemovedFormula(f, h, i), h', lits')
                                == Count(f, h', lits') - (if h' == h && lits' == lits then 1 else 0)
  {
    var b := Bucket(f, h);
    var f' := RemovedFormula(f, h, i);
    assert Bucket(f', h) == RemovedBucket(b, i);
    forall h', lits' ensures Count(f', h', lits') == Count(f, h', lits') - (if h' == h && lits' == lits then 1 else 0) {
      if h' == h {
        RemovedBucketMultiplicity(b, i, lits, lits');
      }
    }
  }

  lemma RemovedBucketWellFormed(b: seq<Entry>, i: nat, n: nat)
    requires BucketWellFormed(b) && i < |b|
    ensures BucketWellFormed(RemovedBucket(b, i))
    ensures (forall j :: 0 <= j < |b| ==> b[j].id < n) ==>
              forall j :: 0 <= j < |RemovedBucket(b, i)| ==> RemovedBucket(b, i)[j].id < n
  {
    var b' := RemovedBucket(b, i);
    if b[i].refCount == 1 {
      assert forall j :: 0 <= j < i ==> b'[j] == b[j];
      assert forall j :: i <= j < |b'| ==> b'[j] == b[j + 1];
    }
  }

  /** Removing keeps the formula well formed, keeps ids below any bound, and touches only bucket `h`. */
  lemma RemoveInvariants(f: Formula, h: ClauseHash, i: nat, n: nat)
    requires WellFormed(f)
    requires i < |Bucket(f, h)|
    ensures WellFormed(RemovedFormula(f, h, i))
    ensures IdsBelow(f, n) ==> IdsBelow(RemovedFormula(f, h, i), n)
    ensures forall h' :: h' != h ==> Bucket(RemovedFormula(f, h, i), h') == Bucket(f, h')
  {
    var b := Bucket(f, h);
    var b' := RemovedBucket(b, i);
    RemovedBucketWellFormed(b, i, n);
    var f' := RemovedFormula(f, h, i);
    forall h' | h' in f' ensures BucketWellFormed(f'[h']) {
      if h' == h { assert f'[h'] == b'; } else { assert f'[h'] == f[h']; }
    }
  }
}
