/**
 Concrete storage of the checker's non-unit clauses.

 A clause's literals are kept inline when there are at most three of them;
 longer clauses are appended to a shared literal buffer and the first inline
 slot holds their offset. Deleting a clause leaves its literals in the buffer
 as garbage; once more than half the buffer is garbage, every live clause is
 copied into a fresh buffer. The view of a store is its formula in the sense
 of module ClauseMultiset; every operation here is proved to act on the view
 as the corresponding abstract operation does.
 */
module ClauseStore {
  import opened Options
  import opened Lits
  import opened ProofSteps
  import CM = ClauseMultiset

  const InlineLits: nat := 3

  /** Literals of a clause: inline, or (when longer than three) an offset into the literal buffer. */
  datatype ClauseLits = ClauseLits(length: nat, inline: seq<nat>)

  /** The literals `cl` refers to lie inside `buffer`. */
  predicate ValidIn(cl: ClauseLits, buffer: seq<Lit>) {
    && |cl.inline| == InlineLits
    && (cl.length > InlineLits ==> cl.inline[0] + cl.length <= |buffer|)
  }

  /** The literals of a clause, given the literal buffer. */
  function Slice(cl: ClauseLits, buffer: seq<Lit>): (r: seq<Lit>)
    requires ValidIn(cl, buffer)
    ensures |r| == cl.length
  {
    if cl.length > InlineLits then
      buffer[cl.inline[0]..cl.inline[0] + cl.length]
    else
      cl.inline[..cl.length]
  }

  /** Number of literals of the clause held in the buffer. */
  function BufferUsed(cl: ClauseLits): nat {
    if cl.length > InlineLits then cl.length else 0
  }

  /**
   Stores `lits`, in the buffer when there are more than three of them.
   The buffer only grows, by exactly the literals the new value uses, and the
   value reads back as `lits`.
   */
  function NewClauseLits(lits: seq<Lit>, buffer: seq<Lit>): (r: (ClauseLits, seq<Lit>))
    ensures ValidIn(r.0, r.1)
    ensures Slice(r.0, r.1) == lits
    ensures buffer <= r.1
    ensures |r.1| == |buffer| + BufferUsed(r.0)
    ensures BufferUsed(r.0) == if |lits| > InlineLits then |lits| else 0
  {
    if |lits| > InlineLits then
      (ClauseLits(|lits|, [|buffer|, 0, 0]), buffer + lits)
    else
      (ClauseLits(|lits|, lits + seq(InlineLits - |lits|, _ => 0)), buffer)
  }

  /** Appending to the buffer leaves every stored clause's literals unchanged. */
  lemma SliceOfExtended(cl: ClauseLits, buffer: seq<Lit>, buffer': seq<Lit>)
    requires ValidIn(cl, buffer) && buffer <= buffer'
    ensures ValidIn(cl, buffer')
    ensures Slice(cl, buffer') == Slice(cl, buffer)
  {
    if cl.length > InlineLits {
      assert buffer'[cl.inline[0]..cl.inline[0] + cl.length] == buffer[cl.inline[0]..cl.inline[0] + cl.length];
    }
  }

  /** A non-unit clause with its id and reference count. */
  datatype Clause = Clause(id: nat, refCount: nat, lits: ClauseLits)

  type Buckets = map<ClauseHash, seq<Clause>>

  datatype Store = Store(
    /** Literal storage for clauses longer than three literals. */
    buffer: seq<Lit>,
    /** Number of literals in the buffer counted as belonging to deleted clauses. */
    garbageSize: nat,
    /** All stored non-unit clauses, indexed by hash. */
    clauses: Buckets)

  const EmptyStore := Store([], 0, map[])

  predicate BucketValidIn(b: seq<Clause>, buffer: seq<Lit>) {
    forall i :: 0 <= i < |b| ==> ValidIn(b[i].lits, buffer)
  }

  predicate BucketsValidIn(m: Buckets, buffer: seq<Lit>) {
    forall h :: h in m ==> BucketValidIn(m[h], buffer)
  }

  function EntryOf(c: Clause, buffer: seq<Lit>): CM.Entry
    requires ValidIn(c.lits, buffer)
  {
    CM.Entry(c.id, c.refCount, Slice(c.lits, buffer))
  }

  function BucketView(b: seq<Clause>, buffer: seq<Lit>): (r: seq<CM.Entry>)
    requires BucketValidIn(b, buffer)
    ensures |r| == |b|
    ensures forall i :: 0 <= i < |b| ==> r[i] == EntryOf(b[i], buffer)
  {
    seq(|b|, i requires 0 <= i < |b| => EntryOf(b[i], buffer))
  }

  /** The formula the buckets hold, with every clause's literals read from the buffer. */
  function View(m: Buckets, buffer: seq<Lit>): (f: CM.Formula)
    requires BucketsValidIn(m, buffer)
    ensures f.Keys == m.Keys
  {
    map h | h in m :: BucketView(m[h], buffer)
  }

  function StoreView(s: Store): CM.Formula
    requires BucketsValidIn(s.clauses, s.buffer)
  {
    View(s.clauses, s.buffer)
  }

  /** Every clause's literals are in the buffer, and the viewed formula is well formed. */
  predicate Valid(s: Store) {
    BucketsValidIn(s.clauses, s.buffer) && CM.WellFormed(StoreView(s))
  }

  lemma BucketViewOfExtended(b: seq<Clause>, buffer: seq<Lit>, buffer': seq<Lit>)
    requires BucketValidIn(b, buffer) && buffer <= buffer'
    ensures BucketValidIn(b, buffer')
    ensures BucketView(b, buffer') == BucketView(b, buffer)
  {
    forall i | 0 <= i < |b| ensures ValidIn(b[i].lits, buffer') && Slice(b[i].lits, buffer') == Slice(b[i].lits, buffer) {
      SliceOfExtended(b[i].lits, buffer, buffer');
    }
  }

  /** Appending to the buffer does not change the viewed formula. */
  lemma ViewOfExtended(m: Buckets, buffer: seq<Lit>, buffer': seq<Lit>)
    requires BucketsValidIn(m, buffer) && buffer <= buffer'
    ensures BucketsValidIn(m, buffer')
    ensures View(m, buffer') == View(m, buffer)
  {
    forall h | h in m ensures BucketValidIn(m[h], buffer') && BucketView(m[h], buffer') == BucketView(m[h], buffer) {
      BucketViewOfExtended(m[h], buffer, buffer');
    }
  }

  lemma ViewOfUpdate(m: Buckets, buffer: seq<Lit>, h: ClauseHash, b: seq<Clause>)
    requires BucketsValidIn(m, buffer) && BucketValidIn(b, buffer)
    ensures BucketsValidIn(m[h := b], buffer)
    ensures View(m[h := b], buffer) == View(m, buffer)[h := BucketView(b, buffer)]
  {
  }

  function StoredBucket(s: Store, h: ClauseHash): seq<Clause> {
    if h in s.clauses then s.clauses[h] else []
  }

  /**
   Bucket `b` with one more copy of `lits`, the buffer it then refers to, the
   clause's id and whether it is new: a matching clause has its reference
   count raised, otherwise the clause is appended with id `freshId`.
   */
  function InsertedBucket(b: seq<Clause>, buffer: seq<Lit>, lits: seq<Lit>, freshId: nat): (seq<Clause>, seq<Lit>, nat, bool)
    requires BucketValidIn(b, buffer)
  {
    match CM.Find(BucketView(b, buffer), lits)
    case Some(i) => (b[i := b[i].(refCount := b[i].refCount + 1)], buffer, b[i].id, false)
    case None =>
      var (cl, buffer') := NewClauseLits(lits, buffer);
      (b + [Clause(freshId, 1, cl)], buffer', freshId, true)
  }

  /** Raising the reference count of the `i`-th clause raises it in the view. */
  lemma BumpedBucketView(b: seq<Clause>, buffer: seq<Lit>, i: nat)
    requires BucketValidIn(b, buffer) && i < |b|
    ensures BucketValidIn(b[i := b[i].(refCount := b[i].refCount + 1)], buffer)
    ensures var v := BucketView(b, buffer);
            BucketView(b[i := b[i].(refCount := b[i].refCount + 1)], buffer) == v[i := v[i].(refCount := v[i].refCount + 1)]
  {
    var b' := b[i := b[i].(refCount := b[i].refCount + 1)];
    assert forall j :: 0 <= j < |b'| ==> b'[j].lits == b[j].lits;
  }

  /** Appending a new clause appends its entry to the view, and only extends the buffer. */
  lemma AppendedBucketView(b: seq<Clause>, buffer: seq<Lit>, lits: seq<Lit>, freshId: nat)
    requires BucketValidIn(b, buffer)
    ensures var n := NewClauseLits(lits, buffer);
            && BucketValidIn(b + [Clause(freshId, 1, n.0)], n.1)
            && BucketView(b + [Clause(freshId, 1, n.0)], n.1) == BucketView(b, buffer) + [CM.Entry(freshId, 1, lits)]
  {
    var n := NewClauseLits(lits, buffer);
    BucketViewOfExtended(b, buffer, n.1);
    var b' := b + [Clause(freshId, 1, n.0)];
    assert BucketView(b', n.1) == BucketView(b, n.1) + [CM.Entry(freshId, 1, lits)];
  }

  /** Inserting into a bucket is adding to its view, and only extends the buffer. */
  lemma InsertedBucketView(b: seq<Clause>, buffer: seq<Lit>, lits: seq<Lit>, freshId: nat)
    requires BucketValidIn(b, buffer)
    ensures var r := InsertedBucket(b, buffer, lits, freshId);
            && buffer <= r.1 && BucketValidIn(r.0, r.1)
            && BucketView(r.0, r.1) == CM.AddedBucket(BucketView(b, buffer), lits, freshId)
  {
    var found := CM.Find(BucketView(b, buffer), lits);
    if found.Some? {
      BumpedBucketView(b, buffer, found.value);
    } else {
      AppendedBucketView(b, buffer, lits, freshId);
    }
  }

  /** What CM.Add reports: the id and the new-entry flag of the bucket it extends. */
  lemma AddReport(f: CM.Formula, h: ClauseHash, lits: seq<Lit>, freshId: nat)
    requires CM.WellFormed(f)
    ensures CM.Add(f, h, lits, freshId).0 == f[h := CM.AddedBucket(CM.Bucket(f, h), lits, freshId)]
    ensures CM.Find(CM.Bucket(f, h), lits).Some? ==>
              CM.Add(f, h, lits, freshId).1 == CM.Bucket(f, h)[CM.Find(CM.Bucket(f, h), lits).value].id
              && !CM.Add(f, h, lits, freshId).2
    ensures CM.Find(CM.Bucket(f, h), lits).None? ==> CM.Add(f, h, lits, freshId).1 == freshId && CM.Add(f, h, lits, freshId).2
  {
  }

  /**
   Stores one copy of the non-unit clause `lits` under hash `h`. A copy
   already present has its reference count raised and keeps its id; otherwise
   the clause is appended with id `freshId`. Returns the clause's id and
   whether it was new. This is exactly CM.Add on the viewed formula.
   */
  function Insert(s: Store, h: ClauseHash, lits: seq<Lit>, freshId: nat): (r: (Store, nat, bool))
    requires Valid(s) && |lits| >= 2
    ensures Valid(r.0)
    ensures StoreView(r.0) == CM.Add(StoreView(s), h, lits, freshId).0
    ensures r.1 == CM.Add(StoreView(s), h, lits, freshId).1
    ensures r.2 == CM.Add(StoreView(s), h, lits, freshId).2
    ensures r.0.garbageSize == s.garbageSize
  {
    var b := StoredBucket(s, h);
    var f := StoreView(s);
    assert BucketView(b, s.buffer) == CM.Bucket(f, h);
    var (b', buffer', id, added) := InsertedBucket(b, s.buffer, lits, freshId);
    InsertedBucketView(b, s.buffer, lits, freshId);
    ViewOfExtended(s.clauses, s.buffer, buffer');
    ViewOfUpdate(s.clauses, buffer', h, b');
    AddReport(f, h, lits, freshId);
    CM.AddInvariants(f, h, lits, freshId, freshId + 1);
    (Store(buffer', s.garbageSize, s.clauses[h := b']), id, added)
  }

  /**
   Removes one copy of the clause `lits` from the clauses with hash `h`, or
   gives None when no stored clause has these literals. Every matching removal
   counts the clause's buffer literals as garbage. Returns the clause's id when
   its reference count reached zero. On the view this is exactly CM.Remove.
   */
  function Delete(s: Store, h: ClauseHash, lits: seq<Lit>): (r: Option<(Store, Option<nat>)>)
    requires Valid(s)
    ensures r.None? <==> CM.Remove(StoreView(s), h, lits).None?
    ensures r.Some? ==> Valid(r.value.0)
    ensures r.Some? ==> StoreView(r.value.0) == CM.Remove(StoreView(s), h, lits).value.0
    ensures r.Some? ==> r.value.1 == CM.Remove(StoreView(s), h, lits).value.1
    ensures r.Some? ==> r.value.0.buffer == s.buffer && r.value.0.garbageSize >= s.garbageSize
  {
    var b := StoredBucket(s, h);
    var f := StoreView(s);
    assert BucketView(b, s.buffer) == CM.Bucket(f, h);
    match CM.Find(BucketView(b, s.buffer), lits)
    case None => None
    case Some(i) =>
      RemovedClausesView(s, h, i);
      var s' := Store(s.buffer, s.garbageSize + BufferUsed(b[i].lits), RemovedClauses(s.clauses, h, i));
      CM.RemoveInvariants(f, h, i, 0);
      assert CM.Remove(f, h, lits) == Some((CM.RemovedFormula(f, h, i), if b[i].refCount == 1 then Some(b[i].id) else None));
      Some((s', if b[i].refCount == 1 then Some(b[i].id) else None))
  }

  /** A bucket once its clause `i` has lost one reference; the clause goes when none is left. */
  function RemovedClauseBucket(b: seq<Clause>, i: nat): seq<Clause>
    requires i < |b| && b[i].refCount >= 1
  {
    if b[i].refCount == 1 then b[..i] + b[i + 1..] else b[i := b[i].(refCount := b[i].refCount - 1)]
  }

  /** The buckets once bucket `h` has lost one copy of its clause `i`; an emptied bucket is dropped. */
  function RemovedClauses(m: Buckets, h: ClauseHash, i: nat): Buckets
    requires h in m && i < |m[h]| && m[h][i].refCount >= 1
  {
    var b' := RemovedClauseBucket(m[h], i);
    if |b'| == 0 then m - {h} else m[h := b']
  }

  /** Viewing a bucket commutes with dropping its clause `i`. */
  lemma BucketViewWithout(b: seq<Clause>, i: nat, buffer: seq<Lit>)
    requires BucketValidIn(b, buffer) && i < |b|
    ensures BucketValidIn(b[..i] + b[i + 1..], buffer)
    ensures BucketView(b[..i] + b[i + 1..], buffer) == BucketView(b, buffer)[..i] + BucketView(b, buffer)[i + 1..]
  {
    var b' := b[..i] + b[i + 1..];
    var v := BucketView(b, buffer);
    var v' := v[..i] + v[i + 1..];
    assert forall j :: 0 <= j < |b'| ==> b'[j] == b[if j < i then j else j + 1];
    assert BucketValidIn(b', buffer);
    assert forall j :: 0 <= j < |v'| ==> v'[j] == v[if j < i then j else j + 1];
    forall j | 0 <= j < |v'| ensures BucketView(b', buffer)[j] == v'[j] {
    }
  }

  /** Viewing a bucket commutes with lowering the reference count of its clause `i`. */
  lemma BucketViewDecrement(b: seq<Clause>, i: nat, buffer: seq<Lit>)
    requires BucketValidIn(b, buffer) && i < |b| && b[i].refCount >= 1
    ensures BucketValidIn(b[i := b[i].(refCount := b[i].refCount - 1)], buffer)
    ensures var v := BucketView(b, buffer);
            BucketView(b[i := b[i].(refCount := b[i].refCount - 1)], buffer) == v[i := v[i].(refCount := v[i].refCount - 1)]
  {
    var b' := b[i := b[i].(refCount := b[i].refCount - 1)];
    var v := BucketView(b, buffer);
    assert BucketValidIn(b', buffer);
    forall j | 0 <= j < |b'| ensures BucketView(b', buffer)[j] == v[i := v[i].(refCount := v[i].refCount - 1)][j] {
    }
  }

  lemma RemovedClauseBucketView(b: seq<Clause>, i: nat, buffer: seq<Lit>)
    requires BucketValidIn(b, buffer) && i < |b| && b[i].refCount >= 1
    ensures BucketValidIn(RemovedClauseBucket(b, i), buffer)
    ensures BucketView(RemovedClauseBucket(b, i), buffer) == CM.RemovedBucket(BucketView(b, buffer), i)
  {
    if b[i].refCount == 1 {
      BucketViewWithout(b, i, buffer);
    } else {
      BucketViewDecrement(b, i, buffer);
    }
  }

  /** Removing a clause from the buckets removes its entry from the viewed formula. */
  lemma RemovedClausesView(s: Store, h: ClauseHash, i: nat)
    requires Valid(s) && i < |StoredBucket(s, h)|
    ensures s.clauses[h][i].refCount >= 1
    ensures BucketsValidIn(RemovedClauses(s.clauses, h, i), s.buffer)
    ensures i < |CM.Bucket(StoreView(s), h)| && CM.Bucket(StoreView(s), h)[i].refCount >= 1
    ensures View(RemovedClauses(s.clauses, h, i), s.buffer) == CM.RemovedFormula(StoreView(s), h, i)
  {
    var b := s.clauses[h];
    var f := StoreView(s);
    assert BucketView(b, s.buffer) == CM.Bucket(f, h);
    assert CM.BucketWellFormed(CM.Bucket(f, h));
    var b' := RemovedClauseBucket(b, i);
    RemovedClauseBucketView(b, i, s.buffer);
    if |b'| != 0 {
      ViewOfUpdate(s.clauses, s.buffer, h, b');
    }
  }

  // Garbage collection

  /** The least element of a non-empty set of naturals. */
  function MinKey(s: set<nat>): (k: nat)
    requires s != {}
    ensures k in s && forall j :: j in s ==> k <= j
  {
    var w :| w in s;
    MinKeyFrom(s, 0, w)
  }

  /** The least element of `s`, searching upwards from `lo`, below which `s` has no element. */
  function MinKeyFrom(s: set<nat>, lo: nat, w: nat): (k: nat)
    requires w in s && lo <= w
    requires forall j :: j in s ==> lo <= j
    ensures k in s && forall j :: j in s ==> k <= j
    decreases w - lo
  {
    if lo in s then lo else MinKeyFrom(s, lo + 1, w)
  }

  /**
   The keys of a set in ascending order. The hash map's iteration order is
   unspecified; visiting the buckets in ascending hash order is one instance.
   */
  function Ascending(s: set<nat>): (r: seq<nat>)
    ensures forall x :: x in r <==> x in s
    decreases |s|
  {
    if s == {} then [] else var k := MinKey(s); [k] + Ascending(s - {k})
  }
  /** The keys are enumerated in strictly ascending order. */
  lemma {:induction false} AscendingSorted(s: set<nat>)
    ensures forall i, j :: 0 <= i < j < |Ascending(s)| ==> Ascending(s)[i] < Ascending(s)[j]
    decreases |s|
  {
    if s != {} {
      var k := MinKey(s);
      var rest := Ascending(s - {k});
      AscendingSorted(s - {k});
      assert forall x :: x in rest ==> k < x;
      SortedCons(k, rest);
    }
  }

  /** A key below every element of an ascending sequence extends it to an ascending sequence. */
  lemma SortedCons(k: nat, rest: seq<nat>)
    requires forall x :: x in rest ==> k < x
    requires forall i, j :: 0 <= i < j < |rest| ==> rest[i] < rest[j]
    ensures forall i, j :: 0 <= i < j < |[k] + rest| ==> ([k] + rest)[i] < ([k] + rest)[j]
  {
    forall i, j | 0 <= i < j < |[k] + rest| ensures ([k] + rest)[i] < ([k] + rest)[j] {
      assert ([k] + rest)[j] == rest[j - 1] && rest[j - 1] in rest;
      if i > 0 {
        assert ([k] + rest)[i] == rest[i - 1];
      }
    }
  }



  /** Viewing a bucket commutes with putting a clause in front. */
  lemma BucketViewCons(c: Clause, b: seq<Clause>, buffer: seq<Lit>)
    requires ValidIn(c.lits, buffer) && BucketValidIn(b, buffer)
    ensures BucketValidIn([c] + b, buffer)
    ensures BucketView([c] + b, buffer) == [EntryOf(c, buffer)] + BucketView(b, buffer)
  {
    assert forall j :: 1 <= j < |[c] + b| ==> ([c] + b)[j] == b[j - 1];
  }

  /** Copies the literals of the clauses of one bucket, in order, to the end of `buffer'`. */
  function RelocateBucket(b: seq<Clause>, buffer: seq<Lit>, buffer': seq<Lit>): (r: (seq<Clause>, seq<Lit>))
    requires BucketValidIn(b, buffer)
    ensures buffer' <= r.1
    ensures BucketValidIn(r.0, r.1)
    ensures BucketView(r.0, r.1) == BucketView(b, buffer)
    decreases |b|
  {
    if |b| == 0 then
      ([], buffer')
    else
      var (cl, buffer1) := NewClauseLits(Slice(b[0].lits, buffer), buffer');
      var (tail, buffer2) := RelocateBucket(b[1..], buffer, buffer1);
      SliceOfExtended(cl, buffer1, buffer2);
      var c := b[0].(lits := cl);
      BucketViewCons(c, tail, buffer2);
      BucketViewCons(b[0], b[1..], buffer);
      assert [b[0]] + b[1..] == b;
      ([c] + tail, buffer2)
  }

  /**
   Relocates the buckets named in `keys`, one after the other, into `acc`
   and the new buffer. Buckets already in `acc` keep their contents.
   */
  function RelocateKeys(keys: seq<ClauseHash>, m: Buckets, buffer: seq<Lit>, acc: Buckets, buffer': seq<Lit>)
    : (r: (Buckets, seq<Lit>))
    requires forall k :: k in keys ==> k in m
    requires BucketsValidIn(m, buffer) && BucketsValidIn(acc, buffer')
    ensures buffer' <= r.1
    ensures BucketsValidIn(r.0, r.1)
    ensures forall k :: k in r.0 <==> k in acc || k in keys
    ensures forall k :: k in r.0 ==>
              BucketView(r.0[k], r.1) == if k in keys then BucketView(m[k], buffer) else BucketView(acc[k], buffer')
    decreases |keys|
  {
    if |keys| == 0 then
      (acc, buffer')
    else
      var (b', buffer1) := RelocateBucket(m[keys[0]], buffer, buffer');
      ViewOfExtended(acc, buffer', buffer1);
      var acc' := acc[keys[0] := b'];
      assert forall k :: k in acc' && k != keys[0] ==> BucketView(acc'[k], buffer1) == BucketView(acc[k], buffer');
      var r := RelocateKeys(keys[1..], m, buffer, acc', buffer1);
      assert forall k :: k in keys <==> k == keys[0] || k in keys[1..];
      r
  }

  /** Buckets with the same hashes whose views agree have the same view. */
  lemma ViewsEqual(m: Buckets, buffer: seq<Lit>, m': Buckets, buffer': seq<Lit>)
    requires BucketsValidIn(m, buffer) && BucketsValidIn(m', buffer')
    requires forall k :: k in m <==> k in m'
    requires forall k :: k in m ==> BucketView(m[k], buffer) == BucketView(m'[k], buffer')
    ensures View(m, buffer) == View(m', buffer')
  {
  }

  /** Copies every bucket, in ascending hash order, into a fresh buffer; the view stays the same. */
  function Relocate(m: Buckets, buffer: seq<Lit>): (r: (Buckets, seq<Lit>))
    requires BucketsValidIn(m, buffer)
    ensures BucketsValidIn(r.0, r.1)
    ensures View(r.0, r.1) == View(m, buffer)
  {
    var r := RelocateKeys(Ascending(m.Keys), m, buffer, map[], []);
    assert forall k :: k in r.0 <==> k in m;
    forall k | k in m ensures BucketView(r.0[k], r.1) == BucketView(m[k], buffer) {
      assert k in Ascending(m.Keys);
    }
    ViewsEqual(r.0, r.1, m, buffer);
    r
  }

  /**
   Compacts the literal buffer when more than half of it is garbage: every
   stored clause is copied into a fresh buffer and the garbage count is reset.
   Every stored clause keeps its id, reference count and literals.
   */
  function CollectGarbage(s: Store): (r: Store)
    requires Valid(s)
    ensures Valid(r)
    ensures StoreView(r) == StoreView(s)
    ensures s.garbageSize * 2 <= |s.buffer| ==> r == s
    ensures s.garbageSize * 2 > |s.buffer| ==> r.garbageSize == 0
  {
    if s.garbageSize * 2 <= |s.buffer| then
      s
    else
      var (m', buffer') := Relocate(s.clauses, s.buffer);
      Store(buffer', 0, m')
  }
}
