/** Bucket arrays as sequences: probe chains, the map they hold, and how single-bucket writes affect both. */
module Probing {
  import opened HashFunctions

  /** A bucket's state together with the slot that is live in that state. */
  datatype Bucket<T> =
    | Free
    | Used(value: T)
    | Deleted
    | Rehashed(value: T)
    | End

  predicate IsUsedBucket<T>(b: Bucket<T>) {
    b.Used? || b.Rehashed?
  }

  predicate IsFreeBucket<T>(b: Bucket<T>) {
    b.Free? || b.Deleted?
  }

  /** The element traits and the allocator: elements are equal when their keys are, and hash by key.
      `step` is the probe step; `goodSize` is `kmalloc_good_size` counted in buckets. */
  datatype Traits<!K, !T> = Traits(key: T -> K, hash: K -> u32, step: u32 -> u32, goodSize: nat -> nat) {
    ghost predicate Valid() {
      && SingleOrbit(step)
      && forall n: nat :: goodSize(n) >= n
    }

    function HashOf(v: T): u32 {
      hash(key(v))
    }

    /** The bucket probed after `n` steps for `start` in a table of `capacity` buckets. */
    ghost function Slot(start: u32, n: nat, capacity: nat): nat
      requires capacity > 0
      ensures Slot(start, n, capacity) < capacity
    {
      Home(Orbit(step, start, n), capacity)
    }
  }

  /** No bucket probed before step `n` is free, and step `n` probes `p`. */
  ghost predicate ChainTo<K, T>(tr: Traits<K, T>, b: seq<Bucket<T>>, start: u32, p: nat, n: nat)
    requires |b| > 0
  {
    && tr.Slot(start, n, |b|) == p
    && forall m: nat | m < n :: !b[tr.Slot(start, m, |b|)].Free?
  }

  ghost predicate Findable<K, T>(tr: Traits<K, T>, b: seq<Bucket<T>>, start: u32, p: nat)
    requires |b| > 0
  {
    exists n: nat :: ChainTo(tr, b, start, p, n)
  }

  /** Every element is found by probing from its own hash through non-free buckets. */
  ghost predicate Placed<K, T>(tr: Traits<K, T>, b: seq<Bucket<T>>) {
    forall p | 0 <= p < |b| && IsUsedBucket(b[p]) :: Findable(tr, b, tr.HashOf(b[p].value), p)
  }

  ghost predicate Unique<K, T>(tr: Traits<K, T>, b: seq<Bucket<T>>) {
    forall p, q | 0 <= p < |b| && 0 <= q < |b| && IsUsedBucket(b[p]) && IsUsedBucket(b[q])
      && tr.key(b[p].value) == tr.key(b[q].value) :: p == q
  }

  ghost predicate At<K, T>(tr: Traits<K, T>, b: seq<Bucket<T>>, k: K, p: int) {
    0 <= p < |b| && IsUsedBucket(b[p]) && tr.key(b[p].value) == k
  }

  /** The used buckets of `b` hold exactly the elements of `m`. */
  ghost predicate Holds<K, T>(tr: Traits<K, T>, b: seq<Bucket<T>>, m: map<K, T>) {
    && (forall p | 0 <= p < |b| && IsUsedBucket(b[p]) ::
          tr.key(b[p].value) in m && m[tr.key(b[p].value)] == b[p].value)
    && (forall k | k in m :: exists p :: At(tr, b, k, p))
  }

  datatype Kind = FreeKind | UsedKind | DeletedKind | RehashedKind | EndKind

  function KindOf<T>(b: Bucket<T>): Kind {
    match b
    case Free => FreeKind
    case Used(_) => UsedKind
    case Deleted => DeletedKind
    case Rehashed(_) => RehashedKind
    case End => EndKind
  }

  ghost function Count<T>(b: seq<Bucket<T>>, kind: Kind): nat {
    if |b| == 0 then 0 else Count(b[..|b| - 1], kind) + if KindOf(b[|b| - 1]) == kind then 1 else 0
  }

  lemma {:induction false} CountUpdate<T>(b: seq<Bucket<T>>, i: nat, v: Bucket<T>, kind: Kind)
    requires i < |b|
    ensures Count(b[i := v], kind) + (if KindOf(b[i]) == kind then 1 else 0)
         == Count(b, kind) + if KindOf(v) == kind then 1 else 0
  {
    var last := |b| - 1;
    if i == last {
      assert b[i := v][..last] == b[..last];
    } else {
      assert b[i := v][..last] == b[..last][i := v];
      CountUpdate(b[..last], i, v, kind);
    }
  }

  lemma {:induction false} CountNone<T>(b: seq<Bucket<T>>, kind: Kind)
    ensures Count(b, kind) == 0 <==> forall p | 0 <= p < |b| :: KindOf(b[p]) != kind
  {
    if |b| > 0 {
      CountNone(b[..|b| - 1], kind);
    }
  }

  lemma {:induction false} CountTotal<T>(b: seq<Bucket<T>>)
    ensures Count(b, FreeKind) + Count(b, UsedKind) + Count(b, DeletedKind) + Count(b, RehashedKind)
         + Count(b, EndKind) == |b|
  {
    if |b| > 0 {
      CountTotal(b[..|b| - 1]);
    }
  }

  /** A table that is neither full of elements nor of tombstones has a free bucket. */
  lemma FreeBucketExists<T>(b: seq<Bucket<T>>) returns (p: nat)
    requires Count(b, UsedKind) + Count(b, DeletedKind) < |b|
    requires Count(b, RehashedKind) == 0 && Count(b, EndKind) == 0
    ensures p < |b| && b[p].Free?
  {
    CountTotal(b);
    CountNone(b, FreeKind);
    p :| p < |b| && KindOf(b[p]) == FreeKind;
  }

  lemma HoldsDetermines<K, T>(tr: Traits<K, T>, b: seq<Bucket<T>>, m: map<K, T>, m': map<K, T>)
    requires Holds(tr, b, m) && Holds(tr, b, m')
    ensures m == m'
  {
    forall k | k in m ensures k in m' && m'[k] == m[k] {
      var p :| At(tr, b, k, p);
    }
    forall k | k in m' ensures k in m {
      var p :| At(tr, b, k, p);
    }
  }

  /** Filling a bucket or turning an element into a tombstone frees nothing, so chains survive. */
  lemma ChainSurvives<K, T>(tr: Traits<K, T>, b: seq<Bucket<T>>, b': seq<Bucket<T>>, start: u32, p: nat)
    requires |b| == |b'| > 0
    requires forall i | 0 <= i < |b| :: b'[i].Free? ==> b[i].Free?
    requires Findable(tr, b, start, p)
    ensures Findable(tr, b', start, p)
  {
    var n: nat :| ChainTo(tr, b, start, p, n);
    assert ChainTo(tr, b', start, p, n);
  }

  lemma Insertion<K, T>(tr: Traits<K, T>, b: seq<Bucket<T>>, m: map<K, T>, p: nat, v: T)
    requires p < |b| && IsFreeBucket(b[p])
    requires Placed(tr, b) && Unique(tr, b) && Holds(tr, b, m)
    requires tr.key(v) !in m
    requires Findable(tr, b, tr.HashOf(v), p)
    ensures Placed(tr, b[p := Used(v)]) && Unique(tr, b[p := Used(v)])
    ensures Holds(tr, b[p := Used(v)], m[tr.key(v) := v])
    ensures Count(b[p := Used(v)], UsedKind) == Count(b, UsedKind) + 1
    ensures Count(b[p := Used(v)], DeletedKind) == Count(b, DeletedKind) - if b[p].Deleted? then 1 else 0
  {
    var b' := b[p := Used(v)];
    CountUpdate(b, p, Used(v), UsedKind);
    CountUpdate(b, p, Used(v), DeletedKind);
    forall q | 0 <= q < |b'| && IsUsedBucket(b'[q]) ensures Findable(tr, b', tr.HashOf(b'[q].value), q) {
      ChainSurvives(tr, b, b', tr.HashOf(b'[q].value), q);
    }
    var m' := m[tr.key(v) := v];
    forall k | k in m' ensures exists q :: At(tr, b', k, q) {
      if k == tr.key(v) {
        assert At(tr, b', k, p);
      } else {
        var q :| At(tr, b, k, q);
        assert At(tr, b', k, q);
      }
    }
  }

  lemma Replacement<K, T>(tr: Traits<K, T>, b: seq<Bucket<T>>, m: map<K, T>, p: nat, v: T)
    requires p < |b| && b[p].Used? && tr.key(b[p].value) == tr.key(v)
    requires Placed(tr, b) && Unique(tr, b) && Holds(tr, b, m)
    ensures Placed(tr, b[p := Used(v)]) && Unique(tr, b[p := Used(v)])
    ensures Holds(tr, b[p := Used(v)], m[tr.key(v) := v])
    ensures Count(b[p := Used(v)], UsedKind) == Count(b, UsedKind)
    ensures Count(b[p := Used(v)], DeletedKind) == Count(b, DeletedKind)
  {
    var b' := b[p := Used(v)];
    CountUpdate(b, p, Used(v), UsedKind);
    CountUpdate(b, p, Used(v), DeletedKind);
    forall q | 0 <= q < |b'| && IsUsedBucket(b'[q]) ensures Findable(tr, b', tr.HashOf(b'[q].value), q) {
      ChainSurvives(tr, b, b', tr.HashOf(b'[q].value), q);
    }
    var m' := m[tr.key(v) := v];
    forall k | k in m' ensures exists q :: At(tr, b', k, q) {
      var q :| At(tr, b, k, q);
      assert At(tr, b', k, q);
    }
  }

  lemma Deletion<K, T>(tr: Traits<K, T>, b: seq<Bucket<T>>, m: map<K, T>, p: nat)
    requires p < |b| && b[p].Used?
    requires Placed(tr, b) && Unique(tr, b) && Holds(tr, b, m)
    ensures Placed(tr, b[p := Deleted]) && Unique(tr, b[p := Deleted])
    ensures Holds(tr, b[p := Deleted], m - {tr.key(b[p].value)})
    ensures Count(b[p := Deleted], UsedKind) == Count(b, UsedKind) - 1
    ensures Count(b[p := Deleted], DeletedKind) == Count(b, DeletedKind) + 1
  {
    var b' := b[p := Deleted];
    CountUpdate(b, p, Deleted, UsedKind);
    CountUpdate(b, p, Deleted, DeletedKind);
    forall q | 0 <= q < |b'| && IsUsedBucket(b'[q]) ensures Findable(tr, b', tr.HashOf(b'[q].value), q) {
      ChainSurvives(tr, b, b', tr.HashOf(b'[q].value), q);
    }
    forall k | k in m - {tr.key(b[p].value)} ensures exists q :: At(tr, b', k, q) {
      var q :| At(tr, b, k, q);
      assert At(tr, b', k, q);
    }
  }

  ghost predicate Passes<K, T>(tr: Traits<K, T>, b: seq<Bucket<T>>, k: K, p: nat)
    requires p < |b|
  {
    !b[p].Free? && !At(tr, b, k, p)
  }

  /** The probe for `k` stands at `hash` after `n` steps that met neither `k` nor a free bucket;
      a free bucket is known to lie at step `stop`. */
  ghost predicate Walking<K, T>(tr: Traits<K, T>, b: seq<Bucket<T>>, k: K, hash: u32, n: nat, stop: nat)
    requires |b| > 0
  {
    && hash == Orbit(tr.step, tr.hash(k), n)
    && n <= stop
    && b[tr.Slot(tr.hash(k), stop, |b|)].Free?
    && forall i: nat | i < n :: Passes(tr, b, k, tr.Slot(tr.hash(k), i, |b|))
  }

  lemma ProbeFirst<K, T>(tr: Traits<K, T>, b: seq<Bucket<T>>, k: K) returns (stop: nat)
    requires tr.Valid() && 0 < |b| <= HASH_COUNT
    requires Count(b, UsedKind) + Count(b, DeletedKind) < |b|
    requires forall p | 0 <= p < |b| :: !b[p].End? && !b[p].Rehashed?
    ensures Walking(tr, b, k, tr.hash(k), 0, stop)
  {
    CountNone(b, EndKind);
    CountNone(b, RehashedKind);
    var p := FreeBucketExists(b);
    stop := OrbitVisitsEveryBucket(tr.step, tr.hash(k), |b|, p);
  }

  lemma ProbeNext<K, T>(tr: Traits<K, T>, b: seq<Bucket<T>>, k: K, hash: u32, n: nat, stop: nat)
    requires |b| > 0 && Walking(tr, b, k, hash, n, stop)
    requires Passes(tr, b, k, Home(hash, |b|))
    ensures n < stop && Walking(tr, b, k, tr.step(hash), n + 1, stop)
  {
  }

  lemma NotAt<K, T>(tr: Traits<K, T>, b: seq<Bucket<T>>, k: K, p: nat)
    requires p < |b|
    ensures Passes(tr, b, k, p) <==> !b[p].Free? && !(IsUsedBucket(b[p]) && tr.key(b[p].value) == k)
  {
  }

  /** Any bucket met on the way, and the one the probe stands at, is on the probe chain of `k`. */
  lemma ProbeFinds<K, T>(tr: Traits<K, T>, b: seq<Bucket<T>>, k: K, hash: u32, n: nat, stop: nat)
    requires |b| > 0 && Walking(tr, b, k, hash, n, stop)
    ensures Findable(tr, b, tr.hash(k), Home(hash, |b|))
  {
    assert ChainTo(tr, b, tr.hash(k), Home(hash, |b|), n);
  }

  /** A probe that reaches a free bucket has met the element, if it is there at all. */
  lemma ProbeAbsent<K, T>(tr: Traits<K, T>, b: seq<Bucket<T>>, m: map<K, T>, k: K, hash: u32, n: nat, stop: nat)
    requires |b| > 0 && Placed(tr, b) && Holds(tr, b, m)
    requires Walking(tr, b, k, hash, n, stop)
    requires b[Home(hash, |b|)].Free?
    ensures k !in m
  {
    assert b[tr.Slot(tr.hash(k), n, |b|)].Free?;
    forall p, j: nat | At(tr, b, k, p) ensures !ChainTo(tr, b, tr.hash(k), p, j) {
      if j < n {
        assert !At(tr, b, k, tr.Slot(tr.hash(k), j, |b|));
      }
    }
  }

  // ---- In-place rehash ----

  /** Step `n` of the probe for `start` is `p`, and every earlier step met an already rehashed bucket. */
  ghost predicate SettledChain<K, T>(tr: Traits<K, T>, b: seq<Bucket<T>>, start: u32, p: nat, n: nat)
    requires |b| > 0
  {
    && tr.Slot(start, n, |b|) == p
    && forall m: nat | m < n :: b[tr.Slot(start, m, |b|)].Rehashed?
  }

  ghost predicate Settles<K, T>(tr: Traits<K, T>, b: seq<Bucket<T>>, start: u32, p: nat)
    requires |b| > 0
  {
    exists n: nat :: SettledChain(tr, b, start, p, n)
  }

  /** The invariant that survives while elements are on the move: rehashed elements sit on settled chains. */
  ghost predicate Settled<K, T>(tr: Traits<K, T>, b: seq<Bucket<T>>) {
    forall p | 0 <= p < |b| && b[p].Rehashed? :: Settles(tr, b, tr.HashOf(b[p].value), p)
  }

  lemma SettledSurvives<K, T>(tr: Traits<K, T>, b: seq<Bucket<T>>, b': seq<Bucket<T>>)
    requires |b| == |b'|
    requires Settled(tr, b)
    requires forall p | 0 <= p < |b| :: b[p].Rehashed? ==> b'[p] == b[p]
    requires forall p | 0 <= p < |b| :: b'[p].Rehashed? && !b[p].Rehashed? ==> Settles(tr, b, tr.HashOf(b'[p].value), p)
    ensures Settled(tr, b')
  {
    forall p | 0 <= p < |b'| && b'[p].Rehashed? ensures Settles(tr, b', tr.HashOf(b'[p].value), p) {
      var start := tr.HashOf(b'[p].value);
      assert Settles(tr, b, start, p);
      var n: nat :| SettledChain(tr, b, start, p, n);
      assert SettledChain(tr, b', start, p, n);
    }
  }

  /** The element in bucket `i` moves into bucket `t`; what was in `t`, if anything, moves back to `i`. */
  ghost predicate Exchanged<T>(b: seq<Bucket<T>>, b': seq<Bucket<T>>, i: nat, t: nat)
    requires i < |b| && t < |b| && |b| == |b'|
  {
    && IsUsedBucket(b[i]) && IsUsedBucket(b'[t]) && b'[t].value == b[i].value
    && IsUsedBucket(b'[i]) == IsUsedBucket(b[t])
    && (IsUsedBucket(b[t]) ==> b'[i].value == b[t].value)
    && forall p | 0 <= p < |b| && p != i && p != t :: b'[p] == b[p]
  }

  lemma ExchangeKeepsContents<K, T>(tr: Traits<K, T>, b: seq<Bucket<T>>, b': seq<Bucket<T>>, m: map<K, T>,
                                    i: nat, t: nat)
    requires i < |b| && t < |b| && |b| == |b'| && Exchanged(b, b', i, t)
    requires Unique(tr, b) && Holds(tr, b, m)
    ensures Unique(tr, b') && Holds(tr, b', m)
  {
    forall k | k in m ensures exists q :: At(tr, b', k, q) {
      var q :| At(tr, b, k, q);
      assert At(tr, b', k, if q == i then t else if q == t then i else q);
    }
    forall p, q | 0 <= p < |b| && 0 <= q < |b| && IsUsedBucket(b'[p]) && IsUsedBucket(b'[q])
      && tr.key(b'[p].value) == tr.key(b'[q].value)
      ensures p == q
    {
      var p0 := if p == i then t else if p == t then i else p;
      var q0 := if q == i then t else if q == t then i else q;
      assert IsUsedBucket(b[p0]) && IsUsedBucket(b[q0]);
    }
  }

  /** The state between two bucket writes of the in-place rehash. */
  ghost predicate MidRehash<K, T>(tr: Traits<K, T>, b: seq<Bucket<T>>, m: map<K, T>, total: nat) {
    && Settled(tr, b) && Unique(tr, b) && Holds(tr, b, m)
    && Count(b, UsedKind) + Count(b, RehashedKind) == total
    && forall p | 0 <= p < |b| :: !b[p].End?
  }

  lemma SweepTombstone<K, T>(tr: Traits<K, T>, b: seq<Bucket<T>>, m: map<K, T>, total: nat, i: nat)
    requires i < |b| && b[i].Deleted? && MidRehash(tr, b, m, total)
    ensures MidRehash(tr, b[i := Free], m, total)
  {
    hide Settled, Settles, Count;
    var b' := b[i := Free];
    SettledSurvives(tr, b, b');
    CountUpdate(b, i, Free, UsedKind);
    CountUpdate(b, i, Free, RehashedKind);
    forall k | k in m ensures exists q :: At(tr, b', k, q) {
      var q :| At(tr, b, k, q);
      assert At(tr, b', k, q);
    }
  }

  lemma SettleHere<K, T>(tr: Traits<K, T>, b: seq<Bucket<T>>, m: map<K, T>, total: nat, i: nat)
    requires i < |b| && b[i].Used? && MidRehash(tr, b, m, total)
    requires Settles(tr, b, tr.HashOf(b[i].value), i)
    ensures MidRehash(tr, b[i := Rehashed(b[i].value)], m, total)
  {
    hide Settled, Unique, Holds, Settles, Count;
    var b' := b[i := Rehashed(b[i].value)];
    SettledSurvives(tr, b, b');
    CountUpdate(b, i, b'[i], UsedKind);
    CountUpdate(b, i, b'[i], RehashedKind);
    ExchangeKeepsContents(tr, b, b', m, i, i);
  }

  lemma MoveToFree<K, T>(tr: Traits<K, T>, b: seq<Bucket<T>>, m: map<K, T>, total: nat, i: nat, t: nat)
    requires i < |b| && t < |b| && b[i].Used? && IsFreeBucket(b[t]) && MidRehash(tr, b, m, total)
    requires Settles(tr, b, tr.HashOf(b[i].value), t)
    ensures MidRehash(tr, b[t := Rehashed(b[i].value)][i := Free], m, total)
  {
    hide Settled, Unique, Holds, Settles, Count;
    var b1 := b[t := Rehashed(b[i].value)];
    var b2 := b1[i := Free];
    SettledSurvives(tr, b, b2);
    CountUpdate(b, t, b1[t], UsedKind);
    CountUpdate(b, t, b1[t], RehashedKind);
    CountUpdate(b1, i, Free, UsedKind);
    CountUpdate(b1, i, Free, RehashedKind);
    ExchangeKeepsContents(tr, b, b2, m, i, t);
  }

  lemma SwapWithUsed<K, T>(tr: Traits<K, T>, b: seq<Bucket<T>>, m: map<K, T>, total: nat, i: nat, t: nat)
    requires i < |b| && t < |b| && i != t && b[i].Used? && b[t].Used? && MidRehash(tr, b, m, total)
    requires Settles(tr, b, tr.HashOf(b[i].value), t)
    ensures MidRehash(tr, b[t := Rehashed(b[i].value)][i := Used(b[t].value)], m, total)
    ensures Count(b[t := Rehashed(b[i].value)][i := Used(b[t].value)], UsedKind) < Count(b, UsedKind)
  {
    hide Settled, Unique, Holds, Settles, Count;
    var b1 := b[t := Rehashed(b[i].value)];
    var b2 := b1[i := Used(b[t].value)];
    SettledSurvives(tr, b, b2);
    CountUpdate(b, t, b1[t], UsedKind);
    CountUpdate(b, t, b1[t], RehashedKind);
    CountUpdate(b1, i, b2[i], UsedKind);
    CountUpdate(b1, i, b2[i], RehashedKind);
    ExchangeKeepsContents(tr, b, b2, m, i, t);
  }

  /** The element in bucket `i` has been probing for `n` steps, always meeting rehashed buckets;
      the probe is known to come back to `i` itself at step `stop`. */
  ghost predicate Seeking<K, T>(tr: Traits<K, T>, b: seq<Bucket<T>>, i: nat, target: u32, n: nat, stop: nat)
    requires i < |b| && b[i].Used?
  {
    && target == Orbit(tr.step, tr.HashOf(b[i].value), n)
    && SettledChain(tr, b, tr.HashOf(b[i].value), Home(target, |b|), n)
    && tr.Slot(tr.HashOf(b[i].value), stop, |b|) == i
    && n <= stop
  }

  lemma SeekFirst<K, T>(tr: Traits<K, T>, b: seq<Bucket<T>>, i: nat) returns (stop: nat)
    requires tr.Valid() && i < |b| <= HASH_COUNT && b[i].Used?
    ensures Seeking(tr, b, i, tr.HashOf(b[i].value), 0, stop)
  {
    stop := OrbitVisitsEveryBucket(tr.step, tr.HashOf(b[i].value), |b|, i);
  }

  lemma SeekNext<K, T>(tr: Traits<K, T>, b: seq<Bucket<T>>, i: nat, target: u32, n: nat, stop: nat)
    requires i < |b| && b[i].Used? && Seeking(tr, b, i, target, n, stop)
    requires b[Home(target, |b|)].Rehashed?
    ensures n < stop && Seeking(tr, b, i, tr.step(target), n + 1, stop)
  {
  }

  lemma SeekSettles<K, T>(tr: Traits<K, T>, b: seq<Bucket<T>>, i: nat, target: u32, n: nat, stop: nat)
    requires i < |b| && b[i].Used? && Seeking(tr, b, i, target, n, stop)
    ensures Settles(tr, b, tr.HashOf(b[i].value), Home(target, |b|))
  {
  }

  lemma AtHomeSettles<K, T>(tr: Traits<K, T>, b: seq<Bucket<T>>, i: nat)
    requires i < |b| && b[i].Used? && Home(tr.HashOf(b[i].value), |b|) == i
    ensures Settles(tr, b, tr.HashOf(b[i].value), i)
  {
    assert SettledChain(tr, b, tr.HashOf(b[i].value), i, 0);
  }

  lemma BeginRehash<K, T>(tr: Traits<K, T>, b: seq<Bucket<T>>, m: map<K, T>)
    requires Unique(tr, b) && Holds(tr, b, m)
    requires forall p | 0 <= p < |b| :: !b[p].End? && !b[p].Rehashed?
    ensures MidRehash(tr, b, m, Count(b, UsedKind))
  {
    CountNone(b, RehashedKind);
  }

  function Finish<T>(b: Bucket<T>): Bucket<T> {
    if b.Rehashed? then Used(b.value) else b
  }

  /** Once only free and rehashed buckets remain, every element is found from its own hash again. */
  lemma SettledIsPlaced<K, T>(tr: Traits<K, T>, b: seq<Bucket<T>>, b': seq<Bucket<T>>, m: map<K, T>)
    requires |b| == |b'|
    requires Settled(tr, b) && Unique(tr, b) && Holds(tr, b, m)
    requires forall p | 0 <= p < |b| :: b[p].Free? || b[p].Rehashed?
    requires forall p | 0 <= p < |b| :: b'[p] == Finish(b[p])
    ensures Placed(tr, b') && Unique(tr, b') && Holds(tr, b', m)
  {
    forall p | 0 <= p < |b'| && IsUsedBucket(b'[p]) ensures Findable(tr, b', tr.HashOf(b'[p].value), p) {
      assert b[p].Rehashed?;
      var n: nat :| SettledChain(tr, b, tr.HashOf(b[p].value), p, n);
      assert ChainTo(tr, b', tr.HashOf(b'[p].value), p, n);
    }
    forall k | k in m ensures exists q :: At(tr, b', k, q) {
      var q :| At(tr, b, k, q);
      assert At(tr, b', k, q);
    }
  }

  lemma {:induction false} CountFinished<T>(b: seq<Bucket<T>>, b': seq<Bucket<T>>)
    requires |b| == |b'|
    requires forall p | 0 <= p < |b| :: b'[p] == Finish(b[p])
    ensures Count(b', UsedKind) == Count(b, UsedKind) + Count(b, RehashedKind)
  {
    if |b| > 0 {
      CountFinished(b[..|b| - 1], b'[..|b| - 1]);
    }
  }

  lemma FinishRehash<K, T>(tr: Traits<K, T>, b: seq<Bucket<T>>, b': seq<Bucket<T>>, m: map<K, T>, total: nat)
    requires |b| == |b'|
    requires MidRehash(tr, b, m, total)
    requires forall p | 0 <= p < |b| :: b[p].Free? || b[p].Rehashed?
    requires forall p | 0 <= p < |b| :: b'[p] == Finish(b[p])
    ensures Placed(tr, b') && Unique(tr, b') && Holds(tr, b', m)
    ensures Count(b', UsedKind) == total && Count(b', DeletedKind) == 0
    ensures forall p | 0 <= p < |b'| :: b'[p].Free? || b'[p].Used?
  {
    SettledIsPlaced(tr, b, b', m);
    CountFinished(b, b');
    CountNone(b', DeletedKind);
  }

  // ---- Re-allocating rehash ----

  lemma AllFree<K, T>(tr: Traits<K, T>, b: seq<Bucket<T>>)
    requires forall p | 0 <= p < |b| :: b[p].Free?
    ensures Placed(tr, b) && Unique(tr, b) && Holds(tr, b, map[])
    ensures Count(b, UsedKind) == 0 && Count(b, DeletedKind) == 0
  {
    CountNone(b, UsedKind);
    CountNone(b, DeletedKind);
  }

  lemma NoTombstones<T>(b: seq<Bucket<T>>)
    requires b == []
    ensures Count(b, DeletedKind) == 0
  {
  }

  lemma NoTombstone<T>(b: seq<Bucket<T>>, p: nat)
    requires p < |b| && Count(b, DeletedKind) == 0
    ensures !b[p].Deleted?
  {
    CountNone(b, DeletedKind);
  }

  lemma NothingHeld<K, T>(tr: Traits<K, T>, m: map<K, T>)
    requires Holds(tr, [], m)
    ensures m == map[]
  {
    assert forall k | k in m :: exists p :: At(tr, [], k, p);
  }

  lemma HoldsNothing<K, T>(tr: Traits<K, T>, b: seq<Bucket<T>>)
    requires forall p | 0 <= p < |b| :: !IsUsedBucket(b[p])
    ensures Holds(tr, b, map[])
  {
  }

  lemma MapSubset<K, T>(m: map<K, T>, m': map<K, T>, k: K)
    requires k !in m && k in m' && m.Keys <= m'.Keys
    ensures |m| < |m'|
  {
    var rest := m'.Keys - m.Keys;
    assert m'.Keys == m.Keys + rest && k in rest;
    assert |m'.Keys| == |m.Keys| + |rest|;
  }

  /** The element at `it` is not among those moved so far, and so fewer have been moved than there are. */
  lemma MovedCount<K, T>(tr: Traits<K, T>, b: seq<Bucket<T>>, it: nat, m: map<K, T>, moved: map<K, T>)
    requires it < |b| && b[it].Used?
    requires Unique(tr, b) && Holds(tr, b, m) && Holds(tr, b[..it], moved)
    ensures tr.key(b[it].value) !in moved && |moved| < |m|
  {
    var k := tr.key(b[it].value);
    forall p ensures !At(tr, b[..it], k, p) {
      assert 0 <= p < it ==> b[..it][p] == b[p];
    }
    forall j | j in moved ensures j in m {
      var p :| At(tr, b[..it], j, p);
      assert b[p] == b[..it][p];
    }
    MapSubset(moved, m, k);
  }

  lemma HoldsExtended<K, T>(tr: Traits<K, T>, b: seq<Bucket<T>>, it: nat, next: nat, m: map<K, T>, v: T)
    requires it < next <= |b| && b[it] == Used(v) && tr.key(v) !in m
    requires forall p | it < p < next :: !IsUsedBucket(b[p])
    requires Holds(tr, b[..it], m)
    ensures Holds(tr, b[..next], m[tr.key(v) := v])
  {
    var m' := m[tr.key(v) := v];
    forall k | k in m' ensures exists p :: At(tr, b[..next], k, p) {
      if k == tr.key(v) {
        assert At(tr, b[..next], k, it);
      } else {
        var p :| At(tr, b[..it], k, p);
        assert At(tr, b[..next], k, p);
      }
    }
    forall p | 0 <= p < next && IsUsedBucket(b[..next][p])
      ensures tr.key(b[p].value) in m' && m'[tr.key(b[p].value)] == b[p].value
    {
      if p < it {
        assert b[..it][p] == b[p];
      }
    }
  }

  lemma UsedIsHeld<K, T>(tr: Traits<K, T>, b: seq<Bucket<T>>, m: map<K, T>, p: nat)
    requires p < |b| && IsUsedBucket(b[p]) && Holds(tr, b, m)
    ensures tr.key(b[p].value) in m && m[tr.key(b[p].value)] == b[p].value
  {
  }

  lemma NoneMatches<K, T>(tr: Traits<K, T>, b: seq<Bucket<T>>, m: map<K, T>, pred: T -> bool)
    requires Holds(tr, b, m)
    requires forall p | 0 <= p < |b| && IsUsedBucket(b[p]) :: !pred(b[p].value)
    ensures forall k | k in m :: !pred(m[k])
  {
    forall k | k in m ensures !pred(m[k]) {
      var p :| At(tr, b, k, p);
    }
  }
}
