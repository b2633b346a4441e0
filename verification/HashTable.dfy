/** The unordered open-addressing hash table, updated in place. */
module HashTables {
  import opened CommonTypes
  import opened HashFunctions
  import opened Probing

  datatype HashSetResult = InsertedNewEntry | ReplacedExistingEntry | KeptExistingEntry

  datatype ExistingEntryBehavior = Keep | Replace

  /** What the first loop of the in-place rehash leaves behind. */
  predicate IsDone<T>(b: Bucket<T>) {
    b.Free? || b.Rehashed?
  }

  const LOAD_FACTOR_IN_PERCENT: nat := 60

  function Max(a: nat, b: nat): nat {
    if a < b then b else a
  }

  /** What `try_set` makes of a finite map. */
  ghost function Updated<K, T>(tr: Traits<K, T>, m: map<K, T>, v: T, behavior: ExistingEntryBehavior): map<K, T> {
    if tr.key(v) in m && behavior == Keep then m else m[tr.key(v) := v]
  }

  /** What `remove_all_matching` leaves of a finite map. */
  ghost function Unmatched<K, T>(m: map<K, T>, pred: T -> bool): map<K, T> {
    map k | k in m && !pred(m[k]) :: m[k]
  }

  lemma UnmatchedIs<K, T>(before: map<K, T>, m: map<K, T>, pred: T -> bool)
    requires forall k :: k in m ==> k in before && before[k] == m[k] && !pred(m[k])
    requires forall k :: k in before && k !in m ==> pred(before[k])
    ensures m == Unmatched(before, pred)
    ensures forall k :: k in m <==> k in before && !pred(before[k])
    ensures forall k :: k in m ==> m[k] == before[k]
  {
  }

  class HashTable<K(==), T(==)> {
    const tr: Traits<K, T>

    var buckets: array?<Bucket<T>>
    var size: nat
    var capacity: nat
    var deletedCount: nat

    /** The elements in the table, by key. */
    ghost var model: map<K, T>

    ghost function View(): seq<Bucket<T>>
      reads this, buckets
      requires buckets != null ==> capacity <= buckets.Length
    {
      if buckets == null then [] else buckets[..capacity]
    }

    /** The bucket array is closed by an End bucket, and no other End or Rehashed bucket shows. */
    ghost predicate Shape()
      reads this, buckets
    {
      && (buckets == null <==> capacity == 0)
      && capacity <= HASH_COUNT
      && (buckets != null ==>
            && buckets.Length == capacity + 1
            && buckets[capacity] == End
            && forall i | 0 <= i < capacity :: !buckets[i].End? && !buckets[i].Rehashed?)
    }

    /** The invariant that also holds half-way through a re-allocating rehash, when `size` still counts
        elements that have not been moved yet. */
    ghost predicate Consistent()
      reads this, buckets
    {
      && tr.Valid()
      && Shape()
      && Placed(tr, View()) && Unique(tr, View()) && Holds(tr, View(), model)
      && Count(View(), UsedKind) == |model| <= size
      && Count(View(), DeletedKind) == deletedCount
      && (capacity > 0 ==> (size + deletedCount) * 100 < capacity * LOAD_FACTOR_IN_PERCENT)
      && (capacity == 0 ==> size == 0)
    }

    ghost predicate Valid()
      reads this, buckets
    {
      Consistent() && |model| == size
    }

    constructor (tr: Traits<K, T>)
      requires tr.Valid()
      ensures Valid() && model == map[] && this.tr == tr && capacity == 0
    {
      this.tr := tr;
      buckets := null;
      size, capacity, deletedCount := 0, 0, 0;
      model := map[];
    }

    predicate ShouldGrow()
      reads this
    {
      (size + deletedCount + 1) * 100 >= capacity * LOAD_FACTOR_IN_PERCENT
    }

    /** Every table with buckets has a free one on every probe path, so probing ends. */
    lemma ProbingEnds(k: K) returns (stop: nat)
      requires Consistent() && capacity > 0
      ensures Walking(tr, View(), k, tr.hash(k), 0, stop)
    {
      stop := ProbeFirst(tr, View(), k);
    }

    /** `lookup_with_hash` with the equality predicate of the key: the bucket holding `k`, if any. */
    method LookupWithHash(k: K) returns (r: Option<nat>)
      requires Valid()
      ensures r.None? ==> k !in model
      ensures r.Some? ==> r.value < capacity && buckets[r.value].Used? && tr.key(buckets[r.value].value) == k
      ensures r.Some? ==> k in model && model[k] == buckets[r.value].value
    {
      if size == 0 {
        return None;
      }
      r := ProbeForReading(k);
    }

    /** The probe loop of `lookup_with_hash`. */
    method ProbeForReading(k: K) returns (r: Option<nat>)
      requires Consistent() && capacity > 0
      ensures r.None? ==> k !in model
      ensures r.Some? ==> r.value < capacity && buckets[r.value].Used? && tr.key(buckets[r.value].value) == k
      ensures r.Some? ==> k in model && model[k] == buckets[r.value].value
    {
      hide Placed, Unique, Holds, Count, Walking, At, Home;
      ghost var b := View();
      assert |b| == capacity > 0 && buckets.Length == capacity + 1 && Placed(tr, b) && Holds(tr, b, model);
      assert buckets[..capacity] == b && forall p | 0 <= p < capacity :: !b[p].End? && !b[p].Rehashed?;
      ghost var n: nat := 0;
      ghost var stop := ProbingEnds(k);
      hide Valid, Consistent, Shape, View;
      var hash: u32 := tr.hash(k);
      while true
        invariant |b| == capacity > 0 && buckets != null && buckets.Length == capacity + 1 && buckets[..capacity] == b
        invariant n <= stop && Walking(tr, b, k, hash, n, stop)
        decreases stop - n
      {
        var index := Home(hash, capacity);
        var bucket := buckets[index];
        assert b[index] == bucket;
        NotAt(tr, b, k, index);
        if IsUsedBucket(bucket) && tr.key(bucket.value) == k {
          UsedIsHeld(tr, b, model, index);
          return Some(index);
        }
        if !bucket.Used? && !bucket.Deleted? {
          ProbeAbsent(tr, b, model, k, hash, n, stop);
          return None;
        }
        ProbeNext(tr, b, k, hash, n, stop);
        hash := tr.step(hash);
        n := n + 1;
      }
    }

    /** `find`: exactly the stored element with this key. */
    method Find(k: K) returns (r: Option<T>)
      requires Valid()
      ensures r == if k in model then Some(model[k]) else None
    {
      var index := LookupWithHash(k);
      r := if index.Some? then Some(buckets[index.value].value) else None;
    }

    /** The first Used bucket at or after `from`, or the End bucket. */
    static method SkipToUsed(a: array<Bucket<T>>, from: nat) returns (i: nat)
      requires a.Length > 0 && a[a.Length - 1].End? && from < a.Length
      requires forall j | 0 <= j < a.Length - 1 :: !a[j].End?
      ensures from <= i < a.Length
      ensures forall j | from <= j < i :: !a[j].Used?
      ensures a[i].Used? || i == a.Length - 1
    {
      i := from;
      while !a[i].Used? && !a[i].End?
        invariant from <= i < a.Length
        invariant forall j | from <= j < i :: !a[j].Used?
        decreases a.Length - i
      {
        i := i + 1;
      }
    }

    // ---- Growth ----

    /** How far a table of capacity `c` with `deleted` tombstones is from being allowed one more element. */
    ghost function Excess(c: nat, deleted: nat): nat
      reads this
    {
      var e := (size + deleted + 1) * 100 + 1 - c * LOAD_FACTOR_IN_PERCENT;
      if e < 0 then 0 else e
    }

    /** The capacity the allocator gives when `n` buckets are asked for. */
    function Granted(n: nat): nat {
      tr.goodSize(Max(n, 4))
    }

    /** A hash has 32 bits, so only tables of at most 2^32 buckets can be probed completely.
        `n` buckets can be asked for if what is granted, and what moving the elements might then double it to, fits. */
    predicate Room(n: nat)
      reads this
    {
      && Granted(n) <= HASH_COUNT
      && ((size + 1) * 100 >= Granted(n) * LOAD_FACTOR_IN_PERCENT ==> Granted(2 * Granted(n)) <= HASH_COUNT)
    }

    /** `try_rehash`: a new bucket array holding the same elements without tombstones. Moving an element may
        itself find the new array too small and rehash again; the move then continues into the newest array. */
    method TryRehash(n: nat)
      requires Consistent() && Room(n)
      requires size * 100 < Max(n, 4) * LOAD_FACTOR_IN_PERCENT
      modifies this`buckets, this`capacity, this`deletedCount, this`model, buckets
      ensures Consistent()
      ensures model == old(model) && size == old(size) && deletedCount == 0
      ensures capacity >= Max(n, 4)
      ensures buckets == old(buckets) || fresh(buckets)
      ensures n != old(capacity) && ShouldGrow() ==> Room(2 * capacity)
      decreases Excess(Max(n, 4), 0), 3
    {
      hide Placed, Unique, Holds, Count;
      if n == capacity && n >= 4 {
        RehashInPlace();
        return;
      }
      var oldBuckets := buckets;
      ghost var oldModel, oldView := model, View();
      Allocate(Granted(n));
      if oldBuckets == null {
        NothingHeld(tr, oldModel);
        return;
      }
      assert oldBuckets[..] == oldView + [End];
      MoveElements(oldBuckets, oldView, oldModel);
    }

    /** The allocation step of `try_rehash`: an empty bucket array of the granted capacity. */
    method Allocate(newCapacity: nat)
      requires tr.Valid() && 0 < newCapacity <= HASH_COUNT
      requires size * 100 < newCapacity * LOAD_FACTOR_IN_PERCENT
      modifies this`buckets, this`capacity, this`deletedCount, this`model
      ensures Consistent() && model == map[] && deletedCount == 0 && capacity == newCapacity
      ensures fresh(buckets)
    {
      buckets := new Bucket<T>[newCapacity + 1](i => if i == newCapacity then End else Free);
      capacity := newCapacity;
      deletedCount := 0;
      model := map[];
      AllFree(tr, View());
    }

    /** The move loop of `try_rehash`. */
    method MoveElements(oldBuckets: array<Bucket<T>>, ghost oldView: seq<Bucket<T>>, ghost oldModel: map<K, T>)
      requires Consistent() && model == map[] && deletedCount == 0 && capacity > 0
      requires ShouldGrow() ==> Room(2 * capacity)
      requires oldBuckets != buckets && oldBuckets[..] == oldView + [End]
      requires forall p | 0 <= p < |oldView| :: !oldView[p].End? && !oldView[p].Rehashed?
      requires Unique(tr, oldView) && Holds(tr, oldView, oldModel) && |oldModel| <= size
      modifies this`buckets, this`capacity, this`deletedCount, this`model, buckets
      ensures Consistent() && model == oldModel && size == old(size) && deletedCount == 0
      ensures capacity >= old(capacity)
      ensures ShouldGrow() ==> Room(2 * capacity)
      ensures buckets == old(buckets) || fresh(buckets)
      decreases Excess(capacity, 0), 2
    {
      hide Placed, Unique, Holds, Count, Consistent;
      assert forall p | 0 <= p < |oldView| :: oldBuckets[p] == oldView[p];
      var it := SkipToUsed(oldBuckets, 0);
      HoldsNothing(tr, oldView[..it]);
      while !oldBuckets[it].End?
        invariant it <= |oldView| && (it < |oldView| ==> oldView[it].Used?)
        invariant oldBuckets != buckets && oldBuckets[..] == oldView + [End]
        invariant buckets == old(buckets) || fresh(buckets)
        invariant Consistent() && size == old(size) && deletedCount == 0 && capacity >= old(capacity)
        invariant ShouldGrow() ==> Room(2 * capacity)
        invariant Holds(tr, oldView[..it], model)
        decreases |oldView| - it
      {
        var v := oldBuckets[it].value;
        ghost var moved := model;
        MovedCount(tr, oldView, it, oldModel, moved);
        InsertDuringRehash(v);
        assert oldBuckets[..] == oldView + [End];
        assert forall p | 0 <= p < |oldView| :: oldBuckets[p] == oldView[p];
        var next := SkipToUsed(oldBuckets, it + 1);
        HoldsExtended(tr, oldView, it, next, moved, v);
        it := next;
      }
      assert oldView[..it] == oldView;
      HoldsDetermines(tr, oldView, model, oldModel);
    }

    /** `insert_during_rehash`: counts nothing, since `size` still includes the element. */
    method InsertDuringRehash(v: T)
      requires Consistent() && deletedCount == 0
      requires tr.key(v) !in model && |model| < size
      requires ShouldGrow() ==> Room(2 * capacity)
      modifies this`buckets, this`capacity, this`deletedCount, this`model, buckets
      ensures Consistent()
      ensures model == old(model)[tr.key(v) := v] && size == old(size) && deletedCount == 0
      ensures capacity >= old(capacity) && !ShouldGrow()
      ensures buckets == old(buckets) || fresh(buckets)
      decreases Excess(capacity, 0), 1
    {
      var p := LookupForWriting(tr.key(v));
      NoTombstone(View(), p);
      PutNew(p, v);
    }

    /** `try_lookup_for_writing`: the bucket of `k`, or else the first reusable bucket on its probe path. */
    method LookupForWriting(k: K) returns (p: nat)
      requires Consistent()
      requires ShouldGrow() ==> Room(2 * capacity)
      modifies this`buckets, this`capacity, this`deletedCount, this`model, buckets
      ensures Consistent()
      ensures model == old(model) && size == old(size) && capacity >= old(capacity) && !ShouldGrow()
      ensures old(deletedCount) == 0 ==> deletedCount == 0
      ensures buckets == old(buckets) || fresh(buckets)
      ensures p < capacity && buckets != null
      ensures if buckets[p].Used? then tr.key(buckets[p].value) == k
              else IsFreeBucket(buckets[p]) && k !in model && Findable(tr, View(), tr.hash(k), p)
      decreases Excess(capacity, deletedCount), 0
    {
      hide Placed, Unique, Holds, Count;
      if ShouldGrow() {
        TryRehash(capacity * 2);
      }
      p := ProbeForWriting(k);
    }

    method ProbeForWriting(k: K) returns (p: nat)
      requires Consistent() && capacity > 0
      ensures p < capacity && buckets != null
      ensures if buckets[p].Used? then tr.key(buckets[p].value) == k
              else IsFreeBucket(buckets[p]) && k !in model && Findable(tr, View(), tr.hash(k), p)
    {
      hide Placed, Unique, Holds, Count, Walking, Findable, At, Home;
      ghost var b := View();
      assert |b| == capacity > 0 && buckets.Length == capacity + 1 && Placed(tr, b) && Holds(tr, b, model);
      assert buckets[..capacity] == b && forall p | 0 <= p < capacity :: !b[p].End? && !b[p].Rehashed?;
      assert View() == b;
      ghost var n: nat := 0;
      ghost var stop := ProbingEnds(k);
      hide Valid, Consistent, Shape, View;
      var hash: u32 := tr.hash(k);
      var firstEmptyBucket: Option<nat> := None;
      while true
        invariant |b| == capacity > 0 && buckets != null && buckets.Length == capacity + 1 && buckets[..capacity] == b
        invariant n <= stop && Walking(tr, b, k, hash, n, stop)
        invariant firstEmptyBucket.Some? ==>
                    && firstEmptyBucket.value < capacity && b[firstEmptyBucket.value].Deleted?
                    && Findable(tr, b, tr.hash(k), firstEmptyBucket.value)
        decreases stop - n
      {
        var index := Home(hash, capacity);
        var bucket := buckets[index];
        assert b[index] == bucket;
        NotAt(tr, b, k, index);
        ProbeFinds(tr, b, k, hash, n, stop);
        if IsUsedBucket(bucket) && tr.key(bucket.value) == k {
          return index;
        }
        if !IsUsedBucket(bucket) {
          if firstEmptyBucket.None? {
            firstEmptyBucket := Some(index);
          }
          if !bucket.Deleted? {
            ProbeAbsent(tr, b, model, k, hash, n, stop);
            return firstEmptyBucket.value;
          }
        }
        ProbeNext(tr, b, k, hash, n, stop);
        hash := tr.step(hash);
        n := n + 1;
      }
    }

    /** Constructs a new element in a reusable bucket on its probe path. */
    method PutNew(p: nat, v: T)
      requires Consistent() && p < capacity
      requires IsFreeBucket(buckets[p]) && Findable(tr, View(), tr.HashOf(v), p)
      requires tr.key(v) !in model && !ShouldGrow() && |model| < size
      requires buckets[p].Free?
      modifies this`model, buckets
      ensures Consistent() && model == old(model)[tr.key(v) := v]
    {
      hide Placed, Unique, Holds, Count, Findable;
      ghost var b := View();
      Insertion(tr, b, model, p, v);
      buckets[p] := Used(v);
      model := model[tr.key(v) := v];
      assert View() == b[p := Used(v)];
    }

    /** The body of the first loop of `rehash_in_place` for a bucket that holds an element not yet rehashed.
        The element in bucket `i` is exchanged for others until what is left there belongs there or is gone. */
    method RehashBucket(i: nat, ghost total: nat)
      requires tr.Valid() && i < capacity <= HASH_COUNT
      requires buckets != null && buckets.Length == capacity + 1
      requires buckets[i].Used?
      requires forall j | 0 <= j < capacity :: !buckets[j].End?
      requires MidRehash(tr, buckets[..capacity], model, total)
      modifies buckets
      ensures MidRehash(tr, buckets[..capacity], model, total)
      ensures forall j | 0 <= j < capacity :: !buckets[j].End?
      ensures IsDone(buckets[i])
      ensures forall j | 0 <= j < i && IsDone(old(buckets[j])) :: IsDone(buckets[j])
      ensures buckets[capacity] == old(buckets[capacity])
    {
      hide MidRehash, Seeking, Settles, Count, Home;
      var targetHash: u32 := tr.HashOf(buckets[i].value);
      ghost var n: nat := 0;
      ghost var stop := SeekFirst(tr, buckets[..capacity], i);
      while !IsFreeBucket(buckets[i])
        invariant MidRehash(tr, buckets[..capacity], model, total)
        invariant forall j | 0 <= j < capacity :: !buckets[j].End?
        invariant buckets[i].Used? || buckets[i].Free?
        invariant buckets[i].Used? ==> n <= stop && Seeking(tr, buckets[..capacity], i, targetHash, n, stop)
        invariant forall j | 0 <= j < i && IsDone(old(buckets[j])) :: IsDone(buckets[j])
        invariant buckets[capacity] == old(buckets[capacity])
        decreases buckets[i].Used?, Count(buckets[..capacity], UsedKind), stop - n
      {
        ghost var b := buckets[..capacity];
        var v := buckets[i].value;
        var t := Home(targetHash, capacity);
        SeekSettles(tr, b, i, targetHash, n, stop);
        if i == t {
          SettleHere(tr, b, model, total, i);
          buckets[i] := Rehashed(v);
          assert buckets[..capacity] == b[i := Rehashed(v)];
          break;
        }
        if IsFreeBucket(buckets[t]) {
          MoveToFree(tr, b, model, total, i, t);
          buckets[t] := Rehashed(v);
          buckets[i] := Free;
          assert buckets[..capacity] == b[t := Rehashed(v)][i := Free];
        } else if buckets[t].Rehashed? {
          SeekNext(tr, b, i, targetHash, n, stop);
          targetHash := tr.step(targetHash);
          n := n + 1;
        } else {
          SwapWithUsed(tr, b, model, total, i, t);
          buckets[i], buckets[t] := Used(buckets[t].value), Rehashed(v);
          assert buckets[..capacity] == b[t := Rehashed(v)][i := Used(b[t].value)];
          targetHash := tr.HashOf(buckets[i].value);
          n := 0;
          stop := SeekFirst(tr, buckets[..capacity], i);
          if Home(targetHash, capacity) == i {
            SeekSettles(tr, buckets[..capacity], i, targetHash, n, stop);
            SettleHere(tr, buckets[..capacity], model, total, i);
            b := buckets[..capacity];
            buckets[i] := Rehashed(buckets[i].value);
            assert buckets[..capacity] == b[i := buckets[i]];
            break;
          }
        }
      }
      if buckets[i].Deleted? {
        assert false;
      }
    }

    /** First loop of `rehash_in_place`: afterwards only free and rehashed buckets are left. */
    method RehashEveryBucket(ghost total: nat)
      requires tr.Valid() && 0 < capacity <= HASH_COUNT
      requires buckets != null && buckets.Length == capacity + 1
      requires forall j | 0 <= j < capacity :: !buckets[j].End?
      requires MidRehash(tr, buckets[..capacity], model, total)
      modifies buckets
      ensures MidRehash(tr, buckets[..capacity], model, total)
      ensures forall j | 0 <= j < capacity :: IsDone(buckets[j])
      ensures buckets[capacity] == old(buckets[capacity])
    {
      hide MidRehash, Settles, SettledChain;
      for i := 0 to capacity
        invariant MidRehash(tr, buckets[..capacity], model, total)
        invariant forall j | 0 <= j < capacity :: !buckets[j].End?
        invariant forall j | 0 <= j < i :: IsDone(buckets[j])
        invariant buckets[capacity] == old(buckets[capacity])
      {
        ghost var b := buckets[..capacity];
        if buckets[i].Rehashed? || buckets[i].End? || buckets[i].Free? {
          continue;
        }
        if buckets[i].Deleted? {
          SweepTombstone(tr, b, model, total, i);
          buckets[i] := Free;
          assert buckets[..capacity] == b[i := Free];
          continue;
        }
        var newHash: u32 := tr.HashOf(buckets[i].value);
        if Home(newHash, capacity) == i {
          AtHomeSettles(tr, b, i);
          SettleHere(tr, b, model, total, i);
          buckets[i] := Rehashed(buckets[i].value);
          assert buckets[..capacity] == b[i := Rehashed(b[i].value)];
          continue;
        }
        RehashBucket(i, total);
      }
    }

    /** `rehash_in_place`: the same elements, no tombstones, and every element found by probing again. */
    method RehashInPlace()
      requires Consistent()
      modifies buckets, this`deletedCount
      ensures Consistent()
      ensures deletedCount == 0
      ensures forall i | 0 <= i < capacity :: buckets[i].Free? || buckets[i].Used?
    {
      hide Placed, Unique, Holds, MidRehash, Count;
      if capacity > 0 {
        ghost var b := buckets[..capacity];
        BeginRehash(tr, b, model);
        RehashEveryBucket(Count(b, UsedKind));
        ghost var mid := buckets[..capacity];
        RestoreUsedStates();
        FinishRehash(tr, mid, buckets[..capacity], model, Count(b, UsedKind));
      } else {
        assert View() == [];
        NoTombstones(View());
      }
      deletedCount := 0;
    }

    /** Second loop of `rehash_in_place`. */
    method RestoreUsedStates()
      requires buckets != null && buckets.Length == capacity + 1
      modifies buckets
      ensures forall p | 0 <= p < capacity :: buckets[p] == Finish(old(buckets[p]))
      ensures buckets[capacity] == old(buckets[capacity])
    {
      for i := 0 to capacity
        invariant forall p | 0 <= p < i :: buckets[p] == Finish(old(buckets[p]))
        invariant forall p | i <= p <= capacity :: buckets[p] == old(buckets[p])
      {
        if buckets[i].Rehashed? {
          buckets[i] := Used(buckets[i].value);
        }
      }
    }

    // ---- Operations ----

    method TrySet(v: T, behavior: ExistingEntryBehavior) returns (r: HashSetResult)
      requires Valid()
      requires ShouldGrow() ==> Room(2 * capacity)
      modifies this, buckets
      ensures Valid()
      ensures model == Updated(tr, old(model), v, behavior)
      ensures behavior == Replace || tr.key(v) !in old(model) ==> model == old(model)[tr.key(v) := v]
      ensures behavior == Keep && tr.key(v) in old(model) ==> model == old(model)
      ensures tr.key(v) !in old(model) <==> r == InsertedNewEntry
      ensures tr.key(v) in old(model) ==> r == if behavior == Keep then KeptExistingEntry else ReplacedExistingEntry
      ensures buckets == old(buckets) || fresh(buckets)
    {
      hide Placed, Unique, Holds, Count;
      var p := LookupForWriting(tr.key(v));
      if IsUsedBucket(buckets[p]) {
        UsedIsHeld(tr, View(), model, p);
        if behavior == Keep {
          return KeptExistingEntry;
        }
        ReplaceAt(p, v);
        return ReplacedExistingEntry;
      }
      InsertAt(p, v);
      return InsertedNewEntry;
    }

    method ReplaceAt(p: nat, v: T)
      requires Valid() && p < capacity
      requires buckets[p].Used? && tr.key(buckets[p].value) == tr.key(v)
      modifies this`model, buckets
      ensures Valid() && model == old(model)[tr.key(v) := v]
    {
      hide Placed, Unique, Holds, Count;
      ghost var b := View();
      UsedIsHeld(tr, b, model, p);
      Replacement(tr, b, model, p, v);
      buckets[p] := Used(v);
      model := model[tr.key(v) := v];
      assert View() == b[p := Used(v)];
    }

    method InsertAt(p: nat, v: T)
      requires Valid() && p < capacity && !ShouldGrow()
      requires IsFreeBucket(buckets[p]) && tr.key(v) !in model && Findable(tr, View(), tr.HashOf(v), p)
      modifies this`model, this`size, this`deletedCount, buckets
      ensures Valid() && model == old(model)[tr.key(v) := v]
    {
      hide Placed, Unique, Holds, Count, Findable;
      ghost var b := View();
      Insertion(tr, b, model, p, v);
      if buckets[p].Deleted? {
        deletedCount := deletedCount - 1;
      }
      buckets[p] := Used(v);
      model := model[tr.key(v) := v];
      size := size + 1;
      assert View() == b[p := Used(v)];
    }

    /** `rehash_in_place_if_needed` */
    method RehashInPlaceIfNeeded()
      requires Valid()
      modifies buckets, this`deletedCount
      ensures Valid()
      ensures buckets == old(buckets) && capacity == old(capacity)
      ensures old(deletedCount >= size && ShouldGrow()) ==>
                deletedCount == 0 && forall i | 0 <= i < capacity :: buckets[i].Free? || buckets[i].Used?
      ensures !old(deletedCount >= size && ShouldGrow()) ==>
                deletedCount == old(deletedCount) && View() == old(View())
    {
      hide Placed, Unique, Holds, Count;
      if deletedCount >= size && ShouldGrow() {
        RehashInPlace();
      }
    }

    method Remove(k: K) returns (removed: bool)
      requires Valid()
      modifies this, buckets
      ensures Valid()
      ensures removed <==> k in old(model)
      ensures model == old(model) - {k}
      ensures buckets == old(buckets)
    {
      hide Placed, Unique, Holds, Count;
      var it := LookupWithHash(k);
      if it.None? {
        return false;
      }
      RemoveAt(it.value);
      return true;
    }

    /** `delete_bucket` */
    method DeleteBucket(p: nat)
      requires Shape() && p < capacity && buckets[p].Used?
      requires Placed(tr, View()) && Unique(tr, View()) && Holds(tr, View(), model)
      modifies this`model, buckets
      ensures Shape()
      ensures View() == old(View())[p := Deleted]
      ensures Placed(tr, View()) && Unique(tr, View()) && Holds(tr, View(), model)
      ensures old(tr.key(buckets[p].value) in model && model[tr.key(buckets[p].value)] == buckets[p].value)
      ensures model == old(model - {tr.key(buckets[p].value)})
      ensures |model| == |old(model)| - 1
      ensures Count(View(), UsedKind) == old(Count(View(), UsedKind)) - 1
      ensures Count(View(), DeletedKind) == old(Count(View(), DeletedKind)) + 1
    {
      hide Placed, Unique, Holds, Count;
      ghost var b := View();
      UsedIsHeld(tr, b, model, p);
      Deletion(tr, b, model, p);
      model := model - {tr.key(buckets[p].value)};
      buckets[p] := Deleted;
      assert View() == b[p := Deleted];
    }

    /** `remove(Iterator)`: the bucket becomes a tombstone. */
    method RemoveAt(p: nat)
      requires Valid() && p < capacity && buckets[p].Used?
      modifies this, buckets
      ensures Valid() && model == old(model - {tr.key(buckets[p].value)})
      ensures buckets == old(buckets)
    {
      hide Placed, Unique, Holds, Count;
      DeleteBucket(p);
      size := size - 1;
      deletedCount := deletedCount + 1;
      RehashInPlaceIfNeeded();
    }

    /** The loop of `remove_all_matching`; size and tombstones are counted after it. */
    method DeleteAllMatching(pred: T -> bool) returns (removedCount: nat)
      requires Valid()
      modifies this`model, buckets
      ensures Shape() && removedCount + |model| == size
      ensures Placed(tr, View()) && Unique(tr, View()) && Holds(tr, View(), model)
      ensures Count(View(), UsedKind) == |model| && Count(View(), DeletedKind) == deletedCount + removedCount
      ensures forall k :: k in model ==> k in old(model) && old(model)[k] == model[k] && !pred(model[k])
      ensures forall k :: k in old(model) && k !in model ==> pred(old(model)[k])
    {
      hide Placed, Unique, Holds, Count;
      removedCount := 0;
      ghost var before := model;
      for i := 0 to capacity
        invariant buckets == old(buckets) && Shape() && removedCount + |model| == size
        invariant Placed(tr, View()) && Unique(tr, View()) && Holds(tr, View(), model)
        invariant Count(View(), UsedKind) == |model|
        invariant Count(View(), DeletedKind) == deletedCount + removedCount
        invariant forall p | 0 <= p < i && View()[p].Used? :: !pred(View()[p].value)
        invariant forall k | k in model :: k in before && before[k] == model[k]
        invariant forall k | k in before && k !in model :: pred(before[k])
      {
        if IsUsedBucket(buckets[i]) && pred(buckets[i].value) {
          DeleteBucket(i);
          removedCount := removedCount + 1;
        }
      }
      NoneMatches(tr, View(), model, pred);
    }

    method RemoveAllMatching(pred: T -> bool) returns (removedCount: nat)
      requires Valid()
      modifies this, buckets
      ensures Valid()
      ensures model == Unmatched(old(model), pred)
      ensures forall k :: k in model <==> k in old(model) && !pred(old(model)[k])
      ensures forall k :: k in model ==> model[k] == old(model)[k]
      ensures removedCount == |old(model)| - |model|
      ensures buckets == old(buckets)
    {
      hide Placed, Unique, Holds, Count, Unmatched;
      removedCount := DeleteAllMatching(pred);
      UnmatchedIs(old(model), model, pred);
      if removedCount > 0 {
        deletedCount := deletedCount + removedCount;
        size := size - removedCount;
      }
      RehashInPlaceIfNeeded();
    }

    /** `try_ensure_capacity` */
    method EnsureCapacity(c: nat)
      requires Valid()
      requires c >= size && Room(2 * c)
      modifies this, buckets
      ensures Valid() && model == old(model)
      ensures capacity >= 2 * c
      ensures buckets == old(buckets) || fresh(buckets)
    {
      hide Placed, Unique, Holds, Count;
      TryRehash(c * 2);
    }
  }

  // ---- Runs ----

  datatype Op<!K, !T> =
    | Set(value: T, behavior: ExistingEntryBehavior)
    | Remove(key: K)
    | RemoveAllMatching(pred: T -> bool)
    | EnsureCapacity(c: nat)

  /** The reference behaviour: a finite map. */
  ghost function Apply<K, T>(tr: Traits<K, T>, m: map<K, T>, op: Op<K, T>): map<K, T> {
    match op
    case Set(v, behavior) => Updated(tr, m, v, behavior)
    case Remove(k) => m - {k}
    case RemoveAllMatching(pred) => Unmatched(m, pred)
    case EnsureCapacity(_) => m
  }

  ghost function ApplyAll<K, T>(tr: Traits<K, T>, m: map<K, T>, ops: seq<Op<K, T>>): map<K, T> {
    if |ops| == 0 then m else Apply(tr, ApplyAll(tr, m, ops[..|ops| - 1]), ops[|ops| - 1])
  }

  /** What a run leaves under a key, looking back from its end to the operation that decides. */
  ghost function Found<K, T>(tr: Traits<K, T>, ops: seq<Op<K, T>>, k: K): Option<T> {
    if |ops| == 0 then None
    else
      var before := Found(tr, ops[..|ops| - 1], k);
      match ops[|ops| - 1]
      case Set(v, Replace) => if tr.key(v) == k then Some(v) else before
      case Set(v, Keep) => if tr.key(v) == k && before == None then Some(v) else before
      case Remove(key) => if key == k then None else before
      case RemoveAllMatching(pred) => if before.Some? && pred(before.value) then None else before
      case EnsureCapacity(_) => before
  }

  /** Key by key: the last `set` that is not undone is found, one that keeps only if nothing was there. */
  lemma {:induction false} LastSetIsFound<K, T>(tr: Traits<K, T>, ops: seq<Op<K, T>>, k: K)
    ensures var m := ApplyAll(tr, map[], ops);
      if Found(tr, ops, k).None? then k !in m else k in m && m[k] == Found(tr, ops, k).value
  {
    if |ops| > 0 {
      LastSetIsFound(tr, ops[..|ops| - 1], k);
    }
  }

  /** An operation runs unless `ensure_capacity` asks for less than the size, or more than 2^32 buckets are needed. */
  predicate CanRun<K, T>(t: HashTable<K, T>, op: Op<K, T>)
    reads t
  {
    match op
    case Set(_, _) => !t.ShouldGrow() || t.Room(2 * t.capacity)
    case EnsureCapacity(c) => c >= t.size && t.Room(2 * c)
    case _ => true
  }

  method RunOne<K(==), T(==)>(t: HashTable<K, T>, op: Op<K, T>)
    requires t.Valid() && CanRun(t, op)
    modifies t, t.buckets
    ensures t.Valid() && t.model == Apply(t.tr, old(t.model), op)
    ensures t.buckets == old(t.buckets) || fresh(t.buckets)
  {
    hide Placed, Unique, Holds, Count;
    match op {
      case Set(v, behavior) => var _ := t.TrySet(v, behavior);
      case Remove(k) => var _ := t.Remove(k);
      case RemoveAllMatching(pred) => var _ := t.RemoveAllMatching(pred);
      case EnsureCapacity(c) => t.EnsureCapacity(c);
    }
  }

  /** Any run of operations on a new table refines the same run on a finite map, up to the first that cannot run. */
  method Run<K(==), T(==)>(tr: Traits<K, T>, ops: seq<Op<K, T>>) returns (t: HashTable<K, T>, done: nat)
    requires tr.Valid()
    ensures t.Valid() && t.tr == tr
    ensures done <= |ops| && t.model == ApplyAll(tr, map[], ops[..done])
    ensures done < |ops| ==> !CanRun(t, ops[done])
  {
    hide Placed, Unique, Holds, Count, Updated, Unmatched, Apply;
    t := new HashTable(tr);
    done := 0;
    while done < |ops| && CanRun(t, ops[done])
      invariant done <= |ops|
      invariant fresh(t) && (t.buckets != null ==> fresh(t.buckets))
      invariant t.Valid() && t.tr == tr
      invariant t.model == ApplyAll(tr, map[], ops[..done])
    {
      RunOne(t, ops[done]);
      assert ops[..done + 1][..done] == ops[..done];
      done := done + 1;
    }
  }
}
