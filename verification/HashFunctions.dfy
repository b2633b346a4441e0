/** The probe step of the hash table (`double_hash`) and the orbit it walks through the 2^32 hashes. */
module HashFunctions {

  const HASH_COUNT: int := 0x1_0000_0000

  type u32 = x: int | 0 <= x < HASH_COUNT

  /** The bucket a hash probes. */
  function Home(hash: u32, capacity: nat): (p: nat)
    requires capacity > 0
    ensures p < capacity
  {
    hash % capacity
  }

  /** The hash reached after `n` probe steps from `start`. */
  ghost function Orbit(step: u32 -> u32, start: u32, n: nat): u32 {
    if n == 0 then start else step(Orbit(step, start, n - 1))
  }

  ghost predicate Reaches(step: u32 -> u32, a: u32, b: u32) {
    exists n: nat :: Orbit(step, a, n) == b
  }

  /** From every hash, repeated steps reach every hash. */
  ghost predicate SingleOrbit(step: u32 -> u32) {
    forall a: u32, b: u32 :: Reaches(step, a, b)
  }

  /** What is known of the 13/17/5 xorshift: it permutes the non-zero hashes in one cycle. */
  ghost predicate FullPeriod(xorShift: u32 -> u32) {
    && (forall a: u32 | a != 0 :: xorShift(a) != 0)
    && (forall a: u32, b: u32 | a != 0 && b != 0 :: Reaches(xorShift, a, b))
  }

  const MAGIC: u32 := 0xBA5EDB01

  /** `double_hash`: one xorshift, except that the magic number goes to 0 and 0 continues from it. */
  function DoubleHash(xorShift: u32 -> u32): u32 -> u32 {
    (key: u32) =>
      if key == MAGIC then 0
      else if key == 0 then xorShift(MAGIC)
      else xorShift(key)
  }

  lemma {:induction false} OrbitShift(step: u32 -> u32, start: u32, n: nat)
    ensures Orbit(step, start, n + 1) == Orbit(step, step(start), n)
  {
    if n > 0 {
      OrbitShift(step, start, n - 1);
    }
  }

  /** Each xorshift step is one or two steps of `double_hash`: two where it detours from the
      magic number through 0. */
  lemma {:induction false} DoubleHashFollowsXorShift(xorShift: u32 -> u32, a: u32, n: nat) returns (m: nat)
    requires FullPeriod(xorShift)
    requires a != 0
    ensures Orbit(xorShift, a, n) != 0
    ensures Orbit(DoubleHash(xorShift), a, m) == Orbit(xorShift, a, n)
  {
    if n == 0 {
      m := 0;
    } else {
      m := DoubleHashFollowsXorShift(xorShift, a, n - 1);
      if Orbit(xorShift, a, n - 1) == MAGIC {
        assert Orbit(DoubleHash(xorShift), a, m + 1) == 0;
        m := m + 2;
      } else {
        m := m + 1;
      }
    }
  }

  lemma DoubleHashReachesFrom(xorShift: u32 -> u32, a: u32, b: u32) returns (m: nat)
    requires FullPeriod(xorShift)
    requires a != 0
    ensures Orbit(DoubleHash(xorShift), a, m) == b
  {
    var target := if b != 0 then b else MAGIC;
    assert Reaches(xorShift, a, target);
    var n: nat :| Orbit(xorShift, a, n) == target;
    m := DoubleHashFollowsXorShift(xorShift, a, n);
    if b == 0 {
      m := m + 1;
    }
  }

  /** `double_hash` threads 0, the one value the xorshift leaves out, into the cycle next to its magic
      number, so its orbit covers all 2^32 hashes. */
  lemma DoubleHashSingleOrbit(xorShift: u32 -> u32)
    requires FullPeriod(xorShift)
    ensures SingleOrbit(DoubleHash(xorShift))
  {
    var step := DoubleHash(xorShift);
    forall a: u32, b: u32
      ensures Reaches(step, a, b)
    {
      if a != 0 {
        var m := DoubleHashReachesFrom(xorShift, a, b);
      } else {
        var m := DoubleHashReachesFrom(xorShift, step(0), b);
        OrbitShift(step, 0, m);
      }
    }
  }

  lemma SmallModulo(a: nat, b: nat)
    requires a < b
    ensures a % b == a
  {
  }

  /** Probing from any hash visits every bucket of a table with at most 2^32 buckets. */
  lemma OrbitVisitsEveryBucket(step: u32 -> u32, start: u32, capacity: nat, bucket: nat) returns (n: nat)
    requires SingleOrbit(step)
    requires bucket < capacity <= HASH_COUNT
    ensures Home(Orbit(step, start, n), capacity) == bucket
  {
    assert Reaches(step, start, bucket);
    n :| Orbit(step, start, n) == bucket;
    SmallModulo(bucket, capacity);
  }

  /** With more buckets than hashes, no probe ever visits those behind the last hash. */
  lemma LargeTablesAreNotCovered(step: u32 -> u32, start: u32, capacity: nat, n: nat)
    requires capacity > HASH_COUNT
    ensures Home(Orbit(step, start, n), capacity) < HASH_COUNT
  {
    SmallModulo(Orbit(step, start, n), capacity);
  }
}
