/**
 * The round-robin choice of a bucket for each add: a shared Java int counter,
 * read and incremented, reduced modulo DEFAULT_MAX_BUCKET_SIZE and then
 * modulo the bucket count.
 */
module RoundRobin {

  /** DEFAULT_MAX_BUCKET_SIZE. */
  const MaxBucketSize: int := 100

  const IntMin: int := -0x8000_0000
  const IntMax: int := 0x7fff_ffff

  /** The values of a Java int. */
  predicate IsInt(x: int) {
    IntMin <= x <= IntMax
  }

  /** The value AtomicInteger.getAndIncrement leaves behind: Java int addition, which wraps. */
  function WrapInc(x: int): (y: int)
    requires IsInt(x)
    ensures IsInt(y)
  {
    if x == IntMax then IntMin else x + 1
  }

  /** WrapInc is two's-complement addition of one, modulo 2^32. */
  lemma WrapIncIsTwosComplement(x: int)
    requires IsInt(x)
    ensures WrapInc(x) == (x + 1 - IntMin) % 0x1_0000_0000 + IntMin
  {
  }

  /** The counter after k increments starting from c. */
  function Advance(c: int, k: nat): (d: int)
    requires IsInt(c)
    ensures IsInt(d)
  {
    if k == 0 then c else WrapInc(Advance(c, k - 1))
  }

  /** Without wrap-around, k increments from 0 leave k. */
  lemma {:induction false} AdvanceFromZero(k: nat)
    requires k <= IntMax
    ensures Advance(0, k) == k
  {
    if k > 0 {
      AdvanceFromZero(k - 1);
    }
  }

  /** Java's `%` on ints, which truncates: the remainder takes the sign of the dividend. */
  function JavaRem(a: int, b: int): (r: int)
    requires b > 0
    ensures -b < r < b
    ensures a >= 0 ==> r >= 0
    ensures a < 0 ==> r <= 0
    ensures (a - r) % b == 0
  {
    if a >= 0 then
      ModOfDecomposition(a - a % b, b, a / b, 0);
      a % b
    else
      ModOfDecomposition(a + (-a) % b, b, -((-a) / b), 0);
      -((-a) % b)
  }

  /** The index getCurrentBucketName reads, as written: two Java remainders of the counter. */
  function SlotAsWritten(c: int, count: int): int
    requires count > 0
  {
    JavaRem(JavaRem(c, MaxBucketSize), count)
  }

  /**
   * The index with Euclidean remainders (what Math.floorMod computes), which
   * the rest of the model uses: always a valid index, never 100 or above.
   */
  function Slot(c: int, count: int): (s: int)
    requires count > 0
    ensures 0 <= s < count
    ensures s < MaxBucketSize
  {
    (c % MaxBucketSize) % count
  }

  /** For a non-negative counter the correction changes nothing. */
  lemma SlotAgreesOnNonNegative(c: int, count: int)
    requires c >= 0 && count > 0
    ensures Slot(c, count) == SlotAsWritten(c, count)
  {
  }

  /**
   * Starting from 0, the counter wraps to Integer.MIN_VALUE after 2^31 adds;
   * the next add, with 5 buckets, reads the index -3 as written, which
   * bucketNames.get rejects.
   */
  lemma {:induction false} SlotAsWrittenAfterWrap()
    ensures Advance(0, 0x8000_0000) == IntMin
    ensures SlotAsWritten(Advance(0, 0x8000_0000), 5) == -3
  {
    AdvanceFromZero(IntMax);
  }

  lemma {:induction false} MulAtLeast(n: int, k: int)
    requires n > 0 && k >= 1
    ensures n * k >= n
  {
    if k > 1 {
      MulAtLeast(n, k - 1);
      assert n * k == n * (k - 1) + n;
    }
  }

  /** The remainder is determined by any decomposition x == n * q + r with 0 <= r < n. */
  lemma ModOfDecomposition(x: int, n: int, q: int, r: int)
    requires n > 0 && 0 <= r < n && x == n * q + r
    ensures x % n == r
  {
    var q', r' := x / n, x % n;
    assert n * q' + r' == x;
    assert n * (q - q') == r' - r;
    if q > q' {
      MulAtLeast(n, q - q');
    } else if q < q' {
      MulAtLeast(n, q' - q);
    }
  }

  lemma ModSucc(x: int, n: int)
    requires n > 0
    ensures (x + 1) % n == (x % n + 1) % n
  {
    var q, r := x / n, x % n;
    assert x == n * q + r;
    if r + 1 < n {
      ModOfDecomposition(x + 1, n, q, r + 1);
      ModOfDecomposition(r + 1, n, 0, r + 1);
    } else {
      assert x + 1 == n * (q + 1) + 0;
      ModOfDecomposition(x + 1, n, q + 1, 0);
      ModOfDecomposition(r + 1, n, 1, 0);
    }
  }

  /**
   * Away from a multiple of 100 and from Integer.MAX_VALUE, the next add goes
   * to the next bucket, cyclically, for negative counters as well.
   */
  lemma SlotStep(c: int, count: int)
    requires IsInt(c) && c < IntMax && count > 0
    requires c % MaxBucketSize != MaxBucketSize - 1
    ensures WrapInc(c) == c + 1
    ensures Slot(WrapInc(c), count) == (Slot(c, count) + 1) % count
  {
    ModSucc(c, MaxBucketSize);
    ModSucc(c % MaxBucketSize, count);
  }

  /**
   * Where the counter crosses a multiple of 100 the cycle restarts at bucket 0:
   * the next add goes to the next bucket exactly when the bucket count divides 100.
   */
  lemma SlotStepAtWrap(c: int, count: int)
    requires IsInt(c) && c < IntMax && count > 0
    requires c % MaxBucketSize == MaxBucketSize - 1
    ensures WrapInc(c) == c + 1
    ensures Slot(WrapInc(c), count) == (Slot(c, count) + 1) % count <==> MaxBucketSize % count == 0
  {
    ModSucc(c, MaxBucketSize);
    assert (c + 1) % MaxBucketSize == 0;
    assert Slot(c + 1, count) == 0 % count == 0;
    assert Slot(c, count) == (MaxBucketSize - 1) % count;
    ModSucc(MaxBucketSize - 1, count);
  }

  /**
   * Where the int counter wraps from Integer.MAX_VALUE to Integer.MIN_VALUE,
   * even the corrected index repeats: with 5 buckets both adds go to bucket 2.
   */
  lemma SlotRepeatsAtIntWrap()
    ensures WrapInc(IntMax) == IntMin
    ensures Slot(IntMax, 5) == 2 && Slot(WrapInc(IntMax), 5) == 2
  {
    ModOfDecomposition(IntMax, MaxBucketSize, 21474836, 47);
    ModOfDecomposition(IntMin, MaxBucketSize, -21474837, 52);
  }
}
