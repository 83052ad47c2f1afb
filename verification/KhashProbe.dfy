/** The probe sequence of khash: each step is one longer than the one before, so the j-th bucket
    visited is the start plus the j-th triangular number, modulo the power-of-two capacity. */
module KhashProbe {

  function Pow2(k: nat): (p: nat)
    ensures p >= 1
  {
    if k == 0 then 1 else 2 * Pow2(k - 1)
  }

  /** The sum of the first `j` steps. */
  function Tri(j: nat): nat {
    if j == 0 then 0 else Tri(j - 1) + j
  }

  /** The bucket looked at after `j` steps from a key whose hash is `h`. */
  function Probe(h: nat, j: nat, n: nat): (i: nat)
    requires n > 0
    ensures i < n
  {
    (h + Tri(j)) % n
  }

  // ---- modular arithmetic

  lemma MulAtLeast(d: int, n: nat)
    ensures d >= 1 ==> d * n >= n
    ensures d <= -1 ==> d * n + n <= 0
  {
  }

  lemma ModUnique(a: int, n: int, q: int, r: int)
    requires n > 0 && 0 <= r < n && a == q * n + r
    ensures a % n == r && a / n == q
  {
    assert (q - a / n) * n == a % n - r;
    MulAtLeast(q - a / n, n);
  }

  lemma ModAdd(a: nat, b: nat, n: nat)
    requires n > 0
    ensures (a + b) % n == (a % n + b) % n
  {
    var q, c := a / n, a % n + b;
    assert a + b == (q + c / n) * n + c % n;
    ModUnique(a + b, n, q + c / n, c % n);
  }

  /** One turn of the loop: the step grows by one, and is added modulo the capacity. */
  lemma ProbeStep(h: nat, j: nat, n: nat)
    requires n > 0
    ensures Probe(h, j + 1, n) == (Probe(h, j, n) + (j + 1)) % n
  {
    ModAdd(h + Tri(j), j + 1, n);
    assert h + Tri(j + 1) == h + Tri(j) + (j + 1);
  }

  lemma ModDifference(a: nat, b: nat, n: nat) returns (q: int)
    requires n > 0 && a % n == b % n
    ensures b - a == q * n
  {
    q := b / n - a / n;
    assert b - a == (b / n) * n - (a / n) * n;
  }

  // ---- triangular numbers modulo a power of two

  lemma TriClosed(j: nat)
    ensures 2 * Tri(j) == j * (j + 1)
  {
    if j > 0 {
      TriClosed(j - 1);
    }
  }

  lemma TriDifference(i: nat, j: nat)
    ensures 2 * (Tri(j) - Tri(i)) == (j - i) * (j + i + 1)
  {
    TriClosed(i);
    TriClosed(j);
    assert j * (j + 1) - i * (i + 1) == (j - i) * (j + i + 1);
  }

  lemma OddTimesOdd(a: nat, b: nat)
    requires a % 2 == 1 && b % 2 == 1
    ensures a * b % 2 == 1
  {
    var a', b' := a / 2, b / 2;
    assert a * b == (2 * a' + 1) * (2 * b' + 1) == 2 * (2 * a' * b' + a' + b') + 1;
  }

  /** A power of two that divides a product divides the factor left when the other one is odd. */
  lemma {:induction false} OddFactor(a: nat, b: nat, k: nat, q: int) returns (r: int)
    requires a % 2 == 1 && a * b == q * Pow2(k)
    ensures b == r * Pow2(k)
  {
    if k == 0 {
      r := b;
    } else {
      HalveProduct(a, b, k, q);
      if b % 2 == 1 {
        OddTimesOdd(a, b);
      }
      r := OddFactor(a, b / 2, k - 1, q);
      assert r * Pow2(k) == 2 * (r * Pow2(k - 1));
    }
  }

  lemma HalveProduct(a: nat, b: nat, k: nat, q: int)
    requires k > 0 && a * b == q * Pow2(k)
    ensures a * b % 2 == 0
    ensures b % 2 == 0 ==> a * (b / 2) == q * Pow2(k - 1)
  {
    assert a * b == 2 * (q * Pow2(k - 1));
    if b % 2 == 0 {
      assert a * b == 2 * (a * (b / 2));
    }
  }

  lemma SmallMultiple(x: nat, n: nat, r: int)
    requires n > 0 && x < n && x == r * n
    ensures x == 0
  {
    MulAtLeast(r, n);
  }

  lemma MeetProduct(h: nat, i: nat, j: nat, k: nat) returns (q: int)
    requires i < j && Probe(h, i, Pow2(k)) == Probe(h, j, Pow2(k))
    ensures (j - i) * (j + i + 1) == q * Pow2(k + 1)
  {
    hide Pow2, Tri;
    q := ModDifference(h + Tri(i), h + Tri(j), Pow2(k));
    TriDifference(i, j);
    Doubling(k + 1);
    Twice2(q, Pow2(k));
  }

  lemma Twice2(q: int, n: nat)
    ensures 2 * (q * n) == q * (2 * n)
  {
  }

  lemma Doubling(k: nat)
    requires k > 0
    ensures Pow2(k) == 2 * Pow2(k - 1)
  {
  }

  /** If two positions of a probe sequence meet, their distance or their sum plus one is a multiple
      of twice the capacity. */
  lemma ProbeMeet(h: nat, i: nat, j: nat, k: nat) returns (r: int)
    requires i < j && Probe(h, i, Pow2(k)) == Probe(h, j, Pow2(k))
    ensures if (j - i) % 2 == 1 then j + i + 1 == r * Pow2(k + 1) else j - i == r * Pow2(k + 1)
  {
    hide Pow2, Probe, Tri;
    var q := MeetProduct(h, i, j, k);
    var a, b := j - i, j + i + 1;
    if a % 2 == 1 {
      r := OddFactor(a, b, k + 1, q);
    } else {
      assert b * a == a * b;
      r := OddFactor(b, a, k + 1, q);
    }
  }

  /** The first 2^k positions are pairwise different. */
  lemma ProbeInjective(h: nat, i: nat, j: nat, k: nat)
    requires i < j < Pow2(k)
    ensures Probe(h, i, Pow2(k)) != Probe(h, j, Pow2(k))
  {
    if Probe(h, i, Pow2(k)) == Probe(h, j, Pow2(k)) {
      var r := ProbeMeet(h, i, j, k);
      if (j - i) % 2 == 1 {
        SmallMultiple(j + i + 1, Pow2(k + 1), r);
      } else {
        SmallMultiple(j - i, Pow2(k + 1), r);
      }
    }
  }

  lemma ReturnsAt(h: nat, k: nat)
    ensures Probe(h, 2 * Pow2(k) - 1, Pow2(k)) == Probe(h, 0, Pow2(k))
  {
    hide Pow2, Tri;
    var n := Pow2(k);
    LastTri(n);
    TriStart();
    ModRound(h, n, 2 * n - 1);
  }

  lemma TriStart()
    ensures Tri(0) == 0
  {
  }

  lemma LastTri(n: nat)
    requires n > 0
    ensures Tri(2 * n - 1) == (2 * n - 1) * n
  {
    hide Tri;
    TriClosed(2 * n - 1);
    Twice(2 * n - 1, n);
  }

  lemma Twice(a: nat, b: nat)
    ensures a * (2 * b) == 2 * (a * b)
  {
  }

  /** Going round a whole number of times. */
  lemma ModRound(h: nat, n: nat, t: nat)
    requires n > 0
    ensures (h + t * n) % n == h % n
  {
    assert h + t * n == (h / n + t) * n + h % n;
    ModUnique(h + t * n, n, h / n + t, h % n);
  }

  /** A probe sequence is back at its start for the first time at step 2^(k+1) - 1. */
  lemma FirstReturn(h: nat, j: nat, k: nat)
    requires 0 < j < 2 * Pow2(k)
    ensures Probe(h, j, Pow2(k)) == Probe(h, 0, Pow2(k)) <==> j == 2 * Pow2(k) - 1
  {
    ReturnsAt(h, k);
    if Probe(h, j, Pow2(k)) == Probe(h, 0, Pow2(k)) {
      var r := ProbeMeet(h, 0, j, k);
      MulAtLeast(r, Pow2(k + 1));
      MulAtLeast(r - 1, Pow2(k + 1));
    }
  }

  // ---- every bucket is visited

  function Visited(h: nat, j: nat, n: nat): (s: set<nat>)
    requires n > 0
    ensures forall b :: b in s ==> b < n
    ensures forall b :: b in s ==> exists t :: 0 <= t < j && Probe(h, t, n) == b
  {
    if j == 0 then {} else Visited(h, j - 1, n) + {Probe(h, j - 1, n)}
  }

  lemma VisitedSize(h: nat, j: nat, k: nat)
    requires j <= Pow2(k)
    ensures |Visited(h, j, Pow2(k))| == j
  {
    if j > 0 {
      VisitedSize(h, j - 1, k);
      forall t | 0 <= t < j - 1
        ensures Probe(h, t, Pow2(k)) != Probe(h, j - 1, Pow2(k))
      {
        ProbeInjective(h, t, j - 1, k);
      }
    }
  }

  function Below(n: nat): (s: set<nat>)
    ensures forall b: nat :: b in s <==> b < n
    ensures |s| == n
  {
    if n == 0 then {} else
      var rest := Below(n - 1);
      assert n - 1 !in rest;
      rest + {n - 1}
  }

  lemma FullSubset(s: set<nat>, t: set<nat>)
    requires s <= t && |s| == |t|
    ensures s == t
  {
    assert s * (t - s) == {} && s + (t - s) == t;
    assert |t - s| == 0;
  }

  /** Every one of the 2^k buckets is among the first 2^k positions of every probe sequence. */
  lemma ProbeCovers(h: nat, b: nat, k: nat) returns (j: nat)
    requires b < Pow2(k)
    ensures j < Pow2(k) && Probe(h, j, Pow2(k)) == b
  {
    var n := Pow2(k);
    VisitedSize(h, n, k);
    FullSubset(Visited(h, n, n), Below(n));
    assert b in Visited(h, n, n);
    j :| 0 <= j < n && Probe(h, j, n) == b;
  }

  // ---- capacities

  /** The least exponent, `k` or more, whose power of two is at least `x`.  With `k` = 2 this is
      kroundup32 followed by the floor of four buckets. */
  function LogCapacity(x: nat, k: nat): (r: nat)
    ensures k <= r && x <= Pow2(r)
    ensures k < r ==> Pow2(r - 1) < x
    decreases if x <= Pow2(k) then 0 else x - Pow2(k)
  {
    if x <= Pow2(k) then k else LogCapacity(x, k + 1)
  }

  /** Bitwise or. */
  function Or(a: nat, b: nat): nat
    decreases a + b
  {
    if a == 0 && b == 0 then 0
    else 2 * Or(a / 2, b / 2) + (if a % 2 == 1 || b % 2 == 1 then 1 else 0)
  }

  /** kroundup32 as the macro computes it, in 32-bit words that wrap around. */
  function KRoundUp32(x: nat): nat
    requires x < 0x1_0000_0000
  {
    var a := if x == 0 then 0xFFFF_FFFF else x - 1;
    var b := Or(a, a / 2);
    var c := Or(b, b / 4);
    var d := Or(c, c / 16);
    var e := Or(d, d / 256);
    (Or(e, e / 65536) + 1) % 0x1_0000_0000
  }

  /** A word or-ed with itself shifted right by `j` bits. */
  function Smeared(y: nat, j: nat): nat {
    Or(y, Quotient(y, Pow2(j)))
  }

  function Quotient(y: nat, n: nat): nat
    requires n > 0
  {
    y / n
  }

  /** In a word of `k` bits, the first `j` (or all, if there are fewer) are ones. */
  predicate TopOnes(y: nat, k: nat, j: nat) {
    Pow2(k) - Pow2(if j <= k then k - j else 0) <= y < Pow2(k)
  }

  lemma {:induction false} OrZero(a: nat)
    ensures Or(a, 0) == a
  {
    if a > 0 {
      OrZero(a / 2);
    }
  }

  /** A word with small change `r`, or-ed with a small word `z`, has at least the bits of `z`. */
  lemma {:induction false} OrSmall(h: nat, r: nat, z: nat, m: nat)
    requires r < Pow2(m) && z < Pow2(m)
    ensures h * Pow2(m) + z <= Or(h * Pow2(m) + r, z) < h * Pow2(m) + Pow2(m)
    decreases m
  {
    if m == 0 {
      OrZero(h);
    } else {
      var p := Pow2(m - 1);
      HalfOf(h, p, r);
      OrSmall(h, r / 2, z / 2, m - 1);
    }
  }

  lemma HalfOf(h: nat, p: nat, r: nat)
    ensures h * (2 * p) == 2 * (h * p)
    ensures (h * (2 * p) + r) / 2 == h * p + r / 2 && (h * (2 * p) + r) % 2 == r % 2
  {
    assert h * (2 * p) == 2 * (h * p);
  }

  /** The same, where `h` is all ones. */
  lemma OrOnTop(r: nat, z: nat, k: nat, j: nat)
    requires j < k && r < Pow2(k - j) && z < Pow2(k - j)
    ensures Pow2(k - j) <= Pow2(k)
    ensures Pow2(k) - Pow2(k - j) + z <= Or(Pow2(k) - Pow2(k - j) + r, z) < Pow2(k)
  {
    hide Or, Pow2;
    Pow2Monotone(k - j, k);
    Pow2Adds(j, k - j);
    TimesLess(Pow2(j), Pow2(k - j));
    OrSmall(Pow2(j) - 1, r, z, k - j);
  }

  /** Or-ing a word with itself, shifted by as many bits as it has ones in front, doubles their number. */
  lemma Smear(y: nat, k: nat, j: nat)
    requires TopOnes(y, k, j)
    ensures TopOnes(Smeared(y, j), k, 2 * j)
  {
    hide Or, Pow2, Quotient;
    if j >= k {
      Pow2Monotone(k, j);
      Pow2Zero();
      SmallQuotient(y, Pow2(j));
      OrZero(y);
    } else {
      Shifted(y, k, j);
      OrOnTop(y - (Pow2(k) - Pow2(k - j)), Quotient(y, Pow2(j)), k, j);
    }
  }

  lemma Pow2Zero()
    ensures Pow2(0) == 1
  {
  }

  lemma SmallQuotient(y: nat, n: nat)
    requires y < n
    ensures Quotient(y, n) == 0
  {
  }

  lemma TimesLess(n: nat, p: nat)
    requires n > 0
    ensures (n - 1) * p == n * p - p
  {
  }

  lemma {:induction false} Pow2Adds(i: nat, j: nat)
    ensures Pow2(i + j) == Pow2(i) * Pow2(j)
  {
    if i > 0 {
      Pow2Adds(i - 1, j);
      assert i - 1 + j == i + j - 1;
      TwiceFirst(Pow2(i - 1), Pow2(j));
    }
  }

  lemma TwiceFirst(a: nat, b: nat)
    ensures 2 * (a * b) == (2 * a) * b
  {
  }

  /** The shifted word: its first `j` bits, of the `k - j` it has, are ones again. */
  lemma Shifted(y: nat, k: nat, j: nat)
    requires j < k && TopOnes(y, k, j)
    ensures Pow2(k - j) - Pow2(if 2 * j <= k then k - 2 * j else 0) <= Quotient(y, Pow2(j)) < Pow2(k - j)
  {
    hide Pow2, Quotient;
    var n, p := Pow2(j), Pow2(k - j);
    Pow2Adds(j, k - j);
    if 2 * j <= k {
      Pow2Adds(j, k - 2 * j);
      Between(y, n, p, Pow2(k - 2 * j));
    } else {
      Pow2Zero();
      Pow2Monotone(k - j, j);
      Between(y, n, p, 1);
    }
  }

  lemma Between(y: nat, n: nat, p: nat, q: nat)
    requires n > 0 && p <= n * q && n * p - p <= y < n * p
    ensures p - q <= Quotient(y, n) < p
  {
    assert n * p - n * q == n * (p - q);
    QuotientAtLeast(y, n, p - q);
    QuotientBelow(y, n, p);
  }

  lemma MulOrdered(n: nat, a: int, b: int)
    ensures a < b ==> n * a + n <= n * b
    ensures a <= b ==> n * a <= n * b
  {
    MulAtLeast(b - a, n);
    MulDifference(n, a, b);
  }

  lemma MulDifference(n: nat, a: int, b: int)
    ensures (b - a) * n == n * b - n * a
  {
  }

  lemma QuotientAtLeast(y: nat, n: nat, t: int)
    requires n > 0 && n * t <= y
    ensures t <= y / n
  {
    assert y == n * (y / n) + y % n;
    MulOrdered(n, y / n, t);
  }

  lemma QuotientBelow(y: nat, n: nat, t: nat)
    requires n > 0 && y < n * t
    ensures y / n < t
  {
    assert y == n * (y / n) + y % n;
    MulOrdered(n, t, y / n);
  }

  /** kroundup32 gives the least power of two that is not below its argument, as long as that fits a word. */
  lemma KRoundUp32Exact(x: nat)
    requires 1 <= x <= 0x8000_0000
    ensures KRoundUp32(x) == Pow2(LogCapacity(x, 0))
  {
    hide Or, Pow2, LogCapacity;
    var k := LogCapacity(x, 0);
    SmallPowers();
    if k == 0 {
      OrZero(0);
    } else {
      if k > 31 {
        Pow2Monotone(31, k - 1);
      }
      Doubling(k);
      SmearAll(x - 1, k);
      Pow2Monotone(k, 31);
    }
  }

  lemma SmallPowers()
    ensures Pow2(0) == 1 && Pow2(1) == 2 && Pow2(2) == 4 && Pow2(4) == 16 && Pow2(8) == 256 && Pow2(16) == 65536
    ensures Pow2(31) == 0x8000_0000
  {
    hide Pow2;
    Pow2Zero();
    Doubling(1);
    Doubling(2);
    Pow2Adds(2, 2);
    Pow2Adds(4, 4);
    Pow2Adds(8, 8);
    Pow2Adds(16, 16);
    Doubling(32);
  }

  lemma SmearAll(a: nat, k: nat)
    requires k <= 32 && TopOnes(a, k, 1)
    ensures var b := Or(a, a / 2);
            var c := Or(b, b / 4);
            var d := Or(c, c / 16);
            var e := Or(d, d / 256);
            Or(e, e / 65536) == Pow2(k) - 1
  {
    hide Or, Pow2;
    SmallPowers();
    var b := Or(a, a / 2);
    Smear(a, k, 1);
    var c := Or(b, b / 4);
    Smear(b, k, 2);
    var d := Or(c, c / 16);
    Smear(c, k, 4);
    var e := Or(d, d / 256);
    Smear(d, k, 8);
    Smear(e, k, 16);
  }

  /** Beyond 2^31, and for 0, it wraps around to 0. */
  lemma KRoundUp32Wraps(x: nat)
    requires x == 0 || 0x8000_0000 < x < 0x1_0000_0000
    ensures KRoundUp32(x) == 0
  {
    hide Or, Pow2;
    SmallPowers();
    Doubling(32);
    SmearAll(if x == 0 then 0xFFFF_FFFF else x - 1, 32);
  }

  /** The capacity of kh_resize: the macro, and no fewer than four buckets. */
  lemma CapacityIs(x: nat)
    requires x <= 0x8000_0000
    ensures Pow2(LogCapacity(x, 2)) == if KRoundUp32(x) < 4 then 4 else KRoundUp32(x)
  {
    hide KRoundUp32, Pow2;
    SmallPowers();
    if x == 0 {
      KRoundUp32Wraps(0);
    } else {
      KRoundUp32Exact(x);
    }
    CapacityFrom(x);
  }

  lemma CapacityFrom(x: nat)
    ensures LogCapacity(x, 2) == if LogCapacity(x, 0) < 2 then 2 else LogCapacity(x, 0)
  {
    SmallPowers();
  }

  /** (khint_t)(n * 0.77 + 0.5) */
  function UpperBound(n: nat): nat {
    (77 * n + 50) / 100
  }

  lemma UpperBoundFacts(n: nat)
    requires n >= 4
    ensures n / 2 < UpperBound(n) < n && UpperBound(n) < UpperBound(2 * n)
  {
  }

  /** It is 0.77 of the buckets, rounded to the nearest number. */
  lemma UpperBoundRounds(n: nat)
    ensures var x := 0.77 * n as real; x - 0.5 < UpperBound(n) as real <= x + 0.5
  {
    var q := UpperBound(n);
    assert 100 * q <= 77 * n + 50 < 100 * q + 100;
  }

  lemma Pow2AtLeastFour(k: nat)
    requires k >= 2
    ensures Pow2(k) >= 4 && Pow2(k) == 2 * Pow2(k - 1)
  {
    assert Pow2(k) == 2 * (2 * Pow2(k - 2));
  }

  /** The words __ac_fsize allocates cover every bucket. */
  lemma WordsCover(k: nat)
    requires k >= 2
    ensures Pow2(k) <= 16 * (if Pow2(k) < 16 then 1 else Pow2(k) / 16)
  {
    if k >= 4 {
      assert Pow2(k) == 2 * Pow2(k - 1) == 4 * Pow2(k - 2) == 8 * Pow2(k - 3) == 16 * Pow2(k - 4);
    }
  }

  /** kh_put asks for one bucket fewer to get rid of tombstones and keeps its capacity, or for one
      more and doubles it. */
  lemma NextCapacity(k: nat)
    requires k >= 2
    ensures LogCapacity(Pow2(k) - 1, 2) == k && LogCapacity(Pow2(k) + 1, 2) == k + 1
  {
    hide Pow2, LogCapacity;
    Pow2AtLeastFour(k);
    LogCapacityIs(Pow2(k) - 1, k);
    Pow2AtLeastFour(k + 1);
    LogCapacityIs(Pow2(k) + 1, k + 1);
  }

  lemma LogCapacityIs(x: nat, k: nat)
    requires k >= 2 && Pow2(k - 1) < x <= Pow2(k)
    ensures LogCapacity(x, 2) == k
  {
    hide Pow2;
    Pow2Monotone(LogCapacity(x, 2), k - 1);
    Pow2Monotone(k, LogCapacity(x, 2) - 1);
  }

  lemma Pow2Monotone(i: int, j: int)
    ensures 0 <= i <= j ==> Pow2(i) <= Pow2(j)
    decreases j - i
  {
    if 0 <= i < j {
      Pow2Monotone(i, j - 1);
    }
  }
}
