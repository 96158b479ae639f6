/**
 * The hash functions of hash_table.c: the polynomial string hash (ht_hash)
 * and the double-hashing probe sequence built from two of them
 * (ht_get_hash), with the arithmetic that the probe walks rely on.
 */
module Hashing {

  /** Number of buckets of every table (HASH_TABLE_MAX_SIZE). */
  const MaxSize: nat := 53

  /** Code of a key character; character codes are taken as non-negative. */
  function Code(c: char): nat { c as nat }

  /** Exact integer power a^k (the source computes it with floating-point pow). */
  function Pow(a: nat, k: nat): nat
  {
    if k == 0 then 1 else a * Pow(a, k - 1)
  }

  /** Reference value of a key: its characters read as base-a digits,
      the sum of a^(|s|-1-i) * s[i]. */
  function Poly(s: string, a: nat): nat
  {
    if |s| == 0 then 0 else Pow(a, |s| - 1) * Code(s[0]) + Poly(s[1..], a)
  }

  /** The accumulator of ht_hash's loop after its first i iterations:
      each iteration adds a^(|s|-i) * s[i-1] and reduces modulo m. */
  function HashAfter(s: string, a: nat, m: nat, i: nat): (h: nat)
    requires m > 0 && i <= |s|
    ensures h < m
  {
    if i == 0 then 0
    else (HashAfter(s, a, m, i - 1) + Pow(a, |s| - i) * Code(s[i - 1])) % m
  }

  /** The same accumulator if the loop never reduced it. */
  function Unreduced(s: string, a: nat, i: nat): nat
    requires i <= |s|
  {
    if i == 0 then 0 else Unreduced(s, a, i - 1) + Pow(a, |s| - i) * Code(s[i - 1])
  }

  /** ht_hash(s, a, m): a bucket number in [0, m) that is the key's
      base-a value reduced modulo m. */
  function Hash(s: string, a: nat, m: nat): (h: nat)
    requires m > 0
    ensures h < m
  {
    HashAfter(s, a, m, |s|)
  }

  /** ht_get_hash: the bucket visited by the given attempt of the walk for
      key s in a table of n buckets; a1 and a2 stand for HT_PRIME_1 and
      HT_PRIME_2. The step between attempts is Hash(s, a2, n) + 1. */
  function GetHash(s: string, n: nat, attempt: nat, a1: nat, a2: nat): (index: nat)
    requires n > 0
    ensures index < n
    ensures attempt == 0 ==> index == Hash(s, a1, n)
  {
    ProbeIndex(Hash(s, a1, n), Hash(s, a2, n) + 1, n, attempt)
  }

  /** The arithmetic of ht_get_hash: start h, step, n buckets. */
  function ProbeIndex(h: nat, step: nat, n: nat, attempt: nat): (index: nat)
    requires h < n
    ensures index < n
    ensures attempt == 0 ==> index == h
  {
    if attempt == 0 then
      ModUnique(h, n, 0, h);
      (h + attempt * step) % n
    else
      (h + attempt * step) % n
  }

  /** Horner-style evaluation that reduces after every step,
      acc := (acc * a + s[i]) mod m. */
  function HornerMod(s: string, a: nat, m: nat): nat
    requires m > 0
  {
    if |s| == 0 then 0 else (HornerMod(s[..|s| - 1], a, m) * a + Code(s[|s| - 1])) % m
  }

  // ---------------------------------------------------------------------
  // Modular arithmetic

  /** Division with remainder is unique. */
  lemma ModUnique(y: int, m: int, q: int, r: int)
    requires m > 0 && 0 <= r < m && y == m * q + r
    ensures y % m == r && y / m == q
  {
    var d := q - y / m;
    assert m * d == y % m - r;
    MulSign(m, d);
  }

  lemma MulSign(m: int, d: int)
    requires m > 0
    ensures d >= 1 ==> m * d >= m
    ensures d <= -1 ==> m * d <= -m
  {
  }

  /** Adding a multiple of m does not change the remainder. */
  lemma ModAddMultiple(x: int, k: int, m: int)
    requires m > 0
    ensures (x + m * k) % m == x % m
  {
    var q := x / m;
    assert x + m * k == m * (q + k) + x % m;
    ModUnique(x + m * k, m, q + k, x % m);
  }

  /** Reducing a summand first does not change the remainder of a sum. */
  lemma ModAddReduced(x: int, y: int, m: int)
    requires m > 0
    ensures (x % m + y) % m == (x + y) % m
  {
    ModAddMultiple(x % m + y, x / m, m);
  }

  /** Reducing a factor first does not change the remainder of x * a + c. */
  lemma ModMulReduced(x: int, a: int, c: int, m: int)
    requires m > 0
    ensures ((x % m) * a + c) % m == (x * a + c) % m
  {
    var q := x / m;
    assert x * a == (m * q + x % m) * a;
    assert x * a + c == (x % m) * a + c + m * (q * a);
    ModAddMultiple((x % m) * a + c, q * a, m);
  }

  /** Equal remainders mean the difference is a multiple of m. */
  lemma ModEqualDifference(x: int, y: int, m: int)
    requires m > 0 && x % m == y % m
    ensures (y - x) % m == 0
  {
    assert y - x == m * (y / m - x / m);
    ModUnique(y - x, m, y / m - x / m, 0);
  }

  // ---------------------------------------------------------------------
  // ht_hash

  /** Reducing after each iteration gives the remainder of the unreduced sum. */
  lemma {:induction false} ReducedAfterEachStep(s: string, a: nat, m: nat, i: nat)
    requires m > 0 && i <= |s|
    ensures HashAfter(s, a, m, i) == Unreduced(s, a, i) % m
  {
    if i > 0 {
      ReducedAfterEachStep(s, a, m, i - 1);
      ModAddReduced(Unreduced(s, a, i - 1), Pow(a, |s| - i) * Code(s[i - 1]), m);
    }
  }

  /** The first i terms of the loop plus the value of the rest of the key
      make up the key's whole value. */
  lemma {:induction false} UnreducedIsPoly(s: string, a: nat, i: nat)
    requires i <= |s|
    ensures Unreduced(s, a, i) + Poly(s[i..], a) == Poly(s, a)
  {
    if i == 0 {
      assert s[0..] == s;
    } else {
      UnreducedIsPoly(s, a, i - 1);
      assert s[i - 1..][1..] == s[i..];
    }
  }

  /** ht_hash is the key's base-a value reduced modulo m, so reducing after
      every iteration gives the same result as reducing once at the end. */
  lemma HashIsPolyMod(s: string, a: nat, m: nat)
    requires m > 0
    ensures Hash(s, a, m) == Poly(s, a) % m
  {
    ReducedAfterEachStep(s, a, m, |s|);
    UnreducedIsPoly(s, a, |s|);
  }

  /** Appending a digit multiplies the value by the base and adds the digit. */
  lemma {:induction false} PolySnoc(s: string, c: char, a: nat)
    ensures Poly(s + [c], a) == Poly(s, a) * a + Code(c)
  {
    if |s| == 0 {
      assert Poly(s + [c], a) == Pow(a, 0) * Code(c) + Poly([], a);
    } else {
      assert (s + [c])[1..] == s[1..] + [c];
      PolySnoc(s[1..], c, a);
      var p := Pow(a, |s| - 1) * Code(s[0]);
      assert Pow(a, |s|) * Code(s[0]) == p * a;
      calc {
        Poly(s + [c], a);
        Pow(a, |s|) * Code(s[0]) + Poly(s[1..] + [c], a);
        p * a + (Poly(s[1..], a) * a + Code(c));
        (p + Poly(s[1..], a)) * a + Code(c);
        Poly(s, a) * a + Code(c);
      }
    }
  }

  /** ht_hash agrees with the incremental Horner evaluation: reducing at
      every step of either algorithm gives the key's value modulo m. */
  lemma {:induction false} HornerModIsHash(s: string, a: nat, m: nat)
    requires m > 0
    ensures HornerMod(s, a, m) == Hash(s, a, m)
  {
    if |s| > 0 {
      var p := s[..|s| - 1];
      var c := s[|s| - 1];
      assert s == p + [c];
      HornerModIsHash(p, a, m);
      HashIsPolyMod(p, a, m);
      HashIsPolyMod(s, a, m);
      ModMulReduced(Poly(p, a), a, Code(c), m);
      PolySnoc(p, c, a);
    }
  }

  // ---------------------------------------------------------------------
  // ht_get_hash

  lemma ProbeIndexIsPeriodic(h: nat, step: nat, n: nat, attempt: nat)
    requires h < n
    ensures ProbeIndex(h, step, n, attempt % n) == ProbeIndex(h, step, n, attempt)
  {
    var q, r := attempt / n, attempt % n;
    assert attempt * step == r * step + n * (q * step) by {
      assert attempt == n * q + r;
    }
    ModAddMultiple(h + r * step, q * step, n);
  }

  /** The walk repeats itself after n attempts. */
  lemma ProbeIsPeriodic(s: string, n: nat, attempt: nat, a1: nat, a2: nat)
    requires n > 0
    ensures GetHash(s, n, attempt % n, a1, a2) == GetHash(s, n, attempt, a1, a2)
  {
    ProbeIndexIsPeriodic(Hash(s, a1, n), Hash(s, a2, n) + 1, n, attempt);
  }

  /** When the second hash is n-1 the step is n and every attempt returns
      the first bucket. */
  lemma ProbeStallsWhenStepIsSize(s: string, n: nat, attempt: nat, a1: nat, a2: nat)
    requires n > 0 && Hash(s, a2, n) == n - 1
    ensures GetHash(s, n, attempt, a1, a2) == Hash(s, a1, n)
  {
    var h := Hash(s, a1, n);
    ModAddMultiple(h, attempt, n);
    ModUnique(h, n, 0, h);
    assert ProbeIndex(h, n, n, attempt) == (h + n * attempt) % n;
  }

  // ---------------------------------------------------------------------
  // Primes and the full cycle of the probe

  predicate Divides(d: int, n: int)
    requires d > 0
  {
    n % d == 0
  }

  predicate IsPrime(n: int)
  {
    n > 1 && forall d :: 1 < d < n ==> !Divides(d, n)
  }

  /** No d in (1, k] divides n. */
  predicate NoDivisorUpTo(n: int, k: int)
    decreases k
  {
    k <= 1 || (n % k != 0 && NoDivisorUpTo(n, k - 1))
  }

  lemma {:induction false} NoDivisorUpToMeans(n: int, k: int, d: int)
    requires NoDivisorUpTo(n, k) && 1 < d <= k
    ensures !Divides(d, n)
    decreases k
  {
    if d < k {
      NoDivisorUpToMeans(n, k - 1, d);
    }
  }

  /** The fixed table size is prime. */
  lemma MaxSizeIsPrime()
    ensures IsPrime(MaxSize)
  {
    assert NoDivisorUpTo(53, 8);
    assert NoDivisorUpTo(53, 16);
    assert NoDivisorUpTo(53, 24);
    assert NoDivisorUpTo(53, 32);
    assert NoDivisorUpTo(53, 40);
    assert NoDivisorUpTo(53, 48);
    assert NoDivisorUpTo(53, 52);
    forall d | 1 < d < 53
      ensures !Divides(d, 53)
    {
      NoDivisorUpToMeans(53, 52, d);
    }
  }

  /** If p divides d*s it divides d*(p mod s). */
  lemma DividesRemainder(p: int, d: int, s: int)
    requires p > 0 && s > 0 && (d * s) % p == 0
    ensures (d * (p % s)) % p == 0
  {
    var q, r := p / s, p % s;
    var k := (d * s) / p;
    assert d * s == p * k;
    assert d * r == d * (p - s * q);
    assert d * r == p * (d - q * k);
    ModUnique(d * r, p, d - q * k, 0);
  }

  /** Modulo a prime, a product of two non-zero residues is not zero. */
  lemma {:induction false} NoZeroDivisors(p: int, d: int, s: int)
    requires IsPrime(p) && 0 < d < p && 0 < s < p
    ensures (d * s) % p != 0
    decreases s
  {
    if s == 1 {
      ModUnique(d, p, 0, d);
    } else {
      assert !Divides(s, p);
      if (d * s) % p == 0 {
        DividesRemainder(p, d, s);
        NoZeroDivisors(p, d, p % s);
        assert false;
      }
    }
  }

  /** With a prime number of buckets and a step that is not a multiple of
      it, the first n attempts visit pairwise different buckets. */
  lemma ProbeIsInjective(s: string, n: nat, i: nat, j: nat, a1: nat, a2: nat)
    requires IsPrime(n) && Hash(s, a2, n) != n - 1
    requires i < j < n
    ensures GetHash(s, n, i, a1, a2) != GetHash(s, n, j, a1, a2)
  {
    ProbeIndexIsInjective(Hash(s, a1, n), Hash(s, a2, n) + 1, n, i, j);
  }

  lemma ProbeIndexIsInjective(h: nat, step: nat, n: nat, i: nat, j: nat)
    requires IsPrime(n) && h < n && 0 < step < n && i < j < n
    ensures ProbeIndex(h, step, n, i) != ProbeIndex(h, step, n, j)
  {
    if ProbeIndex(h, step, n, i) == ProbeIndex(h, step, n, j) {
      assert (h + j * step) - (h + i * step) == (j - i) * step;
      ModEqualDifference(h + i * step, h + j * step, n);
      NoZeroDivisors(n, j - i, step);
      assert false;
    }
  }

  /** The set of buckets visited by attempts 0 .. k-1. */
  function Visited(h: nat, step: nat, n: nat, k: nat): set<nat>
    requires h < n
  {
    set i | 0 <= i < k :: ProbeIndex(h, step, n, i)
  }

  lemma {:induction false} VisitedSize(h: nat, step: nat, n: nat, k: nat)
    requires IsPrime(n) && h < n && 0 < step < n && k <= n
    ensures |Visited(h, step, n, k)| == k
  {
    if k > 0 {
      VisitedSize(h, step, n, k - 1);
      var last := ProbeIndex(h, step, n, k - 1);
      assert Visited(h, step, n, k) == Visited(h, step, n, k - 1) + {last};
      if last in Visited(h, step, n, k - 1) {
        var i :| 0 <= i < k - 1 && ProbeIndex(h, step, n, i) == last;
        ProbeIndexIsInjective(h, step, n, i, k - 1);
        assert false;
      }
    }
  }

  /** The bucket numbers 0 .. n-1. */
  function Range(n: nat): (r: set<nat>)
    ensures forall b: int :: b in r <==> 0 <= b < n
  {
    if n == 0 then {} else Range(n - 1) + {n - 1}
  }

  lemma {:induction false} RangeSize(n: nat)
    ensures |Range(n)| == n
  {
    if n > 0 {
      RangeSize(n - 1);
    }
  }

  lemma SubsetSize<T>(a: set<T>, b: set<T>)
    requires a <= b
    ensures |a| <= |b|
  {
    assert b == a + (b - a);
    assert a * (b - a) == {};
  }

  /** With a prime number of buckets and a step in [1, n), some attempt
      below n visits bucket b. */
  lemma ProbeIndexCovers(h: nat, step: nat, n: nat, b: nat)
    requires IsPrime(n) && h < n && 0 < step < n && b < n
    ensures exists i :: 0 <= i < n && ProbeIndex(h, step, n, i) == b
  {
    var v := Visited(h, step, n, n);
    VisitedSize(h, step, n, n);
    RangeSize(n);
    if b !in v {
      assert v <= Range(n) - {b};
      SubsetSize(v, Range(n) - {b});
      assert false;
    }
  }

  /** With a prime number of buckets and a step that is not a multiple of
      it, attempts 0 .. n-1 visit every bucket (exactly once, by
      ProbeIsInjective). */
  lemma ProbeCoversAllBuckets(s: string, n: nat, b: nat, a1: nat, a2: nat)
    requires IsPrime(n) && Hash(s, a2, n) != n - 1 && b < n
    ensures exists i :: 0 <= i < n && GetHash(s, n, i, a1, a2) == b
  {
    ProbeIndexCovers(Hash(s, a1, n), Hash(s, a2, n) + 1, n, b);
    var i :| 0 <= i < n && ProbeIndex(Hash(s, a1, n), Hash(s, a2, n) + 1, n, i) == b;
    assert GetHash(s, n, i, a1, a2) == b;
  }

  // ---------------------------------------------------------------------
  // The probe step of ht_get_hash can be a multiple of the table size

  /** The one-character key "4" (code 52) hashes to 52 under every base. */
  lemma HashOfFour(a: nat)
    ensures Hash("4", a, MaxSize) == MaxSize - 1
  {
    assert HashAfter("4", a, MaxSize, 0) == 0;
    assert Pow(a, 0) * Code('4') == 52;
  }

  /** As written, ht_get_hash's step Hash(key, a2, n) + 1 equals n for a
      key like "4" in a table of MaxSize buckets, so every attempt of every
      walk for that key visits bucket 52 and no other. */
  lemma StepOfFourIsSize(attempt: nat, a1: nat, a2: nat)
    ensures GetHash("4", MaxSize, attempt, a1, a2) == MaxSize - 1
  {
    HashOfFour(a1);
    HashOfFour(a2);
    ProbeStallsWhenStepIsSize("4", MaxSize, attempt, a1, a2);
  }

  /** The probe with the second hash taken modulo n-1, so that the step
      lies in [1, n-1] for every key. */
  function FixedGetHash(s: string, n: nat, attempt: nat, a1: nat, a2: nat): (index: nat)
    requires n > 1
    ensures index < n
    ensures attempt == 0 ==> index == Hash(s, a1, n)
  {
    ProbeIndex(Hash(s, a1, n), Hash(s, a2, n - 1) + 1, n, attempt)
  }

  /** With a prime number of buckets, the fixed probe visits every bucket
      exactly once in its first n attempts, for every key. */
  lemma FixedProbeVisitsEveryBucketOnce(s: string, n: nat, a1: nat, a2: nat)
    requires IsPrime(n)
    ensures forall i, j :: 0 <= i < j < n ==> FixedGetHash(s, n, i, a1, a2) != FixedGetHash(s, n, j, a1, a2)
    ensures (set i | 0 <= i < n :: FixedGetHash(s, n, i, a1, a2)) == Range(n)
  {
    var h, step := Hash(s, a1, n), Hash(s, a2, n - 1) + 1;
    forall i, j | 0 <= i < j < n
      ensures FixedGetHash(s, n, i, a1, a2) != FixedGetHash(s, n, j, a1, a2)
    {
      ProbeIndexIsInjective(h, step, n, i, j);
    }
    var visited := set i | 0 <= i < n :: FixedGetHash(s, n, i, a1, a2);
    forall b | b in Range(n)
      ensures b in visited
    {
      ProbeIndexCovers(h, step, n, b);
      var i :| 0 <= i < n && ProbeIndex(h, step, n, i) == b;
      assert FixedGetHash(s, n, i, a1, a2) == b;
    }
  }
}
