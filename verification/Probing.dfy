/** Number theory behind the quadratic probe sequence of DenseMap: in a table whose size is a
    power of two, the offsets i(i+1)/2 visit every bucket exactly once in the first n probes. */
module Probing {

  function Pow2(m: nat): (n: nat)
    ensures n >= 1
  {
    if m == 0 then 1 else 2 * Pow2(m - 1)
  }

  ghost predicate IsPow2(n: int) {
    exists m: nat :: n == Pow2(m)
  }

  /** The least power of two strictly greater than a. */
  function NextPowerOf2(a: nat): (n: nat)
    ensures IsPow2(n) && a < n
    ensures n <= 2 * a || n == 1
    ensures forall m: nat :: a < Pow2(m) ==> n <= Pow2(m)
  {
    NextPowerFrom(a, 0)
  }

  function NextPowerFrom(a: nat, m: nat): (n: nat)
    requires forall k: nat :: k < m ==> Pow2(k) <= a
    ensures IsPow2(n) && a < n
    ensures n <= 2 * a || n == 1
    ensures forall k: nat :: a < Pow2(k) ==> n <= Pow2(k)
    decreases a + 1 - Pow2(m)
  {
    if a < Pow2(m) then
      assert forall k: nat | a < Pow2(k) :: Pow2(m) <= Pow2(k) by {
        forall k: nat | a < Pow2(k) ensures Pow2(m) <= Pow2(k) { Pow2Monotone(m, k); }
      }
      assert m > 0 ==> Pow2(m) == 2 * Pow2(m - 1) && Pow2(m - 1) <= a;
      Pow2(m)
    else
      assert Pow2(m + 1) == 2 * Pow2(m);
      NextPowerFrom(a, m + 1)
  }

  lemma Pow2Monotone(a: nat, b: nat)
    requires a <= b
    ensures Pow2(a) <= Pow2(b)
    decreases b
  {
    if a < b { Pow2Monotone(a, b - 1); }
  }

  /** The i-th triangular number, the offset of the i-th probe. */
  function Tri(i: nat): nat {
    if i == 0 then 0 else Tri(i - 1) + i
  }

  /** The bucket inspected by the i-th probe for hash h in a table of n buckets. */
  function Probe(h: nat, i: nat, n: nat): (b: nat)
    requires n > 0
    ensures b < n
  {
    (h + Tri(i)) % n
  }

  lemma {:induction false} TriClosed(i: nat)
    ensures 2 * Tri(i) == i * (i + 1)
  {
    if i > 0 { TriClosed(i - 1); }
  }

  /** Where the search starts: the low bits of the hash, for a table whose size is a power of two. */
  function FirstBucket(h: nat, n: nat): (b: nat)
    requires n > 0
    ensures b < n && b == Probe(h, 0, n)
  {
    h % n
  }

  /** The bucket `probeAmt` places further on, around the end of the table. */
  function NextBucket(bucketNo: nat, probeAmt: nat, n: nat): (b: nat)
    requires n > 0
    ensures b < n
  {
    (bucketNo + probeAmt) % n
  }

  /** One round of the probing loop moves from one probe to the next. */
  lemma ProbeStep(h: nat, i: nat, n: nat)
    requires n > 0 && i > 0
    ensures NextBucket(Probe(h, i - 1, n), i, n) == Probe(h, i, n)
  {
    ModShift(h + Tri(i - 1), i, n);
  }

  lemma ModShift(a: nat, b: nat, n: nat)
    requires n > 0
    ensures (a % n + b) % n == (a + b) % n
  {
    var q := a / n;
    assert a + b == (a % n + b) + q * n;
    ModAddMultiple(a % n + b, q, n);
  }

  lemma {:induction false} ModAddMultiple(x: nat, q: nat, n: nat)
    requires n > 0
    ensures (x + q * n) % n == x % n
  {
    if q > 0 {
      assert x + q * n == (x + (q - 1) * n) + n;
      ModAddMultiple(x, q - 1, n);
      ModAddOne(x + (q - 1) * n, n);
    }
  }

  lemma ModAddOne(y: nat, n: nat)
    requires n > 0
    ensures (y + n) % n == y % n
  {
    var q, r := y / n, y % n;
    assert y + n == (q + 1) * n + r;
    DivModUnique(y + n, n, q + 1, r);
  }

  lemma DivModUnique(x: nat, n: nat, q: nat, r: nat)
    requires n > 0 && r < n && x == q * n + r
    ensures x / n == q && x % n == r
  {
    var q', r' := x / n, x % n;
    assert x == q' * n + r';
    if q' < q {
      MulMonotone(q' + 1, q, n);
    } else if q < q' {
      MulMonotone(q + 1, q', n);
    }
  }

  lemma MulMonotone(a: nat, b: nat, n: nat)
    requires a <= b
    ensures a * n <= b * n
  {
  }

  /** If 2^k divides a product with one odd factor it divides the other factor. */
  lemma {:induction false} OddFactor(k: nat, a: nat, b: nat, c: nat) returns (d: nat)
    requires a % 2 == 1
    requires a * b == c * Pow2(k)
    ensures b == d * Pow2(k)
  {
    if k == 0 {
      d := b;
    } else {
      HalveProduct(a, b, c, Pow2(k - 1));
      d := OddFactor(k - 1, a, b / 2, c);
      assert b == 2 * (d * Pow2(k - 1)) == d * (2 * Pow2(k - 1));
    }
  }

  lemma HalveProduct(a: nat, b: nat, c: nat, p: nat)
    requires a % 2 == 1
    requires a * b == c * (2 * p)
    ensures b % 2 == 0 && a * (b / 2) == c * p
  {
    assert a * b == 2 * (c * p);
    if b % 2 == 1 {
      OddTimesOdd(a, b);
    } else {
      var b' := b / 2;
      assert a * b == a * (2 * b') == 2 * (a * b');
    }
  }

  lemma OddTimesOdd(a: nat, b: nat)
    requires a % 2 == 1 && b % 2 == 1
    ensures (a * b) % 2 == 1
  {
    var x, y := a / 2, b / 2;
    assert a * b == (2 * x + 1) * b == 2 * (x * b) + b;
  }

  lemma SameResidue(x: nat, y: nat, n: nat) returns (q: nat)
    requires n > 0 && x <= y && x % n == y % n
    ensures y - x == q * n
  {
    assert y == (y / n) * n + y % n;
    assert x == (x / n) * n + x % n;
    if y / n < x / n {
      MulMonotone(y / n + 1, x / n, n);
      q := 0;
    } else {
      q := y / n - x / n;
    }
  }

  lemma MultipleIsLarge(x: nat, d: nat, n: nat)
    requires x == d * n && x > 0
    ensures x >= n
  {
    if d > 0 { MulMonotone(1, d, n); }
  }

  /** Factors of opposite parity cannot multiply to a multiple of 2^k when both are below 2^k. */
  lemma OppositeParityProduct(k: nat, d: nat, s: nat, c: nat)
    requires d % 2 != s % 2 && d > 0 && s > 0
    requires d * s == c * Pow2(k)
    ensures d >= Pow2(k) || s >= Pow2(k)
  {
    if d % 2 == 1 {
      var t := OddFactor(k, d, s, c);
      MultipleIsLarge(s, t, Pow2(k));
    } else {
      var t := OddFactor(k, s, d, c);
      MultipleIsLarge(d, t, Pow2(k));
    }
  }

  lemma {:induction false} TriMonotone(i: nat, j: nat)
    requires i <= j
    ensures Tri(i) <= Tri(j)
    decreases j
  {
    if i < j { TriMonotone(i, j - 1); }
  }

  lemma TriDifference(i: nat, j: nat)
    requires i <= j
    ensures Tri(i) <= Tri(j)
    ensures 2 * (Tri(j) - Tri(i)) == (j - i) * (j + i + 1)
  {
    TriMonotone(i, j);
    TriClosed(i);
    TriClosed(j);
    assert (j - i) * (j + i + 1) == j * (j + 1) - i * (i + 1);
  }

  /** Two different probes below the table size never inspect the same bucket. */
  lemma ProbeInjective(h: nat, i: nat, j: nat, m: nat)
    requires i < j < Pow2(m)
    ensures Probe(h, i, Pow2(m)) != Probe(h, j, Pow2(m))
  {
    if Probe(h, i, Pow2(m)) == Probe(h, j, Pow2(m)) {
      hide Probe, Tri;
      var q := SameProbe(h, i, j, Pow2(m));
      OppositeParityProduct(m + 1, j - i, j + i + 1, q);
    }
  }

  lemma SameProbe(h: nat, i: nat, j: nat, n: nat) returns (q: nat)
    requires i < j && n > 0 && Probe(h, i, n) == Probe(h, j, n)
    ensures (j - i) * (j + i + 1) == q * (2 * n)
  {
    hide Tri;
    TriDifference(i, j);
    q := SameResidue(h + Tri(i), h + Tri(j), n);
    Reassociate(q, n);
  }

  lemma Reassociate(q: nat, n: nat)
    ensures 2 * (q * n) == q * (2 * n)
  {
  }

  ghost function Below(n: nat): (s: set<nat>)
    ensures |s| == n
    ensures forall x: nat :: x in s <==> x < n
  {
    if n == 0 then {} else Below(n - 1) + {n - 1}
  }

  /** The buckets inspected by the first k probes. */
  ghost function Visited(h: nat, k: nat, n: nat): set<nat>
    requires n > 0
  {
    if k == 0 then {} else Visited(h, k - 1, n) + {Probe(h, k - 1, n)}
  }

  lemma {:induction false} VisitedBy(h: nat, k: nat, n: nat, b: nat) returns (i: nat)
    requires n > 0 && b in Visited(h, k, n)
    ensures i < k && Probe(h, i, n) == b
  {
    i := k - 1;
    if Probe(h, i, n) != b { i := VisitedBy(h, k - 1, n, b); }
  }

  lemma {:induction false} VisitedSize(h: nat, k: nat, n: nat, m: nat)
    requires n == Pow2(m) && k <= n
    ensures |Visited(h, k, n)| == k
    ensures Visited(h, k, n) <= Below(n)
  {
    if k > 0 {
      VisitedSize(h, k - 1, n, m);
      NotVisitedBefore(h, k - 1, n, m);
    }
  }

  lemma NotVisitedBefore(h: nat, k: nat, n: nat, m: nat)
    requires n == Pow2(m) && k < n
    ensures Probe(h, k, n) !in Visited(h, k, n)
  {
    if Probe(h, k, n) in Visited(h, k, n) {
      var i := VisitedBy(h, k, n, Probe(h, k, n));
      ProbeInjective(h, i, k, m);
    }
  }

  lemma SubsetOfSameSize<T>(a: set<T>, b: set<T>)
    requires a <= b && |a| == |b|
    ensures a == b
  {
    if a != b {
      var x :| x in b && x !in a;
      assert a <= b - {x};
      SubsetSize(a, b - {x});
    }
  }

  lemma {:induction false} SubsetSize<T>(a: set<T>, b: set<T>)
    requires a <= b
    ensures |a| <= |b|
  {
    if a != {} {
      var x :| x in a;
      SubsetSize(a - {x}, b - {x});
    }
  }

  /** Every bucket of a power-of-two table is inspected within the first n probes. */
  lemma ProbeHitsEvery(h: nat, n: nat, b: nat) returns (i: nat)
    requires IsPow2(n) && b < n
    ensures i < n && Probe(h, i, n) == b
  {
    var m: nat :| n == Pow2(m);
    VisitedSize(h, n, n, m);
    SubsetOfSameSize(Visited(h, n, n), Below(n));
    i := VisitedBy(h, n, n, b);
  }
}
