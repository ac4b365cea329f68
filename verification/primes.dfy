/** Elementary number theory the Gödel codec rests on: powers, divisibility,
    primes, the k-th prime, and the multiplicity of a prime in a number.
    The source obtains primes and factorisations from a library; here they
    are defined and the facts the codec needs are proved. */
module Primes {

  function Pow(b: nat, e: nat): (r: nat)
    ensures b >= 1 ==> r >= 1
  {
    if e == 0 then 1 else b * Pow(b, e - 1)
  }

  predicate Divides(d: nat, n: nat) {
    d > 0 && n % d == 0
  }

  predicate IsPrime(p: nat) {
    p >= 2 && forall d :: 1 < d < p ==> !Divides(d, p)
  }

  // ---------------------------------------------------------------------
  // Division facts, proved once from the definition of `/` and `%`.

  lemma MulAtLeast(d: int, m: int)
    requires d > 0 && m >= 1
    ensures d * m >= d
  {
    assert d * m == d + d * (m - 1);
  }

  /** Quotient and remainder are unique. */
  lemma DivModUnique(a: int, d: int, q: int, r: int)
    requires d > 0 && a == d * q + r && 0 <= r < d
    ensures a / d == q && a % d == r
  {
    var q', r' := a / d, a % d;
    assert a == d * q' + r';
    assert d * (q - q') == r' - r;
    if q > q' {
      MulAtLeast(d, q - q');
      assert false;
    }
    if q < q' {
      MulAtLeast(d, q' - q);
      assert false;
    }
  }

  lemma DividesMul(d: nat, k: nat)
    requires d > 0
    ensures Divides(d, d * k) && (d * k) / d == k
  {
    DivModUnique(d * k, d, k, 0);
  }

  lemma DividesElim(d: nat, n: nat)
    requires Divides(d, n)
    ensures n == d * (n / d) && n / d >= 0
  {
  }

  lemma DividesTrans(a: nat, b: nat, c: nat)
    requires Divides(a, b) && Divides(b, c)
    ensures Divides(a, c)
  {
    var k, m := b / a, c / b;
    assert b == a * k;
    assert c == b * m;
    assert c == a * (k * m);
    DividesMul(a, k * m);
  }

  lemma DividesDiff(p: nat, x: nat, y: nat)
    requires Divides(p, x) && Divides(p, y) && x >= y
    ensures Divides(p, x - y)
  {
    var a, b := x / p, y / p;
    assert x - y == p * (a - b);
    if a < b {
      MulAtLeast(p, b - a);
      assert false;
    }
    DividesMul(p, a - b);
  }

  lemma NotDividesSmaller(d: nat, n: nat)
    requires 0 < n < d
    ensures !Divides(d, n)
  {
    DivModUnique(n, d, 0, n);
  }

  lemma DividesSelf(n: nat)
    requires n > 0
    ensures Divides(n, n)
  {
    DividesMul(n, 1);
  }

  // ---------------------------------------------------------------------
  // Smallest divisors, factorials and the existence of a next prime.

  /** The smallest divisor of `n` that is at least `d`, given that none
      between 2 and `d` divides `n`; it is prime. */
  function SmallestDivisorFrom(n: nat, d: nat): (r: nat)
    requires 2 <= d <= n
    requires forall e :: 1 < e < d ==> !Divides(e, n)
    ensures d <= r <= n && Divides(r, n) && IsPrime(r)
    ensures forall e :: 1 < e < r ==> !Divides(e, n)
    decreases n - d
  {
    if n % d == 0 then
      assert forall e :: 1 < e < d ==> !Divides(e, d) by {
        forall e | 1 < e < d && Divides(e, d)
          ensures false
        {
          DividesTrans(e, d, n);
        }
      }
      d
    else
      if d == n then DividesSelf(n); assert false; d
      else SmallestDivisorFrom(n, d + 1)
  }

  function Fact(n: nat): (r: nat)
    ensures r >= 1
  {
    if n == 0 then 1 else n * Fact(n - 1)
  }

  lemma {:induction false} FactDivisible(d: nat, n: nat)
    requires 1 <= d <= n
    ensures Divides(d, Fact(n))
  {
    if d == n {
      DividesMul(n, Fact(n - 1));
    } else {
      FactDivisible(d, n - 1);
      var k := Fact(n - 1) / d;
      assert Fact(n) == d * (k * n);
      DividesMul(d, k * n);
    }
  }

  /** Euclid: some prime lies strictly above `p` and at most `p! + 1`. */
  lemma PrimeAbove(p: nat)
    ensures exists q :: p < q <= Fact(p) + 1 && IsPrime(q)
  {
    var n := Fact(p) + 1;
    var q := SmallestDivisorFrom(n, 2);
    if q <= p {
      FactDivisible(q, p);
      DividesDiff(q, n, Fact(p));
      assert n - Fact(p) == 1;
      NotDividesSmaller(q, 1);
      assert false;
    }
  }

  /** The least prime in `[c, bound]`, one being known to exist. */
  function FirstPrimeFrom(c: nat, bound: nat): (r: nat)
    requires exists q :: c <= q <= bound && IsPrime(q)
    ensures c <= r <= bound && IsPrime(r)
    ensures forall q :: c <= q < r ==> !IsPrime(q)
    decreases bound - c
  {
    if IsPrime(c) then c else FirstPrimeFrom(c + 1, bound)
  }

  /** The least prime above `p`. */
  function NextPrime(p: nat): (r: nat)
    ensures p < r && IsPrime(r)
    ensures forall q :: p < q < r ==> !IsPrime(q)
  {
    PrimeAbove(p);
    FirstPrimeFrom(p + 1, Fact(p) + 1)
  }

  /** The k-th prime, counting from 0: 2, 3, 5, 7, ... */
  function NthPrime(k: nat): (r: nat)
    ensures IsPrime(r) && r >= k + 2
  {
    if k == 0 then 2
    else NextPrime(NthPrime(k - 1))
  }

  lemma {:induction false} NthPrimeIncreasing(i: nat, j: nat)
    requires i < j
    ensures NthPrime(i) < NthPrime(j)
  {
    if i < j - 1 {
      NthPrimeIncreasing(i, j - 1);
    }
  }

  // ---------------------------------------------------------------------
  // Euclid's lemma.

  lemma {:induction false} EuclidBelow(p: nat, a: nat, b: nat)
    requires IsPrime(p) && 1 <= a < p && Divides(p, a * b)
    ensures Divides(p, b)
    decreases a
  {
    if a == 1 {
      assert a * b == b;
    } else {
      var q, r := p / a, p % a;
      assert p == a * q + r;
      if r == 0 {
        DividesMul(a, q);
        assert Divides(a, p);
        assert false;
      } else {
        var m := (a * b) / p;
        assert a * b == p * m;
        assert r * b == p * b - q * (a * b) by {
          assert r == p - a * q;
          assert r * b == p * b - (a * q) * b;
        }
        assert r * b == p * (b - q * m);
        if b - q * m < 0 {
          MulAtLeast(p, q * m - b);
          assert false;
        }
        DividesMul(p, b - q * m);
        EuclidBelow(p, r, b);
      }
    }
  }

  /** A prime dividing a product divides one of the factors. */
  lemma Euclid(p: nat, a: nat, b: nat)
    requires IsPrime(p) && Divides(p, a * b) && !Divides(p, a)
    ensures Divides(p, b)
  {
    var k, r := a / p, a % p;
    assert a == p * k + r && 1 <= r < p;
    assert a * b == p * (k * b) + r * b;
    DividesMul(p, k * b);
    DividesDiff(p, a * b, p * (k * b));
    assert a * b - p * (k * b) == r * b;
    EuclidBelow(p, r, b);
  }

  /** A prime does not divide any power of a different prime. */
  lemma {:induction false} PrimeNotDividesOtherPower(p: nat, q: nat, e: nat)
    requires IsPrime(p) && IsPrime(q) && p != q
    ensures !Divides(p, Pow(q, e))
  {
    if e == 0 {
      NotDividesSmaller(p, 1);
    } else {
      PrimeNotDividesOtherPower(p, q, e - 1);
      if p < q {
        assert !Divides(p, q);
      } else {
        NotDividesSmaller(p, q);
      }
      if Divides(p, Pow(q, e)) {
        assert Pow(q, e) == q * Pow(q, e - 1);
        Euclid(p, q, Pow(q, e - 1));
        assert false;
      }
    }
  }

  // ---------------------------------------------------------------------
  // Multiplicity: the exponent of a prime in a factorisation.

  lemma DivSmaller(n: nat, p: nat)
    requires n >= 1 && p >= 2
    ensures n / p < n
  {
    var q := n / p;
    if q >= 1 {
      MulAtLeast(q, p - 1);
      assert p * q == q + q * (p - 1);
    }
  }

  lemma MulAssoc(a: int, b: int, c: int)
    ensures a * (b * c) == (a * b) * c
  {
  }

  /** How many times `p` divides `n` (0 for `n == 0`, which has no
      factorisation). */
  function Multiplicity(n: nat, p: nat): (r: nat)
    requires p >= 2
    ensures r > 0 <==> n >= 1 && Divides(p, n)
    decreases n
  {
    if n > 0 && n % p == 0 then DivSmaller(n, p); 1 + Multiplicity(n / p, p) else 0
  }

  /** What is left of `n` once every factor `p` is divided out. */
  function Cofactor(n: nat, p: nat): (r: nat)
    requires p >= 2
    decreases n
  {
    if n > 0 && n % p == 0 then DivSmaller(n, p); Cofactor(n / p, p) else n
  }

  /** `n == p^Multiplicity(n, p) * Cofactor(n, p)`, and `p` does not divide
      the cofactor. */
  lemma {:induction false} MultiplicitySplit(n: nat, p: nat)
    requires p >= 2 && n >= 1
    ensures n == Pow(p, Multiplicity(n, p)) * Cofactor(n, p)
    ensures Cofactor(n, p) >= 1 && !Divides(p, Cofactor(n, p))
    decreases n
  {
    if n % p == 0 {
      var n' := n / p;
      DividesElim(p, n);
      DivSmaller(n, p);
      MultiplicitySplit(n', p);
      var e, c := Multiplicity(n', p), Cofactor(n', p);
      assert n' == Pow(p, e) * c;
      MulAssoc(p, Pow(p, e), c);
      assert n == Pow(p, e + 1) * c;
    }
  }

  /** Multiplying by `p^e` adds `e` to the multiplicity of `p`. */
  lemma {:induction false} MultiplicityPowTimes(p: nat, e: nat, m: nat)
    requires p >= 2 && m >= 1
    ensures Pow(p, e) * m >= 1
    ensures Multiplicity(Pow(p, e) * m, p) == e + Multiplicity(m, p)
  {
    MulAtLeast(m, Pow(p, e));
    if e > 0 {
      MultiplicityPowTimes(p, e - 1, m);
      var k := Pow(p, e - 1) * m;
      MulAssoc(p, Pow(p, e - 1), m);
      assert Pow(p, e) * m == p * k;
      DividesMul(p, k);
    }
  }

  /** One more factor `p` adds one to the multiplicity of `p`. */
  lemma MultiplicityTimesPrime(p: nat, n: nat)
    requires p >= 2 && n >= 1
    ensures Multiplicity(p * n, p) == 1 + Multiplicity(n, p)
  {
    DividesMul(p, n);
  }

  lemma MulSwap(a: int, b: int, c: int)
    ensures a * (b * c) == b * (a * c)
  {
    MulAssoc(a, b, c);
    MulAssoc(b, a, c);
  }

  /** The step of `MultiplicityCoprimeFactor` for `b == p * b'`. */
  lemma CoprimeFactorStep(p: nat, a: nat, b: nat, b': nat)
    requires p >= 2 && a >= 1 && b' >= 1 && b == p * b'
    requires Multiplicity(a * b', p) == Multiplicity(b', p)
    ensures Multiplicity(a * b, p) == Multiplicity(b, p)
  {
    var c := a * b';
    MulAtLeast(a, b');
    MulSwap(a, p, b');
    MultiplicityTimesPrime(p, c);
    MultiplicityTimesPrime(p, b');
  }

  /** A factor that `p` does not divide leaves the multiplicity of `p` alone. */
  lemma {:induction false} MultiplicityCoprimeFactor(p: nat, a: nat, b: nat)
    requires IsPrime(p) && a >= 1 && b >= 1 && !Divides(p, a)
    ensures a * b >= 1
    ensures Multiplicity(a * b, p) == Multiplicity(b, p)
    decreases b
  {
    MulAtLeast(a, b);
    if Divides(p, b) {
      var b' := b / p;
      DividesElim(p, b);
      DivSmaller(b, p);
      MultiplicityCoprimeFactor(p, a, b');
      CoprimeFactorStep(p, a, b, b');
    } else if Divides(p, a * b) {
      Euclid(p, a, b);
    }
  }

  // ---------------------------------------------------------------------
  // Unique factorisation, in the form the sequence code needs.

  /** Every prime is the k-th prime for some k. */
  lemma PrimeIsNth(q: nat)
    requires IsPrime(q)
    ensures exists k :: NthPrime(k) == q
  {
    PrimeIsNthFrom(q, 0);
  }

  lemma {:induction false} PrimeIsNthFrom(q: nat, k: nat)
    requires IsPrime(q) && NthPrime(k) <= q
    ensures exists j :: NthPrime(j) == q
    decreases q - NthPrime(k)
  {
    if NthPrime(k) < q {
      if NthPrime(k + 1) <= q {
        PrimeIsNthFrom(q, k + 1);
      }
    }
  }

  /** Multiplying by a prime `p` adds one to the multiplicity of `p` and
      leaves that of every other prime alone. */
  lemma MultiplicityPrimeTimes(p: nat, q: nat, m: nat)
    requires IsPrime(p) && IsPrime(q) && m >= 1
    ensures p * m >= 1
    ensures Multiplicity(p * m, q) == Multiplicity(m, q) + (if p == q then 1 else 0)
  {
    MulAtLeast(p, m);
    if p == q {
      MultiplicityPowTimes(p, 1, m);
    } else {
      if q < p {
        assert !Divides(q, p);
      } else {
        NotDividesSmaller(q, p);
      }
      MultiplicityCoprimeFactor(q, p, m);
    }
  }

  /** Some prime divides every number above 1. */
  lemma PrimeFactor(n: nat) returns (k: nat)
    requires n >= 2
    ensures Divides(NthPrime(k), n)
  {
    var p := SmallestDivisorFrom(n, 2);
    PrimeIsNth(p);
    k :| NthPrime(k) == p;
  }

  /** A number above 1 has a prime that `1` lacks. */
  lemma PrimeExponent(n: nat) returns (k: nat)
    requires n >= 2
    ensures Multiplicity(n, NthPrime(k)) > 0 && Multiplicity(1, NthPrime(k)) == 0
  {
    k := PrimeFactor(n);
    assert !Divides(NthPrime(k), 1);
  }

  /** Dividing two multiples of a prime by it keeps their multiplicities
      equal. */
  lemma DivideOut(a: nat, b: nat, p: nat) returns (a': nat, b': nat)
    requires a >= 2 && b >= 2 && IsPrime(p)
    requires Divides(p, a) && Divides(p, b)
    requires forall k :: Multiplicity(a, NthPrime(k)) == Multiplicity(b, NthPrime(k))
    ensures a == p * a' && b == p * b' && 1 <= a' < a && 1 <= b' < b
    ensures forall k :: Multiplicity(a', NthPrime(k)) == Multiplicity(b', NthPrime(k))
  {
    DividesElim(p, a);
    DividesElim(p, b);
    a', b' := a / p, b / p;
    DivSmaller(a, p);
    DivSmaller(b, p);
    forall j
      ensures Multiplicity(a', NthPrime(j)) == Multiplicity(b', NthPrime(j))
    {
      MultiplicityPrimeTimes(p, NthPrime(j), a');
      MultiplicityPrimeTimes(p, NthPrime(j), b');
    }
  }

  /** Two positive numbers with the same multiplicity of every prime are
      equal: the uniqueness half of the fundamental theorem of arithmetic. */
  lemma {:induction false} SameMultiplicitiesEqual(a: nat, b: nat)
    requires a >= 1 && b >= 1
    requires forall k :: Multiplicity(a, NthPrime(k)) == Multiplicity(b, NthPrime(k))
    ensures a == b
    decreases a + b
  {
    if a == 1 && b == 1 {
    } else if a == 1 || b == 1 {
      var n := if a == 1 then b else a;
      var k := PrimeExponent(n);
    } else {
      var k := PrimeFactor(a);
      var p := NthPrime(k);
      assert Multiplicity(b, p) > 0;
      assert Multiplicity(a, p) == Multiplicity(b, p);
      var a', b' := DivideOut(a, b, p);
      SameMultiplicitiesEqual(a', b');
      assert a == p * a' && b == p * b';
    }
  }
}
