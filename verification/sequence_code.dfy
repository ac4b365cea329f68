/** The sequence code `[a0, ..., an] = p0^a0 * ... * pn^an` over the
    primes 2, 3, 5, ..., and its inverse, which reads the exponent of each
    prime up to the largest one dividing the code. */
module SequenceCode {
  import opened Primes

  /** The product of `NthPrime(k + j)^l[j]` over the positions `j` of `l`. */
  function EncodeFrom(l: seq<nat>, k: nat): (r: nat)
    ensures r >= 1
    decreases |l|
  {
    if |l| == 0 then 1
    else
      var rest := EncodeFrom(l[1..], k + 1);
      MulAtLeast(Pow(NthPrime(k), l[0]), rest);
      Pow(NthPrime(k), l[0]) * rest
  }

  /** The code of a sequence; the empty sequence has code 1. */
  function EncodeList(l: seq<nat>): (r: nat)
    ensures r >= 1
  {
    EncodeFrom(l, 0)
  }

  /** The first prime of `EncodeFrom(l, k)` carries the exponent `l[0]`. */
  lemma MultiplicityEncodeFromHead(l: seq<nat>, k: nat)
    requires |l| > 0
    requires Multiplicity(EncodeFrom(l[1..], k + 1), NthPrime(k)) == 0
    ensures Multiplicity(EncodeFrom(l, k), NthPrime(k)) == l[0]
  {
    var rest := EncodeFrom(l[1..], k + 1);
    assert EncodeFrom(l, k) == Pow(NthPrime(k), l[0]) * rest;
    MultiplicityPowTimes(NthPrime(k), l[0], rest);
  }

  /** Any other prime sees only the rest of the product. */
  lemma MultiplicityEncodeFromTail(l: seq<nat>, k: nat, i: nat)
    requires |l| > 0 && i != k
    ensures Multiplicity(EncodeFrom(l, k), NthPrime(i)) ==
            Multiplicity(EncodeFrom(l[1..], k + 1), NthPrime(i))
  {
    var rest := EncodeFrom(l[1..], k + 1);
    var power := Pow(NthPrime(k), l[0]);
    assert EncodeFrom(l, k) == power * rest;
    if i < k {
      NthPrimeIncreasing(i, k);
    } else {
      NthPrimeIncreasing(k, i);
    }
    PrimeNotDividesOtherPower(NthPrime(i), NthPrime(k), l[0]);
    MultiplicityCoprimeFactor(NthPrime(i), power, rest);
  }

  /** The entry of `l` at position `i - k`, or 0 outside `l`. */
  function Entry(l: seq<nat>, k: nat, i: nat): nat {
    if k <= i < k + |l| then l[i - k] else 0
  }

  /** The exponent of the `i`-th prime in `EncodeFrom(l, k)`, given it for
      the rest of `l`. */
  lemma MultiplicityEncodeFromStep(l: seq<nat>, k: nat, i: nat)
    requires |l| > 0
    requires Multiplicity(EncodeFrom(l[1..], k + 1), NthPrime(i)) == Entry(l[1..], k + 1, i)
    ensures Multiplicity(EncodeFrom(l, k), NthPrime(i)) == Entry(l, k, i)
  {
    if k + 1 <= i < k + |l| {
      assert l[1..][i - (k + 1)] == l[i - k];
    }
    if i == k {
      MultiplicityEncodeFromHead(l, k);
    } else {
      MultiplicityEncodeFromTail(l, k, i);
    }
  }

  lemma MultiplicityOfOne(p: nat)
    requires p >= 2
    ensures Multiplicity(1, p) == 0
  {
    NotDividesSmaller(p, 1);
  }

  /** The exponent of the `i`-th prime in `EncodeFrom(l, k)` is the entry
      of `l` at position `i - k`, or 0 outside `l`. */
  lemma {:induction false} MultiplicityEncodeFrom(l: seq<nat>, k: nat, i: nat)
    ensures Multiplicity(EncodeFrom(l, k), NthPrime(i)) == Entry(l, k, i)
    decreases |l|
  {
    if |l| == 0 {
      assert EncodeFrom(l, k) == 1;
      MultiplicityOfOne(NthPrime(i));
    } else {
      MultiplicityEncodeFrom(l[1..], k + 1, i);
      MultiplicityEncodeFromStep(l, k, i);
    }
  }

  lemma MultiplicityEncodeList(l: seq<nat>, i: nat)
    ensures Multiplicity(EncodeList(l), NthPrime(i)) == if i < |l| then l[i] else 0
  {
    MultiplicityEncodeFrom(l, 0, i);
  }

  /** Two sequences that agree up to trailing zeros have the same code. */
  lemma EncodeListAgree(l: seq<nat>, l': seq<nat>)
    requires forall i :: 0 <= i < |l| && i < |l'| ==> l[i] == l'[i]
    requires forall i :: |l'| <= i < |l| ==> l[i] == 0
    requires forall i :: |l| <= i < |l'| ==> l'[i] == 0
    ensures EncodeList(l) == EncodeList(l')
  {
    forall k
      ensures Multiplicity(EncodeList(l), NthPrime(k)) == Multiplicity(EncodeList(l'), NthPrime(k))
    {
      MultiplicityEncodeList(l, k);
      MultiplicityEncodeList(l', k);
    }
    SameMultiplicitiesEqual(EncodeList(l), EncodeList(l'));
  }

  /** Appending a zero exponent leaves the code unchanged. */
  lemma EncodeListTrailingZero(l: seq<nat>)
    ensures EncodeList(l + [0]) == EncodeList(l)
  {
    EncodeListAgree(l + [0], l);
  }

  /** The largest `j <= k` such that the `(j-1)`-th prime divides `m`, or 0. */
  function FactorCount(m: nat, k: nat): (r: nat)
    ensures r <= k
    decreases k
  {
    if k == 0 then 0
    else if Divides(NthPrime(k - 1), m) then k
    else FactorCount(m, k - 1)
  }

  /** No prime from the `FactorCount(m, k)`-th on, and below the `k`-th,
      divides `m`. */
  lemma {:induction false} FactorCountAbove(m: nat, k: nat, j: nat)
    requires FactorCount(m, k) <= j < k
    ensures !Divides(NthPrime(j), m)
    decreases k
  {
    if !Divides(NthPrime(k - 1), m) && j < k - 1 {
      FactorCountAbove(m, k - 1, j);
    }
  }

  /** The prime just below the count divides `m`. */
  lemma {:induction false} FactorCountDivides(m: nat, k: nat)
    requires FactorCount(m, k) > 0
    ensures Divides(NthPrime(FactorCount(m, k) - 1), m)
    decreases k
  {
    if !Divides(NthPrime(k - 1), m) {
      FactorCountDivides(m, k - 1);
    }
  }

  /** No prime from the `m`-th on divides `m`. */
  lemma LargePrimesDoNotDivide(m: nat, j: nat)
    requires m >= 1 && j >= m
    ensures !Divides(NthPrime(j), m)
  {
    NotDividesSmaller(NthPrime(j), m);
  }

  /** The exponents of the `j`-th to the `(count-1)`-th primes in `m`. */
  function DecodeFrom(m: nat, j: nat, count: nat): (r: seq<nat>)
    requires m >= 1 && j <= count
    ensures |r| == count - j
    decreases count - j
  {
    if j == count then [] else [Multiplicity(m, NthPrime(j))] + DecodeFrom(m, j + 1, count)
  }

  lemma {:induction false} DecodeFromAt(m: nat, j: nat, count: nat, i: nat)
    requires m >= 1 && j <= i < count
    ensures DecodeFrom(m, j, count)[i - j] == Multiplicity(m, NthPrime(i))
    decreases count - j
  {
    var x := Multiplicity(m, NthPrime(j));
    var tail := DecodeFrom(m, j + 1, count);
    assert DecodeFrom(m, j, count) == [x] + tail;
    if i == j {
      assert ([x] + tail)[0] == x;
    } else {
      DecodeFromAt(m, j + 1, count, i);
      ConsAt(x, tail, i - j);
      assert tail[i - j - 1] == Multiplicity(m, NthPrime(i));
    }
  }

  lemma ConsAt<T>(x: T, t: seq<T>, k: nat)
    requires 0 < k <= |t|
    ensures ([x] + t)[k] == t[k - 1]
  {
  }

  /** The exponents of the primes up to the largest prime factor of `m`. */
  function DecodeList(m: nat): (r: seq<nat>)
    requires m >= 1
    ensures |r| <= m
  {
    DecodeFrom(m, 0, FactorCount(m, m))
  }

  /** Each entry of the decoded sequence is the exponent of its prime. */
  lemma DecodeListAt(m: nat, j: nat)
    requires m >= 1 && j < |DecodeList(m)|
    ensures DecodeList(m)[j] == Multiplicity(m, NthPrime(j))
  {
    DecodeFromAt(m, 0, FactorCount(m, m), j);
  }

  /** The primes after the decoded sequence all have exponent 0. */
  lemma DecodeListBeyond(m: nat, j: nat)
    requires m >= 1 && j >= |DecodeList(m)|
    ensures Multiplicity(m, NthPrime(j)) == 0
  {
    if j >= m {
      LargePrimesDoNotDivide(m, j);
    } else {
      FactorCountAbove(m, m, j);
    }
  }

  lemma DecodeListLength(m: nat)
    requires m >= 1
    ensures |DecodeList(m)| == FactorCount(m, m)
  {
  }

  lemma DividesMultiplicity(m: nat, p: nat)
    requires m >= 1 && p >= 2 && Divides(p, m)
    ensures Multiplicity(m, p) > 0
  {
  }

  /** The decoded sequence ends with a positive exponent, or is empty. */
  lemma DecodeListLast(m: nat)
    requires m >= 1
    ensures |DecodeList(m)| == 0 || DecodeList(m)[|DecodeList(m)| - 1] > 0
  {
    var count := FactorCount(m, m);
    DecodeListLength(m);
    if count > 0 {
      FactorCountDivides(m, m);
      DividesMultiplicity(m, NthPrime(count - 1));
      DecodeListAt(m, count - 1);
    }
  }

  /** Every positive number is the code of the sequence it decodes to. */
  lemma EncodeDecodeList(m: nat)
    requires m >= 1
    ensures EncodeList(DecodeList(m)) == m
  {
    var l := DecodeList(m);
    forall k: nat
      ensures Multiplicity(EncodeList(l), NthPrime(k)) == Multiplicity(m, NthPrime(k))
    {
      MultiplicityEncodeList(l, k);
      if k < |l| {
        DecodeListAt(m, k);
      } else {
        DecodeListBeyond(m, k);
      }
    }
    SameMultiplicitiesEqual(EncodeList(l), m);
  }

  /** `l` with its trailing zeros removed. */
  function StripTrailingZeros(l: seq<nat>): (r: seq<nat>)
    ensures |r| <= |l| && r == l[..|r|]
    ensures |r| == 0 || r[|r| - 1] > 0
    ensures forall i :: |r| <= i < |l| ==> l[i] == 0
  {
    if |l| > 0 && l[|l| - 1] == 0 then StripTrailingZeros(l[..|l| - 1]) else l
  }

  lemma StripTrailingZerosFixed(l: seq<nat>)
    ensures StripTrailingZeros(l) == l <==> |l| == 0 || l[|l| - 1] > 0
  {
  }

  /** A sequence without trailing zeros is determined by its entries and
      the knowledge that every later position is zero. */
  lemma ExponentsDetermineSequence(d: seq<nat>, s: seq<nat>, e: nat -> nat)
    requires forall j: nat :: 0 <= j < |d| ==> d[j] == e(j)
    requires forall j: nat :: j >= |d| ==> e(j) == 0
    requires |d| == 0 || d[|d| - 1] > 0
    requires forall j: nat :: 0 <= j < |s| ==> s[j] == e(j)
    requires forall j: nat :: j >= |s| ==> e(j) == 0
    requires |s| == 0 || s[|s| - 1] > 0
    ensures d == s
  {
  }

  /** The exponents of a code are those of the sequence without its
      trailing zeros. */
  lemma StrippedExponents(l: seq<nat>, e: nat -> nat)
    requires forall j: nat :: e(j) == Multiplicity(EncodeList(l), NthPrime(j))
    ensures forall j: nat :: 0 <= j < |StripTrailingZeros(l)| ==> StripTrailingZeros(l)[j] == e(j)
    ensures forall j: nat :: j >= |StripTrailingZeros(l)| ==> e(j) == 0
  {
    var s := StripTrailingZeros(l);
    forall j: nat | 0 <= j < |s|
      ensures s[j] == e(j)
    {
      MultiplicityEncodeList(l, j);
    }
    forall j: nat | j >= |s|
      ensures e(j) == 0
    {
      MultiplicityEncodeList(l, j);
    }
  }

  /** The decoded sequence lists the exponents of the code, up to the last
      one that is not zero. */
  lemma DecodedExponents(m: nat, e: nat -> nat)
    requires m >= 1
    requires forall j: nat :: e(j) == Multiplicity(m, NthPrime(j))
    ensures forall j: nat :: 0 <= j < |DecodeList(m)| ==> DecodeList(m)[j] == e(j)
    ensures forall j: nat :: j >= |DecodeList(m)| ==> e(j) == 0
    ensures |DecodeList(m)| == 0 || DecodeList(m)[|DecodeList(m)| - 1] > 0
  {
    forall j: nat | 0 <= j < |DecodeList(m)|
      ensures DecodeList(m)[j] == e(j)
    {
      DecodeListAt(m, j);
    }
    forall j: nat | j >= |DecodeList(m)|
      ensures e(j) == 0
    {
      DecodeListBeyond(m, j);
    }
    DecodeListLast(m);
  }

  /** Decoding a code gives back the sequence, short of its trailing zeros. */
  lemma DecodeEncodeList(l: seq<nat>)
    ensures DecodeList(EncodeList(l)) == StripTrailingZeros(l)
  {
    var m := EncodeList(l);
    var e := (j: nat) => Multiplicity(m, NthPrime(j));
    StrippedExponents(l, e);
    DecodedExponents(m, e);
    ExponentsDetermineSequence(DecodeList(m), StripTrailingZeros(l), e);
  }
}
