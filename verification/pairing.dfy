/** The pairing function `<x, y> = 2^x * (2y + 1) - 1` and its inverse, which
    reads `x` as the exponent of 2 in `z + 1` and `y` from the odd part
    that remains. Every sentence and instruction code is such a pair. */
module Pairing {
  import opened Primes

  function EncodePair(x: nat, y: nat): nat {
    MulAtLeast(Pow(2, x), 2 * y + 1);
    Pow(2, x) * (2 * y + 1) - 1
  }

  /** `n / p^Multiplicity(n, p)` is what is left once every `p` is divided
      out, and `p` does not divide it. */
  lemma QuotientIsCofactor(n: nat, p: nat)
    requires n >= 1 && p >= 2
    ensures n / Pow(p, Multiplicity(n, p)) == Cofactor(n, p)
  {
    MultiplicitySplit(n, p);
    DividesMul(Pow(p, Multiplicity(n, p)), Cofactor(n, p));
  }

  /** Decoding a pair: the exponent of 2 in `z + 1`, then half of one less
      than the odd part that remains. */
  function Unpair(z: nat): (nat, nat) {
    var x := Multiplicity(z + 1, 2);
    QuotientIsCofactor(z + 1, 2);
    MultiplicitySplit(z + 1, 2);
    var odd := (z + 1) / Pow(2, x);
    (x, (odd - 1) / 2)
  }

  /** Every number is the code of the pair it decodes to. */
  lemma PairUnpair(z: nat)
    ensures EncodePair(Unpair(z).0, Unpair(z).1) == z
  {
    var x, c := Multiplicity(z + 1, 2), Cofactor(z + 1, 2);
    QuotientIsCofactor(z + 1, 2);
    MultiplicitySplit(z + 1, 2);
    assert Unpair(z) == (x, (c - 1) / 2);
    PairOfOddPart(z, x, c);
  }

  /** `z + 1 == 2^x * c` with `c` odd is the code of `(x, (c - 1) / 2)`. */
  lemma PairOfOddPart(z: nat, x: nat, c: nat)
    requires z + 1 == Pow(2, x) * c && c >= 1 && !Divides(2, c)
    ensures EncodePair(x, (c - 1) / 2) == z
  {
    var y := (c - 1) / 2;
    assert 2 * y + 1 == c;
  }

  lemma UnpairPair(x: nat, y: nat)
    ensures Unpair(EncodePair(x, y)) == (x, y)
  {
    var m := Pow(2, x) * (2 * y + 1);
    assert EncodePair(x, y) + 1 == m;
    MultiplicityPowTimes(2, x, 2 * y + 1);
    assert Multiplicity(2 * y + 1, 2) == 0;
    DividesMul(Pow(2, x), 2 * y + 1);
  }

  /** The pairing is injective. */
  lemma EncodePairInjective(x: nat, y: nat, x': nat, y': nat)
    requires EncodePair(x, y) == EncodePair(x', y')
    ensures x == x' && y == y'
  {
    UnpairPair(x, y);
    UnpairPair(x', y');
  }

  /** Only the pair `(0, 0)` has code 0. */
  lemma EncodePairZero(x: nat, y: nat)
    ensures EncodePair(x, y) == 0 <==> x == 0 && y == 0
  {
    if x > 0 {
      assert Pow(2, x) >= 2;
      MulAtLeast(Pow(2, x), 2 * y + 1);
    } else if y > 0 {
      MulAtLeast(2 * y + 1, Pow(2, x));
    }
  }
}
