/** Exclusive or on natural numbers, bit by bit. */
module Bits {
  import opened Bytes

  /** Exclusive or of the low `n` bits. */
  function XorBits(a: nat, b: nat, n: nat): nat {
    if n == 0 then 0 else (a % 2 + b % 2) % 2 + 2 * XorBits(a / 2, b / 2, n - 1)
  }

  lemma {:induction false} XorBitsBound(a: nat, b: nat, n: nat)
    ensures XorBits(a, b, n) < Pow2(n)
  {
    if n > 0 {
      XorBitsBound(a / 2, b / 2, n - 1);
    }
  }

  lemma {:induction false} XorBitsTwice(a: nat, b: nat, n: nat)
    requires a < Pow2(n)
    ensures XorBits(XorBits(a, b, n), b, n) == a
  {
    if n > 0 {
      XorBitsTwice(a / 2, b / 2, n - 1);
      var bit, rest := (a % 2 + b % 2) % 2, XorBits(a / 2, b / 2, n - 1);
      Halve(bit, rest);
      BitTwice(a % 2, b % 2);
    }
  }

  lemma Halve(bit: nat, rest: nat)
    requires bit < 2
    ensures (bit + 2 * rest) % 2 == bit && (bit + 2 * rest) / 2 == rest
  {
  }

  lemma BitTwice(p: nat, q: nat)
    requires p < 2 && q < 2
    ensures ((p + q) % 2 + q) % 2 == p
  {
  }

  lemma {:induction false} XorBitsZero(a: nat, n: nat)
    requires a < Pow2(n)
    ensures XorBits(a, 0, n) == a
  {
    if n > 0 {
      XorBitsZero(a / 2, n - 1);
    }
  }

  lemma Pow2Is256()
    ensures Pow2(8) == 256
  {
    assert Pow2(4) == 16;
  }

  lemma {:induction false} XorBitsSwap(a: nat, b: nat, n: nat)
    ensures XorBits(a, b, n) == XorBits(b, a, n)
  {
    if n > 0 {
      XorBitsSwap(a / 2, b / 2, n - 1);
    }
  }

  /** The number with `low` in its lowest bits, below `p`, and `high` above them. */
  function Join(p: nat, low: nat, high: nat): nat {
    low + p * high
  }

  /** The number shifted right past `p`, and its bits below `p`. */
  function High(x: nat, p: nat): nat
    requires p > 0
  {
    assert x == x / p * p + x % p;
    TimesAway(x / p, p);
    x / p
  }

  function Low(x: nat, p: nat): (r: nat)
    requires p > 0
    ensures r < p
  {
    x % p
  }

  lemma JoinSplit(p: nat, low: nat, high: nat)
    requires low < p
    ensures Low(Join(p, low, high), p) == low && High(Join(p, low, high), p) == high
  {
    DivModUnique(low + p * high, p, high, low);
  }

  lemma JoinZero(p: nat, low: nat)
    ensures Join(p, low, 0) == low
  {
  }

  lemma HalfOfJoin(a: nat, p: nat, h: nat)
    ensures Join(2 * p, a, h) % 2 == a % 2 && Join(2 * p, a, h) / 2 == Join(p, a / 2, h)
  {
    assert 2 * p * h == 2 * (p * h);
  }

  /** Numbers split below and above bit `n` are combined part by part. */
  lemma {:induction false} XorParts(a: nat, a': nat, b: nat, b': nat, n: nat, m: nat)
    requires a < Pow2(n) && b < Pow2(n)
    ensures XorBits(Join(Pow2(n), a, a'), Join(Pow2(n), b, b'), n + m)
            == Join(Pow2(n), XorBits(a, b, n), XorBits(a', b', m))
  {
    if n > 0 {
      var p := Pow2(n - 1);
      HalfOfJoin(a, p, a');
      HalfOfJoin(b, p, b');
      XorParts(a / 2, a', b / 2, b', n - 1, m);
      HalfOfJoin(XorBits(a, b, n), p, XorBits(a', b', m));
    }
  }
}
