/** Bytes, little- and big-endian numbers, and block copies. */
module Bytes {

  type byte = x: int | 0 <= x < 256

  /** 256 to the power `n`. */
  function Pow256(n: nat): (p: nat)
    ensures p >= 1
  {
    if n == 0 then 1 else 256 * Pow256(n - 1)
  }

  function Pow2(n: nat): (p: nat)
    ensures p >= 1
  {
    if n == 0 then 1 else 2 * Pow2(n - 1)
  }

  lemma {:induction false} PowMonotone(a: nat, b: nat)
    requires a <= b
    ensures Pow2(a) <= Pow2(b)
  {
    if a < b {
      PowMonotone(a, b - 1);
    }
  }

  lemma {:induction false} PowSum(a: nat, b: nat)
    ensures Pow2(a + b) == Pow2(a) * Pow2(b)
  {
    if a > 0 {
      PowSum(a - 1, b);
      assert 2 * (Pow2(a - 1) * Pow2(b)) == Pow2(a) * Pow2(b);
    }
  }

  /** The number whose little-endian bytes are `s`. */
  function FromLE(s: seq<byte>): (n: nat) {
    if s == [] then 0 else s[0] + 256 * FromLE(s[1..])
  }

  /** The number in four bytes, the lowest first. */
  function FourAt(s: seq<byte>, at: nat): nat
    requires at + 4 <= |s|
  {
    s[at] as nat + 256 * (s[at + 1] as nat) + 0x1_0000 * (s[at + 2] as nat) + 0x100_0000 * (s[at + 3] as nat)
  }

  lemma LEFour(s: seq<byte>)
    requires |s| == 4
    ensures FromLE(s) == FourAt(s, 0)
  {
    var t, u, v := s[1..], s[2..], s[3..];
    assert FromLE([]) == 0 && v[1..] == [];
    assert FromLE(v) == v[0] as nat;
    assert u[1..] == v && FromLE(u) == u[0] as nat + 256 * FromLE(v);
    assert t[1..] == u && FromLE(t) == t[0] as nat + 256 * FromLE(u);
  }

  lemma {:induction false} LEAppend(s: seq<byte>, t: seq<byte>)
    ensures FromLE(s + t) == FromLE(s) + Pow256(|s|) * FromLE(t)
  {
    if s == [] {
      assert s + t == t;
    } else {
      assert (s + t)[1..] == s[1..] + t;
      LEAppend(s[1..], t);
      Regroup256(Pow256(|s| - 1), FromLE(t));
    }
  }

  lemma LEEight(s: seq<byte>)
    requires |s| == 8
    ensures FromLE(s) == FromLE(s[..4]) + 0x1_0000_0000 * FromLE(s[4..])
  {
    LEAppend(s[..4], s[4..]);
    assert s == s[..4] + s[4..] && Pow256(4) == 0x1_0000_0000;
  }

  lemma Regroup256(p: nat, n: nat)
    ensures 256 * (p * n) == 256 * p * n
  {
  }

  lemma {:induction false} LEBound(s: seq<byte>)
    ensures FromLE(s) < Pow256(|s|)
  {
    if s != [] {
      LEBound(s[1..]);
    }
  }

  lemma ConcatAssociates<T>(a: seq<T>, b: seq<T>, c: seq<T>)
    ensures a + (b + c) == (a + b) + c
  {
  }

  /** The low `w` bytes of `n`, least significant first. */
  function ToLE(n: nat, w: nat): (s: seq<byte>)
    ensures |s| == w
  {
    if w == 0 then [] else [n % 256] + ToLE(n / 256, w - 1)
  }

  function Reverse<T>(s: seq<T>): (r: seq<T>)
    ensures |r| == |s|
  {
    if s == [] then [] else Reverse(s[1..]) + [s[0]]
  }

  lemma {:induction false} ReverseAppend<T>(s: seq<T>, x: T)
    ensures Reverse(s + [x]) == [x] + Reverse(s)
  {
    if s == [] {
      assert s + [x] == [x];
    } else {
      assert (s + [x])[1..] == s[1..] + [x];
      ReverseAppend(s[1..], x);
    }
  }

  lemma {:induction false} ReverseTwice<T>(s: seq<T>)
    ensures Reverse(Reverse(s)) == s
  {
    if s != [] {
      ReverseTwice(s[1..]);
      ReverseAppend(Reverse(s[1..]), s[0]);
    }
  }

  /** Network order. */
  function ToBE(n: nat, w: nat): (s: seq<byte>)
    ensures |s| == w
  {
    Reverse(ToLE(n, w))
  }

  function FromBE(s: seq<byte>): (n: nat) {
    FromLE(Reverse(s))
  }

  /** Writing a number in `w` bytes and reading it back keeps it modulo 256^w. */
  lemma {:induction false} LERoundTrip(n: nat, w: nat)
    ensures FromLE(ToLE(n, w)) == n % Pow256(w)
  {
    if w > 0 {
      LERoundTrip(n / 256, w - 1);
      ModSplit(n, Pow256(w - 1));
    }
  }

  /** Dropping the low byte commutes with reducing the rest. */
  lemma ModSplit(n: nat, p: nat)
    requires p > 0
    ensures n % (256 * p) == n % 256 + 256 * ((n / 256) % p)
  {
    var q := n / 256;
    var a, b := q / p, q % p;
    Regroup(a, p);
    DivModUnique(n, 256 * p, a, n % 256 + 256 * b);
  }

  lemma Regroup(a: nat, p: nat)
    ensures 256 * (a * p) == a * (256 * p)
  {
  }

  lemma DivModUnique(n: nat, d: nat, q: nat, r: nat)
    requires d > 0 && r < d && n == q * d + r
    ensures n % d == r && n / d == q
  {
    var q', r' := n / d, n % d;
    assert n == q' * d + r';
    assert (q - q') * d == r' - r;
    TimesAway(q - q', d);
  }

  lemma TimesAway(k: int, d: nat)
    ensures k >= 1 ==> k * d >= d
    ensures k <= -1 ==> k * d <= -(d as int)
  {
  }

  lemma DropDrop<T>(s: seq<T>, a: nat, b: nat)
    requires a + b <= |s|
    ensures s[a..][b..] == s[a + b..]
  {
  }

  lemma SliceHead(a: array<byte>, from: nat, n: nat, to: nat)
    requires from + n <= to <= a.Length
    ensures a[from..from + n] == a[from..to][..n]
  {
  }

  lemma DropPrefix<T>(a: seq<T>, b: seq<T>, n: nat)
    requires n <= |b|
    ensures (a + b)[|a| + n..] == b[n..]
  {
  }

  function Concat<T>(pieces: seq<seq<T>>): seq<T> {
    if pieces == [] then [] else pieces[0] + Concat(pieces[1..])
  }

  lemma {:induction false} ConcatNext<T>(pieces: seq<seq<T>>, i: nat)
    requires i < |pieces|
    ensures Concat(pieces[..i + 1]) == Concat(pieces[..i]) + pieces[i]
  {
    assert pieces[..i + 1][1..] == pieces[1..][..i + 1 - 1];
    if i > 0 {
      assert pieces[..i][1..] == pieces[1..][..i - 1];
      ConcatNext(pieces[1..], i - 1);
      ConcatAssociates(pieces[0], Concat(pieces[1..][..i - 1]), pieces[i]);
    }
  }

  lemma EmptyPlus<T>(s: seq<T>)
    ensures [] + s == s
  {
  }

  lemma BERoundTrip(n: nat, w: nat)
    ensures FromBE(ToBE(n, w)) == n % Pow256(w)
  {
    ReverseTwice(ToLE(n, w));
    LERoundTrip(n, w);
  }

  lemma BEExact(n: nat, w: nat)
    requires n < Pow256(w)
    ensures FromBE(ToBE(n, w)) == n
  {
    BERoundTrip(n, w);
    DivModUnique(n, Pow256(w), 0, n);
  }

  lemma BEBound(s: seq<byte>)
    ensures FromBE(s) < Pow256(|s|)
  {
    LEBound(Reverse(s));
  }

  /** `memcpy` of `n` bytes; a source overlapping the target is read before it is written. */
  method Copy(src: array<byte>, from: nat, dst: array<byte>, to: nat, n: nat)
    requires from + n <= src.Length && to + n <= dst.Length
    modifies dst
    ensures forall i | 0 <= i < dst.Length ::
              dst[i] == if to <= i < to + n then old(src[from + (i - to)]) else old(dst[i])
  {
    if src == dst && from < to {
      var k := n;
      while k > 0
        invariant 0 <= k <= n
        invariant forall i | 0 <= i < dst.Length ::
                    dst[i] == if to + k <= i < to + n then old(src[from + (i - to)]) else old(dst[i])
      {
        k := k - 1;
        dst[to + k] := src[from + k];
      }
    } else {
      var k := 0;
      while k < n
        invariant 0 <= k <= n
        invariant forall i | 0 <= i < dst.Length ::
                    dst[i] == if to <= i < to + k then old(src[from + (i - to)]) else old(dst[i])
      {
        dst[to + k] := src[from + k];
        k := k + 1;
      }
    }
  }

  /** Copies a sequence of bytes into an array. */
  method Put(bytes: seq<byte>, dst: array<byte>, to: nat)
    requires to + |bytes| <= dst.Length
    modifies dst
    ensures forall i | 0 <= i < dst.Length :: dst[i] == if to <= i < to + |bytes| then bytes[i - to] else old(dst[i])
  {
    var k := 0;
    while k < |bytes|
      invariant 0 <= k <= |bytes|
      invariant forall i | 0 <= i < dst.Length :: dst[i] == if to <= i < to + k then bytes[i - to] else old(dst[i])
    {
      dst[to + k] := bytes[k];
      k := k + 1;
    }
  }
}
