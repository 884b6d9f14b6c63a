/** Variable-length integers of include/reflection/Reflection.h: seven bits a byte, low bits first, the
    top bit set on all but the last byte. */
module Varint {
  import opened Bytes

  /** varint_max_size for a type of `bits` bits. */
  function MaxSize(bits: nat): nat {
    bits / 7 + 1
  }

  /** The widths of the integer types. */
  predicate IsWidth(bits: nat) {
    bits == 8 || bits == 16 || bits == 32 || bits == 64
  }

  // ---------------------------------------------------------------- what the bytes mean

  function Enc(n: nat): (s: seq<byte>)
    ensures |s| >= 1
  {
    if n < 128 then [n] else [n % 128 + 128] + Enc(n / 128)
  }

  function Groups(s: seq<byte>): nat {
    if s == [] then 0 else s[0] % 128 + 128 * Groups(s[1..])
  }

  /** Leading bytes that announce another one, at most `max` of them. */
  function Continuations(s: seq<byte>, max: nat): (k: nat)
    ensures k <= max && k <= |s|
  {
    if max == 0 || s == [] || s[0] < 128 then 0 else 1 + Continuations(s[1..], max - 1)
  }

  datatype Decoded = Ok(value: nat, used: nat) | OutOfRange | TooLarge

  function Decode(s: seq<byte>, bits: nat): (d: Decoded)
    ensures d.Ok? ==> 1 <= d.used <= |s| && d.value < Pow2(bits)
  {
    var k := Continuations(s, MaxSize(bits));
    if k == MaxSize(bits) then TooLarge
    else if k == |s| then OutOfRange
    else Ok(Groups(s[..k + 1]) % Pow2(bits), k + 1)
  }

  // ---------------------------------------------------------------- sizes

  function BitLength(n: nat): nat {
    if n == 0 then 0 else 1 + BitLength(n / 2)
  }

  /** varint_size: from the bit length of `value | 1`. */
  function Size(n: nat): nat {
    (BitLength(if n % 2 == 0 then n + 1 else n) + 6) / 7
  }

  lemma BitLength7(n: nat)
    requires n >= 64
    ensures BitLength(n) == 7 + BitLength(n / 128)
  {
    var a, b, c := n / 2, n / 4, n / 8;
    var d, e, f := n / 16, n / 32, n / 64;
    assert a / 2 == b && b / 2 == c && c / 2 == d && d / 2 == e && e / 2 == f && f / 2 == n / 128;
    assert BitLength(n) == 1 + BitLength(a) && BitLength(a) == 1 + BitLength(b) && BitLength(b) == 1 + BitLength(c);
    assert BitLength(c) == 1 + BitLength(d) && BitLength(d) == 1 + BitLength(e) && BitLength(e) == 1 + BitLength(f);
    assert BitLength(f) == 1 + BitLength(n / 128);
  }

  lemma OddLength(n: nat)
    requires n > 0
    ensures BitLength(if n % 2 == 0 then n + 1 else n) == BitLength(n)
  {
  }

  lemma SmallLength(n: nat)
    requires 0 < n < 128
    ensures 1 <= BitLength(n) <= 7
  {
    if n < 64 {
      assert BitLength(n / 2) <= 6 by {
        if n / 2 > 0 {
          assert n / 2 < 32;
          BitLengthBound(n / 2, 6);
        }
      }
    } else {
      BitLength7(n);
    }
  }

  lemma {:induction false} BitLengthBound(n: nat, bits: nat)
    requires n < Pow2(bits)
    ensures BitLength(n) <= bits
  {
    if n > 0 {
      BitLengthBound(n / 2, bits - 1);
    }
  }

  /** The encoder emits as many bytes as varint_size says. */
  lemma {:induction false} EncSize(n: nat)
    ensures |Enc(n)| == Size(n)
  {
    if n < 128 {
      SmallLength(if n % 2 == 0 then n + 1 else n);
    } else {
      EncSize(n / 128);
      OddLength(n);
      OddLength(n / 128);
      BitLength7(n);
    }
  }

  /** ... which is never more than varint_max_size for a value of the type. */
  lemma {:induction false} EncFits(n: nat, bits: nat)
    requires n < Pow2(bits)
    ensures |Enc(n)| <= MaxSize(bits)
  {
    if n >= 128 {
      Shrink7(n, bits);
      EncFits(n / 128, bits - 7);
    }
  }

  lemma Shrink7(n: nat, bits: nat)
    requires 128 <= n < Pow2(bits)
    ensures bits >= 7 && n / 128 < Pow2(bits - 7)
  {
    Pow2Of7();
    if bits < 8 {
      PowMonotone(bits, 7);
    }
    assert Pow2(bits) == 2 * Pow2(bits - 1) && Pow2(bits - 1) == 2 * Pow2(bits - 2)
      && Pow2(bits - 2) == 2 * Pow2(bits - 3);
    assert Pow2(bits - 3) == 2 * Pow2(bits - 4) && Pow2(bits - 4) == 2 * Pow2(bits - 5);
    assert Pow2(bits - 5) == 2 * Pow2(bits - 6) && Pow2(bits - 6) == 2 * Pow2(bits - 7);
  }

  lemma Pow2Of7()
    ensures Pow2(7) == 128
  {
    assert Pow2(4) == 16;
  }

  // ---------------------------------------------------------------- round trip

  lemma {:induction false} GroupsEnc(n: nat)
    ensures Groups(Enc(n)) == n
  {
    if n >= 128 {
      GroupsEnc(n / 128);
      assert Enc(n)[1..] == Enc(n / 128);
    }
  }

  lemma {:induction false} EncStops(n: nat, rest: seq<byte>, max: nat)
    requires |Enc(n)| <= max
    ensures Continuations(Enc(n) + rest, max) == |Enc(n)| - 1
  {
    if n >= 128 {
      EncStops(n / 128, rest, max - 1);
      assert (Enc(n) + rest)[1..] == Enc(n / 128) + rest;
    }
  }

  /** Encoding and decoding, whatever bytes follow: the value, and exactly its bytes consumed. */
  lemma DecodeEnc(n: nat, bits: nat, rest: seq<byte>)
    requires n < Pow2(bits)
    ensures Decode(Enc(n) + rest, bits) == Ok(n, |Enc(n)|)
  {
    EncFits(n, bits);
    EncStops(n, rest, MaxSize(bits));
    GroupsEnc(n);
    assert (Enc(n) + rest)[..|Enc(n)|] == Enc(n);
    DivModUnique(n, Pow2(bits), 0, n);
  }

  /** A decoded value does not depend on what follows it. */
  lemma {:induction false} ContinuationsAppend(s: seq<byte>, t: seq<byte>, max: nat)
    requires Continuations(s, max) < |s| || Continuations(s, max) == max
    ensures Continuations(s + t, max) == Continuations(s, max)
  {
    if max > 0 && s != [] && s[0] >= 128 {
      ContinuationsAppend(s[1..], t, max - 1);
      assert (s + t)[1..] == s[1..] + t;
    }
  }

  lemma DecodeAppend(s: seq<byte>, t: seq<byte>, bits: nat)
    requires !Decode(s, bits).OutOfRange?
    ensures Decode(s + t, bits) == Decode(s, bits)
  {
    ContinuationsAppend(s, t, MaxSize(bits));
    if Decode(s, bits).Ok? {
      var k := Decode(s, bits).used;
      assert (s + t)[..k] == s[..k];
    }
  }

  // ---------------------------------------------------------------- signed values

  /** How a signed or unsigned value of the type becomes the unsigned number that is encoded. */
  datatype Sign = Unsigned | Signed | ZigZag

  predicate InRange(v: int, bits: nat, sign: Sign)
    requires bits > 0
  {
    if sign == Unsigned then 0 <= v < Pow2(bits) else -(Pow2(bits - 1) as int) <= v < Pow2(bits - 1)
  }

  /** `(value << 1) ^ (value >> (bits - 1))`: the second operand is all zeros or all ones. */
  function ToUnsigned(v: int, bits: nat, sign: Sign): (n: nat)
    requires bits > 0
    ensures n < Pow2(bits)
  {
    if sign == ZigZag then
      var shifted := (2 * v) % Pow2(bits);
      if v < 0 then Pow2(bits) - 1 - shifted else shifted
    else v % Pow2(bits)
  }

  /** `(n >> 1) ^ -(n & 1)`, read as a signed number of the type. */
  function FromUnsigned(n: nat, bits: nat, sign: Sign): (v: int)
    requires bits > 0 && n < Pow2(bits)
  {
    match sign
    case Unsigned => n
    case Signed => AsSigned(n, bits)
    case ZigZag => AsSigned(if n % 2 == 1 then Pow2(bits) - 1 - n / 2 else n / 2, bits)
  }

  function AsSigned(n: nat, bits: nat): int
    requires bits > 0 && n < Pow2(bits)
  {
    if n < Pow2(bits - 1) then n else n - Pow2(bits)
  }

  /** Zig-zag interleaves: small magnitudes get small numbers, 0, -1, 1, -2, ... */
  lemma ZigZagIs(v: int, bits: nat)
    requires bits > 0 && InRange(v, bits, ZigZag)
    ensures ToUnsigned(v, bits, ZigZag) == if v >= 0 then 2 * v else -2 * v - 1
  {
    if v < 0 {
      DivModUniqueInt(2 * v, Pow2(bits), -1, 2 * v + Pow2(bits));
    } else {
      DivModUnique(2 * v, Pow2(bits), 0, 2 * v);
    }
  }

  lemma DivModUniqueInt(n: int, d: nat, q: int, r: nat)
    requires d > 0 && r < d && n == q * d + r
    ensures n % d == r
  {
    var q', r' := n / d, n % d;
    assert n == q' * d + r';
    assert (q - q') * d == r' - r;
    TimesAway(q - q', d);
  }

  lemma SignRoundTrip(v: int, bits: nat, sign: Sign)
    requires bits > 0 && InRange(v, bits, sign)
    ensures FromUnsigned(ToUnsigned(v, bits, sign), bits, sign) == v
  {
    match sign {
      case ZigZag => ZigZagIs(v, bits);
      case Unsigned => DivModUnique(v, Pow2(bits), 0, v);
      case Signed =>
        if v < 0 {
          DivModUniqueInt(v, Pow2(bits), -1, v + Pow2(bits));
        } else {
          DivModUnique(v, Pow2(bits), 0, v);
        }
    }
  }

  // ---------------------------------------------------------------- decode_varint

  /** The first `i` bytes all announce another one. */
  ghost predicate Running(s: seq<byte>, i: nat) {
    i <= |s| && forall k | 0 <= k < i :: s[k] >= 128
  }

  lemma {:induction false} StopsAt(s: seq<byte>, i: nat, max: nat)
    requires Running(s, i) && i <= max && (i == max || i == |s| || s[i] < 128)
    ensures Continuations(s, max) == i
  {
    if i > 0 {
      StopsAt(s[1..], i - 1, max - 1);
    }
  }

  lemma {:induction false} GroupsNext(s: seq<byte>, i: nat)
    requires i < |s|
    ensures Groups(s[..i + 1]) == Groups(s[..i]) + (s[i] % 128) * Pow2(7 * i)
    ensures Groups(s[..i]) < Pow2(7 * i)
  {
    assert s[..i + 1][1..] == s[1..][..i];
    if i > 0 {
      assert s[..i][1..] == s[1..][..i - 1];
      GroupsNext(s[1..], i - 1);
      Pow2Next7(i - 1);
      Scale(s[i] % 128, Pow2(7 * (i - 1)));
    }
  }

  lemma Pow2Next7(i: nat)
    ensures Pow2(7 * (i + 1)) == 128 * Pow2(7 * i)
  {
    var n := 7 * i;
    assert Pow2(n + 7) == 2 * Pow2(n + 6) && Pow2(n + 6) == 2 * Pow2(n + 5) && Pow2(n + 5) == 2 * Pow2(n + 4);
    assert Pow2(n + 4) == 2 * Pow2(n + 3) && Pow2(n + 3) == 2 * Pow2(n + 2) && Pow2(n + 2) == 2 * Pow2(n + 1);
  }

  lemma Scale(x: nat, p: nat)
    ensures x * (128 * p) == 128 * (x * p)
  {
  }

  /** `value |= (next_byte & 0x7f) << 7 * i` in a type of `bits` bits: the bits are disjoint, those that
      do not fit are lost. */
  function OrGroup(value: nat, next: byte, i: nat, bits: nat): nat {
    (value + (next % 128) * Pow2(7 * i)) % Pow2(bits)
  }

  lemma Together(a: nat, b: nat, m: nat)
    ensures a * m + b * m == (a + b) * m
  {
  }

  lemma ModPlus(a: nat, b: nat, m: nat)
    requires m > 0
    ensures (a % m + b) % m == (a + b) % m
  {
    var q, t := a / m, a % m + b;
    assert a + b == q * m + t;
    var q', r := t / m, t % m;
    Together(q, q', m);
    DivModUnique(a + b, m, q + q', r);
  }

  lemma NothingRead(data: seq<byte>, bits: nat)
    ensures Running(data, 0) && Groups(data[..0]) % Pow2(bits) == 0
  {
    DivModUnique(0, Pow2(bits), 0, 0);
  }

  /** One byte of either path. */
  method Step(data: seq<byte>, bits: nat, i: nat, value: nat) returns (value': nat, more: bool)
    requires i < |data| && i < MaxSize(bits) && Running(data, i) && value == Groups(data[..i]) % Pow2(bits)
    ensures value' == Groups(data[..i + 1]) % Pow2(bits)
    ensures more ==> Running(data, i + 1)
    ensures !more ==> Decode(data, bits) == Ok(value', i + 1)
  {
    value' := OrGroup(value, data[i], i, bits);
    more := data[i] >= 0x80;
    GroupsNext(data, i);
    ModPlus(Groups(data[..i]), (data[i] % 128) * Pow2(7 * i), Pow2(bits));
    if !more {
      StopsAt(data, i, MaxSize(bits));
    }
  }

  /** The loop taken when fewer bytes than varint_max_size remain. */
  method DecodeSlow(data: seq<byte>, bits: nat) returns (d: Decoded)
    requires |data| < MaxSize(bits)
    ensures d == Decode(data, bits)
  {
    var value, i := 0, 0;
    NothingRead(data, bits);
    while i < |data|
      invariant 0 <= i <= |data| && Running(data, i) && value == Groups(data[..i]) % Pow2(bits)
    {
      var more;
      value, more := Step(data, bits, i, value);
      i := i + 1;
      if !more {
        return Ok(value, i);
      }
    }
    StopsAt(data, i, MaxSize(bits));
    d := OutOfRange;
  }

  /** The unrolled path, taken when varint_max_size bytes are there to be read; how far it is unrolled
      depends on varint_max_size. */
  method DecodeUnrolled(data: seq<byte>, bits: nat) returns (d: Decoded)
    requires |data| >= MaxSize(bits)
    requires MaxSize(bits) == 2 || MaxSize(bits) == 3 || MaxSize(bits) == 5 || MaxSize(bits) == 10
    ensures d == Decode(data, bits)
  {
    NothingRead(data, bits);
    var value, more := Step(data, bits, 0, 0);
    if !more { return Ok(value, 1); }
    value, more := Step(data, bits, 1, value);
    if !more { return Ok(value, 2); }
    if MaxSize(bits) > 2 {
      d := DecodeUnrolledMiddle(data, bits, value);
      return;
    }
    StopsAt(data, MaxSize(bits), MaxSize(bits));
    d := TooLarge;
  }

  /** The third to fifth byte. */
  method DecodeUnrolledMiddle(data: seq<byte>, bits: nat, start: nat) returns (d: Decoded)
    requires |data| >= MaxSize(bits) && (MaxSize(bits) == 3 || MaxSize(bits) == 5 || MaxSize(bits) == 10)
    requires Running(data, 2) && start == Groups(data[..2]) % Pow2(bits)
    ensures d == Decode(data, bits)
  {
    var value, more := Step(data, bits, 2, start);
    if !more { return Ok(value, 3); }
    if MaxSize(bits) > 3 {
      value, more := Step(data, bits, 3, value);
      if !more { return Ok(value, 4); }
      value, more := Step(data, bits, 4, value);
      if !more { return Ok(value, 5); }
      if MaxSize(bits) > 5 {
        d := DecodeUnrolledLong(data, bits, value);
        return;
      }
    }
    StopsAt(data, MaxSize(bits), MaxSize(bits));
    d := TooLarge;
  }

  /** The bytes after the fifth; of the tenth only the lowest bit fits. */
  method DecodeUnrolledLong(data: seq<byte>, bits: nat, start: nat) returns (d: Decoded)
    requires |data| >= MaxSize(bits) && MaxSize(bits) == 10
    requires Running(data, 5) && start == Groups(data[..5]) % Pow2(bits)
    ensures d == Decode(data, bits)
  {
    var value, more := Step(data, bits, 5, start);
    if !more { return Ok(value, 6); }
    value, more := Step(data, bits, 6, value);
    if !more { return Ok(value, 7); }
    value, more := Step(data, bits, 7, value);
    if !more { return Ok(value, 8); }
    value, more := Step(data, bits, 8, value);
    if !more { return Ok(value, 9); }
    value, more := Step(data, bits, 9, value);
    if !more { return Ok(value, 10); }
    StopsAt(data, MaxSize(bits), MaxSize(bits));
    d := TooLarge;
  }

  lemma OneByte(data: seq<byte>, bits: nat)
    requires data != [] && data[0] < 0x80 && bits >= 7
    ensures Decode(data, bits) == Ok(data[0], 1)
  {
    StopsAt(data, 0, MaxSize(bits));
    GroupsNext(data, 0);
    PowMonotone(7, bits);
    Pow2Of7();
    DivModUnique(data[0], Pow2(bits), 0, data[0]);
  }

  lemma MaxSizes(bits: nat)
    requires IsWidth(bits)
    ensures MaxSize(bits) == 2 || MaxSize(bits) == 3 || MaxSize(bits) == 5 || MaxSize(bits) == 10
  {
  }

  /** Reading one varint: the single-byte shortcut, the slow loop or the unrolled path. All three agree
      with `Decode`, so what is read does not depend on how many bytes happen to follow. */
  method Read(data: seq<byte>, bits: nat) returns (d: Decoded)
    requires IsWidth(bits)
    ensures d == Decode(data, bits)
  {
    MaxSizes(bits);
    if data != [] && data[0] < 0x80 {
      OneByte(data, bits);
      d := Ok(data[0], 1);
    } else if |data| < MaxSize(bits) {
      d := DecodeSlow(data, bits);
    } else {
      d := DecodeUnrolled(data, bits);
    }
  }
}
