/** Slot arithmetic of include/common/Common.h: the index shuffle of the queues and the rounding of
    their sizes. */
module Common {
  import opened Bits
  import opened Bytes
  import opened Words
  import AtomicQueue

  // ---------------------------------------------------------------- remapIndex

  /** `remapIndex<Bits>` on a 32-bit index: masks are remainders, shifts are multiplications. */
  function RemapIndex(bits: nat, index: nat): nat {
    if bits == 0 then index
    else
      var mix := Low(XorBits(index, High(index, Pow2(bits)), 32), Pow2(bits));
      XorBits(XorBits(index, mix, 32), Join(Pow2(bits), 0, mix), 32)
  }

  lemma XorSelf(a: nat, b: nat, n: nat)
    requires a < Pow2(n) && b < Pow2(n)
    ensures XorBits(a, XorBits(a, b, n), n) == b && XorBits(b, XorBits(a, b, n), n) == a
  {
    XorBitsSwap(a, b, n);
    XorBitsSwap(a, XorBits(a, b, n), n);
    XorBitsSwap(b, XorBits(a, b, n), n);
    XorBitsTwice(a, b, n);
    XorBitsTwice(b, a, n);
  }

  /** An index with fields `a` and `b` of `p` values each below the bits `h`. */
  function Index(p: nat, a: nat, b: nat, h: nat): nat {
    Join(p, a, Join(p, b, h))
  }

  /** The mixed bits are the exclusive or of the two fields. */
  lemma MixIs(bits: nat, a: nat, b: nat, h: nat)
    requires bits <= 16 && a < Pow2(bits) && b < Pow2(bits)
    ensures Low(XorBits(Index(Pow2(bits), a, b, h), Join(Pow2(bits), b, h), 32), Pow2(bits))
            == XorBits(a, b, bits) < Pow2(bits)
  {
    var rest := Join(Pow2(bits), b, h);
    XorParts(a, rest, b, h, bits, 32 - bits);
    XorBitsBound(a, b, bits);
    JoinSplit(Pow2(bits), XorBits(a, b, bits), XorBits(rest, h, 32 - bits));
  }

  /** `low ^ x` in the lowest bits, nothing above. */
  lemma XorLow(bits: nat, low: nat, high: nat, x: nat, m: nat)
    requires low < Pow2(bits) && x < Pow2(bits) && high < Pow2(m)
    ensures XorBits(Join(Pow2(bits), low, high), x, bits + m) == Join(Pow2(bits), XorBits(low, x, bits), high)
  {
    JoinZero(Pow2(bits), x);
    XorParts(low, high, x, 0, bits, m);
    XorBitsZero(high, m);
  }

  lemma XorHigh(bits: nat, low: nat, high: nat, x: nat, m: nat)
    requires low < Pow2(bits)
    ensures XorBits(Join(Pow2(bits), low, high), Join(Pow2(bits), 0, x), bits + m)
            == Join(Pow2(bits), low, XorBits(high, x, m))
  {
    XorParts(low, high, 0, x, bits, m);
    XorBitsZero(low, bits);
  }

  /** The shuffle exchanges the lowest `bits` bits with the `bits` bits above them. */
  lemma RemapSwaps(bits: nat, a: nat, b: nat, h: nat)
    requires 0 < bits <= 16 && a < Pow2(bits) && b < Pow2(bits) && h < Pow2(32 - 2 * bits)
    ensures RemapIndex(bits, Index(Pow2(bits), a, b, h)) == Index(Pow2(bits), b, a, h)
  {
    var p, x := Pow2(bits), XorBits(a, b, bits);
    JoinSplit(p, a, Join(p, b, h));
    MixIs(bits, a, b, h);
    XorSelf(a, b, bits);
    JoinBound(bits, b, h, 32 - 2 * bits);
    XorLow(bits, a, Join(p, b, h), x, 32 - bits);
    XorHigh(bits, b, Join(p, b, h), x, 32 - bits);
    XorLow(bits, b, h, x, 32 - 2 * bits);
  }

  lemma JoinBound(bits: nat, low: nat, high: nat, m: nat)
    requires low < Pow2(bits) && high < Pow2(m)
    ensures Join(Pow2(bits), low, high) < Pow2(bits + m)
  {
    var p := Pow2(bits);
    PowSum(bits, m);
    assert p * (high + 1) == p * high + p;
    AtMost(p, high + 1, Pow2(m));
  }

  lemma AtMost(p: nat, a: nat, b: nat)
    requires a <= b
    ensures p * a <= p * b
  {
  }

  /** A number below 2^(bits + m) has its lowest bits and the others. */
  lemma Parts(bits: nat, m: nat, x: nat) returns (low: nat, high: nat)
    requires x < Pow2(bits + m)
    ensures low < Pow2(bits) && high < Pow2(m) && x == Join(Pow2(bits), low, high)
  {
    PowSum(bits, m);
    low, high := Divide(x, Pow2(bits), Pow2(m));
  }

  lemma Divide(x: nat, p: nat, q: nat) returns (low: nat, high: nat)
    requires p > 0 && x < p * q
    ensures low < p && high < q && x == Join(p, low, high)
  {
    low, high := Low(x, p), High(x, p);
    assert x == p * high + low;
    if high >= q {
      AtMost(p, q, high);
    }
  }

  lemma TakeApart(bits: nat, k: nat, index: nat) returns (a: nat, b: nat, h: nat)
    requires 2 * bits <= k && index < Pow2(k)
    ensures a < Pow2(bits) && b < Pow2(bits) && h < Pow2(k - 2 * bits) && index == Index(Pow2(bits), a, b, h)
  {
    var rest;
    a, rest := Parts(bits, k - bits, index);
    b, h := Parts(bits, k - 2 * bits, rest);
  }

  lemma PutTogether(bits: nat, k: nat, a: nat, b: nat, h: nat)
    requires 2 * bits <= k && a < Pow2(bits) && b < Pow2(bits) && h < Pow2(k - 2 * bits)
    ensures Index(Pow2(bits), a, b, h) < Pow2(k)
  {
    JoinBound(bits, b, h, k - 2 * bits);
    JoinBound(bits, a, Join(Pow2(bits), b, h), k - bits);
  }

  /** On an array of 2^k slots, at least 2^(2 bits), the shuffle stays in range and undoes itself. */
  lemma RemapInvolution(bits: nat, k: nat, index: nat)
    requires bits <= 16 && 2 * bits <= k <= 32 && index < Pow2(k)
    ensures RemapIndex(bits, index) < Pow2(k)
    ensures RemapIndex(bits, RemapIndex(bits, index)) == index
  {
    if bits > 0 {
      var a, b, h := TakeApart(bits, k, index);
      PowMonotone(k - 2 * bits, 32 - 2 * bits);
      RemapSwaps(bits, a, b, h);
      RemapSwaps(bits, b, a, h);
      PutTogether(bits, k, b, a, h);
    }
  }

  // ---------------------------------------------------------------- the choice of Bits

  /** GetCacheLineIndexBitsSize. */
  function CacheLineIndexBits(elementsPerCacheLine: nat): nat {
    match elementsPerCacheLine
    case 256 => 8
    case 128 => 7
    case 64 => 6
    case 32 => 5
    case 16 => 4
    case 8 => 3
    case 4 => 2
    case 2 => 1
    case _ => 0
  }

  /** GetIndexShuffleBits. */
  function IndexShuffleBits(minimizeContention: bool, arraySize: nat, elementsPerCacheLine: nat): nat {
    var bits := CacheLineIndexBits(elementsPerCacheLine);
    if minimizeContention && arraySize >= Pow2(bits * 2) then bits else 0
  }

  lemma SmallPowers()
    ensures Pow2(1) == 2 && Pow2(2) == 4 && Pow2(3) == 8 && Pow2(4) == 16
    ensures Pow2(5) == 32 && Pow2(6) == 64 && Pow2(7) == 128 && Pow2(8) == 256
  {
    assert Pow2(1) == 2 && Pow2(2) == 4 && Pow2(3) == 8 && Pow2(4) == 16;
    assert Pow2(5) == 32 && Pow2(6) == 64 && Pow2(7) == 128;
  }

  lemma LineBits(b: nat)
    requires 1 <= b <= 8
    ensures CacheLineIndexBits(Pow2(b)) == b
  {
    SmallPowers();
  }

  /** Cache lines of 2 to 256 elements, a power of two, give as many bits as the power says, provided
      that the queue has at least as many lines as a line has elements; all else is left in order. */
  lemma ShuffleBitsAre(minimizeContention: bool, k: nat, b: nat)
    requires 1 <= b <= 8
    ensures IndexShuffleBits(minimizeContention, Pow2(k), Pow2(b)) == if minimizeContention && k >= 2 * b then b else 0
  {
    LineBits(b);
    ComparePowers(k, 2 * b);
    ChosenBits(minimizeContention, Pow2(k), Pow2(b), b);
  }

  lemma ChosenBits(minimizeContention: bool, size: nat, elementsPerCacheLine: nat, b: nat)
    requires CacheLineIndexBits(elementsPerCacheLine) == b
    ensures IndexShuffleBits(minimizeContention, size, elementsPerCacheLine)
            == if minimizeContention && size >= Pow2(2 * b) then b else 0
  {
  }

  lemma ComparePowers(a: nat, b: nat)
    ensures Pow2(a) >= Pow2(b) <==> a >= b
  {
    if a >= b {
      PowMonotone(b, a);
    } else {
      PowStrict(a, b);
    }
  }

  lemma OtherLinesStay(minimizeContention: bool, size: nat, elementsPerCacheLine: nat)
    requires forall b | 1 <= b <= 8 :: elementsPerCacheLine != Pow2(b)
    ensures IndexShuffleBits(minimizeContention, size, elementsPerCacheLine) == 0
  {
    SmallPowers();
  }

  function RemapTable(bits: nat, size: nat): (t: seq<nat>)
    ensures |t| == size
  {
    seq(size, i requires 0 <= i < size => RemapIndex(bits, i))
  }

  /** An involution on the indices permutes them. */
  ghost predicate Permutes(t: seq<nat>) {
    && (forall i | 0 <= i < |t| :: t[i] < |t|)
    && (forall i | 0 <= i < |t| :: t[t[i]] == i)
    && (forall i, j | 0 <= i < j < |t| :: t[i] != t[j])
  }

  lemma InvolutionPermutes(t: seq<nat>)
    requires forall i | 0 <= i < |t| :: t[i] < |t| && t[t[i]] == i
    ensures Permutes(t)
  {
    forall i, j | 0 <= i < j < |t| ensures t[i] != t[j] {
      assert t[t[i]] == i && t[t[j]] == j;
    }
  }

  lemma RemapTablePermutes(bits: nat, k: nat)
    requires bits <= 16 && 2 * bits <= k <= 32
    ensures Permutes(RemapTable(bits, Pow2(k)))
  {
    var size := Pow2(k);
    var t := RemapTable(bits, size);
    forall i | 0 <= i < |t| ensures t[i] < |t| && t[t[i]] == i {
      RemapInvolution(bits, k, i);
    }
    InvolutionPermutes(t);
  }

  lemma ShuffleBitsFit(minimizeContention: bool, k: nat, elementsPerCacheLine: nat)
    ensures var bits := IndexShuffleBits(minimizeContention, Pow2(k), elementsPerCacheLine);
            bits <= 8 && 2 * bits <= k
  {
    var bits := CacheLineIndexBits(elementsPerCacheLine);
    if k < bits * 2 {
      PowStrict(k, bits * 2);
    }
  }

  /** Whatever shuffle is chosen for 2^k slots, it permutes them. */
  lemma ShufflePermutes(minimizeContention: bool, k: nat, elementsPerCacheLine: nat)
    requires k <= 32
    ensures Permutes(RemapTable(IndexShuffleBits(minimizeContention, Pow2(k), elementsPerCacheLine), Pow2(k)))
  {
    ShuffleBitsFit(minimizeContention, k, elementsPerCacheLine);
    RemapTablePermutes(IndexShuffleBits(minimizeContention, Pow2(k), elementsPerCacheLine), k);
  }

  lemma PowStrict(a: nat, b: nat)
    requires a < b
    ensures Pow2(a) < Pow2(b)
  {
    PowMonotone(a, b - 1);
  }

  lemma PowerDivides(k: nat)
    requires k <= 30
    ensures 1 <= Pow2(k) < TWO31 && TWO32 % Pow2(k) == 0
  {
    Pow2Values();
    PowMonotone(k, 30);
    PowerDividesPower(k, 32);
  }

  lemma PowerDividesPower(k: nat, n: nat)
    requires k <= n
    ensures Pow2(n) % Pow2(k) == 0
  {
    PowSum(n - k, k);
    DivModUnique(Pow2(n), Pow2(k), Pow2(n - k), 0);
  }

  lemma Pow2Values()
    ensures Pow2(30) == 0x4000_0000 && Pow2(32) == TWO32
  {
    assert Pow2(5) == 32;
    assert Pow2(10) == 32 * Pow2(5) == 1024;
    PowSum(10, 10);
    PowSum(20, 10);
    assert Pow2(32) == 4 * Pow2(30);
  }

  // ---------------------------------------------------------------- nextPowerOfTwo

  predicate IsPowerOfTwo(n: bv32) {
    n != 0 && n & (n - 1) == 0
  }

  /** The least power of two that is at least `n`; 0 when there is none in 32 bits, or for 0. */
  method NextPowerOfTwo(n: bv32) returns (r: bv32)
    ensures 1 <= n <= 0x8000_0000 ==> IsPowerOfTwo(r) && n <= r && forall p: bv32 | IsPowerOfTwo(p) && n <= p :: r <= p
    ensures !(1 <= n <= 0x8000_0000) ==> r == 0
  {
    var m := n - 1;
    m := m | (m >> 1);
    m := m | (m >> 2);
    m := m | (m >> 4);
    m := m | (m >> 8);
    m := m | (m >> 16);
    r := m + 1;
  }

  predicate Even(n: bv32, half: bv32) {
    half < 0x8000_0000 && n == half << 1
  }

  predicate Odd(n: bv32, half: bv32) {
    half < 0x8000_0000 && n == (half << 1) | 1
  }

  lemma EvenIs(n: bv32, half: bv32)
    requires Even(n, half)
    ensures n as nat == 2 * (half as nat)
  {
  }

  lemma OddIs(n: bv32, half: bv32)
    requires Odd(n, half)
    ensures n as nat == 2 * (half as nat) + 1
  {
  }

  lemma Half(n: bv32) returns (half: bv32)
    ensures half == n >> 1 && (Even(n, half) || Odd(n, half))
  {
    half := n >> 1;
  }

  lemma HalfPower(r: bv32) returns (half: bv32)
    requires IsPowerOfTwo(r) && r > 1
    ensures half == r >> 1 && Even(r, half) && IsPowerOfTwo(half)
  {
    half := r >> 1;
  }

  /** The words with a single bit are the powers of two. */
  lemma {:induction false} SingleBitIsPow2(n: bv32) returns (k: nat)
    requires IsPowerOfTwo(n)
    ensures n as nat == Pow2(k)
    decreases n as nat
  {
    if n == 1 {
      k := 0;
    } else {
      var half := HalfPower(n);
      EvenIs(n, half);
      k := SingleBitIsPow2(half);
      k := k + 1;
    }
  }

  lemma SameWord(a: bv32, b: bv32)
    requires a as nat == b as nat
    ensures a == b
  {
    assert (a as nat) as bv32 == a;
    assert (b as nat) as bv32 == b;
  }

  lemma HalvesCompare(n: bv32, m: bv32, r: bv32, q: bv32)
    requires IsPowerOfTwo(r) && r > 1 && q == r >> 1 && m == n >> 1
    ensures n < r <==> m < q
  {
  }

  lemma NotZero(n: bv32)
    ensures n == 0 <==> n as nat == 0
  {
    if n as nat == 0 {
      SameWord(n, 0);
    }
  }

  lemma HalfIs(n: bv32, half: bv32)
    requires Even(n, half) || Odd(n, half)
    ensures 2 * (half as nat) <= n as nat <= 2 * (half as nat) + 1
  {
    if Even(n, half) {
      EvenIs(n, half);
    } else {
      OddIs(n, half);
    }
  }

  /** Words compare to a power of two as their numbers do. */
  lemma {:induction false} CompareToPower(n: bv32, r: bv32)
    requires IsPowerOfTwo(r)
    ensures n < r <==> n as nat < r as nat
    decreases r as nat
  {
    if r == 1 {
      NotZero(n);
    } else {
      var m := Half(n);
      var q := HalfPower(r);
      HalvesCompare(n, m, r, q);
      HalfIs(n, m);
      EvenIs(r, q);
      CompareToPower(m, q);
    }
  }

  // ---------------------------------------------------------------- the layout of a queue

  /** The queues that round their size up are well-formed: their theorems hold of them. */
  lemma RoundedQueueIsValid(minimizeContention: bool, k: nat, elementsPerCacheLine: nat, size: nat, table: seq<nat>)
    requires k <= 30 && size == Pow2(k)
    requires table == RemapTable(IndexShuffleBits(minimizeContention, size, elementsPerCacheLine), size)
    ensures AtomicQueue.Config(size, table).Valid()
  {
    ShufflePermutes(minimizeContention, k, elementsPerCacheLine);
    PowerDivides(k);
  }

  lemma IdentityIsValid(size: nat, elementsPerCacheLine: nat)
    ensures AtomicQueue.Config(size, RemapTable(IndexShuffleBits(false, size, elementsPerCacheLine), size)).Valid()
            <==> 1 <= size < TWO31 && TWO32 % size == 0
  {
  }

  lemma RoundedIsValidIff(n: bv32, r: bv32, elementsPerCacheLine: nat)
    requires 1 <= n <= 0x8000_0000 ==> IsPowerOfTwo(r) && n <= r && forall p: bv32 | IsPowerOfTwo(p) && n <= p :: r <= p
    requires !(1 <= n <= 0x8000_0000) ==> r == 0
    ensures AtomicQueue.Config(r as nat,
            RemapTable(IndexShuffleBits(true, r as nat, elementsPerCacheLine), r as nat)).Valid()
            <==> 1 <= n <= 0x4000_0000
  {
    if 1 <= n <= 0x4000_0000 {
      assert IsPowerOfTwo(0x4000_0000);
      var k := SingleBitIsPow2(r);
      AtMost2To30(k, r);
      RoundedQueueIsValid(true, k, elementsPerCacheLine, r as nat,
                          RemapTable(IndexShuffleBits(true, r as nat, elementsPerCacheLine), r as nat));
    } else if r != 0 {
      TopBit(r);
    }
  }

  lemma AtMost2To30(k: nat, r: bv32)
    requires IsPowerOfTwo(r) && r <= 0x4000_0000 && r as nat == Pow2(k)
    ensures k <= 30
  {
    if r < 0x4000_0000 {
      CompareToPower(r, 0x4000_0000);
    }
    if k > 30 {
      Pow2Values();
      PowStrict(30, k);
    }
  }

  /** Rounding up less than doubles. */
  lemma RoundedIsNear(n: bv32, r: bv32) returns (k: nat)
    requires 1 <= n && IsPowerOfTwo(r) && n <= r && forall p: bv32 | IsPowerOfTwo(p) && n <= p :: r <= p
    ensures r as nat == Pow2(k) && n as nat <= r as nat < 2 * (n as nat)
  {
    k := SingleBitIsPow2(r);
    CompareToPower(n, r);
    if n == r {
      NotZero(n);
    } else {
      var half := HalfPower(r);
      EvenIs(r, half);
      CompareToPower(n, half);
      if n as nat == half as nat {
        SameWord(n, half);
      }
    }
  }

  lemma TopBit(r: bv32)
    requires IsPowerOfTwo(r) && r > 0x4000_0000
    ensures r as nat == TWO31
  {
    assert r == 0x8000_0000;
  }

  /** The size, the shuffle and the index table that a queue derives from the size it is given. Rounded
      up, a size is good up to 2^30, and the slots are the fewest that are a power of two; taken as it
      is, it has to divide 2^32 and be below 2^31. */
  method Layout(size: bv32, minimizeContention: bool, elementsPerCacheLine: nat) returns (cfg: AtomicQueue.Config)
    ensures cfg.remap == RemapTable(IndexShuffleBits(minimizeContention, cfg.size, elementsPerCacheLine), cfg.size)
    ensures minimizeContention ==> (cfg.Valid() <==> 1 <= size <= 0x4000_0000)
    ensures minimizeContention && cfg.Valid()
            ==> (exists k: nat :: cfg.size == Pow2(k)) && size as nat <= cfg.size < 2 * (size as nat)
    ensures !minimizeContention ==> cfg.size == size as nat
    ensures !minimizeContention ==> (cfg.Valid() <==> 1 <= cfg.size < TWO31 && TWO32 % cfg.size == 0)
  {
    var n := size;
    if minimizeContention {
      n := NextPowerOfTwo(size);
      RoundedIsValidIff(size, n, elementsPerCacheLine);
      if 1 <= size <= 0x4000_0000 {
        ghost var k := RoundedIsNear(size, n);
      }
    }
    var queueSize := n as nat;
    IdentityIsValid(queueSize, elementsPerCacheLine);
    var bits := IndexShuffleBits(minimizeContention, queueSize, elementsPerCacheLine);
    cfg := AtomicQueue.Config(queueSize, RemapTable(bits, queueSize));
  }
}
