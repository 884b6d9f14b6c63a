/** 32-bit unsigned counters: what the machine sees of an unbounded count, and the signed reading of
    a wrapped difference that the queue compares. */
module Words {

  const TWO31: nat := 0x8000_0000
  const TWO32: nat := 0x1_0000_0000

  /** The value an `unsigned` holds after counting to `n` from zero. */
  function Word(n: int): (w: nat)
    ensures w < TWO32
  {
    n % TWO32
  }

  /** `static_cast<int>(a - b)` on two `unsigned` operands. */
  function SignedDiff(a: nat, b: nat): int
    requires a < TWO32 && b < TWO32
  {
    var d := (a - b) % TWO32;
    if d < TWO31 then d else d - TWO32
  }

  lemma WordOffset(a: int, b: int)
    ensures (Word(a) - Word(b)) % TWO32 == (a - b) % TWO32
  {
    var qa, qb := a / TWO32, b / TWO32;
    assert a - b == (qa - qb) * TWO32 + (Word(a) - Word(b));
    ModShift(Word(a) - Word(b), qa - qb);
  }

  lemma ModShift(x: int, k: int)
    ensures (k * TWO32 + x) % TWO32 == x % TWO32
  {
    var q, r := x / TWO32, x % TWO32;
    assert k * TWO32 + x == (k + q) * TWO32 + r;
  }

  /** While two unbounded counts are less than 2^31 apart, their wrapped difference is exact. */
  lemma SignedDiffExact(a: int, b: int)
    requires -(TWO31 as int) <= a - b < TWO31
    ensures SignedDiff(Word(a), Word(b)) == a - b
  {
    WordOffset(a, b);
    if a - b < 0 {
      ModShift(a - b, 1);
    }
  }

  /** Words of counts less than 2^32 apart are equal only when the counts are. */
  lemma WordEqual(a: int, b: int)
    requires -(TWO32 as int) < a - b < TWO32
    ensures Word(a) == Word(b) <==> a == b
  {
    WordOffset(a, b);
    if a - b < 0 {
      ModShift(a - b, 1);
    }
  }
}
