/** How the writing archive of include/reflection/BitSerializer.h grows its buffer: one request for room,
    and a whole list of them. */
module Growing {
  import opened Bytes

  const TWO64: nat := 0x1_0000_0000_0000_0000

  // ---------------------------------------------------------------- one request

  datatype Enlarger = Enlarger(multiplier: nat, divisor: nat, checked: bool, limit: nat)

  datatype Option<T> = None | Some(value: T)

  predicate SensibleEnlarger(e: Enlarger) {
    0 < e.multiplier < TWO64 && 0 < e.divisor < TWO64 && e.limit < TWO64
  }

  /** The size a buffer of `size` bytes is resized to for `additional` more, in 64-bit arithmetic; none
      when the computation is seen to overflow or the limit is passed. */
  function NewSize(size: nat, additional: nat, e: Enlarger): (n: Option<nat>)
    requires SensibleEnlarger(e) && size < TWO64 && additional < TWO64
  {
    var required := (size + additional) % TWO64;
    if e.checked && required < size then None
    else
      var product := required * e.multiplier % TWO64;
      if e.checked && product / e.multiplier != required then None
      else if product / e.divisor > e.limit then None
      else Some(product / e.divisor)
  }

  /** The overflow checks see every overflow. */
  lemma SumCheck(size: nat, additional: nat)
    requires size < TWO64 && additional < TWO64
    ensures (size + additional) % TWO64 < size <==> size + additional >= TWO64
  {
  }

  lemma ProductCheck(r: nat, m: nat)
    requires m > 0
    ensures (r * m) % TWO64 / m == r <==> r * m < TWO64
  {
    var p := r * m;
    if p < TWO64 {
      DivModUnique(p, m, r, 0);
    } else {
      assert p % TWO64 < p;
      BelowProduct(p % TWO64, r, m);
    }
  }

  lemma BelowProduct(x: nat, r: nat, m: nat)
    requires m > 0 && x < r * m
    ensures x / m < r
  {
    var q := x / m;
    assert x == q * m + x % m;
    if q >= r {
      Multiples(r, q, m);
    }
  }

  lemma Multiples(a: nat, b: nat, m: nat)
    requires a <= b
    ensures a * m <= b * m
  {
  }

  lemma OneMore(q: nat, d: nat)
    ensures (q + 1) * d == q * d + d
  {
  }

  lemma QuotientAtLeast(x: nat, d: nat, r: nat)
    requires d > 0 && r * d <= x
    ensures r <= x / d
  {
    var q := x / d;
    assert x == q * d + x % d;
    OneMore(q, d);
    if q < r {
      Multiples(q + 1, r, d);
    }
  }

  lemma SmallMod(n: nat)
    ensures n < TWO64 ==> n % TWO64 == n
  {
  }

  /** With the overflow checks on, a resize is refused exactly when the true sum or product does not fit
      64 bits or the limit is passed; otherwise the fraction is taken of the true sum. */
  lemma NewSizeIff(size: nat, additional: nat, e: Enlarger)
    requires SensibleEnlarger(e) && size < TWO64 && additional < TWO64 && e.checked
    ensures NewSize(size, additional, e).Some? <==>
            && size + additional < TWO64 && (size + additional) * e.multiplier < TWO64
            && (size + additional) * e.multiplier / e.divisor <= e.limit
    ensures NewSize(size, additional, e).Some?
            ==> NewSize(size, additional, e).value == (size + additional) * e.multiplier / e.divisor
  {
    var r := size + additional;
    SumCheck(size, additional);
    SmallMod(r);
    if r < TWO64 {
      ProductCheck(r, e.multiplier);
      SmallMod(r * e.multiplier);
    }
  }

  /** The largest sum of a size and a request that the enlarger grants. */
  function Largest(e: Enlarger): int
    requires SensibleEnlarger(e)
  {
    var byProduct, byLimit := (TWO64 - 1) / e.multiplier, ((e.limit + 1) * e.divisor - 1) / e.multiplier;
    if byProduct < byLimit then byProduct else byLimit
  }

  lemma AtMostQuotient(r: nat, x: nat, m: nat)
    requires m > 0
    ensures r <= x / m <==> r * m <= x
  {
    assert x == x / m * m + x % m;
    if r <= x / m {
      Multiples(r, x / m, m);
    }
    if r * m <= x {
      QuotientAtLeast(x, m, r);
    }
  }

  lemma QuotientAtMost(x: nat, d: nat, n: nat)
    requires d > 0
    ensures x / d <= n <==> x <= (n + 1) * d - 1
  {
    AtMostQuotient(n + 1, x, d);
  }

  /** A request is granted exactly up to that sum. */
  lemma GrantedIff(size: nat, additional: nat, e: Enlarger)
    requires SensibleEnlarger(e) && size < TWO64 && additional < TWO64 && e.checked
    ensures NewSize(size, additional, e).Some? <==> size + additional <= Largest(e)
  {
    var r := size + additional;
    NewSizeIff(size, additional, e);
    AtMostQuotient(r, TWO64 - 1, e.multiplier);
    AtMostQuotient(r, (e.limit + 1) * e.divisor - 1, e.multiplier);
    QuotientAtMost(r * e.multiplier, e.divisor, e.limit);
    Multiples(1, e.multiplier, r);
  }

  ghost predicate MakesRoom(e: Enlarger, size: nat, position: nat, additional: nat)
    requires SensibleEnlarger(e)
  {
    position <= size < TWO64 && size - position < additional < TWO64 && NewSize(size, additional, e).Some?
    ==> NewSize(size, additional, e).value >= position + additional
  }

  ghost predicate AlwaysMakesRoom(e: Enlarger)
    requires SensibleEnlarger(e)
  {
    forall size: nat, position: nat, additional: nat :: MakesRoom(e, size, position, additional)
  }

  lemma RoomMade(size: nat, additional: nat, e: Enlarger)
    requires SensibleEnlarger(e) && size < TWO64 && additional < TWO64
    requires e.checked && NewSize(size, additional, e).Some?
    requires e.multiplier >= e.divisor
    ensures size + additional <= NewSize(size, additional, e).value < TWO64
  {
    var r := size + additional;
    NewSizeIff(size, additional, e);
    Multiples(e.divisor, e.multiplier, r);
    QuotientAtLeast(r * e.multiplier, e.divisor, r);
  }

  /** Growing always makes the room asked for exactly when the enlarger never shrinks. */
  lemma RoomIff(e: Enlarger)
    requires SensibleEnlarger(e) && e.checked
    ensures AlwaysMakesRoom(e) <==> e.multiplier >= e.divisor
  {
    if e.multiplier >= e.divisor {
      forall size: nat, position: nat, additional: nat ensures MakesRoom(e, size, position, additional) {
        if size < TWO64 && additional < TWO64 && NewSize(size, additional, e).Some? {
          RoomMade(size, additional, e);
        }
      }
    } else {
      DivModUnique(e.multiplier, e.divisor, 0, e.multiplier);
      assert NewSize(0, 1, e) == Some(0);
      assert !MakesRoom(e, 0, 0, 1);
    }
  }

  // ---------------------------------------------------------------- a list of requests

  /** The archive asks for `room` bytes behind its position, and then moves on by `advance`. */
  datatype Ask = Ask(room: nat, advance: nat)

  /** The size of the buffer once `room` bytes were asked for; none when they are refused. No object has
      2^64 bytes, so nobody asks for that many. */
  function Grown(e: Enlarger, size: nat, position: nat, room: nat): (n: Option<nat>)
    requires SensibleEnlarger(e) && size < TWO64
    ensures n.Some? ==> n.value <= size || n.value <= e.limit
  {
    if room <= size - position then Some(size) else if room >= TWO64 then None else NewSize(size, room, e)
  }

  /** The size of the buffer after all requests; none when one of them is refused. */
  function SizeAfter(e: Enlarger, size: nat, position: nat, asks: seq<Ask>): (n: Option<nat>)
    requires SensibleEnlarger(e) && size < TWO64
    ensures n.Some? ==> n.value <= size || n.value <= e.limit
    decreases |asks|
  {
    if asks == [] then Some(size)
    else
      match Grown(e, size, position, asks[0].room)
      case None => None
      case Some(n) => SizeAfter(e, n, position + asks[0].advance, asks[1..])
  }

  function Advances(asks: seq<Ask>): nat {
    if asks == [] then 0 else asks[0].advance + Advances(asks[1..])
  }

  lemma OneRequest(e: Enlarger, size: nat, position: nat, ask: Ask)
    requires SensibleEnlarger(e) && size < TWO64
    ensures SizeAfter(e, size, position, [ask]) == Grown(e, size, position, ask.room) && Advances([ask]) == ask.advance
  {
    assert [ask][1..] == [];
    var n := Grown(e, size, position, ask.room);
    assert n.Some? ==> SizeAfter(e, n.value, position + ask.advance, []) == n;
  }

  lemma {:induction false} AdvancesAppend(a: seq<Ask>, b: seq<Ask>)
    ensures Advances(a + b) == Advances(a) + Advances(b)
  {
    if a == [] {
      assert a + b == b;
    } else {
      assert (a + b)[1..] == a[1..] + b;
      AdvancesAppend(a[1..], b);
    }
  }

  /** Requests can be made one list after the other. */
  lemma {:induction false} SizeAfterAppend(e: Enlarger, size: nat, position: nat, a: seq<Ask>, b: seq<Ask>)
    requires SensibleEnlarger(e) && size < TWO64
    ensures SizeAfter(e, size, position, a + b)
            == match SizeAfter(e, size, position, a)
               case None => None
               case Some(n) => SizeAfter(e, n, position + Advances(a), b)
    decreases |a|
  {
    if a == [] {
      assert a + b == b;
    } else {
      assert (a + b)[1..] == a[1..] + b;
      match Grown(e, size, position, a[0].room) {
        case None =>
        case Some(n) => SizeAfterAppend(e, n, position + a[0].advance, a[1..], b);
      }
    }
  }

  /** How far beyond what it advances over a request can reach: it is made with less room than it asks
      for, and the sum tested is that of the request and the size, not the position. */
  function Beyond(ask: Ask): nat {
    if 2 * ask.room > ask.advance + 1 then 2 * ask.room - ask.advance - 1 else 0
  }

  function Reach(asks: seq<Ask>): (r: nat)
    ensures forall i | 0 <= i < |asks| :: Beyond(asks[i]) <= r
  {
    if asks == [] then 0
    else
      var rest := Reach(asks[1..]);
      if Beyond(asks[0]) > rest then Beyond(asks[0]) else rest
  }

  lemma RequestGranted(e: Enlarger, size: nat, position: nat, ask: Ask)
    requires SensibleEnlarger(e) && e.checked && size < TWO64
    requires position + ask.advance + Beyond(ask) <= Largest(e)
    ensures Grown(e, size, position, ask.room).Some?
  {
    if size - position < ask.room {
      LargestIsWord(e);
      GrantedIff(size, ask.room, e);
    }
  }

  lemma LargestIsWord(e: Enlarger)
    requires SensibleEnlarger(e)
    ensures Largest(e) < TWO64
  {
    var q := (TWO64 - 1) / e.multiplier;
    AtMostQuotient(q, TWO64 - 1, e.multiplier);
    Multiples(1, e.multiplier, q);
  }

  /** Whatever the sizes the buffer grows through: when the enlarger grants the bytes to be written and
      the reach of the largest request, it grants all requests. */
  lemma {:induction false} ReachSuffices(e: Enlarger, size: nat, position: nat, asks: seq<Ask>)
    requires SensibleEnlarger(e) && e.checked && size < TWO64
    requires position + Advances(asks) + Reach(asks) <= Largest(e)
    ensures SizeAfter(e, size, position, asks).Some?
    decreases |asks|
  {
    if asks != [] {
      RequestGranted(e, size, position, asks[0]);
      var n := Grown(e, size, position, asks[0].room).value;
      ReachSuffices(e, n, position + asks[0].advance, asks[1..]);
    }
  }

  /** No constant in the place of the reach does: with room granted for two blocks and `c` bytes more, the
      second is refused once the first has made the buffer grow. */
  lemma NoConstantSuffices(c: nat)
    requires c < 0x1000_0000_0000_0000
    ensures var e, asks := Enlarger(3, 2, true, 6 * c + 6), [Ask(2 * c + 2, 2 * c + 2), Ask(c + 2, c + 2)];
            Advances(asks) + c <= Largest(e) && SizeAfter(e, 0, 0, asks) == None
  {
    var e := Enlarger(3, 2, true, 6 * c + 6);
    var first, second := Ask(2 * c + 2, 2 * c + 2), Ask(c + 2, c + 2);
    assert Largest(e) == 4 * c + 4;
    GrantedIff(0, 2 * c + 2, e);
    NewSizeIff(0, 2 * c + 2, e);
    assert Grown(e, 0, 0, 2 * c + 2) == Some(3 * c + 3);
    GrantedIff(3 * c + 3, c + 2, e);
    OneRequest(e, 0, 0, first);
    OneRequest(e, 3 * c + 3, 2 * c + 2, second);
    OneRequest(e, 0, 0, second);
    SizeAfterAppend(e, 0, 0, [first], [second]);
    AdvancesAppend([first], [second]);
    assert [first] + [second] == [first, second];
  }
}
