/** The archive's wire format byte by byte, and which values are written as one block of memory, said
    without the functions that model them. */
module ArchiveWire {
  import opened Bytes
  import opened Archive
  import opened Growing
  import opened MemoryImage
  import opened Requests
  import A = ArchiveRoundTrip
  import V = Varint

  // ---------------------------------------------------------------- numbers

  lemma Distribute(q: nat, b: nat, r: nat, a: nat)
    ensures (q * b + r) * a == q * (a * b) + r * a
  {
  }

  lemma DigitBound(r: nat, a: nat, b: nat, s: nat)
    requires r < b && s < a
    ensures 0 < a * b && 0 <= r * a + s < a * b
  {
    TimesAway(b - r, a);
    assert (b - r) * a == b * a - r * a;
  }

  lemma DivParts(n: nat, a: nat, b: nat, q: nat, r: nat, s: nat)
    requires r < b && s < a && n == (q * b + r) * a + s
    ensures a * b > 0 && n / (a * b) == q
  {
    Distribute(q, b, r, a);
    DigitBound(r, a, b, s);
    DivModUnique(n, a * b, q, r * a + s);
  }

  lemma DivDiv(n: nat, a: nat, b: nat)
    requires a > 0 && b > 0
    ensures a * b > 0 && n / (a * b) == n / a / b
  {
    var m := n / a;
    assert n == m * a + n % a && m == m / b * b + m % b;
    DivParts(n, a, b, m / b, m % b, n % a);
  }

  lemma {:induction false} LEAt(n: nat, w: nat, i: nat)
    requires i < w
    ensures ToLE(n, w)[i] as nat == n / Pow256(i) % 256
  {
    if i > 0 {
      LEAt(n / 256, w - 1, i - 1);
      DivDiv(n, 256, Pow256(i - 1));
    }
  }

  lemma {:induction false} ReverseAt<T>(s: seq<T>, i: nat)
    requires i < |s|
    ensures Reverse(s)[i] == s[|s| - 1 - i]
  {
    if i < |s| - 1 {
      ReverseAt(s[1..], i);
    }
  }

  /** A number of `w` bytes: in host order the byte at `i` has weight 256^i, in a swapped archive the
      bytes stand the other way round. */
  lemma NumberIs(n: nat, w: nat, byteType: bool, swapped: bool, i: nat)
    requires i < w
    ensures |Enc(Fixed(w, byteType), Num(n), swapped)| == w
    ensures Enc(Fixed(w, byteType), Num(n), swapped)[i] as nat
            == n / Pow256(if swapped then w - 1 - i else i) % 256
  {
    LEAt(n, w, if swapped then w - 1 - i else i);
    ReverseAt(ToLE(n, w), i);
  }

  // ---------------------------------------------------------------- varints

  /** A varint's bytes: seven bits each, the lowest first, the top bit set on all but the last byte. */
  lemma {:induction false} VarintIs(n: nat, i: nat)
    requires i < |V.Enc(n)|
    ensures V.Enc(n)[i] as nat == n / Pow2(7 * i) % 128 + (if i + 1 < |V.Enc(n)| then 128 else 0)
  {
    if n >= 128 && i > 0 {
      VarintIs(n / 128, i - 1);
      V.Pow2Next7(i - 1);
      DivDiv(n, 128, Pow2(7 * (i - 1)));
      assert V.Enc(n)[i] == V.Enc(n / 128)[i - 1];
    }
  }

  /** ... and as many bytes as the number needs. */
  lemma VarintLength(n: nat, k: nat)
    requires k > 0
    ensures |V.Enc(n)| == k <==> NeedsGroups(n, k)
  {
    A.EncBounds(n);
    LastGroup(n);
    OneLength(n, |V.Enc(n)|, k);
  }

  /** `k` groups of seven bits hold the number, and fewer do not. */
  predicate NeedsGroups(n: nat, k: nat)
    requires k > 0
  {
    n < Pow2(7 * k) && (k > 1 ==> n >= Pow2(7 * (k - 1)))
  }

  lemma OneLength(n: nat, l: nat, k: nat)
    requires l > 0 && k > 0 && NeedsGroups(n, l)
    ensures l == k <==> NeedsGroups(n, k)
  {
    if l < k {
      PowMonotone(7 * l, 7 * (k - 1));
    } else if k < l {
      PowMonotone(7 * k, 7 * (l - 1));
    }
  }

  lemma {:induction false} LastGroup(n: nat)
    ensures |V.Enc(n)| > 1 ==> n >= Pow2(7 * (|V.Enc(n)| - 1))
  {
    if n >= 128 {
      var m, k := n / 128, |V.Enc(n / 128)|;
      LastGroup(m);
      assert |V.Enc(n)| == k + 1;
      V.Pow2Next7(k - 1);
      if k == 1 {
        V.Pow2Of7();
      } else {
        assert n >= 128 * m;
      }
    }
  }

  /** The most bytes a varint of the width may have. */
  function Longest(bits: nat): nat
    requires V.IsWidth(bits)
  {
    if bits == 8 then 2 else if bits == 16 then 3 else if bits == 32 then 5 else 10
  }

  /** Seven bits of each byte, the lowest first. */
  function Sevens(s: seq<byte>): nat {
    if s == [] then 0 else Sevens(s[..|s| - 1]) + (s[|s| - 1] as nat) % 128 * Pow2(7 * (|s| - 1))
  }

  lemma {:induction false} GroupsAre(s: seq<byte>)
    ensures V.Groups(s) == Sevens(s)
  {
    if s != [] {
      var n := |s| - 1;
      GroupsAre(s[..n]);
      V.GroupsNext(s, n);
      assert s[..n + 1] == s;
    }
  }

  /** Reading a varint, whatever the bytes: `k` bytes announce another one. Too many of them are refused,
      bytes that end early are out of range, and otherwise the groups read count, cut to the width. */
  lemma DecodeIs(s: seq<byte>, bits: nat, k: nat)
    requires V.IsWidth(bits) && k <= |s| && k <= Longest(bits) && forall i | 0 <= i < k :: s[i] >= 128
    requires k == Longest(bits) || k == |s| || s[k] < 128
    ensures k == Longest(bits) ==> V.Decode(s, bits) == V.TooLarge
    ensures k < Longest(bits) && k == |s| ==> V.Decode(s, bits) == V.OutOfRange
    ensures k < Longest(bits) && k < |s| ==> V.Decode(s, bits) == V.Ok(Sevens(s[..k + 1]) % Pow2(bits), k + 1)
  {
    V.StopsAt(s, k, V.MaxSize(bits));
    if k < |s| {
      GroupsAre(s[..k + 1]);
    }
  }

  // ---------------------------------------------------------------- tags and sizes

  /** An absent value is a zero byte, a present one is behind a byte of one; any other byte but zero is
      read as present too. */
  lemma OptionalIs(e: Shape, x: Value, flag: byte, swapped: bool)
    requires flag != 0
    ensures Enc(Optional(e), Nothing, swapped) == [0] && Enc(Optional(e), Just(x), swapped)[0] == 1
    ensures Enc(Optional(e), Just(x), swapped)[1..] == Enc(e, x, swapped)
    ensures forall s: seq<byte> :: Dec(Optional(e), [0] + s, swapped) == Ok(Nothing, 1)
    ensures forall s: seq<byte> :: Dec(e, s, swapped).Ok? ==>
              Dec(Optional(e), [flag] + s, swapped)
              == Ok(Just(Dec(e, s, swapped).value), 1 + Dec(e, s, swapped).used)
  {
    forall s: seq<byte> | Dec(e, s, swapped).Ok?
      ensures Dec(Optional(e), [flag] + s, swapped)
              == Ok(Just(Dec(e, s, swapped).value), 1 + Dec(e, s, swapped).used)
    {
      assert ([flag] + s)[1..] == s;
    }
  }

  /** A variant is its alternative's id, a number of `w` bytes, and the alternative behind it. */
  lemma VariantIs(w: nat, ids: seq<nat>, alts: seq<Shape>, i: nat, x: Value, swapped: bool, k: nat)
    requires Sensible(Variant(w, ids, alts)) && i < |alts| && k < w
    ensures var s := Enc(Variant(w, ids, alts), Alternative(i, x), swapped);
            && |s| >= w && s[w..] == Enc(alts[i], x, swapped)
            && s[k] as nat == ids[i] / Pow256(if swapped then w - 1 - k else k) % 256
  {
    NumberIs(ids[i], w, false, swapped, k);
  }

  lemma {:induction false} NotFound(ids: seq<nat>, id: nat)
    requires id !in ids
    ensures IndexOf(ids, id) == |ids|
  {
    if ids != [] {
      NotFound(ids[1..], id);
    }
  }

  /** An id that no alternative has is a bad message, whatever follows it. */
  lemma UnknownId(w: nat, ids: seq<nat>, alts: seq<Shape>, id: nat, swapped: bool, rest: seq<byte>)
    requires Sensible(Variant(w, ids, alts)) && id < Pow256(w) && id !in ids
    ensures Dec(Variant(w, ids, alts), Enc(Fixed(w, false), Num(id), swapped) + rest, swapped) == Fail(BadMessage)
  {
    A.FixedReadsBack(id, w, swapped, rest);
    DivModUnique(id, Pow256(w), 0, id);
    NotFound(ids, id);
  }

  /** A message follows its own size in bytes, in host order whatever the archive's order is. */
  lemma ProtocolIs(w: nat, m: Shape, n: nat, x: Value, swapped: bool, k: nat)
    requires k < w
    ensures var body, s := Enc(m, x, swapped), Enc(Protocol(FixedSize(w), m), Message(n, x), swapped);
            && |s| == w + |body| && s[w..] == body
            && s[k] as nat == |body| / Pow256(k) % 256
  {
    LEAt(|Enc(m, x, swapped)|, w, k);
  }

  // ---------------------------------------------------------------- lists

  /** Items stand one behind the other in their order, each as it would be on its own. */
  lemma {:induction false} ItemIs(e: Shape, items: seq<Value>, i: nat, swapped: bool)
    requires i < |items|
    ensures EncEach(e, items, swapped)
            == EncEach(e, items[..i], swapped) + (Enc(e, items[i], swapped) + EncEach(e, items[i + 1..], swapped))
  {
    if i == 0 {
      assert items[..0] == [];
    } else {
      var before, behind := items[..i], items[i + 1..];
      assert before[1..] == items[1..][..i - 1] && behind == items[1..][i..] && items[1..][i - 1] == items[i];
      ItemIs(e, items[1..], i - 1, swapped);
      ConcatAssociates(Enc(e, items[0], swapped), EncEach(e, before[1..], swapped),
                       Enc(e, items[i], swapped) + EncEach(e, behind, swapped));
    }
  }

  /** So do members. */
  lemma {:induction false} MemberIs(ms: seq<Shape>, items: seq<Value>, i: nat, swapped: bool)
    requires i < |ms| == |items|
    ensures EncMembers(ms, items, swapped) == EncMembers(ms[..i], items[..i], swapped)
            + (Enc(ms[i], items[i], swapped) + EncMembers(ms[i + 1..], items[i + 1..], swapped))
  {
    if i == 0 {
      assert items[..0] == [] && ms[..0] == [];
    } else {
      assert items[..i][1..] == items[1..][..i - 1] && items[i + 1..] == items[1..][i..];
      assert ms[..i][1..] == ms[1..][..i - 1] && ms[i + 1..] == ms[1..][i..];
      assert items[1..][i - 1] == items[i] && ms[1..][i - 1] == ms[i];
      MemberIs(ms[1..], items[1..], i - 1, swapped);
      ConcatAssociates(Enc(ms[0], items[0], swapped), EncMembers(ms[..i][1..], items[..i][1..], swapped),
                       Enc(ms[i], items[i], swapped) + EncMembers(ms[i + 1..], items[i + 1..], swapped));
    }
  }

  /** A container is its count, in the archive's order, and its items. */
  lemma ContainerIs(w: nat, e: Shape, contiguous: bool, items: seq<Value>, swapped: bool, k: nat)
    requires k < w
    ensures var s := Enc(Container(FixedSize(w), e, contiguous), List(items), swapped);
            && |s| >= w && s[w..] == EncEach(e, items, swapped)
            && s[k] as nat == |items| / Pow256(if swapped then w - 1 - k else k) % 256
  {
    NumberIs(|items|, w, false, swapped, k);
  }

  // ---------------------------------------------------------------- blocks

  /** Arrays of arrays of ... */
  function NestedArray(counts: seq<nat>, e: Shape): Shape {
    if counts == [] then e else Array(counts[0], NestedArray(counts[1..], e))
  }

  lemma {:induction false} AllAsBytesIff(ms: seq<Shape>)
    ensures AllAsBytes(ms) <==> forall i | 0 <= i < |ms| :: AsBytes(ms[i], false)
  {
    if ms != [] {
      AllAsBytesIff(ms[1..]);
      assert AllAsBytes(ms[1..]) ==> forall i | 1 <= i < |ms| :: ms[i] == ms[1..][i - 1];
      if forall i | 0 <= i < |ms| :: AsBytes(ms[i], false) {
        forall i | 0 <= i < |ms[1..]| ensures AsBytes(ms[1..][i], false) {
          assert ms[1..][i] == ms[i + 1];
        }
      }
    }
  }

  /** Which types are copied as a block, however deep in arrays: bytes always, wider numbers unless the
      archive swaps, and in such archives packed aggregates all of whose members are. */
  lemma {:induction false} AsBytesIff(counts: seq<nat>, e: Shape, swapped: bool)
    requires !e.Array?
    ensures AsBytes(NestedArray(counts, e), swapped) <==>
            || (e.Fixed? && (e.byteType || !swapped))
            || (e.Tuple? && e.packed && !swapped && e.members != []
                && forall i | 0 <= i < |e.members| :: AsBytes(e.members[i], false))
  {
    if counts != [] {
      AsBytesIff(counts[1..], e, swapped);
    } else if e.Tuple? {
      AllAsBytesIff(e.members);
    }
  }

  /** One request for each item, of its width. */
  function OneByOne(widths: seq<nat>): seq<Ask> {
    seq(|widths|, i requires 0 <= i < |widths| => Ask(widths[i], widths[i]))
  }

  lemma {:induction false} NumbersOneByOne(w: nat, byteType: bool, items: seq<Value>, swapped: bool)
    requires HaveShape(Fixed(w, byteType), items, swapped)
    ensures AsksEach(Fixed(w, byteType), items, swapped) == OneByOne(seq(|items|, _ => w))
  {
    if items != [] {
      NumbersOneByOne(w, byteType, items[1..], swapped);
      assert OneByOne(seq(|items|, _ => w)) == [Ask(w, w)] + OneByOne(seq(|items| - 1, _ => w));
    }
  }

  /** An array of numbers asks for room once, for all its bytes, when they are bytes or the archive does
      not swap, and else once for each number. So does a container behind its size, if its items are
      contiguous. */
  lemma NumbersAskFor(w: nat, byteType: bool, items: seq<Value>, size: SizeType, contiguous: bool, swapped: bool)
    requires Sensible(Fixed(w, byteType)) && HaveShape(Fixed(w, byteType), items, swapped)
    ensures var all, each := [Ask(|items| * w, |items| * w)], OneByOne(seq(|items|, _ => w));
            && Asks(Array(|items|, Fixed(w, byteType)), List(items), swapped)
               == (if byteType || !swapped then all else each)
            && Asks(Container(size, Fixed(w, byteType), contiguous), List(items), swapped)
               == SizeAsks(|items|, size) + (if contiguous && (byteType || !swapped) then all else each)
  {
    NumbersOneByOne(w, byteType, items, swapped);
    NumbersTake(w, byteType, items, swapped);
    TimesIs(|items|, w);
  }

  lemma {:induction false} NumbersTake(w: nat, byteType: bool, items: seq<Value>, swapped: bool)
    requires HaveShape(Fixed(w, byteType), items, swapped)
    ensures |EncEach(Fixed(w, byteType), items, swapped)| == Times(|items|, w)
  {
    if items != [] {
      NumbersTake(w, byteType, items[1..], swapped);
    }
  }

  predicate AllNumbers(ms: seq<Shape>) {
    forall i | 0 <= i < |ms| :: ms[i].Fixed?
  }

  function Widths(ms: seq<Shape>): seq<nat>
    requires AllNumbers(ms)
  {
    seq(|ms|, i requires 0 <= i < |ms| => ms[i].width)
  }

  lemma {:induction false} MembersOneByOne(ms: seq<Shape>, items: seq<Value>, swapped: bool)
    requires AllNumbers(ms) && HaveShapes(ms, items, swapped)
    ensures AsksMembers(ms, items, swapped) == OneByOne(Widths(ms))
  {
    if ms != [] {
      MembersOneByOne(ms[1..], items[1..], swapped);
      assert OneByOne(Widths(ms)) == [Ask(ms[0].width, ms[0].width)] + OneByOne(Widths(ms[1..]));
    }
  }

  /** An aggregate of numbers asks once for all its bytes when it is packed and the archive does not
      swap, and else member by member. */
  lemma MembersAskFor(ms: seq<Shape>, packed: bool, items: seq<Value>, swapped: bool)
    requires ms != [] && AllNumbers(ms) && SensibleAll(ms) && HaveShapes(ms, items, swapped)
    ensures var n := |EncMembers(ms, items, swapped)|;
            Asks(Tuple(ms, packed), List(items), swapped)
            == if packed && !swapped then [Ask(n, n)] else OneByOne(Widths(ms))
  {
    MembersOneByOne(ms, items, swapped);
    AsBytesIff([], Tuple(ms, packed), swapped);
  }

  lemma LongestIs(bits: nat)
    requires V.IsWidth(bits)
    ensures V.MaxSize(bits) == Longest(bits)
  {
  }

  /** A varint asks for the longest one of its type and advances over its own length. */
  lemma VarintAsksFor(bits: nat, sign: V.Sign, n: int, swapped: bool)
    requires V.IsWidth(bits)
    ensures Asks(VarInt(bits, sign), Num(n), swapped)
            == [Ask(Longest(bits), |Enc(VarInt(bits, sign), Num(n), swapped)|)]
  {
    LongestIs(bits);
  }

  lemma ZeroSizeAsks(bits: nat)
    requires V.IsWidth(bits)
    ensures SizeAsks(0, VarSize(bits)) == [Ask(Longest(bits), 1)]
  {
    LongestIs(bits);
    DivModUnique(0, Pow2(bits), 0, 0);
    assert |V.Enc(0)| == 1;
  }

  /** A message behind a varint size asks for the longest size, advances over one byte, writes the message,
      and asks for the bytes by which its size is longer than one. */
  lemma MessageAsksFor(bits: nat, m: Shape, told: nat, x: Value, swapped: bool, size: nat)
    requires V.IsWidth(bits) && size == |V.Enc(|Enc(m, x, swapped)|)|
    ensures Asks(Protocol(VarSize(bits), m), Message(told, x), swapped)
            == [Ask(Longest(bits), 1)] + (Asks(m, x, swapped) + (if size == 1 then [] else [Ask(size - 1, size - 1)]))
  {
    ZeroSizeAsks(bits);
    GapIs(|Enc(m, x, swapped)|, bits, size);
  }

  lemma GapIs(n: nat, bits: nat, size: nat)
    requires size == |V.Enc(n)|
    ensures GapAsks(n, VarSize(bits)) == if size == 1 then [] else [Ask(size - 1, size - 1)]
  {
  }

  /** Bytes that end within a number, a flag, an id or a size are out of range. */
  lemma ShortIsOutOfRange(s: seq<byte>, w: nat, e: Shape, ids: seq<nat>, alts: seq<Shape>, swapped: bool)
    requires |s| < w
    ensures Dec(Fixed(w, w == 1), s, swapped) == Fail(ResultOutOfRange)
    ensures Dec(Container(FixedSize(w), e, true), s, swapped) == Fail(ResultOutOfRange)
    ensures Dec(Variant(w, ids, alts), s, swapped) == Fail(ResultOutOfRange)
    ensures Dec(Protocol(FixedSize(w), e), s, swapped) == Fail(ResultOutOfRange)
    ensures Dec(Optional(e), [], swapped) == Fail(ResultOutOfRange)
  {
  }
}
