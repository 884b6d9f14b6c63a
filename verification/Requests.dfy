/** The requests for room that writing a value makes, one after the other: one for each item, but one
    for a whole block of memory. */
module Requests {
  import opened Bytes
  import opened Archive
  import opened Growing
  import opened MemoryImage
  import A = ArchiveRoundTrip
  import V = Varint

  function SizeAsks(n: nat, size: SizeType): seq<Ask> {
    match size
    case FixedSize(w) => [Ask(w, w)]
    case VarSize(bits) => [Ask(V.MaxSize(bits), |V.Enc(n % Pow2(bits))|)]
  }

  /** Room for the bytes by which a varint size is longer than the byte reserved for it. */
  function GapAsks(n: nat, size: SizeType): seq<Ask> {
    if size.FixedSize? || |V.Enc(n)| == 1 then [] else [Ask(|V.Enc(n)| - 1, |V.Enc(n)| - 1)]
  }

  function BlockAsks(n: nat): seq<Ask> {
    [Ask(n, n)]
  }

  function Asks(sh: Shape, v: Value, swapped: bool): seq<Ask>
    decreases sh, 0, 0
  {
    match (sh, v)
    case (Fixed(w, _), Num(n)) => [Ask(w, w)]
    case (VarInt(bits, sign), Num(n)) =>
      if bits > 0 then [Ask(V.MaxSize(bits), |V.Enc(V.ToUnsigned(n, bits, sign))|)] else []
    case (Array(_, e), List(items)) => ItemAsks(e, items, AsBytes(e, swapped), swapped)
    case (Container(size, e, contiguous), List(items)) =>
      SizeAsks(|items|, size) + ItemAsks(e, items, contiguous && AsBytes(e, swapped), swapped)
    case (Tuple(ms, _), List(items)) =>
      if AsBytes(sh, swapped) then BlockAsks(|EncMembers(ms, items, swapped)|) else AsksMembers(ms, items, swapped)
    case (Optional(e), Nothing) => [Ask(1, 1)]
    case (Optional(e), Just(x)) => [Ask(1, 1)] + Asks(e, x, swapped)
    case (Variant(w, ids, alts), Alternative(i, x)) =>
      if i < |alts| then [Ask(w, w)] + Asks(alts[i], x, swapped) else []
    case (Protocol(size, m), Message(_, x)) =>
      SizeAsks(0, size) + (Asks(m, x, swapped) + GapAsks(|Enc(m, x, swapped)|, size))
    case _ => []
  }

  /** Items side by side, as one block or one by one. */
  function ItemAsks(e: Shape, items: seq<Value>, block: bool, swapped: bool): seq<Ask>
    decreases e, 2, 0
  {
    if block then BlockAsks(|EncEach(e, items, swapped)|) else AsksEach(e, items, swapped)
  }

  function AsksEach(e: Shape, items: seq<Value>, swapped: bool): seq<Ask>
    decreases e, 1, |items|
  {
    if items == [] then [] else Asks(e, items[0], swapped) + AsksEach(e, items[1..], swapped)
  }

  function AsksMembers(ms: seq<Shape>, items: seq<Value>, swapped: bool): seq<Ask>
    decreases ms, 1, 0
  {
    if ms == [] || items == [] then [] else Asks(ms[0], items[0], swapped) + AsksMembers(ms[1..], items[1..], swapped)
  }

  // ---------------------------------------------------------------- what they advance over

  lemma ModAtMost(n: nat, m: nat)
    requires m > 0
    ensures n % m <= n
  {
    if n < m {
      DivModUnique(n, m, 0, n);
    }
  }

  /** The room opened for a varint size. */
  lemma VarintRegion(body: seq<byte>, bits: nat)
    ensures var n := |body|; var p, k := V.Enc(n % Pow2(bits)), V.Size(n);
            && |p| <= k <= n + 1 && k == |V.Enc(n)| && |Patched(body, VarSize(bits))| == k
            && Patched(body, VarSize(bits)) == p + ([0] + body)[..k][|p|..]
  {
    var n := |body|;
    V.EncSize(n);
    A.EncShort(n);
    ModAtMost(n, Pow2(bits));
    A.EncMonotone(n % Pow2(bits), n);
  }

  lemma SizeAdvance(n: nat, size: SizeType, swapped: bool)
    ensures Advances(SizeAsks(n, size)) == |SizeBytes(n, size, swapped)|
  {
  }

  /** The byte reserved for a varint size and the gap make up the size's length. */
  lemma PatchAdvance(body: seq<byte>, size: SizeType)
    requires SensibleSize(size)
    ensures Advances(SizeAsks(0, size)) + Advances(GapAsks(|body|, size)) == |Patched(body, size)|
  {
    if size.VarSize? {
      ModAtMost(0, Pow2(size.bits));
      VarintRegion(body, size.bits);
    }
  }

  lemma ContainerAdvance(size: SizeType, e: Shape, items: seq<Value>, block: bool, swapped: bool)
    requires Advances(AsksEach(e, items, swapped)) == |EncEach(e, items, swapped)|
    ensures Advances(SizeAsks(|items|, size) + ItemAsks(e, items, block, swapped))
            == |SizeBytes(|items|, size, swapped) + EncEach(e, items, swapped)|
  {
    AdvancesAppend(SizeAsks(|items|, size), ItemAsks(e, items, block, swapped));
  }

  lemma ProtocolAdvance(size: SizeType, m: Shape, x: Value, swapped: bool)
    requires SensibleSize(size) && Advances(Asks(m, x, swapped)) == |Enc(m, x, swapped)|
    ensures var body := Enc(m, x, swapped);
            Advances(SizeAsks(0, size) + (Asks(m, x, swapped) + GapAsks(|body|, size)))
            == |Patched(body, size) + body|
  {
    var body, gap := Enc(m, x, swapped), GapAsks(|Enc(m, x, swapped)|, size);
    PatchAdvance(body, size);
    AdvancesAppend(Asks(m, x, swapped), gap);
    AdvancesAppend(SizeAsks(0, size), Asks(m, x, swapped) + gap);
  }

  /** The requests advance over exactly the bytes written. */
  lemma {:induction false} AdvancesAre(sh: Shape, v: Value, swapped: bool)
    requires Sensible(sh) && HasShape(sh, v, swapped)
    ensures Advances(Asks(sh, v, swapped)) == |Enc(sh, v, swapped)|
    decreases sh, 2, 0
  {
    match (sh, v) {
      case (Array(_, _), List(_)) => ListAdvance(sh, v, swapped);
      case (Container(_, _, _), List(_)) => ListAdvance(sh, v, swapped);
      case (Tuple(_, _), List(_)) => ListAdvance(sh, v, swapped);
      case (Optional(e), Just(x)) =>
        AdvancesAre(e, x, swapped);
        AdvancesAppend([Ask(1, 1)], Asks(e, x, swapped));
      case (Variant(w, ids, alts), Alternative(i, x)) =>
        A.SensibleAt(alts, i);
        AdvancesAre(alts[i], x, swapped);
        AdvancesAppend([Ask(w, w)], Asks(alts[i], x, swapped));
      case (Protocol(size, m), Message(_, x)) =>
        AdvancesAre(m, x, swapped);
        ProtocolAdvance(size, m, x, swapped);
      case _ =>
    }
  }

  lemma {:induction false} ListAdvance(sh: Shape, v: Value, swapped: bool)
    requires Sensible(sh) && HasShape(sh, v, swapped) && v.List?
    ensures Advances(Asks(sh, v, swapped)) == |Enc(sh, v, swapped)|
    decreases sh, 1, 0
  {
    match sh {
      case Array(_, e) => EachAdvance(e, v.items, swapped);
      case Container(size, e, contiguous) =>
        EachAdvance(e, v.items, swapped);
        ContainerAdvance(size, e, v.items, contiguous && AsBytes(e, swapped), swapped);
      case Tuple(ms, _) => MembersAdvance(ms, v.items, swapped);
      case _ =>
    }
  }

  lemma {:induction false} EachAdvance(e: Shape, items: seq<Value>, swapped: bool)
    requires Sensible(e) && HaveShape(e, items, swapped)
    ensures Advances(AsksEach(e, items, swapped)) == |EncEach(e, items, swapped)|
    decreases e, 3, |items|
  {
    if items != [] {
      AdvancesAre(e, items[0], swapped);
      EachAdvance(e, items[1..], swapped);
      AdvancesAppend(Asks(e, items[0], swapped), AsksEach(e, items[1..], swapped));
    }
  }

  lemma {:induction false} MembersAdvance(ms: seq<Shape>, items: seq<Value>, swapped: bool)
    requires SensibleAll(ms) && HaveShapes(ms, items, swapped)
    ensures Advances(AsksMembers(ms, items, swapped)) == |EncMembers(ms, items, swapped)|
    decreases ms, 3, 0
  {
    if ms != [] {
      AdvancesAre(ms[0], items[0], swapped);
      MembersAdvance(ms[1..], items[1..], swapped);
      AdvancesAppend(Asks(ms[0], items[0], swapped), AsksMembers(ms[1..], items[1..], swapped));
    }
  }

  // ---------------------------------------------------------------- what suffices

  /** Whatever sizes the buffer grows through, a value is written when the enlarger grants its bytes and
      the reach of the request that reaches furthest. */
  lemma ReachSufficesFor(e: Enlarger, sh: Shape, v: Value, swapped: bool, position: nat, size: nat)
    requires SensibleEnlarger(e) && e.checked && size < TWO64 && Sensible(sh) && HasShape(sh, v, swapped)
    requires position + |Enc(sh, v, swapped)| + Reach(Asks(sh, v, swapped)) <= Largest(e)
    ensures SizeAfter(e, size, position, Asks(sh, v, swapped)).Some?
  {
    AdvancesAre(sh, v, swapped);
    ReachSuffices(e, size, position, Asks(sh, v, swapped));
  }

  lemma ReachSufficesForAll(e: Enlarger, ms: seq<Shape>, items: seq<Value>, swapped: bool, position: nat, size: nat)
    requires SensibleEnlarger(e) && e.checked && size < TWO64 && SensibleAll(ms) && HaveShapes(ms, items, swapped)
    requires position + |EncMembers(ms, items, swapped)| + Reach(AsksMembers(ms, items, swapped)) <= Largest(e)
    ensures SizeAfter(e, size, position, AsksMembers(ms, items, swapped)).Some?
  {
    MembersAdvance(ms, items, swapped);
    ReachSuffices(e, size, position, AsksMembers(ms, items, swapped));
  }

  /** No constant will do in its place: whatever the constant `c`, here are two blocks of bytes for which
      room and `c` bytes more are granted at once, but not one block after the other. */
  lemma NoConstantWillDo(c: nat, a: seq<Value>, b: seq<Value>)
    requires c < 0x1000_0000_0000_0000 && |a| == 2 * c + 2 && |b| == c + 2
    requires HaveShape(Fixed(1, true), a, false) && HaveShape(Fixed(1, true), b, false)
    ensures var types, items := [Array(|a|, Fixed(1, true)), Array(|b|, Fixed(1, true))], [List(a), List(b)];
            var e := Enlarger(3, 2, true, 6 * c + 6);
            && |EncMembers(types, items, false)| + c <= Largest(e)
            && SizeAfter(e, 0, 0, AsksMembers(types, items, false)) == None
  {
    var types, items := [Array(|a|, Fixed(1, true)), Array(|b|, Fixed(1, true))], [List(a), List(b)];
    TwoBlocks(a, b);
    NoConstantSuffices(c);
  }

  lemma TwoBlocks(a: seq<Value>, b: seq<Value>)
    requires HaveShape(Fixed(1, true), a, false) && HaveShape(Fixed(1, true), b, false)
    ensures var types, items := [Array(|a|, Fixed(1, true)), Array(|b|, Fixed(1, true))], [List(a), List(b)];
            && AsksMembers(types, items, false) == [Ask(|a|, |a|), Ask(|b|, |b|)]
            && |EncMembers(types, items, false)| == |a| + |b|
  {
    OneBlock(a);
    OneBlock(b);
    TwoMembers(Array(|a|, Fixed(1, true)), Array(|b|, Fixed(1, true)), List(a), List(b), false);
  }

  lemma OneBlock(a: seq<Value>)
    requires HaveShape(Fixed(1, true), a, false)
    ensures Asks(Array(|a|, Fixed(1, true)), List(a), false) == [Ask(|a|, |a|)]
    ensures |Enc(Array(|a|, Fixed(1, true)), List(a), false)| == |a|
  {
    EachIsEnc(Fixed(1, true), a, false);
    TimesIs(|a|, 1);
  }

  lemma TwoMembers(s: Shape, t: Shape, x: Value, y: Value, swapped: bool)
    ensures AsksMembers([s, t], [x, y], swapped) == Asks(s, x, swapped) + Asks(t, y, swapped)
    ensures EncMembers([s, t], [x, y], swapped) == Enc(s, x, swapped) + Enc(t, y, swapped)
  {
    OneMember(t, y, swapped);
    assert [s, t][1..] == [t] && [x, y][1..] == [y];
  }

  lemma OneMember(t: Shape, y: Value, swapped: bool)
    ensures AsksMembers([t], [y], swapped) == Asks(t, y, swapped) && EncMembers([t], [y], swapped) == Enc(t, y, swapped)
  {
    assert [t][1..] == [];
  }
}
