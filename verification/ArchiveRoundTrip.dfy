/** Reading back what was written: value by value, for every type. */
module ArchiveRoundTrip {
  import opened Bytes
  import opened Archive
  import V = Varint

  /** The read gives the value and takes exactly its `n` bytes when it fits, and never gives the value
      when it does not. */
  ghost predicate Exact<T(!new)>(r: Read<T>, fits: bool, v: T, n: nat) {
    if fits then r == Ok(v, n) else !(r.Ok? && r.value == v)
  }

  // ---------------------------------------------------------------- numbers and sizes

  lemma FixedReadsBack(n: nat, w: nat, swapped: bool, rest: seq<byte>)
    ensures DecFixed(FixedBytes(n, w, swapped) + rest, w, swapped) == Ok(n % Pow256(w), w)
  {
    var s := FixedBytes(n, w, swapped);
    assert (s + rest)[..w] == s;
    LERoundTrip(n, w);
    BERoundTrip(n, w);
  }

  lemma VarReadsBack(n: nat, bits: nat, rest: seq<byte>)
    requires n < Pow2(bits)
    ensures DecVarint(V.Enc(n) + rest, bits) == Ok(n, |V.Enc(n)|)
  {
    V.DecodeEnc(n, bits, rest);
  }

  lemma ModIsSelf(n: nat, m: nat)
    requires m > 0
    ensures n % m == n <==> n < m
  {
    if n < m {
      DivModUnique(n, m, 0, n);
    }
  }

  lemma SizeReadsBack(n: nat, size: SizeType, swapped: bool, rest: seq<byte>)
    ensures Exact(DecSize(SizeBytes(n, size, swapped) + rest, size, swapped), CountFits(n, size), n,
            |SizeBytes(n, size, swapped)|)
  {
    match size {
      case FixedSize(w) =>
        FixedReadsBack(n, w, swapped, rest);
        ModIsSelf(n, Pow256(w));
      case VarSize(bits) =>
        VarReadsBack(n % Pow2(bits), bits, rest);
        ModIsSelf(n, Pow2(bits));
    }
  }

  lemma {:induction false} EncMonotone(a: nat, b: nat)
    requires a <= b
    ensures |V.Enc(a)| <= |V.Enc(b)|
  {
    if a >= 128 {
      EncMonotone(a / 128, b / 128);
    }
  }

  lemma {:induction false} EncShort(n: nat)
    ensures |V.Enc(n)| <= n + 1
  {
    if n >= 128 {
      EncShort(n / 128);
    }
  }

  lemma EncBounds(n: nat)
    ensures n < Pow2(7 * |V.Enc(n)|)
  {
    var s := V.Enc(n);
    V.GroupsEnc(n);
    V.GroupsNext(s + [0], |s|);
    assert (s + [0])[..|s|] == s;
  }

  /** A varint size that the patching archive has room for is not truncated by its type. */
  lemma ShortVarintFits(n: nat, bits: nat)
    requires |V.Enc(n)| <= bits / 8
    ensures n < Pow2(bits)
  {
    EncBounds(n);
    PowMonotone(7 * |V.Enc(n)|, bits);
  }

  lemma SwappedSize(n: nat, w: nat)
    ensures FromBE(ToLE(n, w)) == n <==> n < Pow256(w) && ToBE(n, w) == ToLE(n, w)
  {
    BERoundTrip(n, w);
    ModIsSelf(n, Pow256(w));
    BEBound(ToLE(n, w));
    if FromBE(ToLE(n, w)) == n {
      LEOfNumber(Reverse(ToLE(n, w)));
      ReverseTwice(ToLE(n, w));
    }
  }

  lemma {:induction false} LEOfNumber(s: seq<byte>)
    ensures ToLE(FromLE(s), |s|) == s
  {
    if s != [] {
      LEOfNumber(s[1..]);
      var n := FromLE(s);
      assert n % 256 == s[0] && n / 256 == FromLE(s[1..]);
      assert s == [s[0]] + s[1..];
    }
  }

  /** What the reader is told of a patched size. */
  lemma PatchReadsBack(body: seq<byte>, size: SizeType, swapped: bool, rest: seq<byte>)
    requires SizePatchable(|body|, size)
    ensures Exact(DecSize(Patched(body, size) + rest, size, swapped), MessageSizeFits(|body|, size, swapped),
                  |body|, |Patched(body, size)|)
  {
    var n := |body|;
    match size {
      case FixedSize(w) =>
        var s := ToLE(n, w);
        assert (s + rest)[..w] == s;
        LERoundTrip(n, w);
        ModIsSelf(n, Pow256(w));
        SwappedSize(n, w);
      case VarSize(bits) =>
        var p, gap := V.Enc(n % Pow2(bits)), Patched(body, size)[|V.Enc(n % Pow2(bits))|..];
        assert Patched(body, size) == p + gap;
        ConcatAssociates(p, gap, rest);
        VarReadsBack(n % Pow2(bits), bits, gap + rest);
        ModIsSelf(n, Pow2(bits));
        if |V.Enc(n)| <= bits / 8 {
          ShortVarintFits(n, bits);
        }
    }
  }

  // ---------------------------------------------------------------- composition

  lemma SkipFirst(a: seq<byte>, b: seq<byte>, rest: seq<byte>)
    ensures (a + b) + rest == a + (b + rest) && (a + (b + rest))[|a|..] == b + rest
  {
  }

  ghost predicate ReadsBack(sh: Shape, v: Value, swapped: bool, rest: seq<byte>) {
    Exact(Dec(sh, Enc(sh, v, swapped) + rest, swapped), Fits(sh, v, swapped), v, |Enc(sh, v, swapped)|)
  }

  lemma VarIntCase(bits: nat, sign: V.Sign, n: int, swapped: bool, rest: seq<byte>)
    requires bits > 0 && V.InRange(n, bits, sign)
    ensures ReadsBack(VarInt(bits, sign), Num(n), swapped, rest)
  {
    VarReadsBack(V.ToUnsigned(n, bits, sign), bits, rest);
    V.SignRoundTrip(n, bits, sign);
  }

  lemma FixedCase(w: nat, byteType: bool, n: nat, swapped: bool, rest: seq<byte>)
    requires n < Pow256(w)
    ensures ReadsBack(Fixed(w, byteType), Num(n), swapped, rest)
  {
    FixedReadsBack(n, w, swapped, rest);
    ModIsSelf(n, Pow256(w));
  }

  lemma ContainerCase(size: SizeType, e: Shape, contiguous: bool, items: seq<Value>, swapped: bool, rest: seq<byte>)
    requires Exact(DecEach(e, |items|, EncEach(e, items, swapped) + rest, swapped),
                   FitsEach(e, items, swapped), items, |EncEach(e, items, swapped)|)
    ensures ReadsBack(Container(size, e, contiguous), List(items), swapped, rest)
  {
    var a, b := SizeBytes(|items|, size, swapped), EncEach(e, items, swapped);
    SkipFirst(a, b, rest);
    SizeReadsBack(|items|, size, swapped, b + rest);
  }

  lemma JustCase(e: Shape, x: Value, swapped: bool, rest: seq<byte>)
    requires ReadsBack(e, x, swapped, rest)
    ensures ReadsBack(Optional(e), Just(x), swapped, rest)
  {
    SkipFirst([1], Enc(e, x, swapped), rest);
  }

  lemma {:induction false} IndexOfUnique(ids: seq<nat>, i: nat)
    requires i < |ids| && forall j, k | 0 <= j < k < |ids| :: ids[j] != ids[k]
    ensures IndexOf(ids, ids[i]) == i
  {
    if i > 0 {
      IndexOfUnique(ids[1..], i - 1);
    }
  }

  lemma {:induction false} SensibleAt(ms: seq<Shape>, i: nat)
    requires SensibleAll(ms) && i < |ms|
    ensures Sensible(ms[i])
  {
    if i > 0 {
      SensibleAt(ms[1..], i - 1);
    }
  }

  lemma VariantCase(w: nat, ids: seq<nat>, alts: seq<Shape>, i: nat, x: Value, swapped: bool, rest: seq<byte>)
    requires Sensible(Variant(w, ids, alts)) && i < |alts| && ReadsBack(alts[i], x, swapped, rest)
    ensures ReadsBack(Variant(w, ids, alts), Alternative(i, x), swapped, rest)
  {
    var a, b := FixedBytes(ids[i], w, swapped), Enc(alts[i], x, swapped);
    SkipFirst(a, b, rest);
    FixedReadsBack(ids[i], w, swapped, b + rest);
    ModIsSelf(ids[i], Pow256(w));
    IndexOfUnique(ids, i);
  }

  /** A size in front of a message: read back together exactly when both are. */
  lemma BehindSize(size: SizeType, m: Shape, x: Value, n: nat, a: seq<byte>, b: seq<byte>, k: nat, swapped: bool,
                   told: bool, fits: bool)
    requires Exact(DecSize(a + b, size, swapped), told, n, |a|) && Exact(Dec(m, b, swapped), fits, x, k)
    ensures Exact(DecProtocol(size, m, a + b, swapped), told && fits, Message(n, x), |a| + k)
  {
    assert (a + b)[|a|..] == b;
  }

  lemma ProtocolCase(size: SizeType, m: Shape, x: Value, swapped: bool, rest: seq<byte>)
    requires SizePatchable(|Enc(m, x, swapped)|, size) && ReadsBack(m, x, swapped, rest)
    ensures ReadsBack(Protocol(size, m), Message(|Enc(m, x, swapped)|, x), swapped, rest)
  {
    var body := Enc(m, x, swapped);
    var a, n := Patched(body, size), |body|;
    SkipFirst(a, body, rest);
    PatchReadsBack(body, size, swapped, body + rest);
    BehindSize(size, m, x, n, a, body + rest, n, swapped, MessageSizeFits(n, size, swapped), Fits(m, x, swapped));
  }

  /** Reading back what was written, with any bytes after it: exactly when every size fits its type. */
  lemma {:induction false} RoundTripIff(sh: Shape, v: Value, swapped: bool, rest: seq<byte>)
    requires Sensible(sh) && HasShape(sh, v, swapped) && Patchable(sh, v, swapped)
    ensures ReadsBack(sh, v, swapped, rest)
    decreases sh, 2, 0
  {
    match (sh, v) {
      case (Fixed(w, byteType), Num(n)) => FixedCase(w, byteType, n, swapped, rest);
      case (VarInt(bits, sign), Num(n)) => VarIntCase(bits, sign, n, swapped, rest);
      case (Array(_, _), List(_)) => ListsReadBack(sh, v, swapped, rest);
      case (Container(_, _, _), List(_)) => ListsReadBack(sh, v, swapped, rest);
      case (Tuple(_, _), List(_)) => ListsReadBack(sh, v, swapped, rest);
      case (Optional(e), Nothing) =>
      case (Optional(e), Just(x)) =>
        RoundTripIff(e, x, swapped, rest);
        JustCase(e, x, swapped, rest);
      case (Variant(w, ids, alts), Alternative(i, x)) =>
        SensibleAt(alts, i);
        RoundTripIff(alts[i], x, swapped, rest);
        VariantCase(w, ids, alts, i, x, swapped, rest);
      case (Protocol(size, m), Message(_, x)) =>
        RoundTripIff(m, x, swapped, rest);
        ProtocolCase(size, m, x, swapped, rest);
      case _ =>
    }
  }

  lemma {:induction false} ListsReadBack(sh: Shape, v: Value, swapped: bool, rest: seq<byte>)
    requires Sensible(sh) && HasShape(sh, v, swapped) && Patchable(sh, v, swapped) && v.List?
    ensures ReadsBack(sh, v, swapped, rest)
    decreases sh, 1, 0
  {
    match sh {
      case Array(_, e) => EachReadsBack(e, v.items, swapped, rest);
      case Container(size, e, contiguous) =>
        EachReadsBack(e, v.items, swapped, rest);
        ContainerCase(size, e, contiguous, v.items, swapped, rest);
      case Tuple(ms, _) => MembersReadBack(ms, v.items, swapped, rest);
      case _ =>
    }
  }

  /** One read in front of the others. */
  lemma FirstThenRest(first: Read<Value>, tail: Read<seq<Value>>, whole: Read<seq<Value>>, fits: bool, fitsAll: bool,
                      items: seq<Value>, j: nat, k: nat)
    requires items != [] && Exact(first, fits, items[0], j) && Exact(tail, fitsAll, items[1..], k)
    requires fits ==> whole == Prepend(items[0], j, tail)
    requires whole.Ok? ==> whole.value != [] && first.Ok? && whole.value[0] == first.value
    ensures Exact(whole, fits && fitsAll, items, j + k)
  {
    assert items == [items[0]] + items[1..];
    if fits && tail.Ok? {
      assert ([items[0]] + tail.value)[1..] == tail.value;
    }
  }

  lemma EachFirst(e: Shape, count: nat, s: seq<byte>, swapped: bool)
    requires count > 0
    ensures var first, whole := Dec(e, s, swapped), DecEach(e, count, s, swapped);
            && (first.Ok?
                ==> whole == Prepend(first.value, first.used, DecEach(e, count - 1, s[first.used..], swapped)))
            && (whole.Ok? ==> whole.value != [] && first.Ok? && whole.value[0] == first.value)
  {
  }

  lemma {:induction false} EachReadsBack(e: Shape, items: seq<Value>, swapped: bool, rest: seq<byte>)
    requires Sensible(e) && HaveShape(e, items, swapped) && PatchableEach(e, items, swapped)
    ensures Exact(DecEach(e, |items|, EncEach(e, items, swapped) + rest, swapped),
                  FitsEach(e, items, swapped), items, |EncEach(e, items, swapped)|)
    decreases e, 3, |items|
  {
    if items != [] {
      RoundTripIff(e, items[0], swapped, EncEach(e, items[1..], swapped) + rest);
      EachReadsBack(e, items[1..], swapped, rest);
      EachStep(e, items, swapped, rest);
    }
  }

  lemma EachStep(e: Shape, items: seq<Value>, swapped: bool, rest: seq<byte>)
    requires items != [] && ReadsBack(e, items[0], swapped, EncEach(e, items[1..], swapped) + rest)
    requires Exact(DecEach(e, |items[1..]|, EncEach(e, items[1..], swapped) + rest, swapped),
                   FitsEach(e, items[1..], swapped), items[1..], |EncEach(e, items[1..], swapped)|)
    ensures Exact(DecEach(e, |items|, EncEach(e, items, swapped) + rest, swapped),
                  FitsEach(e, items, swapped), items, |EncEach(e, items, swapped)|)
  {
    var a, b := Enc(e, items[0], swapped), EncEach(e, items[1..], swapped);
    SkipFirst(a, b, rest);
    EachFirst(e, |items|, a + (b + rest), swapped);
    FirstThenRest(Dec(e, a + (b + rest), swapped), DecEach(e, |items| - 1, b + rest, swapped),
                  DecEach(e, |items|, a + (b + rest), swapped),
                  Fits(e, items[0], swapped), FitsEach(e, items[1..], swapped), items, |a|, |b|);
  }

  lemma MembersFirst(ms: seq<Shape>, s: seq<byte>, swapped: bool)
    requires ms != []
    ensures var first, whole := Dec(ms[0], s, swapped), DecMembers(ms, s, swapped);
            && (first.Ok? ==> whole == Prepend(first.value, first.used, DecMembers(ms[1..], s[first.used..], swapped)))
            && (whole.Ok? ==> whole.value != [] && first.Ok? && whole.value[0] == first.value)
  {
  }

  lemma {:induction false} MembersReadBack(ms: seq<Shape>, items: seq<Value>, swapped: bool, rest: seq<byte>)
    requires SensibleAll(ms) && HaveShapes(ms, items, swapped) && PatchableMembers(ms, items, swapped)
    ensures Exact(DecMembers(ms, EncMembers(ms, items, swapped) + rest, swapped),
                  FitsMembers(ms, items, swapped), items, |EncMembers(ms, items, swapped)|)
    decreases ms, 3, 0
  {
    if ms != [] {
      var a, b := Enc(ms[0], items[0], swapped), EncMembers(ms[1..], items[1..], swapped);
      RoundTripIff(ms[0], items[0], swapped, b + rest);
      MembersReadBack(ms[1..], items[1..], swapped, rest);
      SkipFirst(a, b, rest);
      MembersFirst(ms, a + (b + rest), swapped);
      FirstThenRest(Dec(ms[0], a + (b + rest), swapped), DecMembers(ms[1..], b + rest, swapped),
                    DecMembers(ms, a + (b + rest), swapped),
                    Fits(ms[0], items[0], swapped), FitsMembers(ms[1..], items[1..], swapped), items, |a|, |b|);
    }
  }

  // ---------------------------------------------------------------- the limits, for callers

  lemma {:induction false} ShortEnc(n: nat, w: nat)
    requires n < Pow2(7 * w) && w > 0
    ensures |V.Enc(n)| <= w
  {
    if n >= 128 {
      V.Shrink7(n, 7 * w);
      V.Pow2Of7();
      ShortEnc(n / 128, w - 1);
    }
  }

  /** A message behind a varint size of a `w`-byte type must be shorter than 128^w bytes, though the
      type could express up to 256^w - 1. */
  lemma VarintSizeLimit(n: nat, bits: nat)
    requires V.IsWidth(bits)
    ensures MessageSizeFits(n, VarSize(bits), false) <==> n < Pow2(7 * (bits / 8))
  {
    var w := bits / 8;
    if n < Pow2(7 * w) {
      ShortEnc(n, w);
    }
    if |V.Enc(n)| <= w {
      EncBounds(n);
      PowMonotone(7 * |V.Enc(n)|, 7 * w);
    }
  }

  /** In a swapped archive a one-byte message behind a two-byte size announces 256 bytes. */
  lemma SwappedSizeMisread(message: seq<byte>, rest: seq<byte>)
    requires |message| == 1
    ensures !MessageSizeFits(1, FixedSize(2), true)
    ensures DecSize(Patched(message, FixedSize(2)) + rest, FixedSize(2), true) == Ok(256, 2)
  {
    var p: seq<byte> := [1, 0];
    assert ToLE(1, 2) == p by {
      assert ToLE(0, 1) == [0];
    }
    assert Patched(message, FixedSize(2)) == p && (p + rest)[..2] == p;
    SwapOfTwo(1, 0);
    SwappedSize(1, 2);
  }

  lemma SwapOfTwo(a: byte, b: byte)
    ensures FromBE([a, b]) == 256 * a + b
  {
    assert [a, b][1..] == [b] && [b][1..] == [];
    assert Reverse([a, b]) == [b, a];
    assert [b, a][1..] == [a] && [a][1..] == [];
    assert FromLE([a]) == a + 256 * FromLE([]);
    assert FromLE([b, a]) == b + 256 * FromLE([a]);
  }
}
