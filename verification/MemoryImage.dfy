/** Types that the archives of include/reflection/BitSerializer.h copy as blocks of memory
    (`serialize_as_bytes`): which they are, what their memory holds, and that a block copy writes and
    reads what going through the items one by one would. */
module MemoryImage {
  import opened Bytes
  import opened Archive

  /** serialize_as_bytes. A swapped archive copies nothing but byte types and arrays of them. */
  predicate AsBytes(sh: Shape, swapped: bool)
    decreases sh, 0
  {
    match sh
    case Fixed(_, byteType) => byteType || !swapped
    case Array(_, e) => AsBytes(e, swapped)
    case Tuple(ms, packed) => !swapped && packed && ms != [] && AllAsBytes(ms)
    case _ => false
  }

  predicate AllAsBytes(ms: seq<Shape>)
    decreases ms, 1
  {
    ms == [] || (AsBytes(ms[0], false) && AllAsBytes(ms[1..]))
  }

  /** `sizeof`, for these types. */
  function Width(sh: Shape): nat
    decreases sh, 0
  {
    match sh
    case Fixed(w, _) => w
    case Array(count, e) => Times(count, Width(e))
    case Tuple(ms, _) => WidthOf(ms)
    case _ => 0
  }

  function Times(n: nat, w: nat): nat {
    if n == 0 then 0 else w + Times(n - 1, w)
  }

  lemma {:induction false} TimesIs(n: nat, w: nat)
    ensures Times(n, w) == n * w
  {
    if n > 0 {
      TimesIs(n - 1, w);
    }
  }

  function WidthOf(ms: seq<Shape>): nat
    decreases ms, 1
  {
    if ms == [] then 0 else Width(ms[0]) + WidthOf(ms[1..])
  }

  // ---------------------------------------------------------------- writing

  /** The bytes a value of such a type has in a little-endian host's memory. */
  function Image(sh: Shape, v: Value): seq<byte>
    decreases sh, 0, 0
  {
    match (sh, v)
    case (Fixed(w, _), Num(n)) => if n >= 0 then ToLE(n, w) else []
    case (Array(_, e), List(items)) => ImageEach(e, items)
    case (Tuple(ms, _), List(items)) => ImageMembers(ms, items)
    case _ => []
  }

  function ImageEach(e: Shape, items: seq<Value>): seq<byte>
    decreases e, 1, |items|
  {
    if items == [] then [] else Image(e, items[0]) + ImageEach(e, items[1..])
  }

  function ImageMembers(ms: seq<Shape>, items: seq<Value>): seq<byte>
    decreases ms, 1, 0
  {
    if ms == [] || items == [] then [] else Image(ms[0], items[0]) + ImageMembers(ms[1..], items[1..])
  }

  lemma OneByteEitherWay(n: nat)
    ensures ToBE(n, 1) == ToLE(n, 1)
  {
  }

  /** A block copy writes what the items one by one would, in either byte order. */
  lemma {:induction false} ImageIsEnc(sh: Shape, v: Value, swapped: bool)
    requires Sensible(sh) && HasShape(sh, v, swapped) && AsBytes(sh, swapped)
    ensures Image(sh, v) == Enc(sh, v, swapped) && |Image(sh, v)| == Width(sh) && Patchable(sh, v, swapped)
    decreases sh, 0, 0
  {
    match (sh, v) {
      case (Fixed(w, _), Num(n)) =>
        if swapped {
          OneByteEitherWay(n);
        }
      case (Array(_, e), List(items)) => EachIsEnc(e, items, swapped);
      case (Tuple(ms, _), List(items)) => MembersAreEnc(ms, items);
      case _ =>
    }
  }

  lemma {:induction false} EachIsEnc(e: Shape, items: seq<Value>, swapped: bool)
    requires Sensible(e) && HaveShape(e, items, swapped) && AsBytes(e, swapped)
    ensures ImageEach(e, items) == EncEach(e, items, swapped) && |ImageEach(e, items)| == Times(|items|, Width(e))
    ensures PatchableEach(e, items, swapped)
    decreases e, 1, |items|
  {
    if items != [] {
      ImageIsEnc(e, items[0], swapped);
      EachIsEnc(e, items[1..], swapped);
    }
  }

  lemma {:induction false} MembersAreEnc(ms: seq<Shape>, items: seq<Value>)
    requires SensibleAll(ms) && HaveShapes(ms, items, false) && AllAsBytes(ms)
    ensures ImageMembers(ms, items) == EncMembers(ms, items, false) && |ImageMembers(ms, items)| == WidthOf(ms)
    ensures PatchableMembers(ms, items, false)
    decreases ms, 1, 0
  {
    if ms != [] {
      ImageIsEnc(ms[0], items[0], false);
      MembersAreEnc(ms[1..], items[1..]);
    }
  }

  // ---------------------------------------------------------------- reading

  /** The value whose memory holds the bytes. */
  function Loaded(sh: Shape, s: seq<byte>): Value
    requires |s| == Width(sh)
    decreases sh, 0, 0
  {
    match sh
    case Fixed(w, _) => Num(FromLE(s))
    case Array(count, e) => List(LoadedEach(e, count, s))
    case Tuple(ms, _) => List(LoadedMembers(ms, s))
    case _ => Nothing
  }

  function LoadedEach(e: Shape, count: nat, s: seq<byte>): (vs: seq<Value>)
    requires |s| == Times(count, Width(e))
    ensures |vs| == count
    decreases e, 1, count
  {
    if count == 0 then []
    else [Loaded(e, s[..Width(e)])] + LoadedEach(e, count - 1, s[Width(e)..])
  }

  function LoadedMembers(ms: seq<Shape>, s: seq<byte>): (vs: seq<Value>)
    requires |s| == WidthOf(ms)
    ensures |vs| == |ms|
    decreases ms, 1, 0
  {
    if ms == [] then []
    else [Loaded(ms[0], s[..Width(ms[0])])] + LoadedMembers(ms[1..], s[Width(ms[0])..])
  }

  lemma OneByteBothWays(s: seq<byte>)
    requires |s| == 1
    ensures FromBE(s) == FromLE(s)
  {
    assert Reverse(s) == s;
  }

  /** A block copy reads what the items one by one would. */
  lemma {:induction false} DecIsLoaded(sh: Shape, s: seq<byte>, swapped: bool)
    requires Sensible(sh) && AsBytes(sh, swapped)
    ensures Dec(sh, s, swapped)
            == if |s| < Width(sh) then Fail(ResultOutOfRange) else Ok(Loaded(sh, s[..Width(sh)]), Width(sh))
    decreases sh, 0, 0
  {
    match sh {
      case Fixed(w, _) =>
        if swapped && w <= |s| {
          OneByteBothWays(s[..w]);
        }
      case Array(count, e) => EachIsLoaded(e, count, s, swapped);
      case Tuple(ms, _) => MembersAreLoaded(ms, s);
      case _ =>
    }
  }

  /** What reading `count` items from a block of bytes gives. */
  ghost predicate ReadsEach(e: Shape, count: nat, s: seq<byte>, swapped: bool, n: nat)
    requires n == Times(count, Width(e))
  {
    DecEach(e, count, s, swapped) == if |s| < n then Fail(ResultOutOfRange) else Ok(LoadedEach(e, count, s[..n]), n)
  }

  lemma {:induction false} EachIsLoaded(e: Shape, count: nat, s: seq<byte>, swapped: bool)
    requires Sensible(e) && AsBytes(e, swapped)
    ensures ReadsEach(e, count, s, swapped, Times(count, Width(e)))
    decreases e, 1, count
  {
    if count > 0 {
      DecIsLoaded(e, s, swapped);
      if Width(e) <= |s| {
        EachIsLoaded(e, count - 1, s[Width(e)..], swapped);
        OneMoreLoaded(e, count - 1, s, s[..Width(e)], s[Width(e)..], swapped, Times(count - 1, Width(e)));
      }
    }
  }

  lemma OneMoreLoaded(e: Shape, more: nat, s: seq<byte>, first: seq<byte>, rest: seq<byte>, swapped: bool, n: nat)
    requires |first| == Width(e) && n == Times(more, Width(e)) && s == first + rest
    requires Dec(e, s, swapped) == Ok(Loaded(e, first), |first|) && ReadsEach(e, more, rest, swapped, n)
    ensures ReadsEach(e, more + 1, s, swapped, |first| + n)
  {
    FirstAndRest(e, more, first, rest, swapped, n);
    if n <= |rest| {
      assert s[..|first| + n] == first + rest[..n];
    }
  }

  lemma FirstAndRest(e: Shape, more: nat, first: seq<byte>, rest: seq<byte>, swapped: bool, n: nat)
    requires |first| == Width(e) && n == Times(more, Width(e))
    requires Dec(e, first + rest, swapped) == Ok(Loaded(e, first), |first|)
    requires |rest| < n ==> DecEach(e, more, rest, swapped) == Fail(ResultOutOfRange)
    requires |rest| >= n ==> DecEach(e, more, rest, swapped) == Ok(LoadedEach(e, more, rest[..n]), n)
    ensures |rest| < n ==> DecEach(e, more + 1, first + rest, swapped) == Fail(ResultOutOfRange)
    ensures |rest| >= n ==> DecEach(e, more + 1, first + rest, swapped)
                            == Ok(LoadedEach(e, more + 1, first + rest[..n]), |first| + n)
  {
    assert (first + rest)[|first|..] == rest;
    if n <= |rest| {
      LoadedJoin(e, more, first, rest[..n]);
    }
  }

  lemma LoadedJoin(e: Shape, more: nat, first: seq<byte>, rest: seq<byte>)
    requires |first| == Width(e) && |rest| == Times(more, Width(e))
    ensures LoadedEach(e, more + 1, first + rest) == [Loaded(e, first)] + LoadedEach(e, more, rest)
  {
    assert (first + rest)[..|first|] == first && (first + rest)[|first|..] == rest;
  }

  lemma Cut(s: seq<byte>, w: nat, n: nat)
    requires w <= n <= |s|
    ensures s[..n][..w] == s[..w] && s[..n][w..] == s[w..][..n - w]
  {
  }

  lemma {:induction false} MembersAreLoaded(ms: seq<Shape>, s: seq<byte>)
    requires SensibleAll(ms) && AllAsBytes(ms)
    ensures var n := WidthOf(ms);
            DecMembers(ms, s, false)
            == if |s| < n then Fail(ResultOutOfRange) else Ok(LoadedMembers(ms, s[..n]), n)
    decreases ms, 1, 0
  {
    if ms != [] {
      var w, n := Width(ms[0]), WidthOf(ms);
      DecIsLoaded(ms[0], s, false);
      if w <= |s| {
        MembersAreLoaded(ms[1..], s[w..]);
        if n <= |s| {
          Cut(s, w, n);
        }
      }
    }
  }
}
