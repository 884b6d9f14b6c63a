/** What the binary archive of include/reflection/BitSerializer.h writes for a value, what it reads from
    bytes, and when reading gives the written value back. */
module Archive {
  import opened Bytes
  import V = Varint

  /** The type of a size prefix: an unsigned integer of some bytes, or a varint of some bits. */
  datatype SizeType = FixedSize(width: nat) | VarSize(bits: nat)

  /** Serialisable types. Enumerations and characters are fixed-width numbers, `byteType` for `char`,
      `unsigned char` and `std::byte`; a `contiguous` container has its items side by side, behind
      `data()`; an aggregate is the tuple of its members, `packed` when it is trivially copyable and has
      no padding; an owning pointer has the shape of what it owns. */
  datatype Shape =
    | Fixed(width: nat, byteType: bool)
    | VarInt(bits: nat, sign: V.Sign)
    | Array(count: nat, element: Shape)
    | Container(size: SizeType, element: Shape, contiguous: bool)
    | Tuple(members: seq<Shape>, packed: bool)
    | Optional(inner: Shape)
    | Variant(idWidth: nat, ids: seq<nat>, alternatives: seq<Shape>)
    | Protocol(size: SizeType, message: Shape)

  /** A protocol item carries the size its protocol is told; it is the message's size in bytes. */
  datatype Value =
    | Num(n: int)
    | List(items: seq<Value>)
    | Nothing
    | Just(v: Value)
    | Alternative(index: nat, v: Value)
    | Message(size: nat, v: Value)

  // ---------------------------------------------------------------- well-formed types

  predicate SensibleSize(size: SizeType) {
    match size
    case FixedSize(w) => 0 < w <= 16
    case VarSize(bits) => V.IsWidth(bits)
  }

  /** What the compiler checks of a type; in particular variant ids are unique. */
  predicate Sensible(sh: Shape)
    decreases sh, 0
  {
    match sh
    case Fixed(w, byteType) => 0 < w <= 16 && (byteType ==> w == 1)
    case VarInt(bits, _) => V.IsWidth(bits)
    case Array(_, e) => Sensible(e)
    case Container(size, e, _) => SensibleSize(size) && Sensible(e)
    case Tuple(ms, _) => SensibleAll(ms)
    case Optional(e) => Sensible(e)
    case Variant(w, ids, alts) =>
      && 0 < w <= 16 && |ids| == |alts| && (forall i | 0 <= i < |ids| :: ids[i] < Pow256(w))
      && (forall i, j | 0 <= i < j < |ids| :: ids[i] != ids[j]) && SensibleAll(alts)
    case Protocol(size, m) => SensibleSize(size) && Sensible(m)
  }

  predicate SensibleAll(ms: seq<Shape>)
    decreases ms, 1
  {
    ms == [] || (Sensible(ms[0]) && SensibleAll(ms[1..]))
  }

  // ---------------------------------------------------------------- writing

  /** A number in the archive's byte order; `swapped` archives reverse the little-endian host's. */
  function FixedBytes(n: nat, w: nat, swapped: bool): (s: seq<byte>)
    ensures |s| == w
  {
    if swapped then ToBE(n, w) else ToLE(n, w)
  }

  function FromFixed(s: seq<byte>, swapped: bool): nat {
    if swapped then FromBE(s) else FromLE(s)
  }

  /** A size cast to its type and written in the archive's order. */
  function SizeBytes(n: nat, size: SizeType, swapped: bool): seq<byte> {
    match size
    case FixedSize(w) => FixedBytes(n, w, swapped)
    case VarSize(bits) => V.Enc(n % Pow2(bits))
  }

  /** What precedes a message once its size is patched in. The patch is written by an archive without
      options, so in the host's order. A varint is patched over the room opened for the uncast size;
      when the cast size needs less room, bytes moved from there stay behind. */
  function Patched(message: seq<byte>, size: SizeType): seq<byte> {
    var n := |message|;
    match size
    case FixedSize(w) => ToLE(n, w)
    case VarSize(bits) =>
      var p, k := V.Enc(n % Pow2(bits)), |V.Enc(n)|;
      p + (if |p| < k <= n + 1 then ([0] + message)[|p|..k] else [])
  }

  /** The patching archive spans as many bytes as the size's integer type has. */
  predicate SizePatchable(n: nat, size: SizeType) {
    size.VarSize? ==> |V.Enc(n % Pow2(size.bits))| <= size.bits / 8
  }

  function Enc(sh: Shape, v: Value, swapped: bool): seq<byte>
    decreases sh, 0, 0
  {
    match (sh, v)
    case (Fixed(w, _), Num(n)) => if n >= 0 then FixedBytes(n, w, swapped) else []
    case (VarInt(bits, sign), Num(n)) => if bits > 0 then V.Enc(V.ToUnsigned(n, bits, sign)) else []
    case (Array(_, e), List(items)) => EncEach(e, items, swapped)
    case (Container(size, e, _), List(items)) => SizeBytes(|items|, size, swapped) + EncEach(e, items, swapped)
    case (Tuple(ms, _), List(items)) => EncMembers(ms, items, swapped)
    case (Optional(e), Nothing) => [0]
    case (Optional(e), Just(x)) => [1] + Enc(e, x, swapped)
    case (Variant(w, ids, alts), Alternative(i, x)) =>
      if i < |ids| && i < |alts| then FixedBytes(ids[i], w, swapped) + Enc(alts[i], x, swapped) else []
    case (Protocol(size, m), Message(_, x)) => var body := Enc(m, x, swapped); Patched(body, size) + body
    case _ => []
  }

  function EncEach(e: Shape, items: seq<Value>, swapped: bool): seq<byte>
    decreases e, 1, |items|
  {
    if items == [] then [] else Enc(e, items[0], swapped) + EncEach(e, items[1..], swapped)
  }

  function EncMembers(ms: seq<Shape>, items: seq<Value>, swapped: bool): seq<byte>
    decreases ms, 1, 0
  {
    if ms == [] || items == [] then [] else Enc(ms[0], items[0], swapped) + EncMembers(ms[1..], items[1..], swapped)
  }

  /** The value belongs to the type. */
  predicate HasShape(sh: Shape, v: Value, swapped: bool)
    decreases sh, 0, 0
  {
    match (sh, v)
    case (Fixed(w, _), Num(n)) => 0 <= n < Pow256(w)
    case (VarInt(bits, sign), Num(n)) => bits > 0 && V.InRange(n, bits, sign)
    case (Array(count, e), List(items)) => |items| == count && HaveShape(e, items, swapped)
    case (Container(_, e, _), List(items)) => HaveShape(e, items, swapped)
    case (Tuple(ms, _), List(items)) => HaveShapes(ms, items, swapped)
    case (Optional(e), Nothing) => true
    case (Optional(e), Just(x)) => HasShape(e, x, swapped)
    case (Variant(_, ids, alts), Alternative(i, x)) => i < |alts| && HasShape(alts[i], x, swapped)
    case (Protocol(_, m), Message(n, x)) => HasShape(m, x, swapped) && n == |Enc(m, x, swapped)|
    case _ => false
  }

  predicate HaveShape(e: Shape, items: seq<Value>, swapped: bool)
    decreases e, 1, |items|
  {
    items == [] || (HasShape(e, items[0], swapped) && HaveShape(e, items[1..], swapped))
  }

  predicate HaveShapes(ms: seq<Shape>, items: seq<Value>, swapped: bool)
    decreases ms, 1, 0
  {
    |ms| == |items| && (ms == [] || (HasShape(ms[0], items[0], swapped) && HaveShapes(ms[1..], items[1..], swapped)))
  }

  /** No size patch is refused. */
  predicate Patchable(sh: Shape, v: Value, swapped: bool)
    decreases sh, 0, 0
  {
    match (sh, v)
    case (Array(_, e), List(items)) => PatchableEach(e, items, swapped)
    case (Container(_, e, _), List(items)) => PatchableEach(e, items, swapped)
    case (Tuple(ms, _), List(items)) => PatchableMembers(ms, items, swapped)
    case (Optional(e), Just(x)) => Patchable(e, x, swapped)
    case (Variant(_, ids, alts), Alternative(i, x)) => i < |alts| ==> Patchable(alts[i], x, swapped)
    case (Protocol(size, m), Message(_, x)) => Patchable(m, x, swapped) && SizePatchable(|Enc(m, x, swapped)|, size)
    case _ => true
  }

  predicate PatchableEach(e: Shape, items: seq<Value>, swapped: bool)
    decreases e, 1, |items|
  {
    items == [] || (Patchable(e, items[0], swapped) && PatchableEach(e, items[1..], swapped))
  }

  predicate PatchableMembers(ms: seq<Shape>, items: seq<Value>, swapped: bool)
    decreases ms, 1, 0
  {
    ms == [] || items == [] || (Patchable(ms[0], items[0], swapped) && PatchableMembers(ms[1..], items[1..], swapped))
  }

  // ---------------------------------------------------------------- when sizes fit

  predicate CountFits(n: nat, size: SizeType) {
    match size
    case FixedSize(w) => n < Pow256(w)
    case VarSize(bits) => n < Pow2(bits)
  }

  /** The size of a message reaches the reader: it fits its type; a varint of it is no longer than the
      integer type; and in a swapped archive a fixed-width size reads the same both ways. */
  predicate MessageSizeFits(n: nat, size: SizeType, swapped: bool) {
    match size
    case FixedSize(w) => n < Pow256(w) && (swapped ==> ToBE(n, w) == ToLE(n, w))
    case VarSize(bits) => |V.Enc(n)| <= bits / 8
  }

  predicate Fits(sh: Shape, v: Value, swapped: bool)
    decreases sh, 0, 0
  {
    match (sh, v)
    case (Array(_, e), List(items)) => FitsEach(e, items, swapped)
    case (Container(size, e, _), List(items)) => CountFits(|items|, size) && FitsEach(e, items, swapped)
    case (Tuple(ms, _), List(items)) => FitsMembers(ms, items, swapped)
    case (Optional(e), Just(x)) => Fits(e, x, swapped)
    case (Variant(_, ids, alts), Alternative(i, x)) => i < |alts| ==> Fits(alts[i], x, swapped)
    case (Protocol(size, m), Message(_, x)) =>
      MessageSizeFits(|Enc(m, x, swapped)|, size, swapped) && Fits(m, x, swapped)
    case _ => true
  }

  predicate FitsEach(e: Shape, items: seq<Value>, swapped: bool)
    decreases e, 1, |items|
  {
    items == [] || (Fits(e, items[0], swapped) && FitsEach(e, items[1..], swapped))
  }

  predicate FitsMembers(ms: seq<Shape>, items: seq<Value>, swapped: bool)
    decreases ms, 1, 0
  {
    ms == [] || items == [] || (Fits(ms[0], items[0], swapped) && FitsMembers(ms[1..], items[1..], swapped))
  }

  // ---------------------------------------------------------------- reading

  datatype Error = ResultOutOfRange | ValueTooLarge | BadMessage | NoBufferSpace

  datatype Read<T> = Ok(value: T, used: nat) | Fail(error: Error)

  function DecFixed(s: seq<byte>, w: nat, swapped: bool): (r: Read<nat>)
    ensures r.Ok? ==> r.used <= |s|
  {
    if w > |s| then Fail(ResultOutOfRange) else Ok(FromFixed(s[..w], swapped), w)
  }

  function DecVarint(s: seq<byte>, bits: nat): (r: Read<nat>)
    ensures r.Ok? ==> r.used <= |s| && r.value < Pow2(bits)
  {
    match V.Decode(s, bits)
    case Ok(n, k) => Ok(n, k)
    case OutOfRange => Fail(ResultOutOfRange)
    case TooLarge => Fail(ValueTooLarge)
  }

  function DecSize(s: seq<byte>, size: SizeType, swapped: bool): (r: Read<nat>)
    ensures r.Ok? ==> r.used <= |s|
  {
    match size
    case FixedSize(w) => DecFixed(s, w, swapped)
    case VarSize(bits) => DecVarint(s, bits)
  }

  /** The first index with the id; `|ids|` when there is none. */
  function IndexOf(ids: seq<nat>, id: nat): (i: nat)
    ensures i <= |ids| && (i < |ids| ==> ids[i] == id)
  {
    if ids == [] then 0 else if ids[0] == id then 0 else 1 + IndexOf(ids[1..], id)
  }

  function Dec(sh: Shape, s: seq<byte>, swapped: bool): (r: Read<Value>)
    ensures r.Ok? ==> r.used <= |s|
    decreases sh, 0, 0
  {
    match sh
    case Fixed(w, _) => (match DecFixed(s, w, swapped) case Ok(n, k) => Ok(Num(n), k) case Fail(e) => Fail(e))
    case VarInt(bits, sign) =>
      (match DecVarint(s, bits)
       case Ok(n, k) => Ok(Num(if bits > 0 then V.FromUnsigned(n, bits, sign) else 0), k)
       case Fail(e) => Fail(e))
    case Array(count, e) =>
      (match DecEach(e, count, s, swapped) case Ok(vs, k) => Ok(List(vs), k) case Fail(e) => Fail(e))
    case Container(size, e, _) => DecContainer(size, e, s, swapped)
    case Tuple(ms, _) => (match DecMembers(ms, s, swapped) case Ok(vs, k) => Ok(List(vs), k) case Fail(e) => Fail(e))
    case Optional(e) => DecOptional(e, s, swapped)
    case Variant(w, ids, alts) => DecVariant(w, ids, alts, s, swapped)
    case Protocol(size, m) => DecProtocol(size, m, s, swapped)
  }

  function DecContainer(size: SizeType, e: Shape, s: seq<byte>, swapped: bool): (r: Read<Value>)
    ensures r.Ok? ==> r.used <= |s|
    decreases e, 2, 0
  {
    match DecSize(s, size, swapped)
    case Fail(e) => Fail(e)
    case Ok(n, j) => match DecEach(e, n, s[j..], swapped) case Ok(vs, k) => Ok(List(vs), j + k) case Fail(e) => Fail(e)
  }

  function DecOptional(e: Shape, s: seq<byte>, swapped: bool): (r: Read<Value>)
    ensures r.Ok? ==> r.used <= |s|
    decreases e, 2, 0
  {
    if s == [] then Fail(ResultOutOfRange)
    else if s[0] == 0 then Ok(Nothing, 1)
    else match Dec(e, s[1..], swapped) case Ok(v, k) => Ok(Just(v), 1 + k) case Fail(e) => Fail(e)
  }

  /** An unknown id is a bad message. */
  function DecVariant(w: nat, ids: seq<nat>, alts: seq<Shape>, s: seq<byte>, swapped: bool): (r: Read<Value>)
    ensures r.Ok? ==> r.used <= |s|
    decreases alts, 2, 0
  {
    match DecFixed(s, w, swapped)
    case Fail(e) => Fail(e)
    case Ok(id, j) =>
      var i := IndexOf(ids, id);
      if i >= |ids| || i >= |alts| then Fail(BadMessage)
      else match Dec(alts[i], s[j..], swapped) case Ok(v, k) => Ok(Alternative(i, v), j + k) case Fail(e) => Fail(e)
  }

  function DecProtocol(size: SizeType, m: Shape, s: seq<byte>, swapped: bool): (r: Read<Value>)
    ensures r.Ok? ==> r.used <= |s|
    decreases m, 2, 0
  {
    match DecSize(s, size, swapped)
    case Fail(e) => Fail(e)
    case Ok(n, j) => match Dec(m, s[j..], swapped) case Ok(v, k) => Ok(Message(n, v), j + k) case Fail(e) => Fail(e)
  }

  /** A value read from the first `j` bytes, before those of `tail`. */
  function Prepend<T>(v: T, j: nat, tail: Read<seq<T>>): Read<seq<T>> {
    match tail
    case Ok(vs, k) => Ok([v] + vs, j + k)
    case Fail(e) => Fail(e)
  }

  function DecEach(e: Shape, count: nat, s: seq<byte>, swapped: bool): (r: Read<seq<Value>>)
    ensures r.Ok? ==> r.used <= |s| && |r.value| == count
    decreases e, 1, count
  {
    if count == 0 then Ok([], 0)
    else
      match Dec(e, s, swapped)
      case Fail(e) => Fail(e)
      case Ok(v, j) => Prepend(v, j, DecEach(e, count - 1, s[j..], swapped))
  }

  function DecMembers(ms: seq<Shape>, s: seq<byte>, swapped: bool): (r: Read<seq<Value>>)
    ensures r.Ok? ==> r.used <= |s| && |r.value| == |ms|
    decreases ms, 1, 0
  {
    if ms == [] then Ok([], 0)
    else
      match Dec(ms[0], s, swapped)
      case Fail(e) => Fail(e)
      case Ok(v, j) => Prepend(v, j, DecMembers(ms[1..], s[j..], swapped))
  }
}
