/** The reading archive of include/reflection/BitSerializer.h. */
module InArchive {
  import opened Bytes
  import opened Archive
  import A = ArchiveRoundTrip
  import M = MemoryImage
  import O = OutArchive
  import R = Requests
  import V = Varint

  datatype Result<T> = Loaded(value: T) | Failed(error: Error)

  /** The outcome of a list of reads once `vs` were read from `k` bytes and `tail` is what remains. */
  function Continued(vs: seq<Value>, k: nat, tail: Read<seq<Value>>): Read<seq<Value>> {
    match tail
    case Ok(ws, n) => Ok(vs + ws, k + n)
    case Fail(e) => Fail(e)
  }

  /** One read less: `first` is read, `rest` is what the others give. */
  lemma StepDown(e: Shape, left: nat, s: seq<byte>, swapped: bool, vs: seq<Value>, k: nat, goal: Read<seq<Value>>)
    returns (first: Read<Value>, rest: Read<seq<Value>>)
    requires left > 0 && goal == Continued(vs, k, DecEach(e, left, s, swapped))
    ensures first == Dec(e, s, swapped)
    ensures first.Ok? ==> first.used <= |s| && rest == DecEach(e, left - 1, s[first.used..], swapped)
                          && goal == Continued(vs + [first.value], k + first.used, rest)
    ensures first.Fail? ==> goal == Fail(first.error)
  {
    A.EachFirst(e, left, s, swapped);
    first, rest := Dec(e, s, swapped), Ok([], 0);
    if first.Ok? {
      rest := DecEach(e, left - 1, s[first.used..], swapped);
      if rest.Ok? {
        ConcatAssociates(vs, [first.value], rest.value);
      }
    }
  }

  class In {
    const data: seq<byte>
    const swapped: bool
    var position: nat

    ghost predicate Valid()
      reads this
    {
      position <= |data|
    }

    constructor (data: seq<byte>, swapped: bool)
      ensures Valid() && this.data == data && this.swapped == swapped && position == 0
    {
      this.data, this.swapped, position := data, swapped, 0;
    }

    method Reset(position: nat)
      requires position <= |data|
      modifies this
      ensures Valid() && this.position == position
    {
      this.position := position;
    }

    function Remaining(): seq<byte>
      requires Valid()
      reads this
    {
      data[position..]
    }

    /** A read did what the one-shot reading `d` of the remaining bytes says. */
    ghost predicate Did<T(!new)>(r: Result<T>, d: Read<T>, before: nat)
      reads this
    {
      && Valid() && before <= position
      && match d
         case Ok(v, k) => r == Loaded(v) && position == before + k
         case Fail(e) => r == Failed(e)
    }

    /** A block of memory. */
    method ReadBytes(n: nat) returns (r: Result<seq<byte>>)
      requires Valid()
      modifies this
      ensures Valid() && old(position) <= position
      ensures r == if n > |old(Remaining())| then Failed(ResultOutOfRange) else Loaded(old(Remaining())[..n])
      ensures r.Loaded? ==> position == old(position) + n
    {
      if n > |data| - position {
        return Failed(ResultOutOfRange);
      }
      r := Loaded(data[position..position + n]);
      assert data[position..position + n] == data[position..][..n];
      position := position + n;
    }

    method ReadFixed(w: nat) returns (r: Result<nat>)
      requires Valid()
      modifies this
      ensures Did(r, DecFixed(old(Remaining()), w, swapped), old(position))
    {
      if w > |data| - position {
        return Failed(ResultOutOfRange);
      }
      r := Loaded(FromFixed(data[position..position + w], swapped));
      assert data[position..position + w] == data[position..][..w];
      position := position + w;
    }

    method ReadVarint(bits: nat) returns (r: Result<nat>)
      requires Valid() && V.IsWidth(bits)
      modifies this
      ensures Did(r, DecVarint(old(Remaining()), bits), old(position))
      ensures r.Loaded? ==> r.value < Pow2(bits)
    {
      var d := V.Read(data[position..], bits);
      match d {
        case Ok(n, k) => r, position := Loaded(n), position + k;
        case OutOfRange => r := Failed(ResultOutOfRange);
        case TooLarge => r := Failed(ValueTooLarge);
      }
    }

    method ReadSize(size: SizeType) returns (r: Result<nat>)
      requires Valid() && SensibleSize(size)
      modifies this
      ensures Did(r, DecSize(old(Remaining()), size, swapped), old(position))
    {
      match size {
        case FixedSize(w) => r := ReadFixed(w);
        case VarSize(bits) => r := ReadVarint(bits);
      }
    }

    /** A value of the given type from the remaining bytes. */
    method Load(sh: Shape) returns (r: Result<Value>)
      requires Valid() && Sensible(sh)
      modifies this
      ensures Did(r, Dec(sh, old(Remaining()), swapped), old(position))
      decreases sh, 0, 0
    {
      match sh {
        case Fixed(w, _) =>
          var n := ReadFixed(w);
          r := match n case Loaded(x) => Loaded(Num(x)) case Failed(e) => Failed(e);
        case VarInt(bits, sign) =>
          var n := ReadVarint(bits);
          r := match n case Loaded(x) => Loaded(Num(V.FromUnsigned(x, bits, sign))) case Failed(e) => Failed(e);
        case Array(count, e) =>
          var vs := LoadItems(e, count, M.AsBytes(e, swapped));
          r := match vs case Loaded(x) => Loaded(List(x)) case Failed(e) => Failed(e);
        case Container(size, e, contiguous) => r := LoadContainer(size, e, contiguous && M.AsBytes(e, swapped));
        case Tuple(ms, packed) =>
          var vs := LoadTuple(ms, packed);
          r := match vs case Loaded(x) => Loaded(List(x)) case Failed(e) => Failed(e);
        case Optional(e) => r := LoadOptional(e);
        case Variant(w, ids, alts) => r := LoadVariant(w, ids, alts);
        case Protocol(size, m) => r := LoadProtocol(size, m);
      }
    }

    method LoadContainer(size: SizeType, e: Shape, block: bool) returns (r: Result<Value>)
      requires Valid() && SensibleSize(size) && Sensible(e) && (block ==> M.AsBytes(e, swapped))
      modifies this
      ensures Did(r, DecContainer(size, e, old(Remaining()), swapped), old(position))
      decreases e, 3, 0
    {
      ghost var s, before := Remaining(), position;
      var n := ReadSize(size);
      if n.Failed? {
        return Failed(n.error);
      }
      ghost var d := DecSize(s, size, swapped);
      DropDrop(data, before, d.used);
      assert Remaining() == s[d.used..];
      var vs := LoadItems(e, n.value, block);
      r := match vs case Loaded(x) => Loaded(List(x)) case Failed(e) => Failed(e);
    }

    /** Items side by side: their memory in one copy, or one item after the other. */
    method LoadItems(e: Shape, count: nat, block: bool) returns (r: Result<seq<Value>>)
      requires Valid() && Sensible(e) && (block ==> M.AsBytes(e, swapped))
      modifies this
      ensures Did(r, DecEach(e, count, old(Remaining()), swapped), old(position))
      decreases e, 2, 0
    {
      if block {
        M.EachIsLoaded(e, count, Remaining(), swapped);
        var bytes := ReadBytes(M.Times(count, M.Width(e)));
        r := match bytes case Loaded(s) => Loaded(M.LoadedEach(e, count, s)) case Failed(e) => Failed(e);
      } else {
        r := LoadEach(e, count);
      }
    }

    /** An aggregate: its memory in one copy, or one member after the other. */
    method LoadTuple(ms: seq<Shape>, packed: bool) returns (r: Result<seq<Value>>)
      requires Valid() && SensibleAll(ms)
      modifies this
      ensures Did(r, DecMembers(ms, old(Remaining()), swapped), old(position))
      decreases ms, 2, 0
    {
      if M.AsBytes(Tuple(ms, packed), swapped) {
        M.MembersAreLoaded(ms, Remaining());
        var bytes := ReadBytes(M.WidthOf(ms));
        r := match bytes case Loaded(s) => Loaded(M.LoadedMembers(ms, s)) case Failed(e) => Failed(e);
      } else {
        r := LoadMembers(ms);
      }
    }

    method LoadOptional(e: Shape) returns (r: Result<Value>)
      requires Valid() && Sensible(e)
      modifies this
      ensures Did(r, DecOptional(e, old(Remaining()), swapped), old(position))
      decreases e, 2, 0
    {
      ghost var s, before := Remaining(), position;
      var hasValue := ReadFixed(1);
      if hasValue.Failed? {
        return Failed(hasValue.error);
      }
      OneByteNumber(s, swapped);
      if hasValue.value == 0 {
        return Loaded(Nothing);
      }
      DropDrop(data, before, 1);
      var v := Load(e);
      r := match v case Loaded(x) => Loaded(Just(x)) case Failed(e) => Failed(e);
    }

    /** An unknown id is a bad message. */
    method LoadVariant(w: nat, ids: seq<nat>, alts: seq<Shape>) returns (r: Result<Value>)
      requires Valid() && Sensible(Variant(w, ids, alts))
      modifies this
      ensures Did(r, DecVariant(w, ids, alts, old(Remaining()), swapped), old(position))
      decreases alts, 2, 0
    {
      ghost var before := position;
      var id := ReadFixed(w);
      if id.Failed? {
        return Failed(id.error);
      }
      var i := IndexOf(ids, id.value);
      if i >= |ids| {
        return Failed(BadMessage);
      }
      DropDrop(data, before, w);
      A.SensibleAt(alts, i);
      var v := Load(alts[i]);
      r := match v case Loaded(x) => Loaded(Alternative(i, x)) case Failed(e) => Failed(e);
    }

    method LoadProtocol(size: SizeType, m: Shape) returns (r: Result<Value>)
      requires Valid() && SensibleSize(size) && Sensible(m)
      modifies this
      ensures Did(r, DecProtocol(size, m, old(Remaining()), swapped), old(position))
      decreases m, 2, 0
    {
      ghost var s, before := Remaining(), position;
      var n := ReadSize(size);
      if n.Failed? {
        return Failed(n.error);
      }
      ghost var d := DecSize(s, size, swapped);
      DropDrop(data, before, d.used);
      assert Remaining() == s[d.used..];
      var v := Load(m);
      r := match v case Loaded(x) => Loaded(Message(n.value, x)) case Failed(e) => Failed(e);
    }

    /** The loop's next element, known to be `first`. */
    method LoadNext(e: Shape, ghost first: Read<Value>) returns (r: Result<Value>)
      requires Valid() && Sensible(e) && first == Dec(e, Remaining(), swapped)
      modifies this
      ensures Valid() && old(position) <= position
      ensures r.Loaded? ==> first.Ok? && first.value == r.value && position == old(position) + first.used
                            && Remaining() == old(Remaining())[first.used..]
      ensures r.Failed? ==> first == Fail(r.error)
      decreases e, 1, 0
    {
      ghost var at := position;
      r := Load(e);
      if r.Loaded? {
        DropDrop(data, at, first.used);
      }
    }

    /** `goal` is the outcome of reading all: `vs` are read, `k` bytes of them; `left` are to be read. */
    ghost predicate EachUnderway(e: Shape, left: nat, vs: seq<Value>, k: nat, goal: Read<seq<Value>>, before: nat)
      reads this
    {
      Valid() && position == before + k && goal == Continued(vs, k, DecEach(e, left, Remaining(), swapped))
    }

    method LoadStep(e: Shape, ghost left: nat, vs: seq<Value>, ghost k: nat, ghost goal: Read<seq<Value>>,
        ghost before: nat)
      returns (r: Result<Value>, ghost k': nat)
      requires Sensible(e) && left > 0 && EachUnderway(e, left, vs, k, goal, before)
      modifies this
      ensures r.Loaded? ==> EachUnderway(e, left - 1, vs + [r.value], k', goal, before)
      ensures r.Failed? ==> Valid() && before <= position && goal == Fail(r.error)
      decreases e, 1, 1
    {
      ghost var first, rest := StepDown(e, left, Remaining(), swapped, vs, k, goal);
      r := LoadNext(e, first);
      k' := if first.Ok? then k + first.used else k;
    }

    method LoadEach(e: Shape, count: nat) returns (r: Result<seq<Value>>)
      requires Valid() && Sensible(e)
      modifies this
      ensures Did(r, DecEach(e, count, old(Remaining()), swapped), old(position))
      decreases e, 1, 2
    {
      ghost var before, k, goal := position, 0, DecEach(e, count, Remaining(), swapped);
      var vs: seq<Value>, i := [], 0;
      if goal.Ok? {
        EmptyPlus(goal.value);
      }
      while i < count
        invariant 0 <= i <= count && 0 <= k && EachUnderway(e, count - i, vs, k, goal, before)
      {
        var v;
        v, k := LoadStep(e, count - i, vs, k, goal, before);
        if v.Failed? {
          return Failed(v.error);
        }
        vs, i := vs + [v.value], i + 1;
      }
      assert vs + [] == vs;
      r := Loaded(vs);
    }

    method LoadMembers(ms: seq<Shape>) returns (r: Result<seq<Value>>)
      requires Valid() && SensibleAll(ms)
      modifies this
      ensures Did(r, DecMembers(ms, old(Remaining()), swapped), old(position))
      decreases ms, 1, 0
    {
      if ms == [] {
        return Loaded([]);
      }
      ghost var before := position;
      A.MembersFirst(ms, Remaining(), swapped);
      var v := Load(ms[0]);
      if v.Failed? {
        return Failed(v.error);
      }
      DropDrop(data, before, position - before);
      var vs := LoadMembers(ms[1..]);
      r := match vs case Loaded(x) => Loaded([v.value] + x) case Failed(e) => Failed(e);
    }
  }

  lemma OneByteNumber(s: seq<byte>, swapped: bool)
    requires |s| >= 1
    ensures FromFixed(s[..1], swapped) == s[0]
  {
    assert s[..1] == [s[0]];
    assert Reverse([s[0]]) == [s[0]];
    assert FromLE([s[0]]) == s[0];
  }

  /** What the writing archive put between `before` and `rest`, as the reading archive finds it. */
  lemma PartAfter(data: seq<byte>, at: nat, end: nat, before: seq<byte>, part: seq<byte>)
    requires at == |before| && end <= |data| && data[..end] == before + part
    ensures at <= end && data[at..] == part + data[end..]
  {
    assert data == data[..end] + data[end..];
  }

  /** The items go through an archive: written by its call operator, then read by an archive over its
      buffer, from where the writing began. Once written, they come back exactly when every size fits,
      and then the reader stands where the writer does. */
  method Through(o: O.Out, types: seq<Shape>, items: seq<Value>) returns (st: O.Status, r: Result<seq<Value>>, end: nat)
    requires o.Valid() && SensibleAll(types) && HaveShapes(types, items, o.swapped)
    modifies o
    ensures o.Told(st, EncMembers(types, items, o.swapped),
                   old(o.Outcome(R.AsksMembers(types, items, o.swapped), o.position, |o.data|)),
                   PatchableMembers(types, items, o.swapped), old(o.Written()), old(|o.data|))
    ensures st.Done? ==> (r == Loaded(items) <==> FitsMembers(types, items, o.swapped))
    ensures st.Done? && r == Loaded(items) ==> end == o.position
    ensures st.Failed? ==> r == Failed(st.error)
  {
    var start := o.position;
    ghost var before, part := o.Written(), EncMembers(types, items, o.swapped);
    st := o.Call(types, items);
    if st.Failed? {
      return st, Failed(st.error), start;
    }
    PartAfter(o.data, start, o.position, before, part);
    A.MembersReadBack(types, items, o.swapped, o.data[o.position..]);
    var reader := new In(o.data, o.swapped);
    reader.Reset(start);
    r := reader.LoadMembers(types);
    end := reader.position;
  }
}
