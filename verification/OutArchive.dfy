/** The writing archive of include/reflection/BitSerializer.h. */
module OutArchive {
  import opened Bytes
  import opened Archive
  import opened Growing
  import opened MemoryImage
  import opened Requests
  import A = ArchiveRoundTrip
  import V = Varint

  // ---------------------------------------------------------------- the archive

  /** `s` with `p` written over it at `at`. */
  function Over(s: seq<byte>, at: nat, p: seq<byte>): (r: seq<byte>)
    requires at + |p| <= |s|
    ensures |r| == |s|
  {
    s[..at] + p + s[at + |p|..]
  }

  lemma OverPrefix(s: seq<byte>, n: nat, at: nat, p: seq<byte>)
    requires at + |p| <= n <= |s|
    ensures Over(s, at, p)[..n] == Over(s[..n], at, p)
  {
  }

  /** Patching a size over the start of what follows `before`. */
  lemma OverBetween(before: seq<byte>, region: seq<byte>, body: seq<byte>, p: seq<byte>)
    requires |p| <= |region|
    ensures Over((before + region) + body, |before|, p) == before + ((p + region[|p|..]) + body)
  {
  }

  lemma OverFront(before: seq<byte>, region: seq<byte>, body: seq<byte>, p: seq<byte>)
    requires |p| == |region|
    ensures Over((before + region) + body, |before|, p) == before + (p + body)
  {
    OverBetween(before, region, body, p);
    assert p + region[|p|..] == p;
  }

  lemma FrontOfThree<T>(a: seq<T>, b: seq<T>, c: seq<T>)
    ensures (a + b + c)[..|a| + |b|] == a + b
  {
  }

  datatype Status = Done | Failed(error: Error)

  class Out {
    const resizable: bool
    const swapped: bool
    const noFitSize: bool
    const enlarger: Enlarger
    var data: seq<byte>
    var position: nat

    /** Overflow checks are on and the enlarger does not shrink. */
    ghost predicate Valid()
      reads this
    {
      && position <= |data| < TWO64
      && SensibleEnlarger(enlarger) && enlarger.checked && enlarger.multiplier >= enlarger.divisor
    }

    constructor (resizable: bool, swapped: bool, noFitSize: bool, enlarger: Enlarger, data: seq<byte>)
      requires |data| < TWO64 && SensibleEnlarger(enlarger)
      requires enlarger.checked && enlarger.multiplier >= enlarger.divisor
      ensures Valid() && position == 0 && this.data == data && this.resizable == resizable && this.swapped == swapped
    {
      this.resizable, this.swapped, this.noFitSize, this.enlarger := resizable, swapped, noFitSize, enlarger;
      this.data, position := data, 0;
    }

    function Room(): nat
      requires Valid()
      reads this
    {
      |data| - position
    }

    /** The bytes written so far. */
    function Written(): seq<byte>
      requires Valid()
      reads this
    {
      data[..position]
    }

    /** `m_data.resize`: new bytes are zero. */
    method Resize(n: nat)
      modifies this`data
      ensures |data| == n && forall i | 0 <= i < n :: data[i] == if i < old(|data|) then old(data[i]) else 0
    {
      data := if n <= |data| then data[..n] else data + seq(n - |data|, i => 0);
    }

    /** Succeeds exactly when there is room or a new size can be had, and then there is room; nothing is
        resized without need, and a failure changes nothing. */
    method EnlargeFor(additional: nat) returns (ok: bool)
      requires Valid() && additional < TWO64
      modifies this`data
      ensures Valid() && old(data) <= data
      ensures ok <==> old(Room()) >= additional || NewSize(old(|data|), additional, enlarger).Some?
      ensures ok ==> Room() >= additional
      ensures ok && old(Room()) < additional
              ==> |data| == NewSize(old(|data|), additional, enlarger).value <= enlarger.limit
      ensures !ok || old(Room()) >= additional ==> data == old(data)
    {
      var size := |data|;
      if additional <= size - position {
        return true;
      }
      var n := NewSize(size, additional, enlarger);
      if n.None? {
        return false;
      }
      RoomMade(size, additional, enlarger);
      Resize(n.value);
      ok := true;
    }

    /** The size of a buffer of `size` bytes once `room` bytes behind `position` were asked for; none when
        they are refused. */
    ghost function Given(room: nat, position: nat, size: nat): Option<nat>
      requires SensibleEnlarger(enlarger) && size < TWO64
    {
      if resizable then Grown(enlarger, size, position, room) else if room <= size - position then Some(size) else None
    }

    /** Room for `n` more bytes, grown or given. No object has 2^64 bytes. */
    method Ensure(n: nat) returns (st: Status)
      requires Valid()
      modifies this`data
      ensures Valid() && old(data) <= data && (!resizable ==> data == old(data))
      ensures st.Done? ==> Room() >= n
      ensures (if st.Done? then Some(|data|) else None) == Given(n, old(position), old(|data|))
      ensures st.Failed? ==> st == Failed(Full()) && data == old(data)
    {
      if resizable && n < TWO64 {
        var ok := EnlargeFor(n);
        return if ok then Done else Failed(NoBufferSpace);
      }
      st := if n > |data| - position then Failed(Full()) else Done;
    }

    /** What a failure for want of room is called. */
    function Full(): Error {
      if resizable then NoBufferSpace else ResultOutOfRange
    }

    method Put(bytes: seq<byte>)
      requires Valid() && |bytes| <= Room()
      modifies this
      ensures Valid() && |data| == old(|data|) && Written() == old(Written()) + bytes
    {
      data := data[..position] + bytes + data[position + |bytes|..];
      position := position + |bytes|;
    }

    /** The size of the buffer after a list of requests, `position` being the first one's; none when they
        cannot all be met. A buffer of fixed size meets them when what is written fits. */
    ghost function Outcome(asks: seq<Ask>, position: nat, size: nat): (n: Option<nat>)
      requires SensibleEnlarger(enlarger) && size < TWO64
      ensures n.Some? ==> (n.value <= size || n.value <= enlarger.limit) && (!resizable ==> n.value == size)
    {
      if resizable then SizeAfter(enlarger, size, position, asks)
      else if position + Advances(asks) <= size then Some(size)
      else None
    }

    lemma OutcomeAppend(a: seq<Ask>, b: seq<Ask>, position: nat, size: nat)
      requires SensibleEnlarger(enlarger) && size < TWO64
      ensures Outcome(a, position, size).None? ==> Outcome(a + b, position, size).None?
      ensures Outcome(a, position, size).Some? ==>
                Outcome(a + b, position, size)
                == Outcome(b, position + Advances(a), Outcome(a, position, size).value)
    {
      AdvancesAppend(a, b);
      SizeAfterAppend(enlarger, size, position, a, b);
    }

    lemma OneAsk(ask: Ask, position: nat, size: nat)
      requires SensibleEnlarger(enlarger) && size < TWO64
      ensures Outcome([ask], position, size) == Given(if resizable then ask.room else ask.advance, position, size)
    {
      OneRequest(enlarger, size, position, ask);
    }

    /** A fixed size stays, and growing stops at the limit. */
    ghost predicate Within(size: nat)
      reads this
    {
      (|data| <= size || |data| <= enlarger.limit) && (!resizable ==> |data| == size)
    }

    /** What writing `bytes` by requests with that outcome promises, `before` being written of `size` bytes
        so far; `possible` says that no size patch is refused. Earlier bytes are never touched. It succeeds
        exactly when no patch is refused and all requests are met. */
    ghost predicate Told(st: Status, bytes: seq<byte>, outcome: Option<nat>, possible: bool, before: seq<byte>,
        size: nat)
      reads this
    {
      && Valid() && before <= Written() && Within(size)
      && (st.Done? <==> possible && outcome.Some?)
      && (st.Done? ==> Written() == before + bytes)
      && (st.Failed? && possible ==> st.error == Full())
    }

    /** And the buffer has the size it grew to. */
    ghost predicate Wrote(st: Status, bytes: seq<byte>, outcome: Option<nat>, possible: bool, before: seq<byte>,
        size: nat)
      reads this
    {
      Told(st, bytes, outcome, possible, before, size) && (st.Done? ==> |data| == outcome.value)
    }

    /** Two writes, one after the other. */
    lemma WroteBoth(st: Status, a: seq<byte>, b: seq<byte>, o: Option<nat>, p: bool, q: bool, before: seq<byte>,
                    size: nat, between: nat)
      requires p && Wrote(st, b, o, q, before + a, between)
      requires (between <= size || between <= enlarger.limit) && (!resizable ==> between == size)
      ensures Wrote(st, a + b, o, p && q, before, size)
    {
      ConcatAssociates(before, a, b);
    }

    /** After a part of a write: if it failed, so did the whole, `all`; else the rest remains to be written,
        by the requests that are left. `front` precedes the part, behind `before`. */
    lemma PartWrote(st: Status, front: seq<byte>, part: seq<byte>, all: seq<byte>, now: seq<Ask>, later: seq<Ask>,
                    o: Option<nat>, p: bool, possible: bool, before: seq<byte>, size: nat, between: nat)
      requires SensibleEnlarger(enlarger) && between < TWO64 && Advances(now) == |part| && (possible ==> p)
      requires Wrote(st, part, Outcome(now, |before + front|, between), p, before + front, between)
      requires o == Outcome(now + later, |before + front|, between)
      requires (between <= size || between <= enlarger.limit) && (!resizable ==> between == size)
      ensures st.Failed? ==> Wrote(st, all, o, possible, before, size)
      ensures st.Done? ==> Valid() && p && Written() == before + front + part && Within(size)
      ensures st.Done? ==> Outcome(later, position, |data|) == o
    {
      OutcomeAppend(now, later, |before + front|, between);
    }

    /** One request, for bytes that are then written. */
    method WriteBytes(bytes: seq<byte>) returns (st: Status)
      requires Valid()
      modifies this
      ensures Wrote(st, bytes, old(Outcome(BlockAsks(|bytes|), position, |data|)), true, old(Written()), old(|data|))
    {
      OneAsk(Ask(|bytes|, |bytes|), position, |data|);
      st := Ensure(|bytes|);
      if st.Done? {
        Put(bytes);
      }
    }

    method WriteFixed(n: nat, w: nat) returns (st: Status)
      requires Valid()
      modifies this
      ensures Wrote(st, FixedBytes(n, w, swapped), old(Outcome([Ask(w, w)], position, |data|)), true, old(Written()),
              old(|data|))
    {
      st := WriteBytes(FixedBytes(n, w, swapped));
    }

    /** Room for the encoding of a value of `bits` bits: a growing archive asks for the longest one. */
    method EnsureVarint(value: nat, bits: nat) returns (st: Status)
      requires Valid() && V.IsWidth(bits) && value < Pow2(bits)
      modifies this`data
      ensures Valid() && old(data) <= data
      ensures (if st.Done? then Some(|data|) else None)
              == old(Outcome([Ask(V.MaxSize(bits), |V.Enc(value)|)], position, |data|))
      ensures st.Done? ==> |V.Enc(value)| <= Room()
      ensures st.Failed? ==> st == Failed(Full()) && data == old(data)
    {
      V.EncSize(value);
      V.EncFits(value, bits);
      OneAsk(Ask(V.MaxSize(bits), |V.Enc(value)|), position, |data|);
      st := Done;
      if resizable {
        st := Ensure(V.MaxSize(bits));
      } else if Room() < V.MaxSize(bits) && Room() < V.Size(value) {
        st := Failed(ResultOutOfRange);
      }
    }

    /** Seven bits a byte, low bits first. */
    method WriteVarint(value: nat, bits: nat) returns (st: Status)
      requires Valid() && V.IsWidth(bits) && value < Pow2(bits)
      modifies this
      ensures Wrote(st, V.Enc(value), old(Outcome([Ask(V.MaxSize(bits), |V.Enc(value)|)], position, |data|)), true,
                    old(Written()), old(|data|))
    {
      st := EnsureVarint(value, bits);
      if st.Done? {
        EmitVarint(value);
      }
    }

    /** Stores the `n`-th byte from the position on. */
    method Store(n: nat, b: byte)
      requires Valid() && n < Room()
      modifies this`data
      ensures Valid() && |data| == old(|data|) && Written() == old(Written())
      ensures data[position..position + n + 1] == old(data[position..position + n]) + [b]
    {
      data := data[position + n := b];
    }

    method Advance(n: nat)
      requires Valid() && n <= Room()
      modifies this`position
      ensures Valid() && position == old(position) + n && Written() == old(Written()) + data[old(position)..position]
    {
      position := position + n;
    }

    /** `n` bytes of the encoding are stored, `rest` remains. */
    ghost predicate Emitting(value: nat, n: nat, rest: nat)
      reads this
    {
      Valid() && n + |V.Enc(rest)| <= Room() && data[position..position + n] + V.Enc(rest) == V.Enc(value)
    }

    method EmitNext(value: nat, n: nat, rest: nat)
      requires Emitting(value, n, rest) && rest >= 0x80
      modifies this`data
      ensures Emitting(value, n + 1, rest / 128) && |data| == old(|data|) && Written() == old(Written())
    {
      ConcatAssociates(data[position..position + n], [rest % 128 + 128], V.Enc(rest / 128));
      Store(n, rest % 128 + 128);
    }

    method EmitLast(value: nat, n: nat, rest: nat)
      requires Emitting(value, n, rest) && rest < 0x80
      modifies this
      ensures Valid() && |data| == old(|data|) && Written() == old(Written()) + V.Enc(value)
    {
      Store(n, rest);
      Advance(n + 1);
    }

    method EmitVarint(value: nat)
      requires Valid() && |V.Enc(value)| <= Room()
      modifies this
      ensures Valid() && |data| == old(|data|) && Written() == old(Written()) + V.Enc(value)
    {
      var rest, n := value, 0;
      EmptyPlus(V.Enc(value));
      while rest >= 0x80
        invariant Emitting(value, n, rest)
        invariant |data| == old(|data|) && position == old(position) && Written() == old(Written())
      {
        EmitNext(value, n, rest);
        rest, n := rest / 128, n + 1;
      }
      EmitLast(value, n, rest);
    }

    /** A size, cast to its type. */
    method WriteSize(n: nat, size: SizeType) returns (st: Status)
      requires Valid() && SensibleSize(size)
      modifies this
      ensures Wrote(st, SizeBytes(n, size, swapped), old(Outcome(SizeAsks(n, size), position, |data|)), true,
                    old(Written()), old(|data|))
    {
      match size {
        case FixedSize(w) => st := WriteFixed(n, w);
        case VarSize(bits) => st := WriteVarint(n % Pow2(bits), bits);
      }
    }

    /** Writes the size over the bytes at `at`, through an archive without options that spans as many
        bytes as the size's integer type has. */
    method PatchSize(at: nat, n: nat, size: SizeType) returns (st: Status)
      requires Valid() && SensibleSize(size) && at + |SizeBytes(n, size, false)| <= position
      modifies this`data
      ensures Valid() && |data| == old(|data|) && (st.Done? <==> SizePatchable(n, size))
      ensures st.Failed? ==> data == old(data)
      ensures st.Done? ==> Written() == Over(old(Written()), at, SizeBytes(n, size, false))
    {
      var width := match size case FixedSize(w) => w case VarSize(bits) => bits / 8;
      var patch := new Out(false, false, true, enlarger, seq(width, i => 0));
      SizeAdvance(n, size, false);
      st := patch.WriteSize(n, size);
      if st.Done? {
        var p := patch.Written();
        assert p == SizeBytes(n, size, false);
        OverPrefix(data, position, at, p);
        data := Over(data, at, p);
      }
    }

    /** Makes way in front of the message for a longer varint than the one byte reserved for it. */
    method MoveAhead(at: nat, count: nat) returns (st: Status)
      requires Valid() && at + 1 <= position && at + 1 + count <= position
      modifies this
      ensures Valid() && old(data[..at + 1]) <= data[..position] && Within(old(|data|))
      ensures st.Done? ==> Written() == old(Written())[..at + 1 + count] + old(Written())[at + 1..]
      ensures (if st.Done? then Some(|data|) else None) == old(Given(count, position, |data|))
      ensures st.Failed? ==> st == Failed(Full())
    {
      ghost var before := Written();
      st := Ensure(count);
      if st.Failed? {
        return;
      }
      var head, moved, tail := data[..at + 1 + count], data[at + 1..position], data[position + count..];
      assert head == before[..at + 1 + count] && moved == before[at + 1..];
      FrontOfThree(head, moved, tail);
      data := head + moved + tail;
      position := position + count;
    }

    /** A value of the given type. */
    method Write(sh: Shape, v: Value) returns (st: Status)
      requires Valid() && Sensible(sh) && HasShape(sh, v, swapped)
      modifies this
      ensures Wrote(st, Enc(sh, v, swapped), old(Outcome(Asks(sh, v, swapped), position, |data|)),
                    Patchable(sh, v, swapped), old(Written()), old(|data|))
      decreases sh, 0, 0
    {
      match sh {
        case Fixed(w, _) => st := WriteFixed(v.n, w);
        case VarInt(bits, sign) => st := WriteVarint(V.ToUnsigned(v.n, bits, sign), bits);
        case Array(_, e) => st := WriteItems(e, v.items, AsBytes(e, swapped));
        case Container(size, e, contiguous) =>
          st := WriteContainer(size, e, v.items, contiguous && AsBytes(e, swapped));
        case Tuple(ms, packed) => st := WriteTuple(ms, packed, v.items);
        case Optional(e) => st := WriteOptional(e, v);
        case Variant(w, ids, alts) => st := WriteVariant(w, ids, alts, v.index, v.v);
        case Protocol(size, m) => st := WriteProtocol(size, m, v.v);
      }
    }

    method WriteOptional(e: Shape, v: Value) returns (st: Status)
      requires Valid() && Sensible(e) && HasShape(Optional(e), v, swapped)
      modifies this
      ensures Wrote(st, Enc(Optional(e), v, swapped), old(Outcome(Asks(Optional(e), v, swapped), position, |data|)),
                    Patchable(Optional(e), v, swapped), old(Written()), old(|data|))
      decreases e, 5, 0
    {
      OneByte(swapped);
      match v {
        case Nothing => st := WriteFixed(0, 1);
        case Just(x) => st := WriteTagged(1, 1, e, x);
      }
    }

    method WriteVariant(w: nat, ids: seq<nat>, alts: seq<Shape>, i: nat, x: Value) returns (st: Status)
      requires Valid() && Sensible(Variant(w, ids, alts))
      requires HasShape(Variant(w, ids, alts), Alternative(i, x), swapped)
      modifies this
      ensures Wrote(st, Enc(Variant(w, ids, alts), Alternative(i, x), swapped),
                    old(Outcome(Asks(Variant(w, ids, alts), Alternative(i, x), swapped), position, |data|)),
                    Patchable(alts[i], x, swapped), old(Written()), old(|data|))
      decreases alts, 5, 0
    {
      A.SensibleAt(alts, i);
      st := WriteTagged(ids[i], w, alts[i], x);
    }

    /** A byte or an id, then a value. */
    method WriteTagged(tag: nat, w: nat, e: Shape, x: Value) returns (st: Status)
      requires Valid() && Sensible(e) && HasShape(e, x, swapped)
      modifies this
      ensures Wrote(st, FixedBytes(tag, w, swapped) + Enc(e, x, swapped),
                    old(Outcome([Ask(w, w)] + Asks(e, x, swapped), position, |data|)),
                    Patchable(e, x, swapped), old(Written()), old(|data|))
      decreases e, 4, 0
    {
      ghost var before, size := Written(), |data|;
      ghost var a, b, q := FixedBytes(tag, w, swapped), Enc(e, x, swapped), Patchable(e, x, swapped);
      ghost var o := Outcome([Ask(w, w)] + Asks(e, x, swapped), position, |data|);
      EmptyBehind(before);
      st := WriteFixed(tag, w);
      PartWrote(st, [], a, a + b, [Ask(w, w)], Asks(e, x, swapped), o, true, q, before, size, size);
      if st.Failed? {
        return;
      }
      ghost var between := |data|;
      st := Write(e, x);
      WroteBoth(st, a, b, o, true, q, before, size, between);
    }

    method WriteContainer(size: SizeType, e: Shape, items: seq<Value>, block: bool) returns (st: Status)
      requires Valid() && SensibleSize(size) && Sensible(e) && HaveShape(e, items, swapped)
      requires block ==> AsBytes(e, swapped)
      modifies this
      ensures Wrote(st, SizeBytes(|items|, size, swapped) + EncEach(e, items, swapped),
                    old(Outcome(SizeAsks(|items|, size) + ItemAsks(e, items, block, swapped), position, |data|)),
                    PatchableEach(e, items, swapped), old(Written()), old(|data|))
      decreases e, 4, 0
    {
      ghost var before, room := Written(), |data|;
      ghost var a, b, q := SizeBytes(|items|, size, swapped), EncEach(e, items, swapped),
        PatchableEach(e, items, swapped);
      ghost var now, later := SizeAsks(|items|, size), ItemAsks(e, items, block, swapped);
      ghost var o := Outcome(now + later, position, |data|);
      SizeAdvance(|items|, size, swapped);
      EmptyBehind(before);
      st := WriteSize(|items|, size);
      PartWrote(st, [], a, a + b, now, later, o, true, q, before, room, room);
      if st.Failed? {
        return;
      }
      ghost var between := |data|;
      st := WriteItems(e, items, block);
      WroteBoth(st, a, b, o, true, q, before, room, between);
    }

    /** Items side by side: their memory in one copy, or one item after the other. */
    method WriteItems(e: Shape, items: seq<Value>, block: bool) returns (st: Status)
      requires Valid() && Sensible(e) && HaveShape(e, items, swapped) && (block ==> AsBytes(e, swapped))
      modifies this
      ensures Wrote(st, EncEach(e, items, swapped), old(Outcome(ItemAsks(e, items, block, swapped), position, |data|)),
                    PatchableEach(e, items, swapped), old(Written()), old(|data|))
      decreases e, 3, 0
    {
      if block {
        EachIsEnc(e, items, swapped);
        st := WriteBytes(ImageEach(e, items));
      } else {
        st := WriteEach(e, items);
      }
    }

    /** An aggregate: its memory in one copy, or one member after the other. */
    method WriteTuple(ms: seq<Shape>, packed: bool, items: seq<Value>) returns (st: Status)
      requires Valid() && SensibleAll(ms) && HaveShapes(ms, items, swapped)
      modifies this
      ensures Wrote(st, EncMembers(ms, items, swapped),
                    old(Outcome(Asks(Tuple(ms, packed), List(items), swapped), position, |data|)),
                    PatchableMembers(ms, items, swapped), old(Written()), old(|data|))
      decreases ms, 3, 0
    {
      if AsBytes(Tuple(ms, packed), swapped) {
        MembersAreEnc(ms, items);
        st := WriteBytes(ImageMembers(ms, items));
      } else {
        st := WriteMembers(ms, items);
      }
    }

    /** The loop over an array or container: `done` of the items are written. */
    ghost predicate EachUnderway(e: Shape, items: seq<Value>, done: nat, outcome: Option<nat>, before: seq<byte>,
        size: nat)
      reads this
    {
      && Valid() && done <= |items|
      && HaveShape(e, items[done..], swapped)
      && (PatchableEach(e, items, swapped) <==> PatchableEach(e, items[done..], swapped))
      && before <= Written() && Within(size)
      && Outcome(AsksEach(e, items[done..], swapped), position, |data|) == outcome
      && Written() + EncEach(e, items[done..], swapped) == before + EncEach(e, items, swapped)
    }

    /** The next item is written, or the loop ends here. */
    method WriteNext(e: Shape, items: seq<Value>, done: nat, ghost outcome: Option<nat>, ghost before: seq<byte>,
        ghost size: nat)
      returns (st: Status)
      requires Sensible(e) && done < |items| && EachUnderway(e, items, done, outcome, before, size)
      modifies this
      ensures st.Done? ==> EachUnderway(e, items, done + 1, outcome, before, size)
      ensures st.Failed? ==> Wrote(st, EncEach(e, items, swapped), outcome, PatchableEach(e, items, swapped), before,
              size)
      decreases e, 1, 0
    {
      ghost var rest := items[done..];
      assert rest[1..] == items[done + 1..];
      ghost var written := Written();
      ConcatAssociates(written, Enc(e, rest[0], swapped), EncEach(e, rest[1..], swapped));
      OutcomeAppend(Asks(e, rest[0], swapped), AsksEach(e, rest[1..], swapped), position, |data|);
      AdvancesAre(e, rest[0], swapped);
      st := Write(e, items[done]);
    }

    method WriteEach(e: Shape, items: seq<Value>) returns (st: Status)
      requires Valid() && Sensible(e) && HaveShape(e, items, swapped)
      modifies this
      ensures Wrote(st, EncEach(e, items, swapped), old(Outcome(AsksEach(e, items, swapped), position, |data|)),
                    PatchableEach(e, items, swapped), old(Written()), old(|data|))
      decreases e, 1, 1
    {
      ghost var before, size, outcome := Written(), |data|, Outcome(AsksEach(e, items, swapped), position, |data|);
      var i := 0;
      assert items[0..] == items;
      while i < |items|
        invariant 0 <= i <= |items| && EachUnderway(e, items, i, outcome, before, size)
      {
        st := WriteNext(e, items, i, outcome, before, size);
        if st.Failed? {
          return;
        }
        i := i + 1;
      }
      assert Written() + [] == Written();
      st := Done;
    }

    /** The members of an aggregate, one after the other. */
    method WriteMembers(ms: seq<Shape>, items: seq<Value>) returns (st: Status)
      requires Valid() && SensibleAll(ms) && HaveShapes(ms, items, swapped)
      modifies this
      ensures Wrote(st, EncMembers(ms, items, swapped), old(Outcome(AsksMembers(ms, items, swapped), position, |data|)),
                    PatchableMembers(ms, items, swapped), old(Written()), old(|data|))
      decreases ms, 1, 0
    {
      if ms == [] {
        return Done;
      }
      ghost var before, size := Written(), |data|;
      ghost var a, b := Enc(ms[0], items[0], swapped), EncMembers(ms[1..], items[1..], swapped);
      ghost var p, q := Patchable(ms[0], items[0], swapped), PatchableMembers(ms[1..], items[1..], swapped);
      ghost var now, later := Asks(ms[0], items[0], swapped), AsksMembers(ms[1..], items[1..], swapped);
      ghost var o := Outcome(now + later, position, |data|);
      AdvancesAre(ms[0], items[0], swapped);
      EmptyBehind(before);
      st := Write(ms[0], items[0]);
      PartWrote(st, [], a, a + b, now, later, o, p, p && q, before, size, size);
      if st.Failed? {
        return;
      }
      ghost var between := |data|;
      st := WriteMembers(ms[1..], items[1..]);
      WroteBoth(st, a, b, o, p, q, before, size, between);
    }

    /** The archive's call operator: writes the items, then trims the buffer to what was written. */
    method Call(types: seq<Shape>, items: seq<Value>) returns (st: Status)
      requires Valid() && SensibleAll(types) && HaveShapes(types, items, swapped)
      modifies this
      ensures Told(st, EncMembers(types, items, swapped),
                   old(Outcome(AsksMembers(types, items, swapped), position, |data|)),
                   PatchableMembers(types, items, swapped), old(Written()), old(|data|))
      ensures Trims() && position >= old(|data|) ==> data == Written()
      ensures st.Done? && !(Trims() && position >= old(|data|)) ==>
                |data| == old(Outcome(AsksMembers(types, items, swapped), position, |data|)).value
    {
      if resizable && !noFitSize && (enlarger.multiplier, enlarger.divisor) != (1, 1) {
        var end := |data|;
        st := WriteMembers(types, items);
        if position >= end {
          Resize(position);
        }
      } else {
        st := WriteMembers(types, items);
      }
    }

    predicate Trims() {
      resizable && !noFitSize && (enlarger.multiplier, enlarger.divisor) != (1, 1)
    }

    /** A message behind its size: a size is reserved, the message written, the size patched in. */
    method WriteProtocol(size: SizeType, m: Shape, x: Value) returns (st: Status)
      requires Valid() && SensibleSize(size) && Sensible(m) && HasShape(m, x, swapped)
      modifies this
      ensures var body := Enc(m, x, swapped);
              Wrote(st, Patched(body, size) + body,
                    old(Outcome(SizeAsks(0, size) + (Asks(m, x, swapped) + GapAsks(|body|, size)), position, |data|)),
                    Patchable(m, x, swapped) && SizePatchable(|body|, size), old(Written()), old(|data|))
      decreases m, 4, 0
    {
      ghost var before, room, body := Written(), |data|, Enc(m, x, swapped);
      ghost var now, later := SizeAsks(0, size), Asks(m, x, swapped) + GapAsks(|body|, size);
      ghost var o, a := Outcome(now + later, position, |data|), SizeBytes(0, size, swapped);
      ghost var p := Patchable(m, x, swapped) && SizePatchable(|body|, size);
      SizeAdvance(0, size, swapped);
      EmptyBehind(before);
      var sizePosition := position;
      st := WriteSize(0, size);
      PartWrote(st, [], a, Patched(body, size) + body, now, later, o, true, p, before, room, room);
      if st.Failed? {
        return;
      }
      st := WriteMessage(sizePosition, size, m, x, before, room);
    }

    /** The size is reserved at `at`; now the message and the size. */
    method WriteMessage(at: nat, size: SizeType, m: Shape, x: Value, ghost before: seq<byte>, ghost room: nat)
      returns (st: Status)
      requires Valid() && SensibleSize(size) && Sensible(m) && HasShape(m, x, swapped)
      requires at == |before| && Within(room) && Written() == before + SizeBytes(0, size, swapped)
      modifies this
      ensures var body := Enc(m, x, swapped);
              Wrote(st, Patched(body, size) + body,
                    old(Outcome(Asks(m, x, swapped) + GapAsks(|body|, size), position, |data|)),
                    Patchable(m, x, swapped) && SizePatchable(|body|, size), before, room)
      decreases m, 3, 0
    {
      ghost var between, body, front := |data|, Enc(m, x, swapped), SizeBytes(0, size, swapped);
      ghost var now, later := Asks(m, x, swapped), GapAsks(|body|, size);
      ghost var o, q := Outcome(now + later, position, |data|), Patchable(m, x, swapped);
      AdvancesAre(m, x, swapped);
      st := Write(m, x);
      PartWrote(st, front, body, Patched(body, size) + body, now, later, o, q, q && SizePatchable(|body|, size),
                before, room, between);
      if st.Failed? {
        return;
      }
      st := FinishProtocol(at, size, before, body, room);
    }

    /** The reserved size and the message are written; now the size. */
    method FinishProtocol(at: nat, size: SizeType, ghost before: seq<byte>, ghost body: seq<byte>, ghost room: nat)
      returns (st: Status)
      requires Valid() && SensibleSize(size) && at == |before| && Within(room)
      requires Written() == (before + SizeBytes(0, size, swapped)) + body
      modifies this
      ensures Wrote(st, Patched(body, size) + body, old(Outcome(GapAsks(|body|, size), position, |data|)),
                    SizePatchable(|body|, size), before, room)
    {
      match size {
        case FixedSize(w) => st := FinishFixed(at, w, before, body);
        case VarSize(bits) =>
          assert SizeBytes(0, size, swapped) == [0];
          st := FinishVarint(at, bits, before, body, room);
      }
    }

    method FinishFixed(at: nat, w: nat, ghost before: seq<byte>, ghost body: seq<byte>) returns (st: Status)
      requires Valid() && 0 < w <= 16 && at == |before| && Written() == (before + FixedBytes(0, w, swapped)) + body
      modifies this`data
      ensures st.Done? && Valid() && |data| == old(|data|) && Written() == before + (ToLE(|body|, w) + body)
    {
      OverFront(before, FixedBytes(0, w, swapped), body, ToLE(|body|, w));
      var messageSize := position - at - w;
      assert messageSize == |body|;
      st := PatchSize(at, messageSize, FixedSize(w));
    }

    method FinishVarint(at: nat, bits: nat, ghost before: seq<byte>, ghost body: seq<byte>, ghost room: nat)
      returns (st: Status)
      requires Valid() && V.IsWidth(bits) && at == |before| && Within(room)
      requires Written() == (before + [0]) + body
      modifies this
      ensures Wrote(st, Patched(body, VarSize(bits)) + body,
                    old(Outcome(GapAsks(|body|, VarSize(bits)), position, |data|)),
                    SizePatchable(|body|, VarSize(bits)), before, room)
    {
      var messageSize := position - at - 1;
      var moveAheadCount := V.Size(messageSize) - 1;
      VarintRegion(body, bits);
      st := OpenGap(at, bits, moveAheadCount, before, body);
      if st.Failed? {
        return;
      }
      st := PatchGap(at, bits, messageSize, moveAheadCount + 1, before, body);
    }

    /** The gap is open; the size goes into it. */
    method PatchGap(at: nat, bits: nat, messageSize: nat, ghost k: nat, ghost before: seq<byte>, ghost body: seq<byte>)
      returns (st: Status)
      requires Valid() && V.IsWidth(bits) && at == |before|
      requires messageSize == |body| && k == V.Size(|body|) <= |body| + 1
      requires Written() == (before + ([0] + body)[..k]) + body
      modifies this`data
      ensures Valid() && |data| == old(|data|) && before <= Written()
      ensures st.Done? <==> SizePatchable(|body|, VarSize(bits))
      ensures st.Done? ==> Written() == before + (Patched(body, VarSize(bits)) + body)
    {
      VarintRegion(body, bits);
      OverBetween(before, ([0] + body)[..k], body, V.Enc(messageSize % Pow2(bits)));
      st := PatchSize(at, messageSize, VarSize(bits));
    }

    method OpenGap(at: nat, ghost bits: nat, count: nat, ghost before: seq<byte>, ghost body: seq<byte>)
      returns (st: Status)
      requires Valid() && at == |before| && count == |V.Enc(|body|)| - 1 <= |body|
      requires Written() == (before + [0]) + body
      modifies this
      ensures Valid() && before <= Written() && Within(old(|data|))
      ensures st.Done? ==> Written() == (before + ([0] + body)[..count + 1]) + body
      ensures (if st.Done? then Some(|data|) else None)
              == old(Outcome(GapAsks(|body|, VarSize(bits)), position, |data|))
      ensures st.Failed? ==> st == Failed(Full())
    {
      GapOpened(before, body, count);
      st := Done;
      if count != 0 {
        OneAsk(Ask(count, count), position, |data|);
        st := MoveAhead(at, count);
      }
    }
  }

  lemma EmptyBehind<T>(s: seq<T>)
    ensures s + [] == s
  {
  }

  /** Bytes moved ahead leave a gap filled with what was there. */
  lemma GapOpened(before: seq<byte>, body: seq<byte>, count: nat)
    requires count <= |body|
    ensures var w, n := (before + [0]) + body, |before|;
            && before + [0] == w[..n + 1]
            && w[..n + 1 + count] + w[n + 1..] == (before + ([0] + body)[..count + 1]) + body
            && (count == 0 ==> ([0] + body)[..1] == [0])
  {
    var w, n := (before + [0]) + body, |before|;
    assert w[n + 1..] == body;
    assert w[..n + 1 + count] == before + ([0] + body)[..count + 1];
  }

  lemma OneByte(swapped: bool)
    ensures FixedBytes(0, 1, swapped) == [0] && FixedBytes(1, 1, swapped) == [1]
  {
    assert ToLE(0, 1) == [0] && ToLE(1, 1) == [1];
  }

  lemma TwoTo64()
    ensures Pow2(64) == TWO64
  {
    PowSum(8, 8);
    assert Pow2(16) == 256 * 256 by {
      assert Pow2(8) == 256;
    }
    PowSum(16, 16);
    assert Pow2(32) == 0x1_0000_0000;
    PowSum(32, 32);
  }

  lemma GapIsShort(n: nat)
    requires n < TWO64
    ensures V.Size(n) <= 10
  {
    TwoTo64();
    V.EncSize(n);
    V.EncFits(n, 64);
  }
}
