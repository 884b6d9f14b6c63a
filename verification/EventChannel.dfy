/** The pipe of fixed-size records of include/platform/EventChannel.h. */
module EventChannel {
  import opened Bytes
  import opened Socket
  import opened CompactingBuffer

  const RECORD_SIZE: nat := 16  // packed: int eventType, unsigned channelID, void* data
  const CAPACITY: nat := RECORD_SIZE * 200
  const SHIFT_SIZE: nat := RECORD_SIZE * 10

  const NEW_CONNECTION: nat := 1
  const APP_MESSAGE: nat := 2

  /** An EventData record; `kind` is the 32-bit pattern of the eventType enumerator. */
  datatype EventData = EventData(kind: nat, channel: nat, data: nat) {
    ghost predicate Fits() {
      kind < Pow256(4) && channel < Pow256(4) && data < Pow256(8)
    }
  }

  datatype Call = OnNewConnection(data: nat) | OnAppMsg(data: nat, channel: nat)

  /** The handler call a record leads to, if any. */
  function Dispatch(e: EventData): seq<Call> {
    if e.kind == NEW_CONNECTION then [OnNewConnection(e.data)]
    else if e.kind == APP_MESSAGE then [OnAppMsg(e.data, e.channel)]
    else []
  }

  function DispatchAll(es: seq<EventData>): seq<Call> {
    if es == [] then [] else Dispatch(es[0]) + DispatchAll(es[1..])
  }

  function Decode(r: seq<byte>): EventData
    requires |r| == RECORD_SIZE
  {
    EventData(FromLE(r[0..4]), FromLE(r[4..8]), FromLE(r[8..16]))
  }

  /** What EventNotifier::notify writes. */
  function Encode(e: EventData): (r: seq<byte>)
    ensures |r| == RECORD_SIZE
  {
    ToLE(e.kind, 4) + ToLE(e.channel, 4) + ToLE(e.data, 8)
  }

  /** The calls for every complete record of `s`. */
  ghost function Handled(s: seq<byte>): seq<Call>
    decreases |s|
  {
    if |s| < RECORD_SIZE then [] else Dispatch(Decode(s[..RECORD_SIZE])) + Handled(s[RECORD_SIZE..])
  }

  ghost function Remainder(s: seq<byte>): seq<byte> {
    s[|s| - |s| % RECORD_SIZE..]
  }

  lemma {:induction false} HandledAppend(a: seq<byte>, b: seq<byte>)
    ensures Handled(a + b) == Handled(a) + Handled(Remainder(a) + b)
    ensures Remainder(a + b) == Remainder(Remainder(a) + b)
    decreases |a|
  {
    if |a| < RECORD_SIZE {
      assert Remainder(a) == a;
    } else {
      var t := a[RECORD_SIZE..];
      assert (a + b)[RECORD_SIZE..] == t + b && (a + b)[..RECORD_SIZE] == a[..RECORD_SIZE];
      HandledAppend(t, b);
      RemainderDrop(a);
      RemainderDrop(a + b);
    }
  }

  lemma RemainderDrop(s: seq<byte>)
    requires |s| >= RECORD_SIZE
    ensures Remainder(s[RECORD_SIZE..]) == Remainder(s)
  {
  }

  lemma RemainderIsShort(s: seq<byte>)
    ensures |Remainder(s)| < RECORD_SIZE
  {
  }

  lemma HandledFirst(w: seq<byte>, before: seq<Call>)
    requires |w| >= RECORD_SIZE
    ensures before + Handled(w) == (before + Dispatch(Decode(w[..RECORD_SIZE]))) + Handled(w[RECORD_SIZE..])
    ensures Remainder(w) == Remainder(w[RECORD_SIZE..])
  {
    RemainderDrop(w);
    ConcatAssociates(before, Dispatch(Decode(w[..RECORD_SIZE])), Handled(w[RECORD_SIZE..]));
  }

  /** Records written whole, in order, reach the handler as the calls they stand for. */
  lemma {:induction false} WrittenRecordsAreHandled(es: seq<EventData>)
    requires forall i | 0 <= i < |es| :: es[i].Fits()
    ensures Handled(Written(es)) == DispatchAll(es) && Remainder(Written(es)) == []
  {
    if es != [] {
      var r, rest := Encode(es[0]), Written(es[1..]);
      WrittenRecordsAreHandled(es[1..]);
      assert (r + rest)[..RECORD_SIZE] == r && (r + rest)[RECORD_SIZE..] == rest;
      RecordRoundTrip(es[0]);
      RemainderDrop(r + rest);
    }
  }

  ghost function Written(es: seq<EventData>): seq<byte> {
    if es == [] then [] else Encode(es[0]) + Written(es[1..])
  }

  lemma RecordRoundTrip(e: EventData)
    requires e.Fits()
    ensures Decode(Encode(e)) == e
  {
    var r := Encode(e);
    assert r[0..4] == ToLE(e.kind, 4) && r[4..8] == ToLE(e.channel, 4) && r[8..16] == ToLE(e.data, 8);
    LERoundTrip(e.kind, 4);
    LERoundTrip(e.channel, 4);
    LERoundTrip(e.data, 8);
    Small(e.kind, Pow256(4));
    Small(e.channel, Pow256(4));
    Small(e.data, Pow256(8));
  }

  lemma FourAtIs(r: seq<byte>, at: nat)
    requires at + 4 <= |r|
    ensures FromLE(r[at..at + 4]) == FourAt(r, at)
  {
    LEFour(r[at..at + 4]);
  }

  lemma FieldsAt(r: seq<byte>)
    requires |r| == 16
    ensures Decode(r) == EventData(FourAt(r, 0), FourAt(r, 4), FourAt(r, 8) + 0x1_0000_0000 * FourAt(r, 12))
  {
    FourAtIs(r, 0);
    FourAtIs(r, 4);
    FourAtIs(r, 8);
    FourAtIs(r, 12);
    LEEight(r[8..16]);
    assert r[8..16][..4] == r[8..12] && r[8..16][4..] == r[12..16];
  }

  /** A record byte by byte, and the call it leads to: the kind in the first four bytes, 1 for a new
      connection and 2 for a message, the channel in the next four and the pointer in the last eight. */
  lemma RecordLeadsTo(r: seq<byte>)
    requires |r| == 16
    ensures var kind, channel, data := FourAt(r, 0), FourAt(r, 4), FourAt(r, 8) + 0x1_0000_0000 * FourAt(r, 12);
            Handled(r) == if kind == 1 then [OnNewConnection(data)]
                          else if kind == 2 then [OnAppMsg(data, channel)]
                          else []
  {
    FieldsAt(r);
    assert r[..RECORD_SIZE] == r && Handled(r[RECORD_SIZE..]) == [];
    assert Handled(r) == Dispatch(Decode(r));
  }

  lemma Small(n: nat, m: nat)
    requires n < m
    ensures n % m == n
  {
  }

  class Channel {
    const buffer: Buffer
    const source: ByteSource
    var calls: seq<Call>

    /** At every head of the receive loop, for any bytes at all. */
    ghost predicate Valid()
      reads this, buffer, buffer.data, source
    {
      && buffer.Framed() && buffer.AtStart() && buffer.data.Length == CAPACITY
      && buffer.numberOfBytesLeftToRecv > 0
      && calls == Handled(source.taken)
      && buffer.Window() == Remainder(source.taken)
    }

    constructor (source: ByteSource)
      requires source.taken == []
      ensures Valid() && this.source == source && fresh(buffer) && fresh(buffer.data)
    {
      this.source, calls := source, [];
      buffer := new Buffer(CAPACITY);
    }

    /** Takes the first record of the window; what remains to be handled shrinks by its call. */
    method ReadRecord()
      requires buffer.Framed() && buffer.numberOfBytesLeftToRead >= RECORD_SIZE
      modifies this`calls, buffer`readOffset, buffer`numberOfBytesLeftToRead
      ensures buffer.Framed() && buffer.numberOfBytesLeftToRead < old(buffer.numberOfBytesLeftToRead)
      ensures calls + Handled(buffer.Window()) == old(calls) + Handled(old(buffer.Window()))
      ensures Remainder(buffer.Window()) == Remainder(old(buffer.Window()))
    {
      var record := buffer.Peek(RECORD_SIZE);
      HandledFirst(buffer.Window(), calls);
      buffer.Consume(RECORD_SIZE);
      Handle(Decode(record));
    }

    method ReadMessages()
      requires buffer.Framed()
      modifies this`calls, buffer`readOffset, buffer`numberOfBytesLeftToRead
      ensures buffer.Framed()
      ensures calls == old(calls) + Handled(old(buffer.Window())) && buffer.Window() == Remainder(old(buffer.Window()))
    {
      ghost var goal, rest := calls + Handled(buffer.Window()), Remainder(buffer.Window());
      while buffer.numberOfBytesLeftToRead >= RECORD_SIZE
        invariant buffer.Framed()
        invariant calls + Handled(buffer.Window()) == goal && Remainder(buffer.Window()) == rest
      {
        ReadRecord();
      }
    }

    method Handle(eventData: EventData)
      modifies this`calls
      ensures calls == old(calls) + Dispatch(eventData)
    {
      if eventData.kind == NEW_CONNECTION {
        calls := calls + [OnNewConnection(eventData.data)];
      } else if eventData.kind == APP_MESSAGE {
        calls := calls + [OnAppMsg(eventData.data, eventData.channel)];
      }
    }

    /** The arrival of `bytes`: append, handle every complete record, compact. */
    method Digest(bytes: seq<byte>, ghost taken: seq<byte>)
      requires buffer.Framed() && buffer.AtStart() && |bytes| <= buffer.numberOfBytesLeftToRecv
      requires buffer.data.Length == CAPACITY && source.taken == taken + bytes
      requires calls == Handled(taken) && buffer.Window() == Remainder(taken)
      modifies this, buffer, buffer.data
      ensures Valid()
    {
      buffer.Append(bytes);
      HandledAppend(taken, bytes);
      ReadMessages();
      RemainderIsShort(taken + bytes);
      buffer.Compact(SHIFT_SIZE);
    }

    /** Reads everything available, for any bytes at all; `ok` when the pipe is still open. */
    method Receive() returns (ok: bool)
      requires Valid()
      modifies this, buffer, buffer.data, source
      ensures Valid() && source.Stream() == old(source.Stream())
      ensures source.ReadOut(ok, old(source.taken), old(source.script))
    {
      ghost var before, script := source.taken, source.script;
      while true
        invariant Valid() && source.Stream() == old(source.Stream()) && source.ReadingOut(before, script)
        decreases source.Left()
      {
        ghost var taken := source.taken;
        var bytes;
        ok, bytes := source.ReadOn(buffer.numberOfBytesLeftToRecv, before, script);
        if !ok || bytes == [] {
          return;
        }
        Digest(bytes, taken);
      }
    }
  }
}
