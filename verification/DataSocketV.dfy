/** The scatter/gather receiver of include/platform/socket/DataSocketV.h over the double buffer. */
module DataSocketV {
  import opened Bytes
  import opened Framing
  import opened Socket
  import opened StringV

  const WIRE := Protocol(HEADER_SIZE, SizeOf)

  class Receiver {
    const handler: DoubleBuffer
    const source: ByteSource
    var readOffset: nat
    var numberOfBytesLeftToRead: nat
    var numberOfBytesLeftToRecv: nat
    var delivered: seq<seq<byte>>  // what onData received, in order

    ghost predicate Framed()
      reads this, handler, handler.buffer1, handler.buffer2
    {
      handler.Valid() && readOffset + numberOfBytesLeftToRead <= 2 * BUFFER_SIZE
    }

    /** The unread bytes, wherever they lie in the two blocks. */
    ghost function Window(): seq<byte>
      requires Framed()
      reads this, handler, handler.buffer1, handler.buffer2
    {
      handler.Flat()[readOffset..readOffset + numberOfBytesLeftToRead]
    }

    /** At every head of the receive loop: delivered and unread bytes are the framing of everything
        read so far, and there is room for another read. */
    ghost predicate Valid()
      reads this, handler, handler.buffer1, handler.buffer2, source
    {
      && Framed() && readOffset < BUFFER_SIZE && numberOfBytesLeftToRead < MESSAGE_SIZE
      && Sound(WIRE, source.Stream(), MESSAGE_SIZE)
      && delivered == PaddedAll(Parse(WIRE, source.taken).messages)
      && Window() == Parse(WIRE, source.taken).rest
    }

    constructor (source: ByteSource)
      requires source.taken == [] && Sound(WIRE, source.Stream(), MESSAGE_SIZE)
      ensures Valid() && this.source == source && fresh(handler) && fresh(handler.buffer1) && fresh(handler.buffer2)
    {
      this.source := source;
      handler := new DoubleBuffer();
      readOffset, numberOfBytesLeftToRead, numberOfBytesLeftToRecv := 0, 0, 2 * BUFFER_SIZE;
      delivered := [];
    }

    /** Delivers the first `n` bytes of the window as a message. */
    method TakeMessage(n: nat)
      requires Framed() && n <= numberOfBytesLeftToRead && n <= MESSAGE_SIZE
      modifies this`readOffset, this`numberOfBytesLeftToRead, this`delivered
      ensures Framed() && readOffset + numberOfBytesLeftToRead == old(readOffset + numberOfBytesLeftToRead)
      ensures numberOfBytesLeftToRead == old(numberOfBytesLeftToRead) - n && Window() == old(Window())[n..]
      ensures delivered == old(delivered) + [Padded(old(Window())[..n])]
    {
      SliceOfSlice(handler.Flat(), readOffset, readOffset + numberOfBytesLeftToRead, n);
      var m := handler.ReadMessage(readOffset, n);
      delivered := delivered + [m];
      UpdateForDataRead(n);
    }

    /** Delivers the first message of the window if it is complete. */
    method ReadOne() returns (got: bool, ghost message: seq<byte>)
      requires Framed() && Sound(WIRE, Window(), MESSAGE_SIZE)
      modifies this`readOffset, this`numberOfBytesLeftToRead, this`delivered
      ensures Framed() && readOffset + numberOfBytesLeftToRead == old(readOffset + numberOfBytesLeftToRead)
      ensures !got ==> Parse(WIRE, old(Window())) == Parsed([], old(Window()))
                       && Window() == old(Window()) && delivered == old(delivered)
      ensures got ==>
                Parse(WIRE, old(Window()))
                == Parsed([message] + Parse(WIRE, Window()).messages, Parse(WIRE, Window()).rest)
                      && delivered == old(delivered) + [Padded(message)]
                      && Sound(WIRE, Window(), MESSAGE_SIZE) && numberOfBytesLeftToRead < old(numberOfBytesLeftToRead)
    {
      message := [];
      ghost var before := Window();
      if numberOfBytesLeftToRead < HEADER_SIZE {
        ParseNone(WIRE, before);
        return false, [];
      }
      var expectedMsgSize := handler.ReadHeader(readOffset);
      SliceOfSlice(handler.Flat(), readOffset, readOffset + numberOfBytesLeftToRead, HEADER_SIZE);
      if numberOfBytesLeftToRead < expectedMsgSize {
        ParseNone(WIRE, before);
        return false, [];
      }
      ParseFirst(WIRE, before, expectedMsgSize, MESSAGE_SIZE);
      got, message := true, before[..expectedMsgSize];
      TakeMessage(expectedMsgSize);
    }

    /** Delivers every complete message of the window, leaves what the framing leaves. */
    method ReadMessages()
      requires Framed() && Sound(WIRE, Window(), MESSAGE_SIZE)
      modifies this`readOffset, this`numberOfBytesLeftToRead, this`delivered
      ensures Framed()
      ensures readOffset + numberOfBytesLeftToRead == old(readOffset + numberOfBytesLeftToRead)
      ensures delivered == old(delivered) + PaddedAll(Parse(WIRE, old(Window())).messages)
      ensures Window() == Parse(WIRE, old(Window())).rest
    {
      ghost var parsed := Parse(WIRE, Window());
      ghost var goal := delivered + PaddedAll(parsed.messages);
      var more := true;
      while more
        invariant Framed() && Sound(WIRE, Window(), MESSAGE_SIZE)
        invariant readOffset + numberOfBytesLeftToRead == old(readOffset + numberOfBytesLeftToRead)
        invariant delivered + PaddedAll(Parse(WIRE, Window()).messages) == goal
        invariant Parse(WIRE, Window()).rest == parsed.rest
        invariant !more ==> Parse(WIRE, Window()) == Parsed([], Window())
        decreases more, numberOfBytesLeftToRead
      {
        ghost var before := delivered;
        ghost var message;
        more, message := ReadOne();
        if more {
          PaddedFirst(before, message, Parse(WIRE, Window()).messages);
        }
      }
    }

    method UpdateForDataRead(size: nat)
      requires size <= numberOfBytesLeftToRead
      modifies this`readOffset, this`numberOfBytesLeftToRead
      ensures readOffset == old(readOffset) + size && numberOfBytesLeftToRead == old(numberOfBytesLeftToRead) - size
    {
      readOffset := readOffset + size;
      numberOfBytesLeftToRead := numberOfBytesLeftToRead - size;
    }

    /** Makes room by resetting or swapping; the window is the same bytes as before. */
    method MakeRoom()
      requires Framed() && numberOfBytesLeftToRead < BUFFER_SIZE
      modifies this`readOffset, this`numberOfBytesLeftToRecv, handler`buffer1, handler`buffer2
      ensures Framed() && Window() == old(Window()) && readOffset < BUFFER_SIZE
      ensures {handler.buffer1, handler.buffer2} == old({handler.buffer1, handler.buffer2})
    {
      if numberOfBytesLeftToRead == 0 {
        readOffset := 0;
        numberOfBytesLeftToRecv := 2 * BUFFER_SIZE;
      } else if readOffset >= BUFFER_SIZE {
        handler.Swap();
        readOffset := readOffset - BUFFER_SIZE;
        numberOfBytesLeftToRecv := 2 * BUFFER_SIZE - numberOfBytesLeftToRead;
      }
    }

    /** The arrival of `bytes` after the window: deliver, then make room. */
    method Digest(bytes: seq<byte>, ghost taken: seq<byte>)
      requires Framed() && source.taken == taken + bytes && Sound(WIRE, source.Stream(), MESSAGE_SIZE)
      requires delivered == PaddedAll(Parse(WIRE, taken).messages)
      requires Window() == Parse(WIRE, taken).rest + bytes
      modifies this, handler`buffer1, handler`buffer2
      ensures Valid() && {handler.buffer1, handler.buffer2} == old({handler.buffer1, handler.buffer2})
    {
      StreamSound(taken, bytes);
      PaddedAppend(Parse(WIRE, taken).messages, Parse(WIRE, Parse(WIRE, taken).rest + bytes).messages);
      ReadMessages();
      MakeRoom();
    }

    /** The io-vectors cover exactly the room behind the window. */
    ghost predicate RoomOffered()
      requires Framed()
      reads this, handler, handler.buffer1, handler.buffer2
    {
      handler.Covers(readOffset + numberOfBytesLeftToRead)
    }

    /** Bytes land behind the window, in one block or across the two. */
    method Store(bytes: seq<byte>)
      requires Framed() && RoomOffered() && |bytes| <= 2 * BUFFER_SIZE - readOffset - numberOfBytesLeftToRead
      modifies this`numberOfBytesLeftToRead, handler.buffer1, handler.buffer2
      ensures Framed() && Window() == old(Window()) + bytes
    {
      ghost var flat := handler.Flat();
      handler.Scatter(bytes, readOffset + numberOfBytesLeftToRead);
      SpliceAfter(flat, handler.Flat(), readOffset, readOffset + numberOfBytesLeftToRead, bytes);
      numberOfBytesLeftToRead := numberOfBytesLeftToRead + |bytes|;
    }

    /** What was read comes behind the window, is delivered, and room is made. */
    method TakeIn(bytes: seq<byte>, ghost taken: seq<byte>)
      requires Framed() && RoomOffered() && |bytes| <= 2 * BUFFER_SIZE - readOffset - numberOfBytesLeftToRead
      requires source.taken == taken + bytes && Sound(WIRE, source.Stream(), MESSAGE_SIZE)
      requires delivered == PaddedAll(Parse(WIRE, taken).messages) && Window() == Parse(WIRE, taken).rest
      modifies this, handler, handler.buffer1, handler.buffer2
      ensures Valid() && {handler.buffer1, handler.buffer2} == old({handler.buffer1, handler.buffer2})
    {
      Store(bytes);
      Digest(bytes, taken);
    }

    /** One pass of the receive loop: a read that brings something, or the last one. */
    method Pass(ghost before: seq<byte>, ghost script: seq<Arrival>) returns (ok: bool, more: bool)
      requires Valid() && source.ReadingOut(before, script)
      modifies this, handler, handler.buffer1, handler.buffer2, source
      ensures Valid() && source.Stream() == old(source.Stream())
      ensures {handler.buffer1, handler.buffer2} == old({handler.buffer1, handler.buffer2})
      ensures more ==> source.Left() < old(source.Left()) && source.ReadingOut(before, script)
      ensures !more ==> source.ReadOut(ok, before, script)
    {
      var writeableOffset := readOffset + numberOfBytesLeftToRead;
      var _ := handler.GetNumberOfBuffers(writeableOffset);
      ghost var taken := source.taken;
      var bytes;
      ok, bytes := source.ReadOn(handler.first.len + handler.second.len, before, script);
      more := bytes != [];
      if more {
        TakeIn(bytes, taken);
      }
    }

    /** Reads everything available; `ok` when the connection is still open. Whatever the pieces, what is
        delivered is the framing of all bytes read, no byte is lost, and room is always offered. */
    method Receive() returns (ok: bool)
      requires Valid()
      modifies this, handler, handler.buffer1, handler.buffer2, source
      ensures Valid() && source.Stream() == old(source.Stream())
      ensures source.ReadOut(ok, old(source.taken), old(source.script))
      ensures {handler.buffer1, handler.buffer2} == old({handler.buffer1, handler.buffer2})
    {
      ghost var before, script := source.taken, source.script;
      var more := true;
      ok := true;
      while more
        invariant Valid() && source.Stream() == old(source.Stream())
        invariant if more then source.ReadingOut(before, script) else source.ReadOut(ok, before, script)
        invariant {handler.buffer1, handler.buffer2} == old({handler.buffer1, handler.buffer2})
        decreases more, source.Left()
      {
        ok, more := Pass(before, script);
      }
    }

    /** The bytes just read continue the framing of the bytes read before. */
    lemma StreamSound(taken: seq<byte>, bytes: seq<byte>)
      requires source.taken == taken + bytes && Sound(WIRE, source.Stream(), MESSAGE_SIZE)
      ensures Sound(WIRE, Parse(WIRE, taken).rest + bytes, MESSAGE_SIZE)
      ensures Parse(WIRE, taken + bytes).messages
           == Parse(WIRE, taken).messages + Parse(WIRE, Parse(WIRE, taken).rest + bytes).messages
      ensures Parse(WIRE, taken + bytes).rest == Parse(WIRE, Parse(WIRE, taken).rest + bytes).rest
      ensures |Parse(WIRE, taken + bytes).rest| < MESSAGE_SIZE
    {
      ParseAppend(WIRE, taken + bytes, Pending(source.script), MESSAGE_SIZE);
      ParseAppend(WIRE, taken, bytes, MESSAGE_SIZE);
      RestIsShort(WIRE, taken + bytes, MESSAGE_SIZE);
    }
  }
}
