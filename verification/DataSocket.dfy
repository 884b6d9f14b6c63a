/** The single-buffer receiver of include/platform/socket/DataSocket.h, for messages with any header. */
module DataSocket {
  import opened Bytes
  import opened Framing
  import opened Socket
  import opened CompactingBuffer

  class Receiver {
    const protocol: Protocol
    const buffer: Buffer
    const source: ByteSource
    var delivered: seq<seq<byte>>  // what onData received, in order

    /** The bound on header and message sizes under which a leftover always fits the shift. */
    ghost function Limit(): nat {
      buffer.data.Length / 4
    }

    ghost predicate Valid()
      reads this, buffer, buffer.data, source
    {
      && buffer.Framed() && buffer.AtStart() && 1 <= protocol.header <= Limit()
      && buffer.numberOfBytesLeftToRecv > 0
      && Sound(protocol, source.Stream(), Limit())
      && delivered == Parse(protocol, source.taken).messages
      && buffer.Window() == Parse(protocol, source.taken).rest
    }

    constructor (protocol: Protocol, bufferSize: nat, source: ByteSource)
      requires 1 <= protocol.header <= bufferSize / 4
      requires source.taken == [] && Sound(protocol, source.Stream(), bufferSize / 4)
      ensures Valid() && this.source == source && this.protocol == protocol && buffer.data.Length == bufferSize
      ensures fresh(buffer) && fresh(buffer.data)
    {
      this.protocol, this.source, delivered := protocol, source, [];
      buffer := new Buffer(bufferSize);
    }

    method ReadMessages()
      requires buffer.Framed() && protocol.header >= 1 && Sound(protocol, buffer.Window(), Limit())
      modifies this`delivered, buffer`readOffset, buffer`numberOfBytesLeftToRead
      ensures buffer.Framed()
      ensures delivered == old(delivered) + Parse(protocol, old(buffer.Window())).messages
      ensures buffer.Window() == Parse(protocol, old(buffer.Window())).rest
    {
      ghost var parsed := Parse(protocol, buffer.Window());
      ghost var goal := delivered + parsed.messages;
      while true
        invariant buffer.Framed() && Sound(protocol, buffer.Window(), Limit())
        invariant delivered + Parse(protocol, buffer.Window()).messages == goal
        invariant Parse(protocol, buffer.Window()).rest == parsed.rest
        decreases buffer.numberOfBytesLeftToRead
      {
        if buffer.numberOfBytesLeftToRead < protocol.header {
          return;
        }
        var header := buffer.Peek(protocol.header);
        var expectedMsgSize := protocol.size(header);
        if buffer.numberOfBytesLeftToRead < expectedMsgSize {
          return;
        }
        ParseNext(protocol, delivered, buffer.Window(), expectedMsgSize, Limit());
        var message := buffer.Peek(expectedMsgSize);
        delivered := delivered + [message];
        buffer.Consume(expectedMsgSize);
      }
    }

    /** Reads everything available; `ok` when the connection is still open. */
    method Receive() returns (ok: bool)
      requires Valid()
      modifies this, buffer, buffer.data, source
      ensures Valid() && source.Stream() == old(source.Stream())
      ensures source.ReadOut(ok, old(source.taken), old(source.script))
    {
      ghost var before, script := source.taken, source.script;
      while true
        invariant Valid() && source.Stream() == old(source.Stream()) && source.ReadingOut(before, script)
        decreases source.Left()
      {
        ghost var taken := source.taken;
        var bytes;
        ok, bytes := source.ReadOn(buffer.numberOfBytesLeftToRecv, before, script);
        if !ok || bytes == [] {
          return;
        }
        Digest(bytes, taken);
      }
    }

    /** The arrival of `bytes`: append, deliver, compact. */
    method Digest(bytes: seq<byte>, ghost taken: seq<byte>)
      requires buffer.Framed() && buffer.AtStart() && |bytes| <= buffer.numberOfBytesLeftToRecv
      requires 1 <= protocol.header <= Limit()
      requires source.taken == taken + bytes && Sound(protocol, source.Stream(), Limit())
      requires delivered == Parse(protocol, taken).messages && buffer.Window() == Parse(protocol, taken).rest
      modifies this, buffer, buffer.data
      ensures Valid()
    {
      ParseAppend(protocol, taken + bytes, Pending(source.script), Limit());
      ParseAppend(protocol, taken, bytes, Limit());
      RestIsShort(protocol, taken + bytes, Limit());
      buffer.Append(bytes);
      ReadMessages();
      buffer.Compact(buffer.data.Length / 4);
    }
  }
}
