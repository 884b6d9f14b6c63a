/** The single receive buffer that DataSocket and EventChannel share in shape: bytes are appended
    behind the unread ones, consumed from the front, and moved to the start when few are left. */
module CompactingBuffer {
  import opened Bytes

  /** `memcpy` of `n` bytes from `from` to the start of the same block. */
  method ToFront(data: array<byte>, from: nat, n: nat)
    requires from + n <= data.Length
    modifies data
    ensures data[..n] == old(data[from..from + n])
  {
    Copy(data, from, data, 0, n);
  }

  class Buffer {
    const data: array<byte>
    var readOffset: nat
    var numberOfBytesLeftToRead: nat
    var numberOfBytesLeftToRecv: nat

    ghost predicate Framed()
      reads this
    {
      readOffset + numberOfBytesLeftToRead <= data.Length
    }

    /** What holds at every head of a receive loop. */
    ghost predicate AtStart()
      reads this
    {
      readOffset == 0 && numberOfBytesLeftToRead + numberOfBytesLeftToRecv == data.Length
    }

    ghost function Window(): (w: seq<byte>)
      requires Framed()
      reads this, data
      ensures |w| == numberOfBytesLeftToRead
    {
      data[readOffset..readOffset + numberOfBytesLeftToRead]
    }

    constructor (size: nat)
      ensures Framed() && AtStart() && Window() == [] && data.Length == size && fresh(data)
    {
      data := new byte[size];
      readOffset, numberOfBytesLeftToRead, numberOfBytesLeftToRecv := 0, 0, size;
    }

    /** The first `n` unread bytes. */
    method Peek(n: nat) returns (bytes: seq<byte>)
      requires Framed() && n <= numberOfBytesLeftToRead
      ensures bytes == Window()[..n]
    {
      bytes := data[readOffset..readOffset + n];
    }

    method Append(bytes: seq<byte>)
      requires Framed() && readOffset + numberOfBytesLeftToRead + |bytes| <= data.Length
      modifies this`numberOfBytesLeftToRead, data
      ensures Framed() && Window() == old(Window()) + bytes
    {
      Put(bytes, data, readOffset + numberOfBytesLeftToRead);
      numberOfBytesLeftToRead := numberOfBytesLeftToRead + |bytes|;
    }

    method Consume(n: nat)
      requires Framed() && n <= numberOfBytesLeftToRead
      modifies this`readOffset, this`numberOfBytesLeftToRead
      ensures Framed() && Window() == old(Window())[n..]
    {
      readOffset := readOffset + n;
      numberOfBytesLeftToRead := numberOfBytesLeftToRead - n;
    }

    /** Empties or compacts: a window of at most `shift` bytes moves to the start unchanged and the
        whole rest of the buffer is offered again; a longer one stays where it is. */
    method Compact(shift: nat)
      requires Framed()
      modifies this`readOffset, this`numberOfBytesLeftToRecv, data
      ensures Framed() && Window() == old(Window())
      ensures numberOfBytesLeftToRead <= shift ==> AtStart()
      ensures numberOfBytesLeftToRead > shift ==>
                readOffset == old(readOffset) && numberOfBytesLeftToRecv == old(numberOfBytesLeftToRecv)
    {
      if numberOfBytesLeftToRead == 0 {
        readOffset := 0;
        numberOfBytesLeftToRecv := data.Length;
      } else if numberOfBytesLeftToRead <= shift {
        ToFront(data, readOffset, numberOfBytesLeftToRead);
        readOffset := 0;
        numberOfBytesLeftToRecv := data.Length - numberOfBytesLeftToRead;
      }
    }
  }
}
