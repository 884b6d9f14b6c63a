/** The double buffer of src/platform/socket/data_handler/StringV.cpp: two blocks of BUFFER_SIZE bytes
    that together hold one window of the stream. */
module StringV {
  import opened Bytes

  const BUFFER_SIZE: nat := 1000
  const HEADER_SIZE: nat := 4
  const MESSAGE_SIZE: nat := 68  // sizeof(Message): the header and 64 characters, packed

  /** A `Message` object after `size` bytes were copied over its zeros. */
  function Padded(bytes: seq<byte>): (m: seq<byte>) {
    if |bytes| >= MESSAGE_SIZE then bytes else bytes + seq(MESSAGE_SIZE - |bytes|, _ => 0)
  }

  function PaddedAll(messages: seq<seq<byte>>): seq<seq<byte>> {
    if messages == [] then [] else [Padded(messages[0])] + PaddedAll(messages[1..])
  }

  /** Every message is delivered in full, behind it zeros up to the size of a `Message`. */
  lemma {:induction false} PaddedAt(messages: seq<seq<byte>>, i: nat)
    requires i < |messages| && |messages[i]| <= MESSAGE_SIZE
    ensures |PaddedAll(messages)| == |messages| && |PaddedAll(messages)[i]| == MESSAGE_SIZE
    ensures PaddedAll(messages)[i][..|messages[i]|] == messages[i]
    ensures forall k | |messages[i]| <= k < MESSAGE_SIZE :: PaddedAll(messages)[i][k] == 0
  {
    PaddedCount(messages);
    if i > 0 {
      PaddedCount(messages[1..]);
      PaddedAt(messages[1..], i - 1);
    }
  }

  lemma {:induction false} PaddedCount(messages: seq<seq<byte>>)
    ensures |PaddedAll(messages)| == |messages|
  {
    if messages != [] {
      PaddedCount(messages[1..]);
    }
  }

  lemma {:induction false} PaddedAppend(a: seq<seq<byte>>, b: seq<seq<byte>>)
    ensures PaddedAll(a + b) == PaddedAll(a) + PaddedAll(b)
  {
    if a == [] {
      assert a + b == b;
    } else {
      assert (a + b)[1..] == a[1..] + b;
      PaddedAppend(a[1..], b);
    }
  }

  lemma PaddedFirst(before: seq<seq<byte>>, message: seq<byte>, rest: seq<seq<byte>>)
    ensures before + [Padded(message)] + PaddedAll(rest) == before + PaddedAll([message] + rest)
  {
    assert ([message] + rest)[1..] == rest;
  }

  /** The header's size field on a little-endian host. */
  function SizeOf(header: seq<byte>): nat {
    FromLE(header)
  }

  lemma SizeIs(header: seq<byte>)
    requires |header| == HEADER_SIZE
    ensures SizeOf(header) == FourAt(header, 0)
  {
    LEFour(header);
  }

  /** Reading on after writing `bytes` behind the part already written. */
  lemma SpliceAfter(flat: seq<byte>, flat': seq<byte>, from: nat, to: nat, bytes: seq<byte>)
    requires from <= to && to + |bytes| <= |flat| && flat' == flat[..to] + bytes + flat[to + |bytes|..]
    ensures flat'[from..to + |bytes|] == flat[from..to] + bytes
  {
  }

  /** A prefix and a suffix of a slice. */
  lemma SliceOfSlice(flat: seq<byte>, from: nat, to: nat, n: nat)
    requires from + n <= to <= |flat|
    ensures flat[from..to][..n] == flat[from..from + n]
    ensures flat[from..to][n..] == flat[from + n..to]
  {
  }

  datatype IOVec = IOVec(base: array<byte>, offset: nat, len: nat)

  class DoubleBuffer {
    var buffer1: array<byte>
    var buffer2: array<byte>
    var first: IOVec
    var second: IOVec

    ghost predicate Valid()
      reads this
    {
      buffer1 != buffer2 && buffer1.Length == buffer2.Length == BUFFER_SIZE
    }

    /** Both blocks as one run of bytes. */
    ghost function Flat(): (s: seq<byte>)
      requires Valid()
      reads this, buffer1, buffer2
      ensures |s| == 2 * BUFFER_SIZE
    {
      buffer1[..] + buffer2[..]
    }

    constructor ()
      ensures Valid() && fresh(buffer1) && fresh(buffer2)
    {
      var b1 := new byte[BUFFER_SIZE];
      var b2 := new byte[BUFFER_SIZE];
      buffer1, buffer2 := b1, b2;
      first, second := IOVec(b1, 0, BUFFER_SIZE), IOVec(b2, 0, BUFFER_SIZE);
    }

    /** A copy of `size` bytes at `offset` of the flat window, into a zeroed block of `capacity` bytes. */
    method Extract(offset: nat, size: nat, capacity: nat) returns (block: array<byte>)
      requires Valid() && offset + size <= 2 * BUFFER_SIZE && size <= capacity
      ensures fresh(block) && block.Length == capacity
      ensures forall i | 0 <= i < capacity :: block[i] == if i < size then Flat()[offset + i] else 0
    {
      block := new byte[capacity](_ => 0);
      if offset < BUFFER_SIZE && offset + size >= BUFFER_SIZE {
        var inFirst := BUFFER_SIZE - offset;
        Copy(buffer1, offset, block, 0, inFirst);
        Copy(buffer2, 0, block, inFirst, size - inFirst);
      } else if offset < BUFFER_SIZE {
        Copy(buffer1, offset, block, 0, size);
      } else {
        Copy(buffer2, offset - BUFFER_SIZE, block, 0, size);
      }
    }

    /** The size field of the header at `offset`, whether or not it straddles the blocks. */
    method ReadHeader(offset: nat) returns (size: nat)
      requires Valid() && offset + HEADER_SIZE <= 2 * BUFFER_SIZE
      ensures size == SizeOf(Flat()[offset..offset + HEADER_SIZE])
      ensures size == FourAt(Flat(), offset)
    {
      SizeIs(Flat()[offset..offset + HEADER_SIZE]);
      if offset < BUFFER_SIZE && offset + HEADER_SIZE >= BUFFER_SIZE {
        var header := Extract(offset, HEADER_SIZE, HEADER_SIZE);
        assert header[..] == Flat()[offset..offset + HEADER_SIZE];
        size := SizeOf(header[..]);
      } else if offset < BUFFER_SIZE {
        size := SizeOf(buffer1[offset..offset + HEADER_SIZE]);
        assert Flat()[offset..offset + HEADER_SIZE] == buffer1[offset..offset + HEADER_SIZE];
      } else {
        var o := offset - BUFFER_SIZE;
        size := SizeOf(buffer2[o..o + HEADER_SIZE]);
        assert Flat()[offset..offset + HEADER_SIZE] == buffer2[o..o + HEADER_SIZE];
      }
    }

    /** A new `Message` holding the `size` bytes at `offset`. */
    method ReadMessage(offset: nat, size: nat) returns (message: seq<byte>)
      requires Valid() && offset + size <= 2 * BUFFER_SIZE && size <= MESSAGE_SIZE
      ensures message == Padded(Flat()[offset..offset + size])
      ensures |message| == MESSAGE_SIZE && message[..size] == Flat()[offset..offset + size]
      ensures forall i | size <= i < MESSAGE_SIZE :: message[i] == 0
    {
      var block := Extract(offset, size, MESSAGE_SIZE);
      message := block[..];
      assert message == Padded(Flat()[offset..offset + size]);
    }

    /** The io-vectors are exactly the free space from `writeableOffset` on. */
    ghost predicate Covers(writeableOffset: nat)
      reads this
    {
      && first.base == buffer1 && second.base == buffer2
      && first.len + second.len == 2 * BUFFER_SIZE - writeableOffset
      && first.offset + first.len <= BUFFER_SIZE && second.offset + second.len == BUFFER_SIZE
      && (if writeableOffset < BUFFER_SIZE
          then first.offset == writeableOffset && first.offset + first.len == BUFFER_SIZE && second.offset == 0
          else first.len == 0 && second.offset == writeableOffset - BUFFER_SIZE)
    }

    /** Points the two io-vectors at the free space after `writeableOffset`, all of it. */
    method GetNumberOfBuffers(writeableOffset: nat) returns (n: nat)
      requires Valid() && writeableOffset <= 2 * BUFFER_SIZE
      modifies this`first, this`second
      ensures n == 2 && Covers(writeableOffset)
    {
      if writeableOffset < BUFFER_SIZE {
        first := IOVec(buffer1, writeableOffset, BUFFER_SIZE - writeableOffset);
        second := IOVec(buffer2, 0, BUFFER_SIZE);
        return 2;
      }
      first := IOVec(buffer1, 0, 0);
      var offsetForSecondBuffer := writeableOffset - BUFFER_SIZE;
      second := IOVec(buffer2, offsetForSecondBuffer, BUFFER_SIZE - offsetForSecondBuffer);
      n := 2;
    }

    /** `readv` over the two io-vectors: the first one is filled before the second. */
    method Scatter(bytes: seq<byte>, ghost writeableOffset: nat)
      requires Valid() && writeableOffset + |bytes| <= 2 * BUFFER_SIZE
      requires Covers(writeableOffset)
      modifies buffer1, buffer2
      ensures Flat() == old(Flat())[..writeableOffset] + bytes + old(Flat())[writeableOffset + |bytes|..]
    {
      var n := if |bytes| < first.len then |bytes| else first.len;
      ghost var before := Flat();
      Put(bytes[..n], buffer1, first.offset);
      Put(bytes[n..], buffer2, second.offset);
      ghost var after := before[..writeableOffset] + bytes + before[writeableOffset + |bytes|..];
      forall i | 0 <= i < 2 * BUFFER_SIZE ensures Flat()[i] == after[i] {
      }
    }

    method Swap()
      requires Valid()
      modifies this`buffer1, this`buffer2
      ensures Valid() && buffer1 == old(buffer2) && buffer2 == old(buffer1)
      ensures forall from, to | BUFFER_SIZE <= from <= to <= 2 * BUFFER_SIZE ::
                Flat()[from - BUFFER_SIZE..to - BUFFER_SIZE] == old(Flat())[from..to]
    {
      buffer1, buffer2 := buffer2, buffer1;
    }
  }
}
