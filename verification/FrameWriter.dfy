/** The header printer of src/platform/socket/websocket/Frame.cpp and the fragmenting sender of
    include/platform/socket/websocket/Frame.h, with their composition with the reader. */
module FrameWriter {
  import opened Bytes
  import opened FrameSpec
  import opened Frame
  import W = DataWrap

  const MAX_LENGTH: nat := 0x7FFF_FFFF_FFFF_FFFF

  // ---------------------------------------------------------------- one frame

  function MaskBit(key: nat): nat {
    if key != 0 then 128 else 0
  }

  /** The seven-bit length and the extended length bytes. */
  function Short(length: nat): (n: nat)
    ensures n < 128
  {
    if length <= 125 then length else if length <= 0xFFFF then 126 else 127
  }

  function Extended(length: nat): seq<byte> {
    if length <= 125 then [] else if length <= 0xFFFF then ToBE(length, 2) else ToBE(length, 8)
  }

  /** The second byte, its top bit as given, and the extended length. */
  function LengthBytes(length: nat, mask: nat): seq<byte>
    requires mask <= 128
  {
    [mask + Short(length)] + Extended(length)
  }

  function KeyBytes(key: nat): seq<byte> {
    if key != 0 then ToBE(key, 4) else []
  }

  function FirstByte(op: nat, last: bool): byte {
    op % 16 + (if last then 128 else 0)
  }

  /** A length of 2^63 or more yields no header at all. */
  function HeaderBytes(op: nat, length: nat, key: nat, last: bool): seq<byte> {
    if length > MAX_LENGTH then []
    else ([FirstByte(op, last)] + LengthBytes(length, MaskBit(key))) + KeyBytes(key)
  }

  /** A frame on the wire: header and masked payload. */
  function FrameBytes(op: nat, payload: seq<byte>, key: nat, last: bool): seq<byte> {
    HeaderBytes(op, |payload|, key, last) + Xored(payload, key)
  }

  method GetFrameHeader(opCode: nat, payloadLength: nat, maskingKey: nat, lastFrame: bool) returns (header: W.DataWrap)
    ensures fresh(header) && fresh(header.data) && header.Valid()
    ensures header.Contents() == HeaderBytes(opCode, payloadLength, maskingKey, lastFrame)
  {
    header := new W.DataWrap(14);
    if payloadLength <= MAX_LENGTH {
      PrintHeader(header, opCode, payloadLength, maskingKey, lastFrame);
    }
  }

  method PrintHeader(header: W.DataWrap, opCode: nat, payloadLength: nat, maskingKey: nat, lastFrame: bool)
    requires header.Valid() && header.data.Length == 14 && header.offset == 0 && payloadLength <= MAX_LENGTH
    modifies header`offset, header.data
    ensures header.Valid() && header.Contents() == HeaderBytes(opCode, payloadLength, maskingKey, lastFrame)
  {
    var ok := header.Append([FirstByte(opCode, lastFrame)]);
    AppendLength(header, payloadLength, MaskBit(maskingKey));
    AppendKey(header, maskingKey);
  }

  method AppendLength(header: W.DataWrap, payloadLength: nat, second: nat)
    requires header.Valid() && header.data.Length == 14 && header.offset == 1 && second <= 128
    modifies header`offset, header.data
    ensures header.Valid() && header.Contents() == old(header.Contents()) + LengthBytes(payloadLength, second)
  {
    var ok := header.Append([second + Short(payloadLength)]);
    if payloadLength > 125 {
      ok := header.Append(Extended(payloadLength));
    }
    ConcatAssociates(old(header.Contents()), [second + Short(payloadLength)], Extended(payloadLength));
  }

  method AppendKey(header: W.DataWrap, maskingKey: nat)
    requires header.Valid() && header.data.Length == 14 && header.offset <= 10
    modifies header`offset, header.data
    ensures header.Valid() && header.Contents() == old(header.Contents()) + KeyBytes(maskingKey)
  {
    if maskingKey != 0 {
      var ok := header.Append(KeyBytes(maskingKey));
    }
  }

  /** The lengths the reader accepts (Frame.cpp:180-204): 64-bit lengths need bit 15 clear. */
  predicate LengthAccepted(length: nat) {
    length <= 0xFFFF || (length <= MAX32 && (length / 0x8000) % 2 == 0)
  }

  /** The frames a reader with the given limit accepts. */
  predicate Receivable(op: nat, length: nat, last: bool, limit: nat) {
    && !IsReserved(op) && (IsControl(op) ==> last && length <= 125)
    && length <= limit && LengthAccepted(length)
  }

  lemma Pow256Values()
    ensures Pow256(2) == 0x1_0000 && Pow256(4) == 0x1_0000_0000 && Pow256(8) == 0x1_0000_0000_0000_0000
  {
    assert Pow256(4) == 256 * (256 * Pow256(2));
    assert Pow256(8) == 256 * (256 * (256 * (256 * Pow256(4))));
  }

  /** The extended length and the key read back as written. */
  lemma NumbersReadBack(length: nat, key: nat)
    requires length <= MAX_LENGTH && key <= MAX32
    ensures length > 125 ==> FromBE(Extended(length)) == length
    ensures key != 0 ==> FromBE(KeyBytes(key)) == key
  {
    Pow256Values();
    if length > 0xFFFF {
      BEExact(length, 8);
    } else if length > 125 {
      BEExact(length, 2);
    }
    BEExact(key, 4);
  }

  /** The fields of the first two bytes. */
  lemma HeadFields(h: seq<byte>, op: nat, short: nat, key: nat, last: bool)
    requires op < 16 && short < 128 && |h| >= 2 && h[0] == FirstByte(op, last) && h[1] == MaskBit(key) + short
    ensures Fin(h) == last && Op(h) == op && Masked(h) == (key != 0) && Length7(h) == short
    ensures HeaderOk(h) <==> !IsReserved(op) && (IsControl(op) ==> short <= 125 && last)
  {
  }

  /** The length a printed header announces, and whether the reader accepts it. */
  lemma LengthFields(h: seq<byte>, length: nat)
    requires length <= MAX_LENGTH && |h| >= 2 + |Extended(length)| && Length7(h) == Short(length)
    requires h[2..2 + |Extended(length)|] == Extended(length)
    ensures ExtSize(h) == |Extended(length)| && Len(h) == length && (LengthOk(h) <==> LengthAccepted(length))
  {
    NumbersReadBack(length, 0);
  }

  /** What the reader sees in a printed header. */
  lemma HeaderFields(op: nat, length: nat, key: nat, last: bool)
    requires op < 16 && key <= MAX32 && length <= MAX_LENGTH
    ensures var h := HeaderBytes(op, length, key, last);
            && |h| >= 2 && Fin(h) == last && Op(h) == op && Masked(h) == (key != 0) && HeaderSize(h) == |h|
            && (HeaderOk(h) <==> !IsReserved(op) && (IsControl(op) ==> last && length <= 125))
            && Len(h) == length && (LengthOk(h) <==> LengthAccepted(length)) && Key(h) == key
  {
    var h, ext, k := HeaderBytes(op, length, key, last), Extended(length), KeyBytes(key);
    HeadFields(h, op, Short(length), key, last);
    assert h[2..2 + |ext|] == ext;
    LengthFields(h, length);
    assert h[2 + |ext|..2 + |ext| + |k|] == k;
    NumbersReadBack(length, key);
  }

  /** Printing and reading: the frame comes back whole exactly when it is receivable, with any bytes
      after it; any other frame is refused, never misread. */
  lemma RoundTripIff(op: nat, payload: seq<byte>, key: nat, last: bool, rest: seq<byte>, limit: nat)
    requires op < 16 && key <= MAX32 && |payload| <= MAX_LENGTH
    ensures var d := Decode(FrameBytes(op, payload, key, last) + rest, limit);
            if Receivable(op, |payload|, last, limit)
            then d == Complete(last, op, |HeaderBytes(op, |payload|, key, last)|, payload)
            else d.Invalid?
  {
    var h, masked := HeaderBytes(op, |payload|, key, last), Xored(payload, key);
    HeaderFields(op, |payload|, key, last);
    ConcatAssociates(h, masked, rest);
    FieldsAppend(h, masked + rest);
    DecidePayloadWith(h, masked, rest, limit);
    XoredTwice(payload, key);
  }

  /** A whole header and a whole payload leave nothing to wait for. */
  lemma DecidePayloadWith(h: seq<byte>, body: seq<byte>, rest: seq<byte>, limit: nat)
    requires |h| >= 2 && HeaderSize(h) == |h| && Len(h) == |body|
    ensures var d := Decode(h + (body + rest), limit);
            if HeaderOk(h) && LengthOk(h) && |body| <= limit
            then d == Complete(Fin(h), Op(h), |h|, Xored(body, Key(h)))
            else d.Invalid?
  {
    FieldsAppend(h, body + rest);
    if HeaderOk(h) && LengthOk(h) {
      DecidePayload(h, body + rest, limit);
      assert (body + rest)[..|body|] == body;
    }
  }

  /** A reader that has decided a stream beginning with a printed frame ends Done and valid, with the
      frame's fields and its payload unmasked in the data, or has refused the frame. */
  lemma ReaderTakesPrinted(f: Frame, sd: SocketData, op: nat, payload: seq<byte>, key: nat, last: bool, rest: seq<byte>)
    requires op < 16 && key <= MAX32 && |payload| <= MAX_LENGTH
    requires sd.Valid() && f.Decided(sd, FrameBytes(op, payload, key, last) + rest)
    ensures f.processingState == Done && (f.isValid <==> Receivable(op, |payload|, last, f.maxAllowedMessageSize))
    ensures f.isValid ==>
              && f.isFinalFrame == last && f.opCode == op && f.length == |payload|
                && sd.readOffset + f.length <= sd.length
              && sd.data[sd.readOffset..sd.readOffset + f.length] == payload
              && sd.data[sd.readOffset + f.length..sd.length] == rest
  {
    RoundTripIff(op, payload, key, last, rest, f.maxAllowedMessageSize);
    DropPrefix(FrameBytes(op, payload, key, last), rest, 0);
  }
}
