/** The resumable WebSocket frame reader of src/platform/socket/websocket/Frame.cpp and the message
    loop of include/platform/socket/websocket/Frame.h. */
module Frame {
  import opened Bytes
  import opened FrameSpec
  import W = DataWrap

  datatype ProcessingState = ReadHeader | ReadPayloadLength | ReadMask | ReadPayload | WaitForData | Done

  /** The bytes presented to one call: `length` bytes of `data`, the first `readOffset` consumed. */
  class SocketData {
    const data: array<byte>
    const length: nat
    var readOffset: nat

    ghost predicate Valid()
      reads this
    {
      readOffset <= length <= data.Length && length <= MAX32
    }

    ghost function Unread(): seq<byte>
      requires Valid()
      reads this, data
    {
      data[readOffset..length]
    }

    constructor (data: array<byte>, length: nat)
      requires length <= data.Length && length <= MAX32
      ensures Valid() && this.data == data && this.length == length && readOffset == 0
    {
      this.data, this.length, readOffset := data, length, 0;
    }

    function GetDataLeftToRead(): nat
      requires Valid()
      reads this
    {
      length - readOffset
    }
  }

  /** Exclusive-ors `size` bytes of `payload` from `from` on with the key, in place. */
  method Mask(payload: array<byte>, from: nat, size: nat, key: nat)
    requires from + size <= payload.Length
    modifies payload
    ensures payload[from..from + size] == Xored(old(payload[from..from + size]), key)
    ensures forall k | 0 <= k < payload.Length && !(from <= k < from + size) :: payload[k] == old(payload[k])
  {
    var i := 0;
    while i < size
      invariant 0 <= i <= size
      invariant forall k | 0 <= k < payload.Length ::
                  payload[k] == if from <= k < from + i then XorByte(old(payload[k]), KeyByte(key, k - from))
                    else old(payload[k])
    {
      payload[from + i] := XorByte(payload[from + i], KeyByte(key, i));
      i := i + 1;
    }
  }

  class Frame {
    const maxAllowedMessageSize: nat
    const message: W.DataWrap
    var processingState: ProcessingState
    var isFinalFrame: bool
    var rsv1: bool
    var rsv2: bool
    var rsv3: bool
    var isValid: bool
    var mask: nat
    var length: nat
    var opCode: nat
    var closeCode: nat
    var isFragmented: bool
    ghost var taken: seq<byte>  // bytes of the current frame consumed so far

    constructor (maxAllowedMessageSize: nat)
      ensures this.maxAllowedMessageSize == maxAllowedMessageSize && Ready() && taken == []
      ensures fresh(message) && fresh(message.data)
    {
      this.maxAllowedMessageSize := maxAllowedMessageSize;
      message := new W.DataWrap(maxAllowedMessageSize);
      processingState, isFinalFrame, isValid := ReadHeader, true, false;
      rsv1, rsv2, rsv3, isFragmented := false, false, false, false;
      mask, length, opCode, closeCode := 0, 0, RESERVED_C, CLOSE_NORMAL;
      taken := [];
    }

    function HasMask(): bool
      reads this`mask
    {
      mask != 0
    }

    function IsControlFrame(): bool
      reads this`opCode
    {
      IsControl(opCode)
    }

    /** The header fields hold what the consumed bytes say. */
    ghost predicate HeaderRead()
      reads this
    {
      && |taken| >= 2 && HeaderOk(taken) && isValid
      && isFinalFrame == Fin(taken) && opCode == Op(taken)
    }

    ghost predicate Clean()
      reads this, message
    {
      !isFragmented && message.Valid() && message.offset == 0 && message.data.Length == maxAllowedMessageSize
    }

    /** In state `st` the fields are the ones that consuming `taken` leads to. */
    ghost predicate ReadyIn(st: ProcessingState)
      reads this, message
    {
      Clean() &&
      match st
      case ReadHeader => taken == []
      case ReadPayloadLength =>
        HeaderRead() && |taken| == 2 && ExtSize(taken) != 0 && length == Length7(taken) && HasMask() == Masked(taken)
      case ReadMask =>
        HeaderRead() && |taken| == 2 + ExtSize(taken) && LengthOk(taken) && length == Len(taken)
        && HasMask() && Masked(taken)
      case ReadPayload =>
        HeaderRead() && |taken| == HeaderSize(taken) && LengthOk(taken) && length == Len(taken) && mask == Key(taken)
      case WaitForData => false
      case Done => false
    }

    ghost predicate Ready()
      reads this, message
    {
      ReadyIn(processingState)
    }

    /** A frame was refused. */
    ghost predicate Refused()
      reads this
    {
      processingState == Done && !isValid
    }

    method Reset()
      modifies this
      ensures processingState == ReadHeader && isFinalFrame && !isValid && !isFragmented && mask == 0 && length == 0
      ensures opCode == RESERVED_C && closeCode == CLOSE_NORMAL && taken == old(taken)
    {
      closeCode, isFinalFrame, mask := CLOSE_NORMAL, true, 0;
      rsv1, rsv2, rsv3 := false, false, false;
      opCode, isFragmented, length, isValid := RESERVED_C, false, 0, false;
      processingState := ReadHeader;
    }

    method SetError(code: nat)
      modifies this
      ensures !isValid && !isFragmented && closeCode == code && taken == old(taken) && opCode == RESERVED_C
    {
      Reset();
      closeCode := code;
      isValid := false;
    }

    method CheckValidity() returns (ok: bool)
      modifies this
      ensures ok == isValid && taken == old(taken) && (!old(isFragmented) ==> !isFragmented)
      ensures ok == old(!rsv1 && !rsv2 && !rsv3 && !IsReserved(opCode)
              && (IsControl(opCode) ==> length <= 125 && isFinalFrame))
      ensures ok ==> isFinalFrame == old(isFinalFrame) && opCode == old(opCode)
      ensures ok ==> length == old(length) && mask == old(mask)
    {
      if rsv1 || rsv2 || rsv3 {
        SetError(CLOSE_PROTOCOL_ERROR);
      } else if IsReserved(opCode) {
        SetError(CLOSE_PROTOCOL_ERROR);
      } else if IsControlFrame() {
        if length > 125 {
          SetError(CLOSE_PROTOCOL_ERROR);
        } else if !isFinalFrame {
          SetError(CLOSE_PROTOCOL_ERROR);
        } else {
          isValid := true;
        }
      } else {
        isValid := true;
      }
      ok := isValid;
    }

    /** Where the current frame starts in the data; negative when it started in an earlier call. */
    ghost function Start(sd: SocketData): int
      reads this`taken, sd`readOffset
    {
      sd.readOffset - |taken|
    }

    /** What a header stage promises about the frame that starts with `whole`: it waits with only the
        consumed header decided, refuses, or goes on to a later stage. */
    ghost predicate Advanced(sd: SocketData, st: ProcessingState, whole: seq<byte>)
      requires sd.Valid()
      reads this, message, sd, sd.data
    {
      && Clean() && taken + sd.Unread() == whole
      && match st
         case WaitForData => Decode(whole, maxAllowedMessageSize) == Partial(|taken|)
         case Done => !isValid && Decode(whole, maxAllowedMessageSize) == Invalid(|taken|)
         case _ => ReadyIn(st)
    }

    /** Takes `n` unread bytes as part of the current frame. */
    method Consume(sd: SocketData, n: nat) returns (bytes: seq<byte>)
      requires sd.Valid() && n <= |sd.Unread()|
      modifies this`taken, sd`readOffset
      ensures sd.Valid() && sd.readOffset == old(sd.readOffset) + n && |bytes| == n
      ensures old(sd.Unread()) == bytes + sd.Unread() && taken == old(taken) + bytes
      ensures taken + sd.Unread() == old(taken + sd.Unread())
    {
      bytes := sd.data[sd.readOffset..sd.readOffset + n];
      taken := taken + bytes;
      sd.readOffset := sd.readOffset + n;
    }

    lemma RsvBits(x: byte)
      ensures (x / 64) % 2 == 1 || (x / 32) % 2 == 1 || (x / 16) % 2 == 1 <==> (x / 16) % 8 != 0
    {
    }

    /** Takes the fields apart; a non-zero `mask` stands for "a key follows" until it is read. */
    method SetHeaderFields(b: seq<byte>)
      requires |b| == 2
      modifies this`isFinalFrame, this`rsv1, this`rsv2, this`rsv3, this`opCode, this`mask, this`length
      ensures isFinalFrame == Fin(b) && opCode == Op(b) && length == Length7(b)
              && mask == (if Masked(b) then 128 else 0)
      ensures (rsv1 || rsv2 || rsv3) == ((b[0] / 16) % 8 != 0)
    {
      isFinalFrame := b[0] >= 128;
      rsv1, rsv2, rsv3 := (b[0] / 64) % 2 == 1, (b[0] / 32) % 2 == 1, (b[0] / 16) % 2 == 1;
      opCode := b[0] % 16;
      mask := if b[1] >= 128 then 128 else 0;
      length := b[1] % 128;
      RsvBits(b[0]);
    }

    method ReadFrameHeader(sd: SocketData) returns (st: ProcessingState)
      requires sd.Valid() && ReadyIn(ReadHeader)
      modifies this, sd`readOffset
      ensures sd.Valid() && Advanced(sd, st, old(taken + sd.Unread()))
      ensures old(taken) <= taken && Start(sd) == old(Start(sd))
      ensures st == WaitForData ==> ReadyIn(ReadHeader)
      ensures st != ReadHeader
    {
      if sd.GetDataLeftToRead() < 2 {
        return WaitForData;
      }
      var b := Consume(sd, 2);
      assert taken == b;
      DecideHeader(b, sd.Unread(), maxAllowedMessageSize);
      SetHeaderFields(b);
      var ok := CheckValidity();
      assert ok == HeaderOk(b);
      if !ok {
        return Done;
      }
      st := if length == 126 || length == 127 then ReadPayloadLength else if HasMask() then ReadMask else ReadPayload;
    }

    /** The two-byte length; a length that one byte can express is refused. */
    method ReadLength16(sd: SocketData) returns (st: ProcessingState)
      requires sd.Valid() && ReadyIn(ReadPayloadLength) && length == 126 && |sd.Unread()| >= 2
      modifies this, sd`readOffset
      ensures sd.Valid() && Advanced(sd, st, old(taken + sd.Unread()))
      ensures old(taken) <= taken && Start(sd) == old(Start(sd))
      ensures st == Done || st == ReadMask || st == ReadPayload
    {
      ghost var head := taken;
      var b := Consume(sd, 2);
      length := FromBE(b);
      ExtendLength(head, b);
      DecideLength(taken, sd.Unread(), maxAllowedMessageSize);
      if length < 126 {
        SetError(CLOSE_PROTOCOL_ERROR);
        return Done;
      }
      st := if HasMask() then ReadMask else ReadPayload;
    }

    /** The eight-byte length; it must fit 32 bits, have bit 15 clear and need more than 16 bits. */
    method ReadLength64(sd: SocketData) returns (st: ProcessingState)
      requires sd.Valid() && ReadyIn(ReadPayloadLength) && length == 127 && |sd.Unread()| >= 8
      modifies this, sd`readOffset
      ensures sd.Valid() && Advanced(sd, st, old(taken + sd.Unread()))
      ensures old(taken) <= taken && Start(sd) == old(Start(sd))
      ensures st == Done || st == ReadMask || st == ReadPayload
    {
      ghost var head := taken;
      var b := Consume(sd, 8);
      var long := FromBE(b);
      length := long % 0x1_0000_0000;
      ExtendLength(head, b);
      DecideLength(taken, sd.Unread(), maxAllowedMessageSize);
      if long > MAX32 || (length / 0x8000) % 2 == 1 {
        SetError(CLOSE_PROTOCOL_ERROR);
        return Done;
      }
      if length <= 0xFFFF {
        SetError(CLOSE_PROTOCOL_ERROR);
        return Done;
      }
      st := if HasMask() then ReadMask else ReadPayload;
    }

    method ReadFramePayloadLength(sd: SocketData) returns (st: ProcessingState)
      requires sd.Valid() && ReadyIn(ReadPayloadLength)
      modifies this, sd`readOffset
      ensures sd.Valid() && Advanced(sd, st, old(taken + sd.Unread()))
      ensures old(taken) <= taken && Start(sd) == old(Start(sd))
      ensures st == WaitForData ==> ReadyIn(ReadPayloadLength)
      ensures st != ReadHeader && st != ReadPayloadLength
    {
      DecideHeader(taken, sd.Unread(), maxAllowedMessageSize);
      if length == 126 {
        if sd.GetDataLeftToRead() >= 2 {
          st := ReadLength16(sd);
          return;
        }
      } else {
        if sd.GetDataLeftToRead() >= 8 {
          st := ReadLength64(sd);
          return;
        }
      }
      st := WaitForData;
    }

    method ReadFrameMask(sd: SocketData) returns (st: ProcessingState)
      requires sd.Valid() && ReadyIn(ReadMask)
      modifies this, sd`readOffset
      ensures sd.Valid() && Advanced(sd, st, old(taken + sd.Unread()))
      ensures old(taken) <= taken && Start(sd) == old(Start(sd))
      ensures st == WaitForData ==> ReadyIn(ReadMask)
      ensures st == WaitForData || st == ReadPayload
    {
      DecideLength(taken, sd.Unread(), maxAllowedMessageSize);
      ghost var head := taken;
      if sd.GetDataLeftToRead() < 4 {
        return WaitForData;
      }
      var b := Consume(sd, 4);
      mask := FromBE(b);
      ExtendKey(head, b);
      st := ReadPayload;
    }

    /** The frame reader has decided the frame that starts with `whole` as the one-shot decoder does:
        it waits, it refused, or the payload lies unmasked in the data, the header consumed. */
    ghost predicate Decided(sd: SocketData, whole: seq<byte>)
      requires sd.Valid()
      reads this, message, sd, sd.data
    {
      && taken <= whole && Clean()
      && match Decode(whole, maxAllowedMessageSize)
         case Partial(c) => |taken| == c && Ready() && taken + sd.Unread() == whole
         case Invalid(c) => |taken| == c && Refused() && taken + sd.Unread() == whole
         case Complete(fin, op, header, payload) =>
           |taken| == header && processingState == Done && Received(sd, whole, fin, op, payload)
    }

    /** Unmasks in place; only the payload's bytes change. */
    method Unmask(sd: SocketData)
      requires sd.Valid() && sd.readOffset + length <= sd.length
      modifies sd.data
      ensures sd.data[sd.readOffset..sd.readOffset + length] == Xored(old(sd.Unread())[..length], mask)
      ensures sd.data[sd.readOffset + length..sd.length] == old(sd.Unread())[length..]
    {
      ghost var raw, tail := sd.Unread()[..length], sd.Unread()[length..];
      assert raw == sd.data[sd.readOffset..sd.readOffset + length];
      assert tail == sd.data[sd.readOffset + length..sd.length];
      XoredZero(raw);
      if HasMask() {
        Mask(sd.data, sd.readOffset, length, mask);
      }
    }

    /** What the payload stage promises before its result is recorded: as `Decided`, for state `st`. */
    ghost predicate PayloadRead(sd: SocketData, st: ProcessingState, whole: seq<byte>)
      requires sd.Valid()
      reads this, message, sd, sd.data
    {
      && taken <= whole && Clean()
      && match Decode(whole, maxAllowedMessageSize)
         case Partial(c) => st == WaitForData && |taken| == c && ReadyIn(ReadPayload) && taken + sd.Unread() == whole
         case Invalid(c) => st == Done && |taken| == c && !isValid && taken + sd.Unread() == whole
         case Complete(fin, op, header, payload) =>
           st == Done && |taken| == header && Received(sd, whole, fin, op, payload)
    }

    /** The payload lies unmasked in the data, and what follows it is untouched. */
    ghost predicate Received(sd: SocketData, whole: seq<byte>, fin: bool, op: nat, payload: seq<byte>)
      requires sd.Valid()
      reads this, sd, sd.data
    {
      && isValid && isFinalFrame == fin && opCode == op && length == |payload|
      && sd.readOffset + length <= sd.length && |taken| + length <= |whole|
      && sd.data[sd.readOffset..sd.readOffset + length] == payload
      && sd.data[sd.readOffset + length..sd.length] == whole[|taken| + length..]
    }

    /** Unmasks a payload that is all there. */
    method TakePayload(sd: SocketData, ghost whole: seq<byte>)
      requires sd.Valid() && ReadyIn(ReadPayload) && length <= |sd.Unread()| && length <= maxAllowedMessageSize
      requires whole == taken + sd.Unread()
      modifies sd.data
      ensures PayloadRead(sd, Done, whole)
    {
      ghost var tail := sd.Unread();
      DecidePayload(taken, tail, maxAllowedMessageSize);
      DropPrefix(taken, tail, length);
      Unmask(sd);
    }

    lemma EmptyPayload(sd: SocketData, whole: seq<byte>)
      requires sd.Valid() && ReadyIn(ReadPayload) && length == 0 && whole == taken + sd.Unread()
      ensures PayloadRead(sd, Done, whole)
    {
      DecidePayload(taken, sd.Unread(), maxAllowedMessageSize);
      DropPrefix(taken, sd.Unread(), 0);
      assert sd.data[sd.readOffset..sd.readOffset] == Xored(sd.Unread()[..0], mask);
    }

    method ReadFramePayload(sd: SocketData) returns (st: ProcessingState)
      requires sd.Valid() && ReadyIn(ReadPayload)
      modifies this, sd.data
      ensures taken == old(taken) && PayloadRead(sd, st, old(taken + sd.Unread()))
    {
      ghost var whole := taken + sd.Unread();
      DecidePayload(taken, sd.Unread(), maxAllowedMessageSize);
      if length == 0 {
        EmptyPayload(sd, whole);
        return Done;
      }
      if length > maxAllowedMessageSize {
        SetError(CLOSE_TOO_MUCH_DATA);
        return Done;
      }
      if sd.GetDataLeftToRead() < length {
        return WaitForData;
      }
      TakePayload(sd, whole);
      st := Done;
    }

    /** The header stage that the state names. */
    method RunHeaderStage(sd: SocketData) returns (st: ProcessingState)
      requires sd.Valid() && Ready() && processingState != ReadPayload
      modifies this, sd`readOffset
      ensures sd.Valid() && Advanced(sd, st, old(taken + sd.Unread()))
      ensures old(taken) <= taken && Start(sd) == old(Start(sd))
      ensures st == WaitForData ==> ReadyIn(old(processingState))
      ensures RankOf(st) < RankOf(old(processingState))
    {
      match processingState {
        case ReadHeader => st := ReadFrameHeader(sd);
        case ReadPayloadLength => st := ReadFramePayloadLength(sd);
        case ReadMask => st := ReadFrameMask(sd);
      }
    }

    /** One header stage; the state moves on, or waits where it is, or the frame is refused. */
    method HeaderStage(sd: SocketData) returns (go: bool)
      requires sd.Valid() && Ready() && processingState != ReadPayload
      modifies this, sd`readOffset
      ensures sd.Valid() && Start(sd) == old(Start(sd)) && old(taken) <= taken
      ensures go ==> (Ready() && taken + sd.Unread() == old(taken + sd.Unread()) && Rank() < old(Rank()))
      ensures !go ==> Decided(sd, old(taken + sd.Unread()))
    {
      ghost var whole := taken + sd.Unread();
      var before := processingState;
      var st := RunHeaderStage(sd);
      Conclude(sd, before, st, whole);
      go := st != WaitForData && st != Done;
    }

    /** Records the stage's result; waiting leaves the stage as it was. */
    method Conclude(sd: SocketData, before: ProcessingState, st: ProcessingState, ghost whole: seq<byte>)
      requires sd.Valid() && Advanced(sd, st, whole) && (st == WaitForData ==> ReadyIn(before))
      modifies this`processingState
      ensures processingState == (if st == WaitForData then before else st)
      ensures st == WaitForData || st == Done ==> Decided(sd, whole)
      ensures st != WaitForData && st != Done ==> Ready() && taken + sd.Unread() == whole
    {
      processingState := if st == WaitForData then before else st;
    }

    method PayloadStage(sd: SocketData)
      requires sd.Valid() && Ready() && processingState == ReadPayload
      modifies this, sd.data
      ensures taken == old(taken) && Decided(sd, old(taken + sd.Unread()))
    {
      ghost var whole := taken + sd.Unread();
      var st := ReadFramePayload(sd);
      ConcludePayload(sd, st, whole);
    }

    method ConcludePayload(sd: SocketData, st: ProcessingState, ghost whole: seq<byte>)
      requires sd.Valid() && PayloadRead(sd, st, whole)
      modifies this`processingState
      ensures Decided(sd, whole)
    {
      processingState := if st == WaitForData then ReadPayload else st;
    }

    static ghost function RankOf(st: ProcessingState): nat {
      match st case ReadHeader => 4 case ReadPayloadLength => 3 case ReadMask => 2 case ReadPayload => 1 case _ => 0
    }

    ghost function Rank(): nat
      reads this`processingState
    {
      RankOf(processingState)
    }

    /** Drives the stages until more data is needed or the frame is decided. */
    method ReadFrame(sd: SocketData)
      requires sd.Valid() && Ready()
      modifies this, sd`readOffset, sd.data
      ensures sd.Valid() && Start(sd) == old(Start(sd)) && old(taken) <= taken
      ensures Decided(sd, old(taken + sd.Unread()))
    {
      ghost var whole := taken + sd.Unread();
      while processingState != ReadPayload
        invariant sd.Valid() && Ready() && taken + sd.Unread() == whole && old(taken) <= taken
        invariant Start(sd) == old(Start(sd))
        decreases Rank()
      {
        var go := HeaderStage(sd);
        if !go {
          return;
        }
      }
      PayloadStage(sd);
    }

    /** Between calls: the header bytes consumed so far do not decide the frame. */
    ghost predicate Resting()
      reads this, message
    {
      Ready() && Decode(taken, maxAllowedMessageSize) == Partial(|taken|)
    }

    /** Collects a fragment; true when it fits. */
    method Append(bytes: seq<byte>) returns (ok: bool)
      requires message.Valid()
      modifies message`offset, message.data
      ensures ok <==> |bytes| + old(message.offset) <= message.data.Length
    {
      ok := message.Append(bytes);
    }

    method ProcessControlFrame(sd: SocketData, cb: Handler)
      requires sd.Valid() && sd.readOffset + length <= sd.length
      requires opCode == PING || opCode == PONG || opCode == CLOSE
      modifies cb
      ensures cb.calls == old(cb.calls) + EventOf(opCode, sd.data[sd.readOffset..sd.readOffset + length])
    {
      var payload := sd.data[sd.readOffset..sd.readOffset + length];
      if opCode == PING {
        cb.OnCall(OnPing(payload));
      } else if opCode == PONG {
        cb.OnCall(OnPong);
      } else {
        var code := CLOSE_NORMAL;
        if length == 1 {
          code := CLOSE_PROTOCOL_ERROR;
        } else if length > 1 {
          code := FromBE(sd.data[sd.readOffset..sd.readOffset + 2]);
          assert payload[..2] == sd.data[sd.readOffset..sd.readOffset + 2];
          if !IsCloseCodeValid(code) {
            code := CLOSE_PROTOCOL_ERROR;
          }
        }
        cb.OnCall(OnClose(code));
      }
    }

    /** Steps over the delivered frame and starts on the next one. */
    method NextFrame(sd: SocketData)
      requires sd.Valid() && Clean() && sd.readOffset + length <= sd.length
      modifies this, sd`readOffset
      ensures sd.Valid() && Resting() && taken == [] && sd.readOffset == old(sd.readOffset + length)
    {
      sd.readOffset := sd.readOffset + length;
      Reset();
      taken := [];
    }

    /** A decided, valid frame: deliver it, or give the connection up. */
    method DeliverFrame(sd: SocketData, cb: Handler) returns (again: bool)
      requires sd.Valid() && Clean() && sd.readOffset + length <= sd.length && sd.data != message.data
      requires !IsReserved(opCode) && (IsControl(opCode) ==> isFinalFrame) && length <= maxAllowedMessageSize
      modifies this, message`offset, message.data, sd`readOffset, cb
      ensures sd.Valid() && sd.data[..] == old(sd.data[..])
      ensures again == old(IsControl(opCode) || (opCode != CONTINUE && isFinalFrame))
      ensures again ==> Resting() && taken == [] && sd.readOffset == old(sd.readOffset + length)
      ensures again ==> cb.calls == old(cb.calls + EventOf(opCode, sd.data[sd.readOffset..sd.readOffset + length]))
      ensures !again ==> opCode == CLOSE && processingState == old(processingState) && cb.calls == old(cb.calls)
      ensures !again ==> sd.readOffset == old(sd.readOffset) && taken == old(taken)
    {
      if IsControlFrame() {
        ProcessControlFrame(sd, cb);
        NextFrame(sd);
        return true;
      }
      if opCode == CONTINUE {
        opCode := CLOSE;  // nothing to continue: every reset clears isFragmented
        return false;
      }
      isFragmented := !isFinalFrame;
      if isFragmented {
        var ok := Append(sd.data[sd.readOffset..sd.readOffset + length]);
        if ok {
          opCode := CLOSE;  // reported as too big
          return false;
        }
      }
      if isFinalFrame {
        cb.OnCall(OnData(sd.data[sd.readOffset..sd.readOffset + length]));
      }
      NextFrame(sd);
      again := true;
    }

    /** Between frames or inside one: `rest` is the stream from the start of the current frame. */
    ghost predicate At(sd: SocketData, rest: seq<byte>, start: int)
      reads this, message, sd, sd.data
    {
      sd.Valid() && Resting() && taken + sd.Unread() == rest && Start(sd) == start
    }

    ghost predicate GivenUp(sd: SocketData, at: int)
      reads this, sd
    {
      sd.Valid() && processingState == Done && opCode == CLOSE && sd.readOffset == at
    }

    /** One turn of the message loop against the one-shot decoding `d` of the current frame. */
    ghost predicate Turned(sd: SocketData, whole: seq<byte>, d: Decoded, start: int)
      reads this, message, sd, sd.data
    {
      if Deliverable(d) then
        d.header + |d.payload| <= |whole| && At(sd, whole[d.header + |d.payload|..], start + d.header + |d.payload|)
      else if d.Partial? then At(sd, whole, start) && |taken| == d.consumed
      else GivenUp(sd, start + (if d.Complete? then d.header else d.consumed))
    }

    /** A reader that waits inside a frame rests there. */
    lemma WaitingRests(sd: SocketData, whole: seq<byte>)
      requires sd.Valid() && Decided(sd, whole) && Decode(whole, maxAllowedMessageSize).Partial?
      ensures At(sd, whole, Start(sd)) && |taken| == Decode(whole, maxAllowedMessageSize).consumed
    {
      PartialPrefix(whole, maxAllowedMessageSize);
      assert whole[..|taken|] == taken;
    }

    method FinishFrame(sd: SocketData, cb: Handler, ghost whole: seq<byte>) returns (again: bool)
      requires sd.Valid() && sd.data != message.data && Decided(sd, whole)
      requires Decode(whole, maxAllowedMessageSize).Complete?
      modifies this, message`offset, message.data, sd`readOffset, cb
      ensures again == Deliverable(Decode(whole, maxAllowedMessageSize))
      ensures Turned(sd, whole, Decode(whole, maxAllowedMessageSize), old(Start(sd)))
      ensures cb.calls == old(cb.calls)
                          + (var d := Decode(whole, maxAllowedMessageSize);
                             if again then EventOf(d.op, d.payload) else [])
    {
      CompleteFrame(whole, maxAllowedMessageSize);
      ghost var tail := sd.data[sd.readOffset + length..sd.length];
      again := DeliverFrame(sd, cb);
      if again {
        assert sd.Unread() == tail;
        EmptyPlus(tail);
      }
    }

    method ProcessFrame(sd: SocketData, cb: Handler, ghost whole: seq<byte>) returns (again: bool, ghost d: Decoded)
      requires sd.data != message.data && At(sd, whole, Start(sd))
      modifies this, message`offset, message.data, sd`readOffset, sd.data, cb
      ensures d == Decode(whole, maxAllowedMessageSize)
      ensures again == Deliverable(d) && Turned(sd, whole, d, old(Start(sd)))
      ensures cb.calls == old(cb.calls) + (if again then EventOf(d.op, d.payload) else [])
    {
      d := Decode(whole, maxAllowedMessageSize);
      again := false;
      if sd.GetDataLeftToRead() == 0 {
        assert whole == taken;
        return;
      }
      ReadFrame(sd);
      if processingState != Done {
        WaitingRests(sd, whole);
      } else if !isValid {
        opCode := CLOSE;
      } else {
        again := FinishFrame(sd, cb, whole);
      }
    }

    /** Processes everything presented. The calls, the bytes consumed and the failure are those of the
        stream made of the current frame's consumed bytes and the bytes presented; what is left unread
        is unread stream, not yet unmasked. */
    method ProcessMessage(sd: SocketData, cb: Handler) returns (consumed: nat)
      requires sd.Valid() && Resting() && sd.data != message.data
      modifies this, message`offset, message.data, sd`readOffset, sd.data, cb
      ensures Steady(Decoder(maxAllowedMessageSize)) && consumed == sd.readOffset
      ensures Processed(sd, old(taken + sd.Unread()), Run(old(taken + sd.Unread()), Decoder(maxAllowedMessageSize)),
              old(Start(sd)))
      ensures cb.calls == old(cb.calls) + Run(old(taken + sd.Unread()), Decoder(maxAllowedMessageSize)).events
    {
      ghost var whole, calls := taken + sd.Unread(), cb.calls;
      DecoderSteady(maxAllowedMessageSize);
      ghost var events := ProcessAll(sd, cb, whole, Decoder(maxAllowedMessageSize));
      consumed := sd.readOffset;
    }

    /** Where the whole stream `whole`, starting at `start`, leaves the reader. */
    ghost predicate Processed(sd: SocketData, whole: seq<byte>, r: Outcome, start: int)
      reads this, message, sd, sd.data
    {
      if r.failed then GivenUp(sd, start + r.done + r.partial)
      else r.done <= |whole| && At(sd, whole[r.done..], start + r.done) && |taken| == r.partial
    }

    /** The message loop's progress through `whole`, `rest` of it still ahead. */
    ghost predicate Looping(sd: SocketData, whole: seq<byte>, dec: seq<byte> -> Decoded, start: int,
                            events: seq<Event>, done: nat, rest: seq<byte>, again: bool)
      requires Steady(dec)
      reads this, message, sd, sd.data
    {
      && Progress(whole, events, done, rest, dec)
      && (if again then At(sd, rest, start + done)
          else !Deliverable(dec(rest)) && Turned(sd, rest, dec(rest), start + done))
    }

    method Turn(sd: SocketData, cb: Handler, ghost whole: seq<byte>, ghost dec: seq<byte> -> Decoded, ghost start: int,
                ghost events: seq<Event>, ghost done: nat, ghost rest: seq<byte>)
      returns (again: bool, ghost events': seq<Event>, ghost done': nat, ghost rest': seq<byte>)
      requires sd.data != message.data && Steady(dec) && dec(rest) == Decode(rest, maxAllowedMessageSize)
      requires Looping(sd, whole, dec, start, events, done, rest, true)
      modifies this, message`offset, message.data, sd`readOffset, sd.data, cb
      ensures Looping(sd, whole, dec, start, events', done', rest', again)
      ensures again ==> |rest'| < |rest|
      ensures events <= events' && cb.calls == old(cb.calls) + events'[|events|..]
    {
      ghost var d;
      again, d := ProcessFrame(sd, cb, rest);
      events', done', rest' := events, done, rest;
      if again {
        ghost var n, e := d.header + |d.payload|, EventOf(d.op, d.payload);
        ProgressFrame(whole, events, done, rest, n, dec);
        events', done', rest' := events + e, done + n, rest[n..];
      }
    }

    method ProcessAll(sd: SocketData, cb: Handler, ghost whole: seq<byte>, ghost dec: seq<byte> -> Decoded)
      returns (ghost events: seq<Event>)
      requires sd.data != message.data && At(sd, whole, Start(sd))
      requires Steady(dec) && dec == Decoder(maxAllowedMessageSize)
      modifies this, message`offset, message.data, sd`readOffset, sd.data, cb
      ensures events == Run(whole, dec).events && cb.calls == old(cb.calls) + events
      ensures Processed(sd, whole, Run(whole, dec), old(Start(sd)))
    {
      ghost var rest, start, calls := whole, Start(sd), cb.calls;
      ghost var done: nat := 0;
      events := [];
      ProgressStart(whole, dec);
      var again := true;
      while again
        invariant cb.calls == calls + events
        invariant Looping(sd, whole, dec, start, events, done, rest, again)
        decreases again, |rest|
      {
        ghost var before := events;
        again, events, done, rest := Turn(sd, cb, whole, dec, start, events, done, rest);
        CallsGrow(calls, before, events);
      }
      LoopEnds(sd, whole, dec, start, events, done, rest);
    }

    lemma CallsGrow(calls: seq<Event>, before: seq<Event>, after: seq<Event>)
      requires before <= after
      ensures (calls + before) + after[|before|..] == calls + after
    {
    }

    lemma LoopEnds(sd: SocketData, whole: seq<byte>, dec: seq<byte> -> Decoded, start: int,
                   events: seq<Event>, done: nat, rest: seq<byte>)
      requires Steady(dec) && Looping(sd, whole, dec, start, events, done, rest, false)
      ensures events == Run(whole, dec).events && Processed(sd, whole, Run(whole, dec), start)
    {
      ProgressEnd(whole, events, done, rest, dec);
    }
  }

  /** The callbacks of a connection, as the list of calls they received. */
  class Handler {
    var calls: seq<Event>

    constructor ()
      ensures calls == []
    {
      calls := [];
    }

    method OnCall(e: Event)
      modifies this
      ensures calls == old(calls) + [e]
    {
      calls := calls + [e];
    }
  }
}
