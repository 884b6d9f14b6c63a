/** The fragmenting sender of include/platform/socket/websocket/Frame.h (section 5.4 of RFC 6455) and
    what a frame-by-frame reader makes of its bytes. */
module FrameSender {
  import opened Bytes
  import opened FrameSpec
  import opened Frame
  import opened FrameWriter

  /** How many frames the sender counts. */
  function NumFrames(size: nat, max: nat): nat
    requires max > 0
  {
    var n := size / max + (if size % max != 0 then 1 else 0);
    if n == 0 then 1 else n
  }

  lemma OneFrame(size: nat, max: nat)
    requires size <= max && max > 0
    ensures NumFrames(size, max) == 1
  {
    if size == max {
      DivModUnique(size, max, 1, 0);
    } else {
      DivModUnique(size, max, 0, size);
    }
  }

  lemma OneFrameMore(size: nat, max: nat)
    requires size > max > 0
    ensures NumFrames(size, max) == 1 + NumFrames(size - max, max)
  {
    var q, r := (size - max) / max, (size - max) % max;
    assert (q + 1) * max == q * max + max;
    DivModUnique(size, max, q + 1, r);
  }

  /** The message in pieces of `max` bytes, the last possibly shorter; an empty message is one piece. */
  function Fragments(s: seq<byte>, max: nat): (f: seq<seq<byte>>)
    requires max > 0
    ensures |f| == NumFrames(|s|, max)
    decreases |s|
  {
    if |s| <= max then
      OneFrame(|s|, max);
      [s]
    else
      OneFrameMore(|s|, max);
      [s[..max]] + Fragments(s[max..], max)
  }

  /** The size of the last piece. */
  function LastSize(size: nat, max: nat): (n: nat)
    requires max > 0
    ensures n <= max
  {
    if size <= max then size else LastSize(size - max, max)
  }

  lemma {:induction false} LastSizeIs(size: nat, max: nat)
    requires max > 0
    ensures LastSize(size, max) == size - (NumFrames(size, max) - 1) * max
  {
    if size <= max {
      OneFrame(size, max);
    } else {
      OneFrameMore(size, max);
      LastSizeIs(size - max, max);
      var n := NumFrames(size, max);
      assert (n - 1) * max == (n - 2) * max + max;
    }
  }

  lemma {:induction false} FragmentsAre(s: seq<byte>, max: nat)
    requires max > 0
    ensures var f := Fragments(s, max);
            && Concat(f) == s
            && forall i | 0 <= i < |f| :: |f[i]| == if i == |f| - 1 then LastSize(|s|, max) else max
    decreases |s|
  {
    var f := Fragments(s, max);
    if |s| <= max {
      assert f[1..] == [];
    } else {
      FragmentsAre(s[max..], max);
      assert f[1..] == Fragments(s[max..], max) && s == s[..max] + s[max..];
    }
  }

  // ---------------------------------------------------------------- the bytes sent

  /** Only the first frame has the opcode, only the last has FIN. */
  function OpAt(op: nat, i: nat): nat {
    if i == 0 then op else CONTINUE
  }

  function FrameAt(op: nat, pieces: seq<seq<byte>>, keys: seq<nat>, i: nat): seq<byte>
    requires i < |pieces| <= |keys|
  {
    FrameBytes(OpAt(op, i), pieces[i], keys[i], i == |pieces| - 1)
  }

  function Frames(op: nat, pieces: seq<seq<byte>>, keys: seq<nat>): (f: seq<seq<byte>>)
    requires |pieces| <= |keys|
    ensures |f| == |pieces|
  {
    seq(|pieces|, i requires 0 <= i < |pieces| => FrameAt(op, pieces, keys, i))
  }

  function KeysUsed(mask: bool, random: seq<nat>): (keys: seq<nat>)
    ensures |keys| == |random|
  {
    if mask then random else seq(|random|, i => 0)
  }

  /** The outgoing side of the connection. */
  class Connection {
    var sent: seq<byte>

    constructor ()
      ensures sent == []
    {
      sent := [];
    }

    method Send(bytes: seq<byte>)
      modifies this
      ensures sent == old(sent) + bytes
    {
      sent := sent + bytes;
    }
  }

  /** One frame: the header, then the piece, masked in the caller's buffer. */
  method SendFrame(buffer: array<byte>, from: nat, size: nat, connection: Connection,
                   opcode: nat, mask: bool, maskingKey: nat, last: bool)
    requires from + size <= buffer.Length && (!mask ==> maskingKey == 0)
    modifies buffer, connection
    ensures connection.sent
            == old(connection.sent) + FrameBytes(opcode, old(buffer[from..from + size]), maskingKey, last)
    ensures buffer[from..from + size] == Xored(old(buffer[from..from + size]), maskingKey)
    ensures forall k | 0 <= k < buffer.Length && !(from <= k < from + size) :: buffer[k] == old(buffer[k])
  {
    ghost var payload := buffer[from..from + size];
    var header := GetFrameHeader(opcode, size, maskingKey, last);
    connection.Send(header.data[..header.offset]);
    XoredZero(payload);
    if size > 0 {
      if mask {
        Mask(buffer, from, size, maskingKey);
      }
      connection.Send(buffer[from..from + size]);
    }
    ConcatAssociates(old(connection.sent), HeaderBytes(opcode, size, maskingKey, last), Xored(payload, maskingKey));
  }

  lemma NextPiece(pieces: seq<seq<byte>>, i: nat, tail: seq<byte>, max: nat)
    requires max > 0 && i < |pieces| && pieces[i..] == Fragments(tail, max)
    ensures var n := if |tail| < max then |tail| else max;
            && pieces[i] == tail[..n]
            && if i + 1 < |pieces| then pieces[i + 1..] == Fragments(tail[n..], max) else n == |tail|
  {
    assert pieces[i] == pieces[i..][0] && pieces[i + 1..] == pieces[i..][1..];
  }

  /** The pieces from `i` on are those of the buffer from `at` on. */
  ghost predicate Underway(buffer: array<byte>, at: nat, size: nat, pieces: seq<seq<byte>>, i: nat, max: nat)
    requires max > 0
    reads buffer
  {
    && at <= size <= buffer.Length
    && if i < |pieces| then pieces[i..] == Fragments(buffer[at..size], max) else at == size
  }

  lemma PieceAhead(buffer: array<byte>, at: nat, size: nat, pieces: seq<seq<byte>>, i: nat, max: nat, piece: nat)
    requires max > 0 && i < |pieces| && Underway(buffer, at, size, pieces, i, max)
    requires piece == if size - at < max then size - at else max
    ensures buffer[at..at + piece] == pieces[i]
  {
    NextPiece(pieces, i, buffer[at..size], max);
    SliceHead(buffer, at, piece, size);
  }

  /** Sending the piece leaves the later ones as they were. */
  lemma StillUnderway(buffer: array<byte>, tail: seq<byte>, at: nat, size: nat, pieces: seq<seq<byte>>, i: nat,
      max: nat, piece: nat)
    requires max > 0 && i < |pieces| && pieces[i..] == Fragments(tail, max) && at + |tail| == size <= buffer.Length
    requires piece == if |tail| < max then |tail| else max
    requires forall k | at + piece <= k < size :: buffer[k] == tail[k - at]
    ensures Underway(buffer, at + piece, size, pieces, i + 1, max)
  {
    NextPiece(pieces, i, tail, max);
    assert buffer[at + piece..size] == tail[piece..];
  }

  /** The `i`-th turn of the sending loop. */
  method SendPiece(buffer: array<byte>, at: nat, size: nat, max: nat, connection: Connection, opcode: nat,
                   mask: bool, maskingKey: nat, ghost pieces: seq<seq<byte>>, ghost i: nat, last: bool)
    returns (piece: nat)
    requires max > 0 && i < |pieces| && Underway(buffer, at, size, pieces, i, max) && (!mask ==> maskingKey == 0)
    modifies buffer, connection
    ensures Underway(buffer, at + piece, size, pieces, i + 1, max)
    ensures connection.sent == old(connection.sent) + FrameBytes(opcode, pieces[i], maskingKey, last)
  {
    ghost var tail := buffer[at..size];
    piece := if size - at < max then size - at else max;
    PieceAhead(buffer, at, size, pieces, i, max, piece);
    SendFrame(buffer, at, piece, connection, opcode, mask, maskingKey, last);
    StillUnderway(buffer, tail, at, size, pieces, i, max, piece);
  }

  lemma NextFrame(sent: seq<byte>, before: seq<byte>, op: nat, pieces: seq<seq<byte>>, keys: seq<nat>, i: nat)
    requires i < |pieces| <= |keys|
    requires sent == (before + Concat(Frames(op, pieces, keys)[..i])) + FrameAt(op, pieces, keys, i)
    ensures sent == before + Concat(Frames(op, pieces, keys)[..i + 1])
  {
    var frames := Frames(op, pieces, keys);
    ConcatNext(frames, i);
    ConcatAssociates(before, Concat(frames[..i]), frames[i]);
  }

  /** Sends `size` bytes of the buffer as fragments of at most `max` bytes. `random` are the masking
      keys drawn, one a frame. The frames go out in order. */
  method SendMsg(buffer: array<byte>, size: nat, max: nat, connection: Connection, firstOpCode: nat, mask: bool,
      random: seq<nat>)
    returns (n: nat)
    requires size <= buffer.Length && max > 0 && |random| >= NumFrames(size, max)
    modifies buffer, connection
    ensures n == size
    ensures connection.sent
         == old(connection.sent)
            + Concat(Frames(firstOpCode, Fragments(old(buffer[..size]), max), KeysUsed(mask, random)))
  {
    ghost var message, before := buffer[..size], connection.sent;
    ghost var pieces, keys := Fragments(message, max), KeysUsed(mask, random);
    var numFrames := NumFrames(size, max);
    var i, currentPosition, bytesLeft := 0, 0, size;
    assert pieces[0..] == pieces;
    while i < numFrames
      invariant 0 <= i <= numFrames && 0 <= currentPosition <= size && bytesLeft == size - currentPosition
      invariant Underway(buffer, currentPosition, size, pieces, i, max)
      invariant connection.sent == before + Concat(Frames(firstOpCode, pieces, keys)[..i])
    {
      var maskingKey := if mask then random[i] else 0;
      var piece := SendPiece(buffer, currentPosition, size, max, connection, OpAt(firstOpCode, i), mask, maskingKey,
                             pieces, i, i == numFrames - 1);
      assert keys[i] == maskingKey;
      NextFrame(connection.sent, before, firstOpCode, pieces, keys, i);
      currentPosition, bytesLeft, i := currentPosition + piece, bytesLeft - piece, i + 1;
    }
    assert Frames(firstOpCode, pieces, keys)[..i] == Frames(firstOpCode, pieces, keys);
    n := currentPosition;
  }

  // ---------------------------------------------------------------- reading them back

  datatype Received = Received(fin: bool, op: nat, payload: seq<byte>)

  /** Reads frame by frame for as long as frames are complete and valid. */
  function ReadAll(s: seq<byte>, limit: nat): (r: seq<Received>)
    decreases |s|
  {
    var d := Decode(s, limit);
    if d.Complete? then [Received(d.fin, d.op, d.payload)] + ReadAll(s[d.header + |d.payload|..], limit) else []
  }

  /** The frames as they should come out: the opcode only on the first, 0 on the others. */
  function Expected(op: nat, pieces: seq<seq<byte>>): (r: seq<Received>)
    ensures |r| == |pieces|
  {
    seq(|pieces|, i requires 0 <= i < |pieces| => Received(i == |pieces| - 1, if i == 0 then op else 0, pieces[i]))
  }

  predicate AllReceivable(op: nat, pieces: seq<seq<byte>>, from: nat, limit: nat) {
    forall i | from <= i < |pieces| :: Receivable(OpAt(op, i), |pieces[i]|, i == |pieces| - 1, limit)
  }

  /** One printed frame in front: it is read, or nothing is. */
  lemma ReadFirst(op: nat, payload: seq<byte>, key: nat, last: bool, rest: seq<byte>, limit: nat)
    requires op < 16 && key <= MAX32 && |payload| <= MAX_LENGTH
    ensures var r := ReadAll(FrameBytes(op, payload, key, last) + rest, limit);
            r == if Receivable(op, |payload|, last, limit)
                 then [Received(last, op, payload)] + ReadAll(rest, limit) else []
  {
    var f := FrameBytes(op, payload, key, last);
    RoundTripIff(op, payload, key, last, rest, limit);
    assert (f + rest)[|f|..] == rest;
  }

  lemma {:induction false} ReadBackFrom(op: nat, pieces: seq<seq<byte>>, keys: seq<nat>, i: nat, limit: nat)
    requires i <= |pieces| <= |keys| && op < 16
    requires forall k | 0 <= k < |pieces| :: |pieces[k]| <= MAX_LENGTH && keys[k] <= MAX32
    ensures ReadAll(Concat(Frames(op, pieces, keys)[i..]), limit) == Expected(op, pieces)[i..]
            <==> AllReceivable(op, pieces, i, limit)
    decreases |pieces| - i
  {
    var frames, expected := Frames(op, pieces, keys), Expected(op, pieces);
    if i == |pieces| {
      assert frames[i..] == [] && expected[i..] == [];
    } else {
      ReadBackFrom(op, pieces, keys, i + 1, limit);
      var rest, last := Concat(frames[i + 1..]), i == |pieces| - 1;
      assert frames[i..][1..] == frames[i + 1..];
      assert Concat(frames[i..]) == FrameAt(op, pieces, keys, i) + rest;
      ReadFirst(OpAt(op, i), pieces[i], keys[i], last, rest, limit);
      AllReceivableFirst(op, pieces, i, limit);
      FirstAndRest(Receivable(OpAt(op, i), |pieces[i]|, last, limit), ReadAll(rest, limit), expected, i);
    }
  }

  lemma AllReceivableFirst(op: nat, pieces: seq<seq<byte>>, i: nat, limit: nat)
    requires i < |pieces|
    ensures AllReceivable(op, pieces, i, limit)
       <==> Receivable(OpAt(op, i), |pieces[i]|, i == |pieces| - 1, limit) && AllReceivable(op, pieces, i + 1, limit)
  {
  }

  lemma FirstAndRest<T>(good: bool, r: seq<T>, s: seq<T>, i: nat)
    requires i < |s|
    ensures (if good then [s[i]] + r else []) == s[i..] <==> good && r == s[i + 1..]
  {
    assert s[i..] == [s[i]] + s[i + 1..];
    if good && [s[i]] + r == s[i..] {
      assert ([s[i]] + r)[1..] == r && s[i..][1..] == s[i + 1..];
    }
  }

  /** The fragments of a message come back one by one, payloads unmasked and in order, exactly when
      every one of them is receivable. */
  lemma SenderMeetsReader(op: nat, message: seq<byte>, max: nat, keys: seq<nat>, limit: nat)
    requires op < 16 && 0 < max <= MAX_LENGTH && |keys| >= NumFrames(|message|, max)
    requires forall k | 0 <= k < |keys| :: keys[k] <= MAX32
    ensures var pieces := Fragments(message, max);
            && |pieces| == NumFrames(|message|, max) && Concat(pieces) == message
            && (forall i | 0 <= i < |pieces| :: |pieces[i]| <= max)
            && (ReadAll(Concat(Frames(op, pieces, keys)), limit) == Expected(op, pieces)
                <==> SendableWhole(op, |message|, max, limit))
  {
    var pieces := Fragments(message, max);
    FragmentsAre(message, max);
    ReadBackFrom(op, pieces, keys, 0, limit);
    assert Frames(op, pieces, keys)[0..] == Frames(op, pieces, keys)
      && Expected(op, pieces)[0..] == Expected(op, pieces);
    SendableMeansAll(op, message, max, limit);
  }

  /** What a caller can check beforehand: the first frame and, when there are several, the full and
      the last fragment. */
  predicate SendableWhole(op: nat, size: nat, max: nat, limit: nat)
    requires max > 0
  {
    var n := NumFrames(size, max);
    if n == 1 then Receivable(op, size, true, limit)
    else Receivable(op, max, false, limit) && Receivable(CONTINUE, size - (n - 1) * max, true, limit)
  }

  lemma SendableMeansAll(op: nat, message: seq<byte>, max: nat, limit: nat)
    requires max > 0
    ensures SendableWhole(op, |message|, max, limit) <==> AllReceivable(op, Fragments(message, max), 0, limit)
  {
    var pieces := Fragments(message, max);
    FragmentsAre(message, max);
    LastSizeIs(|message|, max);
    EnoughToCheckTwo(op, pieces, max, limit);
  }

  /** Full pieces are receivable together. */
  lemma EnoughToCheckTwo(op: nat, pieces: seq<seq<byte>>, max: nat, limit: nat)
    requires |pieces| > 0 && forall i | 0 <= i < |pieces| - 1 :: |pieces[i]| == max
    ensures var n := |pieces|;
            AllReceivable(op, pieces, 0, limit)
            <==>
            Receivable(OpAt(op, n - 1), |pieces[n - 1]|, true, limit)
            && (n > 1 ==> Receivable(op, max, false, limit))
  {
    var n := |pieces|;
    if AllReceivable(op, pieces, 0, limit) && n > 1 {
      assert Receivable(OpAt(op, 0), |pieces[0]|, false, limit);
    }
  }
}
