/** What the bytes of a WebSocket connection mean to this endpoint (RFC 6455, sections 5.2 to 5.5, as
    src/platform/socket/websocket/Frame.cpp reads them): one-shot decoding of a frame, and the calls
    a whole byte stream leads to. */
module FrameSpec {
  import opened Bits
  import opened Bytes

  const CONTINUE: nat := 0
  const TEXT: nat := 1
  const BINARY: nat := 2
  const CLOSE: nat := 8
  const PING: nat := 9
  const PONG: nat := 10
  const RESERVED_C: nat := 12

  const CLOSE_NORMAL: nat := 1000
  const CLOSE_PROTOCOL_ERROR: nat := 1002
  const CLOSE_TOO_MUCH_DATA: nat := 1009

  const MAX32: nat := 0xFFFF_FFFF

  predicate IsReserved(op: nat) {
    (BINARY < op < CLOSE) || op > PONG
  }

  predicate IsControl(op: nat) {
    (op / 8) % 2 == 1
  }

  // ---------------------------------------------------------------- masking

  function XorByte(a: byte, b: byte): (x: byte) {
    XorBitsBound(a, b, 8);
    Pow2Is256();
    XorBits(a, b, 8)
  }

  /** The byte of a 32-bit masking key that masks payload byte `i`. */
  function KeyByte(key: nat, i: nat): byte {
    match i % 4
    case 0 => (key / 0x100_0000) % 256
    case 1 => (key / 0x1_0000) % 256
    case 2 => (key / 0x100) % 256
    case _ => key % 256
  }

  /** Masking; also unmasking. */
  function Xored(s: seq<byte>, key: nat): (x: seq<byte>)
    ensures |x| == |s|
  {
    seq(|s|, i requires 0 <= i < |s| => XorByte(s[i], KeyByte(key, i)))
  }

  lemma XoredTwice(s: seq<byte>, key: nat)
    ensures Xored(Xored(s, key), key) == s
  {
    forall i | 0 <= i < |s| ensures Xored(Xored(s, key), key)[i] == s[i] {
      Pow2Is256();
      XorBitsTwice(s[i], KeyByte(key, i), 8);
    }
  }

  /** A zero key leaves the payload alone, which is why zero can stand for "no mask". */
  lemma XoredZero(s: seq<byte>)
    ensures Xored(s, 0) == s
  {
    forall i | 0 <= i < |s| ensures Xored(s, 0)[i] == s[i] {
      Pow2Is256();
      XorBitsZero(s[i], 8);
    }
  }

  // ---------------------------------------------------------------- one frame

  function Fin(s: seq<byte>): bool
    requires |s| >= 2
  {
    s[0] >= 128
  }

  function Op(s: seq<byte>): nat
    requires |s| >= 2
  {
    s[0] % 16
  }

  function Length7(s: seq<byte>): nat
    requires |s| >= 2
  {
    s[1] % 128
  }

  function Masked(s: seq<byte>): bool
    requires |s| >= 2
  {
    s[1] >= 128
  }

  /** The first two bytes are acceptable: no RSV bit, a defined opcode, control frames short and whole. */
  predicate HeaderOk(s: seq<byte>)
    requires |s| >= 2
  {
    && (s[0] / 16) % 8 == 0
    && !IsReserved(Op(s))
    && (IsControl(Op(s)) ==> Length7(s) <= 125 && Fin(s))
  }

  /** Bytes of the extended payload length. */
  function ExtSize(s: seq<byte>): nat
    requires |s| >= 2
  {
    if Length7(s) == 126 then 2 else if Length7(s) == 127 then 8 else 0
  }

  function Len(s: seq<byte>): nat
    requires |s| >= 2 && |s| >= 2 + ExtSize(s)
  {
    if ExtSize(s) == 0 then Length7(s) else FromBE(s[2..2 + ExtSize(s)])
  }

  /** The lengths the reader accepts in each form. A 64-bit length must fit 32 bits and, as
      Frame.cpp:193 has it, must have bit 15 clear. */
  predicate LengthOk(s: seq<byte>)
    requires |s| >= 2 && |s| >= 2 + ExtSize(s)
  {
    && (ExtSize(s) == 2 ==> Len(s) >= 126)
    && (ExtSize(s) == 8 ==> Len(s) <= MAX32 && (Len(s) / 0x8000) % 2 == 0 && Len(s) > 0xFFFF)
  }

  function HeaderSize(s: seq<byte>): nat
    requires |s| >= 2
  {
    2 + ExtSize(s) + (if Masked(s) then 4 else 0)
  }

  function Key(s: seq<byte>): nat
    requires |s| >= 2 && |s| >= HeaderSize(s)
  {
    if Masked(s) then FromBE(s[2 + ExtSize(s)..2 + ExtSize(s) + 4]) else 0
  }

  /** `consumed` header bytes are gone for good when more data is awaited or the frame is refused. */
  datatype Decoded =
    | Partial(consumed: nat)
    | Invalid(consumed: nat)
    | Complete(fin: bool, op: nat, header: nat, payload: seq<byte>)

  function Decode(s: seq<byte>, limit: nat): (d: Decoded)
    ensures d.Complete? ==> 2 <= d.header && d.header + |d.payload| <= |s|
    ensures !d.Complete? ==> d.consumed <= |s|
  {
    if |s| < 2 then Partial(0)
    else if !HeaderOk(s) then Invalid(2)
    else if |s| < 2 + ExtSize(s) then Partial(2)
    else if !LengthOk(s) then Invalid(2 + ExtSize(s))
    else if |s| < HeaderSize(s) then Partial(2 + ExtSize(s))
    else if Len(s) > limit then Invalid(HeaderSize(s))
    else if |s| < HeaderSize(s) + Len(s) then Partial(HeaderSize(s))
    else Complete(Fin(s), Op(s), HeaderSize(s), Xored(s[HeaderSize(s)..HeaderSize(s) + Len(s)], Key(s)))
  }

  /** The header fields depend only on the bytes they are read from. */
  lemma FieldsAppend(s: seq<byte>, t: seq<byte>)
    requires |s| >= 2
    ensures var w := s + t;
            && Fin(w) == Fin(s) && Op(w) == Op(s) && Masked(w) == Masked(s) && Length7(w) == Length7(s)
            && (HeaderOk(w) <==> HeaderOk(s)) && ExtSize(w) == ExtSize(s) && HeaderSize(w) == HeaderSize(s)
            && (|s| >= 2 + ExtSize(s) ==> Len(w) == Len(s) && (LengthOk(w) <==> LengthOk(s)))
            && (|s| >= HeaderSize(s) ==> Key(w) == Key(s))
  {
    var w := s + t;
    if |s| >= 2 + ExtSize(s) {
      assert w[2..2 + ExtSize(s)] == s[2..2 + ExtSize(s)];
    }
    if |s| >= HeaderSize(s) && Masked(s) {
      assert w[2 + ExtSize(s)..2 + ExtSize(s) + 4] == s[2 + ExtSize(s)..2 + ExtSize(s) + 4];
    }
  }

  lemma ExtendLength(head: seq<byte>, ext: seq<byte>)
    requires |head| == 2 && |ext| == ExtSize(head) && |ext| > 0
    ensures var t := head + ext;
            && Fin(t) == Fin(head) && Op(t) == Op(head) && Masked(t) == Masked(head) && Length7(t) == Length7(head)
            && (HeaderOk(t) <==> HeaderOk(head)) && ExtSize(t) == ExtSize(head) && Len(t) == FromBE(ext)
  {
    FieldsAppend(head, ext);
    assert (head + ext)[2..2 + |ext|] == ext;
  }

  lemma ExtendKey(head: seq<byte>, key: seq<byte>)
    requires |head| >= 2 && |head| == 2 + ExtSize(head) && Masked(head) && |key| == 4
    ensures var t := head + key;
            && Fin(t) == Fin(head) && Op(t) == Op(head) && (HeaderOk(t) <==> HeaderOk(head)) && Len(t) == Len(head)
            && (LengthOk(t) <==> LengthOk(head)) && HeaderSize(t) == |t| && Key(t) == FromBE(key)
  {
    FieldsAppend(head, key);
    assert (head + key)[|head|..|head| + 4] == key;
  }

  /** Decisions that two bytes, the length bytes and the whole header allow, whatever follows. */
  lemma DecideHeader(t: seq<byte>, u: seq<byte>, limit: nat)
    requires |t| == 2
    ensures !HeaderOk(t) ==> Decode(t + u, limit) == Invalid(2)
    ensures HeaderOk(t) && |u| < ExtSize(t) ==> Decode(t + u, limit) == Partial(2)
  {
    FieldsAppend(t, u);
  }

  lemma DecideLength(t: seq<byte>, u: seq<byte>, limit: nat)
    requires |t| >= 2 && |t| == 2 + ExtSize(t) && HeaderOk(t)
    ensures !LengthOk(t) ==> Decode(t + u, limit) == Invalid(|t|)
    ensures LengthOk(t) && Masked(t) && |u| < 4 ==> Decode(t + u, limit) == Partial(|t|)
  {
    FieldsAppend(t, u);
  }

  lemma DecidePayload(t: seq<byte>, u: seq<byte>, limit: nat)
    requires |t| >= 2 && |t| == HeaderSize(t) && HeaderOk(t) && LengthOk(t)
    ensures Len(t) > limit ==> Decode(t + u, limit) == Invalid(|t|)
    ensures |u| < Len(t) <= limit ==> Decode(t + u, limit) == Partial(|t|)
    ensures Len(t) <= limit && Len(t) <= |u| ==>
              Decode(t + u, limit) == Complete(Fin(t), Op(t), |t|, Xored(u[..Len(t)], Key(t)))
  {
    FieldsAppend(t, u);
    if Len(t) <= |u| {
      assert (t + u)[|t|..|t| + Len(t)] == u[..Len(t)];
    }
  }

  /** More bytes never change a frame that was decided. */
  lemma DecodeAppend(s: seq<byte>, t: seq<byte>, limit: nat)
    requires !Decode(s, limit).Partial?
    ensures Decode(s + t, limit) == Decode(s, limit)
  {
    FieldsAppend(s, t);
    if Decode(s, limit).Complete? {
      var h, n := HeaderSize(s), Len(s);
      assert (s + t)[h..h + n] == s[h..h + n];
    }
  }

  lemma CompleteFrame(s: seq<byte>, limit: nat)
    requires Decode(s, limit).Complete?
    ensures var d := Decode(s, limit);
            !IsReserved(d.op) && (IsControl(d.op) ==> d.fin && |d.payload| <= 125) && |d.payload| <= limit
  {
  }

  /** A frame that waits does so on the header bytes it has consumed alone. */
  lemma PartialPrefix(s: seq<byte>, limit: nat)
    requires Decode(s, limit).Partial?
    ensures Decode(s[..Decode(s, limit).consumed], limit) == Decode(s, limit)
  {
    var c := Decode(s, limit).consumed;
    assert s == s[..c] + s[c..];
    if c >= 2 {
      FieldsAppend(s[..c], s[c..]);
    }
  }

  // ---------------------------------------------------------------- a whole stream

  datatype Event = OnData(payload: seq<byte>) | OnPing(payload: seq<byte>) | OnPong | OnClose(code: nat)

  predicate IsCloseCodeValid(code: nat) {
    && 999 < code < 5000
    && code != 1004 && code != 1005 && code != 1006
    && (code >= 3000 || code < 1012)
  }

  function CloseCodeOf(payload: seq<byte>): nat {
    if |payload| == 0 then CLOSE_NORMAL
    else if |payload| == 1 then CLOSE_PROTOCOL_ERROR
    else
      var code := FromBE(payload[..2]);
      if IsCloseCodeValid(code) then code else CLOSE_PROTOCOL_ERROR
  }

  function EventOf(op: nat, payload: seq<byte>): seq<Event> {
    if op == PING then [OnPing(payload)]
    else if op == PONG then [OnPong]
    else if op == CLOSE then [OnClose(CloseCodeOf(payload))]
    else [OnData(payload)]
  }

  /** Frames this endpoint can deliver. A Continue frame has nothing to continue, and the first
      fragment of a message is refused as too big however short it is (Frame.h:130-163). */
  predicate Deliverable(d: Decoded) {
    d.Complete? && (IsControl(d.op) || (d.op != CONTINUE && d.fin))
  }

  /** `done`: bytes of the frames delivered; `partial`: header bytes consumed after them. */
  datatype Outcome = Outcome(events: seq<Event>, done: nat, partial: nat, failed: bool)

  /** The frame decoder for a given size limit. */
  function Decoder(limit: nat): seq<byte> -> Decoded {
    (s: seq<byte>) => Decode(s, limit)
  }

  /** Bytes after a decided frame do not change it. */
  ghost predicate Settled(dec: seq<byte> -> Decoded, s: seq<byte>, t: seq<byte>) {
    !dec(s).Partial? ==> dec(s + t) == dec(s)
  }

  /** A frame is made of bytes that are there, and later bytes do not change it. */
  ghost predicate Steady(dec: seq<byte> -> Decoded) {
    && (forall s: seq<byte> :: dec(s).Complete? ==> 2 <= dec(s).header && dec(s).header + |dec(s).payload| <= |s|)
    && (forall s: seq<byte>, t: seq<byte> :: Settled(dec, s, t))
  }

  lemma DecoderSteady(limit: nat)
    ensures Steady(Decoder(limit))
  {
    var dec := Decoder(limit);
    forall s: seq<byte>, t: seq<byte> ensures Settled(dec, s, t) {
      if !dec(s).Partial? {
        DecodeAppend(s, t, limit);
      }
    }
  }

  function Run(s: seq<byte>, dec: seq<byte> -> Decoded): (r: Outcome)
    requires Steady(dec)
    decreases |s|
  {
    var d := dec(s);
    if Deliverable(d) then
      var n := d.header + |d.payload|;
      var r := Run(s[n..], dec);
      Outcome(EventOf(d.op, d.payload) + r.events, n + r.done, r.partial, r.failed)
    else if d.Complete? then Outcome([], 0, d.header, true)
    else Outcome([], 0, d.consumed, d.Invalid?)
  }

  lemma {:induction false} RunBound(s: seq<byte>, dec: seq<byte> -> Decoded)
    requires Steady(dec)
    ensures Run(s, dec).done <= |s|
    decreases |s|
  {
    var d := dec(s);
    if Deliverable(d) {
      RunBound(s[d.header + |d.payload|..], dec);
    }
  }

  /** The outcome when a delivered frame of `n` bytes with calls `e` comes first. */
  function After(e: seq<Event>, n: nat, r: Outcome): Outcome {
    Outcome(e + r.events, n + r.done, r.partial, r.failed)
  }

  ghost predicate Continues(whole: Outcome, first: Outcome, next: Outcome) {
    whole == After(first.events, first.done, next)
  }

  lemma ContinuesAfter(e: seq<Event>, n: nat, whole: Outcome, first: Outcome, next: Outcome)
    requires Continues(whole, first, next)
    ensures Continues(After(e, n, whole), After(e, n, first), next)
  {
    ConcatAssociates(e, first.events, next.events);
  }

  lemma RunFirst(s: seq<byte>, n: nat, dec: seq<byte> -> Decoded)
    requires Steady(dec) && Deliverable(dec(s)) && n == dec(s).header + |dec(s).payload|
    ensures n <= |s| && Run(s, dec) == After(EventOf(dec(s).op, dec(s).payload), n, Run(s[n..], dec))
  {
  }

  lemma RunLast(s: seq<byte>, dec: seq<byte> -> Decoded)
    requires Steady(dec) && !Deliverable(dec(s))
    ensures Run(s, dec) == var d := dec(s); Outcome([], 0, if d.Complete? then d.header else d.consumed, !d.Partial?)
  {
  }

  /** Progress through a stream: `rest` is unprocessed, `events` and `done` cover what precedes it. */
  ghost predicate Progress(whole: seq<byte>, events: seq<Event>, done: nat, rest: seq<byte>, dec: seq<byte> -> Decoded)
    requires Steady(dec)
  {
    done <= |whole| && rest == whole[done..] && Run(whole, dec) == After(events, done, Run(rest, dec))
  }

  lemma ProgressStart(whole: seq<byte>, dec: seq<byte> -> Decoded)
    requires Steady(dec)
    ensures Progress(whole, [], 0, whole, dec)
  {
    EmptyPlus(Run(whole, dec).events);
  }

  lemma ProgressFrame(whole: seq<byte>, events: seq<Event>, done: nat, rest: seq<byte>, n: nat,
      dec: seq<byte> -> Decoded)
    requires Steady(dec) && Progress(whole, events, done, rest, dec)
    requires Deliverable(dec(rest)) && n == dec(rest).header + |dec(rest).payload|
    ensures n <= |rest| && Progress(whole, events + EventOf(dec(rest).op, dec(rest).payload), done + n, rest[n..], dec)
  {
    RunFirst(rest, n, dec);
    DropDrop(whole, done, n);
    ConcatAssociates(events, EventOf(dec(rest).op, dec(rest).payload), Run(rest[n..], dec).events);
  }

  lemma ProgressEnd(whole: seq<byte>, events: seq<Event>, done: nat, rest: seq<byte>, dec: seq<byte> -> Decoded)
    requires Steady(dec) && Progress(whole, events, done, rest, dec) && !Deliverable(dec(rest))
    ensures var d := dec(rest);
            Run(whole, dec) == Outcome(events, done, if d.Complete? then d.header else d.consumed, !d.Partial?)
  {
    RunLast(rest, dec);
    assert events + [] == events;
  }

  ghost predicate Cuttable(a: seq<byte>, b: seq<byte>, dec: seq<byte> -> Decoded)
    requires Steady(dec)
  {
    var r := Run(a, dec);
    && r.done <= |a|
    && (r.failed ==> Run(a + b, dec) == r)
    && (!r.failed ==> Continues(Run(a + b, dec), r, Run(a[r.done..] + b, dec)))
  }

  lemma CuttableAfter(a: seq<byte>, b: seq<byte>, n: nat, dec: seq<byte> -> Decoded)
    requires Steady(dec) && Deliverable(dec(a)) && n == dec(a).header + |dec(a).payload| && dec(a + b) == dec(a)
    requires n <= |a| && Cuttable(a[n..], b, dec)
    ensures Cuttable(a, b, dec)
  {
    var e, tail := EventOf(dec(a).op, dec(a).payload), a[n..];
    RunFirst(a, n, dec);
    RunFirst(a + b, n, dec);
    assert (a + b)[n..] == tail + b;
    var first, whole := Run(tail, dec), Run(tail + b, dec);
    assert Run(a, dec) == After(e, n, first) && Run(a + b, dec) == After(e, n, whole);
    assert a[Run(a, dec).done..] == tail[first.done..];
    if !first.failed {
      ContinuesAfter(e, n, whole, first, Run(tail[first.done..] + b, dec));
    }
  }

  /** The stream can be cut anywhere: what follows is the meaning of the unfinished frame's bytes and
      what comes next; after a failure nothing more happens. */
  lemma {:induction false} RunAppend(a: seq<byte>, b: seq<byte>, dec: seq<byte> -> Decoded)
    requires Steady(dec)
    ensures Cuttable(a, b, dec)
    decreases |a|
  {
    var d := dec(a);
    assert Settled(dec, a, b);
    if Deliverable(d) {
      var n := d.header + |d.payload|;
      RunAppend(a[n..], b, dec);
      CuttableAfter(a, b, n, dec);
    } else {
      RunLast(a, dec);
      assert a[0..] == a;
      if !d.Partial? {
        RunLast(a + b, dec);
      }
    }
  }

  /** The unfinished frame at the end of an unfailed stream. */
  lemma {:induction false} RunTail(s: seq<byte>, dec: seq<byte> -> Decoded)
    requires Steady(dec) && !Run(s, dec).failed
    ensures Run(s, dec).done <= |s| && dec(s[Run(s, dec).done..]) == Partial(Run(s, dec).partial)
    decreases |s|
  {
    RunBound(s, dec);
    var d := dec(s);
    if Deliverable(d) {
      var n := d.header + |d.payload|;
      RunTail(s[n..], dec);
      assert s[n..][Run(s[n..], dec).done..] == s[n + Run(s[n..], dec).done..];
    } else {
      assert s[0..] == s;
    }
  }
}
