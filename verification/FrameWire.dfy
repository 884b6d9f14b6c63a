/** The frames of section 5.2 of RFC 6455 byte by byte, in plain arithmetic: which bytes the reader takes
    for a frame and which it refuses, what it calls for them, and which bytes the printer sends. */
module FrameWire {
  import opened Bits
  import opened Bytes
  import opened FrameSpec
  import opened FrameWriter
  import opened FrameSender

  // ---------------------------------------------------------------- numbers and bits

  lemma BEStep(s: seq<byte>, x: byte)
    ensures FromBE(s + [x]) == 256 * FromBE(s) + x as nat
  {
    ReverseAppend(s, x);
    assert ([x] + Reverse(s))[1..] == Reverse(s);
  }

  lemma TwoBytes(s: seq<byte>)
    requires |s| == 2
    ensures FromBE(s) == 256 * (s[0] as nat) + s[1] as nat
  {
    BEStep([], s[0]);
    BEStep([s[0]], s[1]);
    assert [] + [s[0]] == [s[0]] && s == [s[0]] + [s[1]];
  }

  lemma FourBytes(s: seq<byte>)
    requires |s| == 4
    ensures FromBE(s) == 0x100_0000 * (s[0] as nat) + 0x1_0000 * (s[1] as nat) + 0x100 * (s[2] as nat) + s[3] as nat
  {
    TwoBytes(s[..2]);
    BEStep(s[..2], s[2]);
    BEStep(s[..3], s[3]);
    assert s[..3] == s[..2] + [s[2]] && s == s[..3] + [s[3]];
  }

  lemma EightBytes(s: seq<byte>)
    requires |s| == 8
    ensures FromBE(s) == 0x1_0000_0000 * FromBE(s[..4]) + FromBE(s[4..])
    ensures FromBE(s[..4]) == 0 <==> s[0] == s[1] == s[2] == s[3] == 0
  {
    FourBytes(s[..4]);
    FourBytes(s[4..]);
    BEStep(s[..4], s[4]);
    BEStep(s[..5], s[5]);
    BEStep(s[..6], s[6]);
    BEStep(s[..7], s[7]);
    assert s[..5] == s[..4] + [s[4]] && s[..6] == s[..5] + [s[5]] && s[..7] == s[..6] + [s[6]] && s == s[..7] + [s[7]];
  }

  lemma TwoBytesOf(n: nat)
    requires n <= 0xFFFF
    ensures ToBE(n, 2) == [n / 256, n % 256]
  {
    var s: seq<byte> := [n % 256, n / 256];
    assert ToLE(n / 256, 1) == [n / 256];
    assert ToLE(n, 2) == s;
    assert s[1..] == [n / 256] && Reverse(s[1..]) == [n / 256];
  }

  /** The bytes of a 32-bit number in network order. */
  lemma FourBytesOf(n: nat)
    requires n <= MAX32
    ensures ToBE(n, 4) == [n / 0x100_0000, n / 0x1_0000 % 256, n / 0x100 % 256, n % 256]
  {
    var high := n / 0x1_0000;
    var a: byte, b: byte, front := n % 256, n / 256 % 256, ToLE(high, 2);
    TwoBytesOf(high);
    assert n / 256 / 256 == high;
    assert ToLE(n / 256, 3) == [b] + front && ToLE(n, 4) == [a] + ([b] + front);
    assert ([a] + ([b] + front))[1..] == [b] + front && ([b] + front)[1..] == front;
    assert Reverse([b] + front) == Reverse(front) + [b];
    assert ToBE(n, 4) == (Reverse(front) + [b]) + [a];
  }

  function Bit(n: nat, k: nat): nat {
    if k == 0 then n % 2 else Bit(n / 2, k - 1)
  }

  /** Exclusive or, bit for bit. */
  lemma {:induction false} XorBitsAt(a: nat, b: nat, n: nat, k: nat)
    requires k < n
    ensures Bit(XorBits(a, b, n), k) == (Bit(a, k) + Bit(b, k)) % 2
  {
    Halve((a % 2 + b % 2) % 2, XorBits(a / 2, b / 2, n - 1));
    if k > 0 {
      XorBitsAt(a / 2, b / 2, n - 1, k - 1);
    }
  }

  lemma XorByteAt(a: byte, b: byte, k: nat)
    requires k < 8
    ensures Bit(XorByte(a, b), k) == (Bit(a, k) + Bit(b, k)) % 2
  {
    XorBitsAt(a, b, 8, k);
  }

  // ---------------------------------------------------------------- masking

  /** Byte `i` is masked with byte `i % 4` of the key as it stands on the wire. */
  lemma MaskedWith(s: seq<byte>, key: nat, i: nat)
    requires key <= MAX32 && i < |s|
    ensures Xored(s, key)[i] == XorByte(s[i], ToBE(key, 4)[i % 4])
  {
    KeyByteIs(key, i);
  }

  lemma KeyByteIs(key: nat, i: nat)
    requires key <= MAX32
    ensures KeyByte(key, i) == ToBE(key, 4)[i % 4]
  {
    FourBytesOf(key);
    assert key / 0x100_0000 < 256;
    assert i % 4 == 0 || i % 4 == 1 || i % 4 == 2 || i % 4 == 3;
  }

  // ---------------------------------------------------------------- the bytes of a frame

  /** The opcode and the reserved bits of the first byte: continue, text, binary, close, ping or pong. */
  predicate FirstByteOk(b: byte) {
    b % 128 in {0, 1, 2, 8, 9, 10}
  }

  /** A control frame is final and has its length in seven bits. */
  predicate ControlOk(s: seq<byte>)
    requires |s| >= 2
  {
    s[0] % 16 >= 8 ==> s[0] >= 128 && s[1] % 128 <= 125
  }

  /** Bytes between the second one and the key. */
  function LengthWidth(s: seq<byte>): nat
    requires |s| >= 2
  {
    if s[1] % 128 == 126 then 2 else if s[1] % 128 == 127 then 8 else 0
  }

  /** The payload length, as far as its lower 32 bits go. */
  function PayloadLength(s: seq<byte>): nat
    requires |s| >= 2 && |s| >= 2 + LengthWidth(s)
  {
    if s[1] % 128 == 126 then 256 * (s[2] as nat) + s[3] as nat
    else if s[1] % 128 == 127
    then 0x100_0000 * (s[6] as nat) + 0x1_0000 * (s[7] as nat) + 0x100 * (s[8] as nat) + s[9] as nat
    else s[1] as nat % 128
  }

  /** The length is in its shortest form; a 64-bit one needs a zero upper half and, as Frame.cpp:193 has
      it, bit 15 clear. */
  predicate LengthFormOk(s: seq<byte>)
    requires |s| >= 2 && |s| >= 2 + LengthWidth(s)
  {
    && (s[1] % 128 == 126 ==> PayloadLength(s) >= 126)
    && (s[1] % 128 == 127 ==>
          s[2] == s[3] == s[4] == s[5] == 0 && PayloadLength(s) >= 0x1_0000 && s[8] < 128)
  }

  function HeaderWidth(s: seq<byte>): nat
    requires |s| >= 2
  {
    2 + LengthWidth(s) + if s[1] >= 128 then 4 else 0
  }

  /** Byte `i` of the payload: as it stands, or with the byte of the key in front of the payload. */
  function PayloadByte(s: seq<byte>, i: nat): byte
    requires |s| >= 2 && |s| > HeaderWidth(s) + i
  {
    var h := HeaderWidth(s);
    if s[1] >= 128 then XorByte(s[h + i], s[h - 4 + i % 4]) else s[h + i]
  }

  /** These bytes begin with a whole frame that a reader with that limit takes. */
  predicate WholeFrame(s: seq<byte>, limit: nat) {
    && |s| >= 2 && FirstByteOk(s[0]) && ControlOk(s)
    && |s| >= 2 + LengthWidth(s) && LengthFormOk(s) && PayloadLength(s) <= limit
    && |s| >= HeaderWidth(s) + PayloadLength(s)
  }

  /** And these with one that it refuses, as soon as the bytes that tell are there. */
  predicate BadFrame(s: seq<byte>, limit: nat) {
    && |s| >= 2
    && (|| !FirstByteOk(s[0]) || !ControlOk(s)
        || (|s| >= 2 + LengthWidth(s) && !LengthFormOk(s))
        || (|s| >= HeaderWidth(s) && PayloadLength(s) > limit))
  }

  lemma FirstTwo(s: seq<byte>)
    requires |s| >= 2
    ensures HeaderOk(s) <==> FirstByteOk(s[0]) && ControlOk(s)
    ensures ExtSize(s) == LengthWidth(s) && HeaderSize(s) == HeaderWidth(s)
  {
    var b := s[0];
    assert IsControl(b % 16) <==> b % 16 >= 8;
    assert b / 16 % 8 == 0 <==> b % 128 < 16;
  }

  lemma LengthIs(s: seq<byte>)
    requires |s| >= 2 && |s| >= 2 + LengthWidth(s)
    ensures LengthOk(s) <==> LengthFormOk(s)
    ensures LengthOk(s) ==> Len(s) == PayloadLength(s)
  {
    var k := s[1] % 128;
    if k == 126 {
      TwoBytes(s[2..4]);
    } else if k == 127 {
      var t := s[2..10];
      EightBytes(t);
      FourBytes(t[4..]);
      Bit15(s[6], s[7], s[8], s[9]);
    }
  }

  lemma Bit15(a: byte, b: byte, c: byte, d: byte)
    ensures var n := 0x100_0000 * (a as nat) + 0x1_0000 * (b as nat) + 0x100 * (c as nat) + d as nat;
            n <= MAX32 && (n / 0x8000 % 2 == 0 <==> c < 128)
  {
  }

  /** The reader takes exactly those bytes for a frame, and these are its fields: FIN, opcode, header
      size, and every byte of the payload. */
  lemma CompleteIff(s: seq<byte>, limit: nat)
    ensures Decode(s, limit).Complete? <==> WholeFrame(s, limit)
    ensures WholeFrame(s, limit) ==>
              var d := Decode(s, limit);
              && d.fin == (s[0] >= 128) && d.op == s[0] as nat % 16 && d.header == HeaderWidth(s)
              && |d.payload| == PayloadLength(s)
              && forall i | 0 <= i < |d.payload| :: d.payload[i] == PayloadByte(s, i)
  {
    if |s| >= 2 {
      FirstTwo(s);
      if |s| >= 2 + LengthWidth(s) {
        LengthIs(s);
      }
      if WholeFrame(s, limit) {
        PayloadIs(s, limit);
      }
    }
  }

  lemma PayloadIs(s: seq<byte>, limit: nat)
    requires WholeFrame(s, limit) && Decode(s, limit).Complete?
    requires HeaderSize(s) == HeaderWidth(s) && Len(s) == PayloadLength(s)
    ensures forall i | 0 <= i < PayloadLength(s) :: Decode(s, limit).payload[i] == PayloadByte(s, i)
  {
    var h, n := HeaderWidth(s), PayloadLength(s);
    var body := s[h..h + n];
    if Masked(s) {
      var key := s[h - 4..h];
      FourBytes(key);
      forall i | 0 <= i < n ensures Xored(body, Key(s))[i] == XorByte(s[h + i], s[h - 4 + i % 4]) {
        KeyOnWire(key, i);
        assert KeyByte(Key(s), i) == key[i % 4];
      }
    } else {
      XoredZero(body);
    }
  }

  lemma KeyOnWire(key: seq<byte>, i: nat)
    requires |key| == 4
    ensures KeyByte(FromBE(key), i) == key[i % 4]
  {
    FourBytes(key);
    Digits(key[0] as nat, key[1] as nat, key[2] as nat, key[3] as nat);
  }

  lemma Digits(a: nat, b: nat, c: nat, d: nat)
    requires a < 256 && b < 256 && c < 256 && d < 256
    ensures var n := 0x100_0000 * a + 0x1_0000 * b + 0x100 * c + d;
            && n / 0x100_0000 % 256 == a && n / 0x1_0000 % 256 == b && n / 0x100 % 256 == c && n % 256 == d
  {
    var n := 0x100_0000 * a + 0x1_0000 * b + 0x100 * c + d;
    assert n / 0x100 == 0x1_0000 * a + 0x100 * b + c;
    assert n / 0x1_0000 == 0x100 * a + b;
    assert n / 0x100_0000 == a;
  }

  /** And it refuses exactly those; otherwise it waits. */
  lemma InvalidIff(s: seq<byte>, limit: nat)
    ensures Decode(s, limit).Invalid? <==> BadFrame(s, limit)
  {
    if |s| >= 2 {
      FirstTwo(s);
      if |s| >= 2 + LengthWidth(s) {
        LengthIs(s);
      }
    }
  }

  // ---------------------------------------------------------------- the calls

  /** The close codes a peer may send: section 7.4 of RFC 6455. */
  predicate KnownCode(code: nat) {
    1000 <= code <= 1003 || 1007 <= code <= 1011 || 3000 <= code <= 4999
  }

  /** What a delivered frame leads to. */
  lemma CallsAre(op: nat, payload: seq<byte>)
    ensures op == 1 || op == 2 ==> EventOf(op, payload) == [OnData(payload)]
    ensures op == 9 ==> EventOf(op, payload) == [OnPing(payload)]
    ensures op == 10 ==> EventOf(op, payload) == [OnPong]
    ensures op == 8 && |payload| == 0 ==> EventOf(op, payload) == [OnClose(1000)]
    ensures op == 8 && |payload| == 1 ==> EventOf(op, payload) == [OnClose(1002)]
    ensures op == 8 && |payload| >= 2 ==>
              var code := 256 * (payload[0] as nat) + payload[1] as nat;
              EventOf(op, payload) == [OnClose(if KnownCode(code) then code else 1002)]
  {
    if op == 8 && |payload| >= 2 {
      TwoBytes(payload[..2]);
    }
  }

  lemma DeliverableIs(s: seq<byte>, limit: nat)
    ensures Deliverable(Decode(s, limit)) <==> WholeFrame(s, limit) && s[0] % 16 != 0 && s[0] >= 128
    ensures Decode(s, limit).Complete? <==> WholeFrame(s, limit)
    ensures Decode(s, limit).Partial? <==> !BadFrame(s, limit) && !WholeFrame(s, limit)
  {
    CompleteIff(s, limit);
    InvalidIff(s, limit);
    if WholeFrame(s, limit) {
      assert IsControl(s[0] as nat % 16) <==> s[0] as nat % 16 >= 8;
    }
  }

  lemma FieldsAre(s: seq<byte>, limit: nat, d: Decoded)
    requires WholeFrame(s, limit) && s[0] % 16 != 0 && s[0] >= 128 && d == Decode(s, limit)
    ensures Deliverable(d) && d.op == s[0] as nat % 16 && d.header + |d.payload| == HeaderWidth(s) + PayloadLength(s)
  {
    DeliverableIs(s, limit);
    CompleteIff(s, limit);
  }

  /** A stream whose first frame is a control frame, or a final text or binary one, is that frame's call
      and then the rest. */
  lemma FrameThenRest(s: seq<byte>, limit: nat, dec: seq<byte> -> Decoded, d: Decoded, n: nat)
    requires dec == Decoder(limit) && Steady(dec) && d == Decode(s, limit)
    requires WholeFrame(s, limit) && s[0] % 16 != 0 && s[0] >= 128 && n == HeaderWidth(s) + PayloadLength(s)
    ensures d.Complete? && n <= |s| && Run(s, dec) == After(EventOf(s[0] as nat % 16, d.payload), n, Run(s[n..], dec))
  {
    FieldsAre(s, limit, d);
    RunFirst(s, n, dec);
  }

  /** Any other stream calls nothing: it fails, unless its first frame is not all there. */
  lemma NoCallYet(s: seq<byte>, limit: nat, dec: seq<byte> -> Decoded)
    requires dec == Decoder(limit) && Steady(dec)
    requires !(WholeFrame(s, limit) && s[0] % 16 != 0 && s[0] >= 128)
    ensures Run(s, dec).events == [] && Run(s, dec).done == 0
    ensures Run(s, dec).failed <==> WholeFrame(s, limit) || BadFrame(s, limit)
  {
    DeliverableIs(s, limit);
    RunLast(s, dec);
  }

  // ---------------------------------------------------------------- what is sent

  /** The second byte, with the mask bit, and the shortest form of the length. */
  function PrintedLength(n: nat, masked: bool): seq<byte>
    requires n <= MAX_LENGTH
  {
    var m: nat := if masked then 128 else 0;
    if n <= 125 then [m + n] else if n <= 0xFFFF then [m + 126, n / 256, n % 256] else [m + 127] + ToBE(n, 8)
  }

  function PrintedBody(payload: seq<byte>, key: nat): seq<byte> {
    seq(|payload|, i requires 0 <= i < |payload| =>
          if key == 0 then payload[i] else XorByte(payload[i], ToBE(key, 4)[i % 4]))
  }

  /** A frame on the wire: FIN and opcode, mask bit and length, the key, the masked payload; a zero key
      stands for no mask. */
  function Printed(op: nat, payload: seq<byte>, key: nat, last: bool): seq<byte>
    requires op < 16 && |payload| <= MAX_LENGTH
  {
    var first: byte, k := if last then op + 128 else op, if key == 0 then [] else ToBE(key, 4);
    (([first] + PrintedLength(|payload|, key != 0)) + k) + PrintedBody(payload, key)
  }

  lemma LengthPrinted(n: nat, key: nat)
    requires n <= MAX_LENGTH
    ensures LengthBytes(n, MaskBit(key)) == PrintedLength(n, key != 0)
  {
    if 125 < n <= 0xFFFF {
      TwoBytesOf(n);
    }
  }

  lemma BodyPrinted(payload: seq<byte>, key: nat)
    requires key <= MAX32
    ensures Xored(payload, key) == PrintedBody(payload, key)
  {
    if key == 0 {
      XoredZero(payload);
    } else {
      forall i | 0 <= i < |payload| ensures Xored(payload, key)[i] == PrintedBody(payload, key)[i] {
        MaskedWith(payload, key, i);
      }
    }
  }

  lemma PrintedIs(op: nat, payload: seq<byte>, key: nat, last: bool)
    requires op < 16 && |payload| <= MAX_LENGTH && key <= MAX32
    ensures FrameBytes(op, payload, key, last) == Printed(op, payload, key, last)
  {
    LengthPrinted(|payload|, key);
    BodyPrinted(payload, key);
    assert FirstByte(op, last) == if last then op + 128 else op;
    assert KeyBytes(key) == if key == 0 then [] else ToBE(key, 4);
  }

  /** The `i`-th frame sent for a message: the message's opcode on the first and 0, Continue, on the
      others, FIN exactly on the last, the `i`-th piece, and the `i`-th key drawn, if any. */
  lemma SentFrameIs(op: nat, message: seq<byte>, max: nat, mask: bool, random: seq<nat>, i: nat)
    requires op < 16 && 0 < max <= MAX_LENGTH && i < NumFrames(|message|, max) <= |random|
    requires forall k | 0 <= k < |random| :: random[k] <= MAX32
    ensures var pieces := Fragments(message, max);
            && |pieces| == NumFrames(|message|, max) && |pieces[i]| <= max
            && Frames(op, pieces, KeysUsed(mask, random))[i]
               == Printed(if i == 0 then op else 0, pieces[i], if mask then random[i] else 0, i == |pieces| - 1)
  {
    FragmentsAre(message, max);
    var pieces := Fragments(message, max);
    PrintedIs(if i == 0 then op else 0, pieces[i], if mask then random[i] else 0, i == |pieces| - 1);
  }

  /** And its first byte says so. */
  lemma SentFirstByte(op: nat, message: seq<byte>, max: nat, mask: bool, random: seq<nat>, i: nat)
    requires op < 16 && 0 < max <= MAX_LENGTH && i < NumFrames(|message|, max) <= |random|
    requires forall k | 0 <= k < |random| :: random[k] <= MAX32
    ensures var f, n := Frames(op, Fragments(message, max), KeysUsed(mask, random))[i], NumFrames(|message|, max);
            |f| >= 2 && f[0] as nat == (if i == 0 then op else 0) + (if i == n - 1 then 128 else 0)
  {
    SentFrameIs(op, message, max, mask, random, i);
  }

  /** What a frame-by-frame reader makes of a sendable message. */
  lemma ReadBackIs(op: nat, message: seq<byte>, max: nat, keys: seq<nat>, limit: nat, i: nat)
    requires op < 16 && 0 < max <= MAX_LENGTH && |keys| >= NumFrames(|message|, max) > i
    requires forall k | 0 <= k < |keys| :: keys[k] <= MAX32
    requires SendableWhole(op, |message|, max, limit)
    ensures var pieces := Fragments(message, max);
            var r := ReadAll(Concat(Frames(op, pieces, keys)), limit);
            && |r| == |pieces| == NumFrames(|message|, max)
            && r[i].op == (if i == 0 then op else 0) && r[i].fin == (i == |r| - 1) && r[i].payload == pieces[i]
  {
    SenderMeetsReader(op, message, max, keys, limit);
  }
}
