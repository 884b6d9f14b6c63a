/** The two socket receivers deliver the same messages. */
module SocketAgreement {
  import opened Bytes
  import opened Framing
  import opened Socket
  import StringV
  import V = DataSocketV
  import D = DataSocket

  /** Whatever pieces each of them read, once they have read the same bytes the double-buffered and
      the compacting receiver have delivered the same messages and hold the same unread bytes. */
  lemma SameBytesSameMessages(v: V.Receiver, d: D.Receiver)
    requires v.Valid() && d.Valid() && d.protocol == V.WIRE && v.source.taken == d.source.taken
    ensures v.delivered == StringV.PaddedAll(d.delivered) && v.Window() == d.buffer.Window()
  {
  }

  /** A receiver that read out a connection whose data all arrived has delivered the framing of the
      connection's whole stream. */
  lemma DrainedMeansFramed(v: V.Receiver, before: seq<byte>, script: seq<Arrival>, ok: bool)
    requires v.Valid() && v.source.ReadOut(ok, before, script) && v.source.Stream() == before + Pending(script)
    requires forall i | 0 <= i < |script| :: script[i].Data? && script[i].bytes != []
    ensures ok && v.source.Stream() == v.source.taken
    ensures v.delivered == StringV.PaddedAll(Parse(V.WIRE, v.source.Stream()).messages)
    ensures Concat(Parse(V.WIRE, v.source.Stream()).messages) + v.Window() == v.source.Stream()
  {
    AllAvailable(script);
    ParseConserves(V.WIRE, v.source.taken);
  }

  // ---------------------------------------------------------------- from sender to receiver

  /** A message as `StringV::Message` lays it out: its own length in its first four bytes, lowest first. */
  predicate WireMessage(m: seq<byte>) {
    4 <= |m| <= 68 && |m| == FourAt(m, 0)
  }

  lemma WireMessageTells(m: seq<byte>)
    requires WireMessage(m)
    ensures TellsItsSize(V.WIRE, m)
  {
    StringV.SizeIs(m[..4]);
  }

  /** Messages that begin with their own length are framed as sent, and nothing is left over. */
  lemma WireMessagesAreFramed(messages: seq<seq<byte>>)
    requires forall i | 0 <= i < |messages| :: WireMessage(messages[i])
    ensures Parse(V.WIRE, Concat(messages)) == Parsed(messages, [])
    ensures Sound(V.WIRE, Concat(messages), StringV.MESSAGE_SIZE)
  {
    forall i | 0 <= i < |messages| ensures TellsItsSize(V.WIRE, messages[i]) && |messages[i]| <= StringV.MESSAGE_SIZE {
      WireMessageTells(messages[i]);
    }
    SentMessagesAreFramed(V.WIRE, messages, []);
    SentMessagesAreSound(V.WIRE, messages, StringV.MESSAGE_SIZE);
    assert Concat(messages) + [] == Concat(messages);
    assert Parse(V.WIRE, []) == Parsed([], []);
    assert messages + [] == messages;
  }

  /** A receiver that has read all of them has delivered each, in order, with zeros behind it up to 68
      bytes, and holds nothing more. */
  lemma SentIsDelivered(v: V.Receiver, messages: seq<seq<byte>>)
    requires v.Valid() && v.source.taken == Concat(messages)
    requires forall i | 0 <= i < |messages| :: WireMessage(messages[i])
    ensures |v.delivered| == |messages| && v.Window() == []
    ensures forall i | 0 <= i < |messages| ::
              && |messages[i]| <= |v.delivered[i]| == 68 && v.delivered[i][..|messages[i]|] == messages[i]
              && forall k | |messages[i]| <= k < 68 :: v.delivered[i][k] == 0
  {
    WireMessagesAreFramed(messages);
    StringV.PaddedCount(messages);
    forall i | 0 <= i < |messages|
      ensures |messages[i]| <= |v.delivered[i]| == 68 && v.delivered[i][..|messages[i]|] == messages[i]
      ensures forall k | |messages[i]| <= k < 68 :: v.delivered[i][k] == 0
    {
      StringV.PaddedAt(messages, i);
    }
  }

  /** The same for the compacting receiver, whatever its protocol. */
  lemma SentIsDeliveredToo(d: D.Receiver, messages: seq<seq<byte>>)
    requires d.Valid() && d.source.taken == Concat(messages)
    requires forall i | 0 <= i < |messages| :: TellsItsSize(d.protocol, messages[i])
    ensures d.delivered == messages && d.buffer.Window() == []
  {
    SentMessagesAreFramed(d.protocol, messages, []);
    assert Concat(messages) + [] == Concat(messages);
    assert Parse(d.protocol, []) == Parsed([], []);
    assert messages + [] == messages;
  }
}
