/** What a stream of length-prefixed messages means, independently of how it arrives. */
module Framing {
  import opened Bytes

  /** A message starts with `header` bytes; `size` reads the size of the whole message from them. */
  datatype Protocol = Protocol(header: nat, size: seq<byte> -> nat)

  /** Complete messages of the stream and the bytes that do not make one yet. */
  datatype Parsed = Parsed(messages: seq<seq<byte>>, rest: seq<byte>)

  function Parse(p: Protocol, s: seq<byte>): Parsed
    decreases |s|
  {
    if |s| < p.header then Parsed([], s)
    else
      var n := p.size(s[..p.header]);
      if n == 0 || |s| < n then Parsed([], s)
      else
        var tail := Parse(p, s[n..]);
        Parsed([s[..n]] + tail.messages, tail.rest)
  }

  /** Every size announced in the stream is at least 1 and at most `max`. */
  predicate Sound(p: Protocol, s: seq<byte>, max: nat)
    decreases |s|
  {
    |s| >= p.header ==>
      var n := p.size(s[..p.header]);
      1 <= n <= max && (|s| >= n ==> Sound(p, s[n..], max))
  }

  lemma ParseFirst(p: Protocol, s: seq<byte>, n: nat, max: nat)
    requires Sound(p, s, max) && |s| >= p.header && n == p.size(s[..p.header]) && n <= |s|
    ensures 1 <= n <= max && Sound(p, s[n..], max)
    ensures Parse(p, s) == Parsed([s[..n]] + Parse(p, s[n..]).messages, Parse(p, s[n..]).rest)
  {
  }

  lemma ParseNone(p: Protocol, s: seq<byte>)
    requires |s| < p.header || |s| < p.size(s[..p.header])
    ensures Parse(p, s) == Parsed([], s)
  {
  }

  lemma ParseNext(p: Protocol, before: seq<seq<byte>>, s: seq<byte>, n: nat, max: nat)
    requires Sound(p, s, max) && |s| >= p.header && n == p.size(s[..p.header]) && n <= |s|
    ensures 1 <= n <= max && Sound(p, s[n..], max)
    ensures before + Parse(p, s).messages == (before + [s[..n]]) + Parse(p, s[n..]).messages
    ensures Parse(p, s).rest == Parse(p, s[n..]).rest
  {
    assert before + ([s[..n]] + Parse(p, s[n..]).messages) == (before + [s[..n]]) + Parse(p, s[n..]).messages;
  }

  /** Parsing is incremental: the rest of what came first, with what comes next, gives what follows. */
  lemma {:induction false} ParseAppend(p: Protocol, a: seq<byte>, b: seq<byte>, max: nat)
    requires Sound(p, a + b, max)
    ensures Sound(p, a, max) && Sound(p, Parse(p, a).rest + b, max)
    ensures Parse(p, a + b).messages == Parse(p, a).messages + Parse(p, Parse(p, a).rest + b).messages
    ensures Parse(p, a + b).rest == Parse(p, Parse(p, a).rest + b).rest
    decreases |a|
  {
    if |a| >= p.header {
      assert (a + b)[..p.header] == a[..p.header];
      var n := p.size(a[..p.header]);
      if |a| >= n {
        assert (a + b)[n..] == a[n..] + b && (a + b)[..n] == a[..n];
        ParseAppend(p, a[n..], b, max);
        var x, y := Parse(p, a[n..]).messages, Parse(p, Parse(p, a[n..]).rest + b).messages;
        assert [a[..n]] + (x + y) == ([a[..n]] + x) + y;
      }
    }
  }

  /** No byte is lost, added or reordered. */
  lemma {:induction false} ParseConserves(p: Protocol, s: seq<byte>)
    ensures Concat(Parse(p, s).messages) + Parse(p, s).rest == s
    decreases |s|
  {
    if |s| >= p.header {
      var n := p.size(s[..p.header]);
      if n != 0 && |s| >= n {
        ParseConserves(p, s[n..]);
        var tail := Parse(p, s[n..]);
        assert Parse(p, s).messages[1..] == tail.messages;
        assert s == s[..n] + s[n..];
        assert (s[..n] + Concat(tail.messages)) + tail.rest == s[..n] + (Concat(tail.messages) + tail.rest);
      }
    }
  }

  /** The leftover of a sound stream is shorter than a header or than one message. */
  lemma {:induction false} RestIsShort(p: Protocol, s: seq<byte>, max: nat)
    requires Sound(p, s, max)
    ensures |Parse(p, s).rest| < p.header || |Parse(p, s).rest| < max
    ensures Parse(p, Parse(p, s).rest) == Parsed([], Parse(p, s).rest)
    decreases |s|
  {
    if |s| >= p.header {
      var n := p.size(s[..p.header]);
      if |s| >= n {
        RestIsShort(p, s[n..], max);
      }
    }
  }

  /** A message whose header says how long it is. */
  ghost predicate TellsItsSize(p: Protocol, m: seq<byte>) {
    1 <= p.header <= |m| && p.size(m[..p.header]) == |m|
  }

  lemma FirstIsFramed(p: Protocol, m: seq<byte>, t: seq<byte>)
    requires TellsItsSize(p, m)
    ensures Parse(p, m + t) == Parsed([m] + Parse(p, t).messages, Parse(p, t).rest)
  {
    var s := m + t;
    assert s[..p.header] == m[..p.header] && s[..|m|] == m && s[|m|..] == t;
  }

  /** The sender's side: messages that tell their sizes, sent one after the other, are exactly the messages
      of the stream, and what follows them is framed on its own. */
  lemma {:induction false} SentMessagesAreFramed(p: Protocol, messages: seq<seq<byte>>, rest: seq<byte>)
    requires forall i | 0 <= i < |messages| :: TellsItsSize(p, messages[i])
    ensures Parse(p, Concat(messages) + rest) == Parsed(messages + Parse(p, rest).messages, Parse(p, rest).rest)
    decreases |messages|
  {
    if messages == [] {
      assert Concat(messages) + rest == rest;
    } else {
      var m, others := messages[0], messages[1..];
      SentMessagesAreFramed(p, others, rest);
      assert TellsItsSize(p, m);
      ConcatAssociates(m, Concat(others), rest);
      FirstIsFramed(p, m, Concat(others) + rest);
      assert [m] + (others + Parse(p, rest).messages) == messages + Parse(p, rest).messages;
    }
  }

  /** And such a stream is sound. */
  lemma {:induction false} SentMessagesAreSound(p: Protocol, messages: seq<seq<byte>>, max: nat)
    requires forall i | 0 <= i < |messages| :: TellsItsSize(p, messages[i]) && |messages[i]| <= max
    requires p.header >= 1
    ensures Sound(p, Concat(messages), max)
    decreases |messages|
  {
    if messages != [] {
      var m, others, s := messages[0], messages[1..], Concat(messages);
      SentMessagesAreSound(p, others, max);
      assert TellsItsSize(p, m) && |m| <= max;
      assert s[..p.header] == m[..p.header] && s[|m|..] == Concat(others);
    }
  }
}
