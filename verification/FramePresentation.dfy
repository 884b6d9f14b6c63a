/** Presenting a connection's bytes to the frame reader piece by piece, unread bytes again each time. */
module FramePresentation {
  import opened Bytes
  import opened FrameSpec
  import opened Frame

  /** What the whole stream `s` means to a reader with the given limit. */
  ghost function Meaning(s: seq<byte>, limit: nat): Outcome {
    DecoderSteady(limit);
    Run(s, Decoder(limit))
  }

  /** A stream may be cut anywhere. */
  lemma MeaningAppend(a: seq<byte>, b: seq<byte>, limit: nat)
    ensures Meaning(a, limit).done <= |a|
    ensures Meaning(a, limit).failed ==> Meaning(a + b, limit) == Meaning(a, limit)
    ensures !Meaning(a, limit).failed ==>
              var r := Meaning(a, limit);
              Meaning(a + b, limit) == After(r.events, r.done, Meaning(a[r.done..] + b, limit))
  {
    DecoderSteady(limit);
    RunAppend(a, b, Decoder(limit));
  }

  lemma {:induction false} MeaningAppendAll(pieces: seq<seq<byte>>, i: nat, limit: nat)
    requires i <= |pieces| && Meaning(Concat(pieces[..i]), limit).failed
    ensures Meaning(Concat(pieces), limit) == Meaning(Concat(pieces[..i]), limit)
    decreases |pieces| - i
  {
    if i < |pieces| {
      ConcatNext(pieces, i);
      MeaningAppend(Concat(pieces[..i]), pieces[i], limit);
      MeaningAppendAll(pieces, i + 1, limit);
    } else {
      assert pieces[..i] == pieces;
    }
  }

  /** A waiting reader leaves little unread: less than a payload, or less than a header field. */
  lemma UnreadIsShort(s: seq<byte>, limit: nat)
    requires Decode(s, limit).Partial?
    ensures |s| - Decode(s, limit).consumed < limit + 8
  {
  }

  /** The reader holds the unfinished end of the stream `s`: consumed header bytes, then `left`. */
  ghost predicate Holds(f: Frame, left: seq<byte>, s: seq<byte>, r: Outcome)
    reads f, f.message
  {
    r.done <= |s| && f.Resting() && f.taken + left == s[r.done..] && |f.taken| == r.partial && !r.failed
  }

  /** Where the stream `s` and its meaning `r` leave the caller: `total` bytes consumed so far. */
  ghost predicate Reached(f: Frame, cb: Handler, left: seq<byte>, s: seq<byte>, r: Outcome, calls: seq<Event>,
      total: nat)
    reads f, f.message, cb
  {
    && cb.calls == calls + r.events && total == r.done + r.partial
    && (f.processingState == Done <==> r.failed)
    && (!r.failed ==> Holds(f, left, s, r))
  }

  lemma HeldIsShort(f: Frame, left: seq<byte>, s: seq<byte>, r: Outcome)
    requires Holds(f, left, s, r) && r == Meaning(s, f.maxAllowedMessageSize)
    ensures |left| < f.maxAllowedMessageSize + 8
  {
    var limit := f.maxAllowedMessageSize;
    DecoderSteady(limit);
    RunTail(s, Decoder(limit));
    UnreadIsShort(s[r.done..], limit);
  }

  /** The reader after a call with outcome `q` on the unfinished end of `s` and the next piece. */
  lemma CallContinues(f: Frame, cb: Handler, sd: SocketData, s: seq<byte>, piece: seq<byte>, whole: seq<byte>,
                      r: Outcome, q: Outcome, calls: seq<Event>)
    requires !r.failed && r.done <= |s| && whole == s[r.done..] + piece
    requires f.Processed(sd, whole, q, -(r.partial as int)) && cb.calls == (calls + r.events) + q.events
    ensures sd.Valid()
    ensures Reached(f, cb, sd.Unread(), s + piece, After(r.events, r.done, q), calls,
                    r.done + r.partial + sd.readOffset)
  {
    ConcatAssociates(calls, r.events, q.events);
    if !q.failed {
      assert (s + piece)[r.done..] == whole;
      DropDrop(s + piece, r.done, q.done);
    }
  }

  /** The bytes left unread and the next piece, in a buffer of their own. */
  method Fill(left: seq<byte>, piece: seq<byte>) returns (sd: SocketData)
    requires |left| + |piece| <= MAX32
    ensures fresh(sd) && fresh(sd.data) && sd.Valid() && sd.readOffset == 0 && sd.Unread() == left + piece
  {
    var data := new byte[|left| + |piece|];
    Put(left + piece, data, 0);
    sd := new SocketData(data, data.Length);
    assert data[..] == left + piece;
  }

  method Call(f: Frame, cb: Handler, sd: SocketData, ghost whole: seq<byte>) returns (consumed: nat, ghost q: Outcome)
    requires sd.data != f.message.data && f.At(sd, whole, f.Start(sd))
    modifies f, f.message`offset, f.message.data, sd`readOffset, sd.data, cb
    ensures q == Meaning(whole, f.maxAllowedMessageSize) && consumed == sd.readOffset
    ensures f.Processed(sd, whole, q, old(f.Start(sd))) && cb.calls == old(cb.calls) + q.events
  {
    q := Meaning(whole, f.maxAllowedMessageSize);
    consumed := f.ProcessMessage(sd, cb);
  }

  /** Presents `left`, unread until now, and the next piece. */
  method Present(f: Frame, cb: Handler, left: seq<byte>, piece: seq<byte>, total: nat,
                 ghost s: seq<byte>, ghost r: Outcome, ghost calls: seq<Event>)
    returns (total': nat, left': seq<byte>, ghost q: Outcome)
    requires Reached(f, cb, left, s, r, calls, total) && !r.failed
    requires |left| < f.maxAllowedMessageSize + 8 && f.maxAllowedMessageSize + 8 + |piece| <= MAX32
    modifies f, f.message`offset, f.message.data, cb
    ensures q == Meaning(s[r.done..] + piece, f.maxAllowedMessageSize)
    ensures Reached(f, cb, left', s + piece, After(r.events, r.done, q), calls, total')
  {
    ghost var whole := s[r.done..] + piece;
    var sd := Fill(left, piece);
    ConcatAssociates(f.taken, left, piece);
    var consumed;
    consumed, q := Call(f, cb, sd, whole);
    CallContinues(f, cb, sd, s, piece, whole, r, q, calls);
    total', left' := total + consumed, sd.data[sd.readOffset..sd.length];
  }

  /** However a connection's bytes are cut into pieces, presenting them one after the other, with what
      a call left unread again in front of the next piece, leads to the calls, the total consumption
      and the failure of the whole stream; after a failure nothing more is presented. */
  method PresentAll(f: Frame, cb: Handler, pieces: seq<seq<byte>>) returns (total: nat)
    requires f.Resting() && f.taken == []
    requires forall i | 0 <= i < |pieces| :: f.maxAllowedMessageSize + 8 + |pieces[i]| <= MAX32
    modifies f, f.message`offset, f.message.data, cb
    ensures var t := Meaning(Concat(pieces), f.maxAllowedMessageSize);
            && cb.calls == old(cb.calls) + t.events && total == t.done + t.partial
            && (f.processingState == Done <==> t.failed)
  {
    ghost var limit, calls := f.maxAllowedMessageSize, cb.calls;
    var left: seq<byte> := [];
    ghost var s, r := [], Outcome([], 0, 0, false);
    var i := 0;
    total := 0;
    NothingYet(limit);
    while i < |pieces| && f.processingState != Done
      invariant 0 <= i <= |pieces| && s == Concat(pieces[..i]) && r == Meaning(s, limit)
      invariant Reached(f, cb, left, s, r, calls, total)
    {
      HeldIsShort(f, left, s, r);
      ghost var q;
      total, left, q := Present(f, cb, left, pieces[i], total, s, r, calls);
      MeaningAppend(s, pieces[i], limit);
      ConcatNext(pieces, i);
      s, r, i := s + pieces[i], After(r.events, r.done, q), i + 1;
    }
    if f.processingState == Done {
      MeaningAppendAll(pieces, i, limit);
    } else {
      assert pieces[..i] == pieces;
    }
  }

  lemma NothingYet(limit: nat)
    ensures Meaning([], limit) == Outcome([], 0, 0, false)
  {
    DecoderSteady(limit);
    RunLast([], Decoder(limit));
  }
}
