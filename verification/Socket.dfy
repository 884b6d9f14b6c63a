/** The non-blocking read side of a socket or pipe (src/utils/Utils.cpp:65-107): whatever the kernel
    has, in pieces of any size, bounded by the room the caller offers. */
module Socket {
  import opened Bytes

  datatype Arrival = Data(bytes: seq<byte>) | WouldBlock | Closed

  /** All the bytes still to come. */
  function Pending(script: seq<Arrival>): seq<byte> {
    if script == [] then []
    else (if script[0].Data? then script[0].bytes else []) + Pending(script[1..])
  }

  datatype Served = Served(ok: bool, bytes: seq<byte>, script: seq<Arrival>)

  /** One read with room for `room` bytes. */
  function Serve(script: seq<Arrival>, room: nat): Served {
    if script == [] then Served(true, [], [])
    else match script[0]
      case WouldBlock => Served(true, [], script[1..])
      case Closed => Served(false, [], script)
      case Data(d) =>
        if |d| <= room then Served(d != [], d, script[1..])
        else Served(room != 0, d[..room], [Data(d[room..])] + script[1..])
  }

  lemma ServeConserves(script: seq<Arrival>, room: nat)
    ensures Serve(script, room).bytes + Pending(Serve(script, room).script) == Pending(script)
    ensures |Serve(script, room).script| <= |script|
  {
    if script != [] && script[0].Data? && |script[0].bytes| > room {
      var d, rest := script[0].bytes, script[1..];
      assert ([Data(d[room..])] + rest)[1..] == rest;
      assert d[..room] + (d[room..] + Pending(rest)) == d + Pending(rest);
    }
  }

  /** What a reader that goes on until a read brings nothing gets: the data before the first would-block,
      close or empty piece. */
  function Available(script: seq<Arrival>): seq<byte> {
    if script == [] || !script[0].Data? || script[0].bytes == [] then []
    else script[0].bytes + Available(script[1..])
  }

  /** Whether that reader stops because nothing more has arrived yet, rather than because the peer closed. */
  predicate StopsOpen(script: seq<Arrival>) {
    script == [] || match script[0]
                    case WouldBlock => true
                    case Closed => false
                    case Data(d) => d != [] && StopsOpen(script[1..])
  }

  lemma ServeAvailable(script: seq<Arrival>, room: nat)
    requires room > 0
    ensures var r := Serve(script, room);
            if r.bytes == [] then Available(script) == [] && r.ok == StopsOpen(script)
            else Available(script) == r.bytes + Available(r.script) && StopsOpen(r.script) == StopsOpen(script)
  {
    if script != [] && script[0].Data? && |script[0].bytes| > room {
      var d, rest := script[0].bytes, script[1..];
      assert ([Data(d[room..])] + rest)[1..] == rest;
      assert d[..room] + (d[room..] + Available(rest)) == d + Available(rest);
    }
  }

  /** Nothing but data that is not empty: all of it is available. */
  lemma {:induction false} AllAvailable(script: seq<Arrival>)
    requires forall i | 0 <= i < |script| :: script[i].Data? && script[i].bytes != []
    ensures Available(script) == Pending(script) && StopsOpen(script)
  {
    if script != [] {
      AllAvailable(script[1..]);
    }
  }

  class ByteSource {
    var script: seq<Arrival>
    ghost var taken: seq<byte>  // all bytes handed to the reader so far

    constructor (script: seq<Arrival>)
      ensures this.script == script && taken == []
    {
      this.script := script;
      taken := [];
    }

    /** All bytes of the connection: those read and those still to come. */
    ghost function Stream(): seq<byte>
      reads this
    {
      taken + Pending(script)
    }

    /** What is read once a reader that started from `before` and `script` has stopped. */
    ghost predicate ReadOut(ok: bool, before: seq<byte>, script: seq<Arrival>)
      reads this
    {
      taken == before + Available(script) && ok == StopsOpen(script)
    }

    /** The reader has not stopped yet. */
    ghost predicate ReadingOut(before: seq<byte>, script: seq<Arrival>)
      reads this
    {
      taken + Available(this.script) == before + Available(script) && StopsOpen(this.script) == StopsOpen(script)
    }

    ghost function Left(): nat
      reads this
    {
      |script| + |Pending(script)|
    }

    /** A read of nothing is `ok` only when the call would block. */
    method Read(room: nat) returns (ok: bool, bytes: seq<byte>)
      modifies this
      ensures var r := Serve(old(script), room); ok == r.ok && bytes == r.bytes && script == r.script
      ensures |bytes| <= room && (bytes != [] ==> ok)
      ensures taken == old(taken) + bytes && Stream() == old(Stream())
      ensures bytes != [] ==> Left() < old(Left())
      ensures room > 0 ==>
                if bytes == [] then Available(old(script)) == [] && ok == StopsOpen(old(script))
                else Available(old(script)) == bytes + Available(script) && StopsOpen(script) == StopsOpen(old(script))
    {
      var r := Serve(script, room);
      ServeConserves(script, room);
      if room > 0 {
        ServeAvailable(script, room);
      }
      assert taken + (r.bytes + Pending(r.script)) == (taken + r.bytes) + Pending(r.script);
      ok, bytes, script := r.ok, r.bytes, r.script;
      taken := taken + bytes;
    }

    /** The next read of a reader that goes on until a read brings nothing. */
    method ReadOn(room: nat, ghost before: seq<byte>, ghost script: seq<Arrival>) returns (ok: bool, bytes: seq<byte>)
      requires room > 0 && ReadingOut(before, script)
      modifies this
      ensures |bytes| <= room && taken == old(taken) + bytes && Stream() == old(Stream())
      ensures bytes != [] ==> ok && Left() < old(Left()) && ReadingOut(before, script)
      ensures bytes == [] ==> taken == old(taken) && ReadOut(ok, before, script)
    {
      ghost var first := taken;
      ok, bytes := Read(room);
      if bytes != [] {
        ConcatAssociates(first, bytes, Available(this.script));
      } else {
        assert first + [] == first;
      }
    }
  }
}
