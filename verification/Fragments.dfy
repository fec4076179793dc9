/**
 * The fragment buffer of a websocket connection: fragments of a message are collected, and the whole message
 * goes to the queue of the connection.
 */
module Fragments {
  import opened Decimal
  import opened Mbuf

  /** Overrun: the code writes past the end of the fragment buffer. Panic: it ends the program. */
  datatype Outcome = TooLarge | Waiting | Queued | Overrun | Panic

  class Conn {
    const fb: array<byte>           // the fragments so far
    var fo: nat                     // and their length

    ghost predicate Valid()
      reads this
    {
      fb.Length == MAXMSGLEN && fo <= MAXMSGLEN
    }

    ghost function Pending(): seq<byte>
      requires Valid()
      reads this, fb
    {
      fb[..fo]
    }

    constructor ()
      ensures Valid() && fresh(fb) && Pending() == []
    {
      fb := new byte[MAXMSGLEN](_ => 0);
      fo := 0;
    }

    /** __recvfrag: the message with a final nil byte goes to the queue. */
    method Finish(ms: Mbufs, q: nat) returns (r: Outcome)
      requires Valid() && ms.Valid() && q < ms.heads.Length
      modifies this`fo, fb, ms, ms.slots, ms.heads
      ensures Valid() && ms.Valid()
      ensures r == if |old(Pending())| == MAXMSGLEN then Overrun
                   else if exists k :: 0 <= k < MAXMBUFS && old(ms.uses[k]) == Free then Queued else Panic
      ensures ms.Queue(q) == old(ms.Queue(q)) + if r == Queued then [old(Pending()) + [0]] else []
      ensures forall p :: 0 <= p < |ms.lists| && p != q ==> ms.Queue(p) == old(ms.Queue(p))
      ensures r == Queued ==> Pending() == []
    {
      if fo == fb.Length {
        return Overrun;
      }
      fb[fo] := 0;
      assert fb[..fo + 1] == old(Pending()) + [0];
      var s := ms.Send(q, fb[..fo + 1]);
      if s.Got? {
        fo := 0;
        r := Queued;
      } else {
        r := Panic;
      }
    }

    /**
     * recvfrag: rest is what the packet still lacks. A message too large for the buffer is refused; the last
     * fragment completes the message; one that fills the buffer to the last byte leaves no room for the nil.
     */
    method Fragment(ms: Mbufs, q: nat, buf: seq<byte>, rest: nat) returns (r: Outcome)
      requires Valid() && ms.Valid() && q < ms.heads.Length
      modifies this`fo, fb, ms, ms.slots, ms.heads
      ensures Valid() && ms.Valid()
      ensures var text := old(Pending()) + buf;
              r == if MAXMSGLEN < |text| + rest then TooLarge
                   else if rest != 0 then Waiting
                   else if |text| == MAXMSGLEN then Overrun
                   else if exists k :: 0 <= k < MAXMBUFS && old(ms.uses[k]) == Free then Queued else Panic
      ensures ms.Queue(q) == old(ms.Queue(q)) + if r == Queued then [old(Pending()) + buf + [0]] else []
      ensures forall p :: 0 <= p < |ms.lists| && p != q ==> ms.Queue(p) == old(ms.Queue(p))
      ensures r == TooLarge ==> Pending() == old(Pending())
      ensures r == Waiting ==> Pending() == old(Pending()) + buf
      ensures r == Queued ==> Pending() == []
    {
      var t := fo + |buf| + rest;
      if fb.Length < t {
        return TooLarge;
      }
      ghost var was := fb[..fo];
      forall i | 0 <= i < |buf| {
        fb[fo + i] := buf[i];
      }
      fo := fo + |buf|;
      assert fb[..fo] == was + buf;
      if rest != 0 {
        return Waiting;
      }
      r := Finish(ms, q);
    }
  }
}
