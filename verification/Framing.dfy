/** The four loops that push a 64-byte message through a TCP connection in whatever pieces
    the calls happen to move, and what comes out at the other end. */
module Framing {
  import opened Wire

  function Min(a: int, b: int): int { if a <= b then a else b }

  /** What one call moves when n bytes are asked for and there to move. The plan says how
      much each coming call moves at most; an entry of zero or less, or the end of the
      plan, makes the call fail with that value. */
  function Moved(plan: seq<int>, n: nat): (r: int)
    ensures r <= n
  {
    if plan == [] then 0 else Min(plan[0], n)
  }

  /** How many bytes the calls of a plan can move before one fails. */
  function Reach(plan: seq<int>): nat {
    if plan == [] || plan[0] <= 0 then 0 else plan[0] + Reach(plan[1..])
  }

  function Rest(plan: seq<int>): seq<int> {
    if plan == [] then [] else plan[1..]
  }

  /** The value of the call that ends a read which cannot be completed. */
  function Stop(plan: seq<int>, left: nat): int {
    if plan == [] then 0
    else if plan[0] <= 0 || left == 0 then Min(plan[0], 0)
    else Stop(plan[1..], left - Min(plan[0], left))
  }

  /** One direction of a connection: the bytes written and not yet read, in order. */
  class Link {
    var data: seq<byte>
    var plan: seq<int>

    constructor (plan: seq<int>)
      ensures data == [] && this.plan == plan
    {
      data := [];
      this.plan := plan;
    }

    method Write(buf: array<byte>, at: nat, n: nat) returns (ret: int)
      requires at + n <= buf.Length
      modifies this
      ensures ret == Moved(old(plan), n) && plan == Rest(old(plan))
      ensures ret > 0 ==> data == old(data) + buf[at..at + ret]
      ensures ret <= 0 ==> data == old(data)
    {
      ret := Moved(plan, n);
      plan := Rest(plan);
      if ret > 0 {
        data := data + buf[at..at + ret];
      }
    }

    method Read(buf: array<byte>, at: nat, n: nat) returns (ret: int)
      requires at + n <= buf.Length
      modifies this, buf
      ensures ret == Moved(old(plan), Min(n, |old(data)|)) && plan == Rest(old(plan))
      ensures ret > 0 ==> data == old(data)[ret..]
      ensures ret > 0 ==> buf[..] == old(buf[..at]) + old(data)[..ret] + old(buf[at + ret..])
      ensures ret <= 0 ==> data == old(data) && buf[..] == old(buf[..])
    {
      ret := Moved(plan, Min(n, |data|));
      plan := Rest(plan);
      if ret > 0 {
        Store(buf, at, data[..ret]);
        data := data[ret..];
      }
    }
  }

  /** The request loop of the firmware: a moving pointer and a count of bytes to send. */
  method FirmwareSend(link: Link, msg: array<byte>) returns (ok: bool)
    modifies link
    ensures ok <==> Reach(old(link.plan)) >= msg.Length
    ensures link.data == old(link.data) + msg[..Min(msg.Length, Reach(old(link.plan)))]
  {
    var dst, toSend := 0, msg.Length;
    while toSend > 0
      invariant 0 <= dst <= msg.Length && dst + toSend == msg.Length
      invariant dst + Min(toSend, Reach(link.plan)) == Min(msg.Length, Reach(old(link.plan)))
      invariant link.data == old(link.data) + msg[..dst]
      decreases toSend
    {
      var ret := link.Write(msg, dst, toSend);
      if ret <= 0 {
        return false;
      }
      assert msg[..dst] + msg[dst..dst + ret] == msg[..dst + ret];
      dst, toSend := dst + ret, toSend - ret;
    }
    ok := true;
  }

  /** The reply loop of the base: an index, and no error path but stopping short. */
  method BaseSend(link: Link, msg: array<byte>) returns (ok: bool)
    modifies link
    ensures ok <==> Reach(old(link.plan)) >= msg.Length
    ensures link.data == old(link.data) + msg[..Min(msg.Length, Reach(old(link.plan)))]
  {
    var sent := 0;
    while sent < msg.Length
      invariant 0 <= sent <= msg.Length
      invariant sent + Min(msg.Length - sent, Reach(link.plan)) == Min(msg.Length, Reach(old(link.plan)))
      invariant link.data == old(link.data) + msg[..sent]
      decreases msg.Length - sent
    {
      var ret := link.Write(msg, sent, msg.Length - sent);
      if ret <= 0 {
        break;
      }
      assert msg[..sent] + msg[sent..sent + ret] == msg[..sent + ret];
      sent := sent + ret;
    }
    ok := sent == msg.Length;
  }

  /** The reply loop of the firmware: reads until the record is full or a call fails. */
  method FirmwareReceive(link: Link, buf: array<byte>) returns (bytesRead: nat)
    modifies link, buf
    ensures bytesRead == Min(Min(buf.Length, |old(link.data)|), Reach(old(link.plan)))
    ensures buf[..bytesRead] == old(link.data)[..bytesRead] && link.data == old(link.data)[bytesRead..]
  {
    bytesRead := 0;
    while bytesRead < buf.Length
      invariant bytesRead <= buf.Length && bytesRead <= |old(link.data)|
      invariant buf[..bytesRead] == old(link.data)[..bytesRead] && link.data == old(link.data)[bytesRead..]
      invariant bytesRead + Min(Min(buf.Length - bytesRead, |link.data|), Reach(link.plan))
                == Min(Min(buf.Length, |old(link.data)|), Reach(old(link.plan)))
      decreases buf.Length - bytesRead
    {
      var ret := link.Read(buf, bytesRead, buf.Length - bytesRead);
      if ret <= 0 {
        break;
      }
      bytesRead := bytesRead + ret;
    }
  }

  /** What the base makes of one ready connection. */
  datatype Received = Complete | Kept | Closed

  /** The request loop of the base: a failing read forgets the bytes already read, which are
      gone from the connection; it keeps the connection on an error and closes it at end of
      file. */
  method BaseReceive(link: Link, buf: array<byte>) returns (r: Received)
    modifies link, buf
    ensures r == Complete <==> |old(link.data)| >= buf.Length && Reach(old(link.plan)) >= buf.Length
    ensures r == Complete ==> buf[..] == old(link.data)[..buf.Length]
    ensures link.data == old(link.data)[Min(Min(buf.Length, |old(link.data)|), Reach(old(link.plan)))..]
    ensures r == Kept ==> Stop(old(link.plan), Min(buf.Length, |old(link.data)|)) < 0
    ensures r == Closed ==> Stop(old(link.plan), Min(buf.Length, |old(link.data)|)) == 0
  {
    var bytesRead := 0;
    while bytesRead < buf.Length
      invariant 0 <= bytesRead <= buf.Length && bytesRead <= |old(link.data)|
      invariant buf[..bytesRead] == old(link.data)[..bytesRead] && link.data == old(link.data)[bytesRead..]
      invariant bytesRead + Min(Min(buf.Length - bytesRead, |link.data|), Reach(link.plan))
                == Min(Min(buf.Length, |old(link.data)|), Reach(old(link.plan)))
      invariant bytesRead < buf.Length ==>
                  Stop(link.plan, Min(buf.Length - bytesRead, |link.data|))
                  == Stop(old(link.plan), Min(buf.Length, |old(link.data)|))
      decreases buf.Length - bytesRead
    {
      var ret := link.Read(buf, bytesRead, buf.Length - bytesRead);
      if ret < 0 {
        return Kept;
      } else if ret == 0 {
        return Closed;
      }
      bytesRead := bytesRead + ret;
    }
    r := Complete;
  }

  /** After an error in the middle of a message the two ends are out of step: of two messages
      sent, k bytes of the first are thrown away, and the next message the base takes is the
      rest of the first and k bytes of the second. It is a message that was sent only when
      they are alike that way. */
  method ReceiveAfterError(m1: seq<byte>, m2: seq<byte>, fetches: seq<int>, more: seq<int>)
    returns (first: Received, second: Received, buf: array<byte>, left: seq<byte>)
    requires |m1| == MESSAGE_SIZE && |m2| == MESSAGE_SIZE
    ensures buf.Length == MESSAGE_SIZE
    ensures var k := Reach(fetches);
            k < MESSAGE_SIZE && first == Kept && second == Complete ==> buf[..] == m1[k..] + m2[..k] && left == m2[k..]
    ensures first == Complete <==> Reach(fetches) >= MESSAGE_SIZE
    ensures first == Kept ==> (second == Complete <==> Reach(more) >= MESSAGE_SIZE)
  {
    var link := new Link(fetches);
    link.data := m1 + m2;
    buf := new byte[MESSAGE_SIZE];
    first := BaseReceive(link, buf);
    link.plan := more;
    second := BaseReceive(link, buf);
    left := link.data;
    ghost var k := Reach(fetches);
    if k < MESSAGE_SIZE {
      assert (m1 + m2)[k..] == m1[k..] + m2;
      assert (m1[k..] + m2)[..MESSAGE_SIZE] == m1[k..] + m2[..k];
      assert (m1[k..] + m2)[MESSAGE_SIZE..] == m2[k..];
    }
  }

  // ------------------------------------------------ both ends at the same time

  /** A direction of a connection with both ends at work on one message: how much was
      written, what is on the way, and what was read. */
  datatype Pipe = Pipe(sent: nat, wire: seq<byte>, got: seq<byte>)

  /** A call that moves at most n bytes; a read that finds nothing waits. */
  datatype Move = Push(n: nat) | Pull(n: nat)

  /** How many bytes the call moves. */
  function Size(p: Pipe, msg: seq<byte>, m: Move): nat
    requires p.sent <= |msg| && |p.got| <= |msg|
  {
    match m
    case Push(n) => Min(n, |msg| - p.sent)
    case Pull(n) => Min(n, Min(|p.wire|, |msg| - |p.got|))
  }

  function Moves(p: Pipe, msg: seq<byte>, m: Move): Pipe
    requires p.sent <= |msg| && |p.got| <= |msg|
  {
    var k := Size(p, msg, m);
    match m
    case Push(_) => p.(sent := p.sent + k, wire := p.wire + msg[p.sent..p.sent + k])
    case Pull(_) => p.(wire := p.wire[k..], got := p.got + p.wire[..k])
  }

  function Interleaved(msg: seq<byte>, moves: seq<Move>): (p: Pipe)
    ensures p.sent <= |msg| && |p.got| <= |msg|
  {
    if moves == [] then Pipe(0, [], [])
    else Moves(Interleaved(msg, moves[..|moves| - 1]), msg, moves[|moves| - 1])
  }

  /** What the writes of an interleaving moved, or the reads, call by call. */
  function Sizes(msg: seq<byte>, moves: seq<Move>, writes: bool): seq<int> {
    if moves == [] then []
    else
      var front, m := moves[..|moves| - 1], moves[|moves| - 1];
      var k := Size(Interleaved(msg, front), msg, m);
      Sizes(msg, front, writes) + if m.Push? == writes && k > 0 then [k] else []
  }

  predicate AllPositive(plan: seq<int>) {
    forall i :: 0 <= i < |plan| ==> plan[i] > 0
  }

  lemma {:induction false} ReachAdds(plan: seq<int>, k: int)
    requires k > 0 && AllPositive(plan)
    ensures Reach(plan + [k]) == Reach(plan) + k && AllPositive(plan + [k])
  {
    var all := plan + [k];
    if plan == [] {
      assert all[1..] == [];
    } else {
      assert all[0] == plan[0] && all[1..] == plan[1..] + [k];
      ReachAdds(plan[1..], k);
    }
  }

  /** In any interleaving, what was read is the beginning of the message, in order and once,
      and what is on the way is the next part of it. */
  lemma {:induction false} InterleavedInOrder(msg: seq<byte>, moves: seq<Move>)
    ensures var p := Interleaved(msg, moves);
            |p.got| <= p.sent && p.got == msg[..|p.got|] && p.wire == msg[|p.got|..p.sent]
  {
    if moves != [] {
      var front, m := moves[..|moves| - 1], moves[|moves| - 1];
      InterleavedInOrder(msg, front);
      var p := Interleaved(msg, front);
      var k := Size(p, msg, m);
      if m.Push? {
        assert msg[|p.got|..p.sent] + msg[p.sent..p.sent + k] == msg[|p.got|..p.sent + k];
      } else {
        assert msg[..|p.got|] + msg[|p.got|..p.sent][..k] == msg[..|p.got| + k];
        assert msg[|p.got|..p.sent][k..] == msg[|p.got| + k..p.sent];
      }
    }
  }

  lemma {:induction false} SizesReach(msg: seq<byte>, moves: seq<Move>)
    ensures var p, w, f := Interleaved(msg, moves), Sizes(msg, moves, true), Sizes(msg, moves, false);
            AllPositive(w) && AllPositive(f) && Reach(w) == p.sent && Reach(f) == |p.got|
  {
    hide AllPositive, Reach, Size;
    SizesNone(msg);
    if moves != [] {
      var front, m := moves[..|moves| - 1], moves[|moves| - 1];
      SizesReach(msg, front);
      var k := Size(Interleaved(msg, front), msg, m);
      var w, f := Sizes(msg, front, true), Sizes(msg, front, false);
      assert w + [] == w && f + [] == f;
      if k > 0 { ReachAdds(if m.Push? then w else f, k); }
      PullMoves(Interleaved(msg, front), msg, m);
    }
  }

  lemma SizesNone(msg: seq<byte>)
    ensures AllPositive([]) && Reach([]) == 0
  {
  }

  lemma PullMoves(p: Pipe, msg: seq<byte>, m: Move)
    requires p.sent <= |msg| && |p.got| <= |msg|
    ensures |Moves(p, msg, m).got| == if m.Pull? then |p.got| + Size(p, msg, m) else |p.got|
  {
  }

  /** Every interleaving is the same as all its writes before all its reads: with the plans
      of what its calls moved, the loops one after the other, as in the two methods below,
      move as many bytes and leave as many. So their results are those of any interleaving,
      and a message that is read whole is the message, with nothing left. */
  lemma {:induction false} InterleavingIsSequential(msg: seq<byte>, moves: seq<Move>)
    ensures var p, writes, fetches := Interleaved(msg, moves), Sizes(msg, moves, true), Sizes(msg, moves, false);
            var data := msg[..Min(|msg|, Reach(writes))];          // as FirmwareSend and BaseSend leave it
            var taken := Min(Min(|msg|, |data|), Reach(fetches));  // as FirmwareReceive and BaseReceive take it
            && p.got == data[..taken] && p.wire == data[taken..]
            && (|p.got| == |msg| ==> p.got == msg && p.wire == [] && p.sent == |msg|)
  {
    InterleavedInOrder(msg, moves);
    SizesReach(msg, moves);
    var p := Interleaved(msg, moves);
    assert msg[..p.sent][..|p.got|] == msg[..|p.got|] && msg[..p.sent][|p.got|..] == msg[|p.got|..p.sent];
  }

  /** Request direction end to end: whatever pieces the writes and the reads move, if they
      move enough the base gets exactly the message, in order and once. */
  method CarryRequest(msg: array<byte>, writes: seq<int>, fetches: seq<int>)
    returns (buf: array<byte>, ok: bool, r: Received, left: seq<byte>)
    requires msg.Length == MESSAGE_SIZE
    ensures ok <==> Reach(writes) >= MESSAGE_SIZE
    ensures r == Complete <==> ok && Reach(fetches) >= MESSAGE_SIZE
    ensures r == Complete ==> buf[..] == msg[..] && left == []
  {
    var link := new Link(writes);
    buf := new byte[MESSAGE_SIZE];
    ok := FirmwareSend(link, msg);
    link.plan := fetches;
    r := BaseReceive(link, buf);
    left := link.data;
    assert msg[..MESSAGE_SIZE] == msg[..];
  }

  /** Reply direction end to end. */
  method CarryReply(msg: array<byte>, writes: seq<int>, fetches: seq<int>)
    returns (buf: array<byte>, ok: bool, bytesRead: nat, left: seq<byte>)
    requires msg.Length == MESSAGE_SIZE
    ensures ok <==> Reach(writes) >= MESSAGE_SIZE
    ensures bytesRead == Min(MESSAGE_SIZE, Min(Reach(writes), Reach(fetches)))
    ensures buf.Length == MESSAGE_SIZE && buf[..bytesRead] == msg[..bytesRead]
    ensures bytesRead == MESSAGE_SIZE ==> left == []
  {
    var link := new Link(writes);
    buf := new byte[MESSAGE_SIZE];
    ok := BaseSend(link, msg);
    link.plan := fetches;
    bytesRead := FirmwareReceive(link, buf);
    left := link.data;
  }
}
