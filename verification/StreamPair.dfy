/**
 One stream: two sockets that were connected by an OPEN and its first OKAY, and the packets
 between them. `Core` is what every action of either end keeps, whatever order the actions come
 in; `Credit` and `Bounded` are the delayed-ack accounting on top of it.
 */
module StreamPair {
  import opened Common
  import opened StreamEndpoint

  /** Sockets `x` and `y` with their ids, and the packets in flight in each direction. */
  datatype Pair = Pair(xi: nat, x: End, yi: nat, y: End, xy: seq<Packet>, yx: seq<Packet>)

  ghost function Mirror(p: Pair): Pair { Pair(p.yi, p.y, p.xi, p.x, p.yx, p.xy) }

  /** The stream bytes carried by the packets of `ch`. */
  ghost function Payload(ch: seq<Packet>): seq<byte> {
    if ch == [] then [] else (if ch[0].Wrte? then ch[0].data else []) + Payload(ch[1..])
  }

  /** What the OKAYs of `ch` will add to the receiver's credit. */
  ghost function AckSum(ch: seq<Packet>): int {
    if ch == [] then 0
    else (if ch[0].Okay? && ch[0].ack.Some? then AsInt32(ch[0].ack.value) else 0) + AckSum(ch[1..])
  }

  ghost predicate HasOkay(ch: seq<Packet>) { exists i :: 0 <= i < |ch| && ch[i].Okay? }

  ghost predicate HasClse(ch: seq<Packet>) { exists i :: 0 <= i < |ch| && ch[i].Clse? }

  lemma {:induction false} Concat(a: seq<Packet>, b: seq<Packet>)
    ensures Payload(a + b) == Payload(a) + Payload(b)
    ensures AckSum(a + b) == AckSum(a) + AckSum(b)
    ensures HasOkay(a + b) <==> HasOkay(a) || HasOkay(b)
    ensures HasClse(a + b) <==> HasClse(a) || HasClse(b)
  {
    assert forall i :: 0 <= i < |b| ==> (a + b)[|a| + i] == b[i];
    if a == [] {
      assert a + b == b;
    } else {
      assert (a + b)[1..] == a[1..] + b;
      Concat(a[1..], b);
    }
  }

  lemma FirstPacket(ch: seq<Packet>)
    requires ch != []
    ensures Payload(ch) == (if ch[0].Wrte? then ch[0].data else []) + Payload(ch[1..])
    ensures HasOkay(ch) <==> ch[0].Okay? || HasOkay(ch[1..])
    ensures HasClse(ch) <==> ch[0].Clse? || HasClse(ch[1..])
  {
    assert ch == [ch[0]] + ch[1..];
    Concat([ch[0]], ch[1..]);
  }

  /** Every packet of `ch` goes from socket `src` to socket `dst` and is well formed. */
  ghost predicate Wires(c: Config, ch: seq<Packet>, src: nat, dst: nat) {
    forall i :: 0 <= i < |ch| ==>
      && !ch[i].Open? && ch[i].src == src && ch[i].dst == dst
      && (ch[i].Wrte? ==> ch[i].data != [])
      && (ch[i].Okay? ==> ch[i].ack.Some? == c.delayedAck)
  }

  lemma WiresConcat(c: Config, a: seq<Packet>, b: seq<Packet>, src: nat, dst: nat)
    requires Wires(c, a, src, dst) && Wires(c, b, src, dst)
    ensures Wires(c, a + b, src, dst)
  {
  }

  /** An opener that has not seen its first OKAY. */
  ghost predicate Waiting(c: Config, e: End) { e.Live? && e.sock == FreshSock(c) && e.log.sent == e.log.written == [] }

  /** The discipline each socket keeps by itself. */
  ghost predicate Tidy(c: Config, e: End) {
    match e
    case Live(s, _) =>
      && s.credit.Some? == c.delayedAck
      && (s.credit.Some? && s.credit.value > 0 ==> s.reading)
    case Lingering(s, _) => FdFull(s) && s.peer.None? && !s.reading
    case Gone(_) => true
  }

  /** Write interest is armed exactly when the socket has bytes it can still write. */
  ghost predicate WriteArmed(e: End) { !e.Gone? ==> (e.sock.writing <==> FdFull(e.sock)) }

  /** Stream integrity from `x` to `y`. */
  ghost predicate Intact(x: End, y: End, xy: seq<Packet>) {
    match y
    case Live(s, log) => x.log.sent == log.written + s.queue + Payload(xy)
    case Lingering(s, log) => log.written + s.queue <= x.log.sent
    case Gone(log) => log.written <= x.log.sent
  }

  /** A sender that must wait has something on its way to wake it. */
  ghost predicate Awake(c: Config, p: Pair) {
    !c.delayedAck && p.x.Live? && p.y.Live? && !p.x.sock.reading ==>
      Payload(p.xy) != [] || p.y.sock.queue != [] || HasOkay(p.yx)
  }

  /** The part of `Core` about `x` as a sender. */
  ghost predicate Half(c: Config, p: Pair) {
    && Tidy(c, p.x)
    && p.xi != 0
    && Wires(c, p.xy, p.xi, p.yi)
    && (p.x.Live? ==>
        || p.x.sock.peer == Some(p.yi)
        || (Waiting(c, p.x) && p.xy == [] && p.yx != [] && p.yx[0] == Ready(c, p.yi, p.xi, Window(c))))
    && (p.y.Live? && !p.x.Live? ==> HasClse(p.xy) || HasOkay(p.yx))
    && Intact(p.x, p.y, p.xy)
    && Awake(c, p)
  }

  ghost predicate Core(c: Config, p: Pair) { Half(c, p) && Half(c, Mirror(p)) }

  /** The stream after `x` did something: it became `e` and sent `out`. */
  ghost function Acts(p: Pair, r: EndOut): Pair { p.(x := r.end, xy := p.xy + r.out) }

  /** The stream after `x` took the first packet addressed to it. */
  ghost function Takes(p: Pair): Pair
    requires p.yx != []
  {
    p.(yx := p.yx[1..])
  }

  lemma WriteSplits(s: Sock, w: Write)
    requires ValidWrite(s.queue, w)
    ensures Flushed(s, w) + AfterWrite(s, w).queue == s.queue
  {
  }

  lemma OnlyOkays(c: Config, id: nat, s: Sock, flushed: nat)
    ensures Payload(AcksFor(c, id, s, flushed)) == []
    ensures !HasClse(AcksFor(c, id, s, flushed))
  {
  }

  /** Moving bytes from the queue to the descriptor keeps their concatenation. */
  lemma FlushMoves(c: Config, id: nat, e: End, w: Write)
    requires !e.Gone? && ValidWrite(e.sock.queue, w)
    ensures var r := FlushIncoming(c, id, e, w);
      && r.end.log.sent == e.log.sent && r.end.log.read == e.log.read
      && (!r.end.Gone? ==> r.end.log.written + r.end.sock.queue == e.log.written + e.sock.queue)
      && (r.end.Gone? ==> r.end.log.written <= e.log.written + e.sock.queue)
      && Payload(r.out) == [] && !HasClse(r.out)
  {
    var bytes, rest := Flushed(e.sock, w), AfterWrite(e.sock, w);
    WriteSplits(e.sock, w);
    OnlyOkays(c, id, rest, |bytes|);
    assert (e.log.written + bytes) + rest.queue == e.log.written + (bytes + rest.queue);
  }

  lemma FlushKeepsSending(c: Config, p: Pair, w: Write)
    requires Core(c, p) && !p.x.Gone? && ValidWrite(p.x.sock.queue, w)
    ensures Half(c, Acts(p, FlushIncoming(c, p.xi, p.x, w)))
  {
    var out := FlushIncoming(c, p.xi, p.x, w).out;
    FlushMoves(c, p.xi, p.x, w);
    FlushWires(c, p, w);
    Concat(p.xy, out);
    WiresConcat(c, p.xy, out, p.xi, p.yi);
  }

  lemma FlushWires(c: Config, p: Pair, w: Write)
    requires Core(c, p) && !p.x.Gone? && ValidWrite(p.x.sock.queue, w)
    ensures Wires(c, FlushIncoming(c, p.xi, p.x, w).out, p.xi, p.yi)
  {
  }

  lemma FlushKeepsReceiving(c: Config, p: Pair, w: Write)
    requires Core(c, p) && !p.x.Gone? && ValidWrite(p.x.sock.queue, w)
    ensures Half(c, Mirror(Acts(p, FlushIncoming(c, p.xi, p.x, w))))
  {
    FlushMoves(c, p.xi, p.x, w);
    Concat(p.xy, FlushIncoming(c, p.xi, p.x, w).out);
  }

  /** `x` writes out some of its queue, in `local_socket_flush_incoming`. */
  lemma XFlushes(c: Config, p: Pair, w: Write)
    requires Core(c, p) && !p.x.Gone? && ValidWrite(p.x.sock.queue, w)
    ensures Core(c, Acts(p, FlushIncoming(c, p.xi, p.x, w)))
  {
    FlushKeepsSending(c, p, w);
    FlushKeepsReceiving(c, p, w);
  }

  /** `x` hands bytes it read to the transport. */
  lemma XForwards(c: Config, p: Pair, data: seq<byte>)
    requires Core(c, p) && !p.x.Gone?
    ensures Core(c, Acts(p, Forward(p.xi, p.x, data)))
  {
    var r := Forward(p.xi, p.x, data);
    var q := Acts(p, r);
    if r.out == [] {
      assert q.xy == p.xy;
    } else {
      Concat(p.xy, r.out);
      assert Payload(r.out) == data;
      assert Intact(q.x, q.y, q.xy);
    }
    assert Half(c, q);
    assert Half(c, Mirror(q));
  }

  lemma CloseKeepsSending(c: Config, p: Pair)
    requires Core(c, p) && !p.x.Gone?
    ensures Half(c, Acts(p, Close(p.xi, p.x)))
  {
    var out := Close(p.xi, p.x).out;
    CloseSends(p.xi, p.x);
    Concat(p.xy, out);
    WiresConcat(c, p.xy, out, p.xi, p.yi);
    EndedKeepsSending(c, p, Close(p.xi, p.x).end, p.xy + out);
  }

  lemma CloseSends(id: nat, e: End)
    requires !e.Gone?
    ensures Payload(Close(id, e).out) == [] && (HasClse(Close(id, e).out) <==> e.sock.peer.Some?)
  {
  }

  /** What a socket owes its partner once it is no longer open. */
  lemma EndedKeepsSending(c: Config, p: Pair, e: End, xy: seq<Packet>)
    requires Half(c, p) && Tidy(c, e) && !e.Live? && e.log.sent == p.x.log.sent && Wires(c, xy, p.xi, p.yi)
    requires Payload(xy) == Payload(p.xy) && (p.y.Live? ==> HasClse(xy) || HasOkay(p.yx))
    ensures Half(c, p.(x := e, xy := xy))
  {
  }

  lemma CloseKeepsReceiving(c: Config, p: Pair)
    requires Core(c, p) && !p.x.Gone?
    ensures Half(c, Mirror(Acts(p, Close(p.xi, p.x))))
  {
    Concat(p.xy, Close(p.xi, p.x).out);
  }

  lemma XCloses(c: Config, p: Pair)
    requires Core(c, p) && !p.x.Gone?
    ensures Core(c, Acts(p, Close(p.xi, p.x)))
  {
    CloseKeepsSending(c, p);
    CloseKeepsReceiving(c, p);
  }

  lemma XReads(c: Config, p: Pair, data: seq<byte>, eof: bool)
    requires Core(c, p) && !p.x.Gone?
    ensures Core(c, Acts(p, FlushOutgoing(p.xi, p.x, data, eof)))
  {
    XForwards(c, p, data);
    if eof {
      var r := Forward(p.xi, p.x, data);
      var q := Acts(p, r);
      XCloses(c, q);
      assert (p.xy + r.out) + Close(p.xi, r.end).out == p.xy + (r.out + Close(p.xi, r.end).out);
    }
  }

  lemma XTakesOkay(c: Config, p: Pair)
    requires Core(c, p) && p.yx != [] && p.yx[0].Okay? && p.x.Live?
    ensures Core(c, Takes(p).(x := HandleOkay(p.x, p.yx[0])))
  {
    FirstPacket(p.yx);
    var q := Takes(p).(x := HandleOkay(p.x, p.yx[0]));
    assert Half(c, q);
    assert Half(c, Mirror(q));
  }

  /** An OKAY for a socket that is no longer open is answered with a CLSE. */
  lemma XTakesStrayOkay(c: Config, p: Pair)
    requires Core(c, p) && p.yx != [] && p.yx[0].Okay? && !p.x.Live?
    ensures Core(c, Acts(Takes(p), EndOut(p.x, [Clse(p.xi, p.yi)])))
  {
    FirstPacket(p.yx);
    Concat(p.xy, [Clse(p.xi, p.yi)]);
  }

  lemma ClseKeepsSending(c: Config, p: Pair)
    requires Core(c, p) && p.yx != [] && p.yx[0].Clse? && p.x.Live?
    ensures Half(c, Acts(Takes(p), Close(p.xi, p.x)))
  {
    FirstPacket(p.yx);
    Concat(p.xy, Close(p.xi, p.x).out);
  }

  lemma ClseKeepsReceiving(c: Config, p: Pair)
    requires Core(c, p) && p.yx != [] && p.yx[0].Clse? && p.x.Live?
    ensures p.x.sock.peer == Some(p.yi) && Half(c, Mirror(Acts(Takes(p), Close(p.xi, p.x))))
  {
    FirstPacket(p.yx);
    Concat(p.xy, Close(p.xi, p.x).out);
  }

  lemma XTakesClse(c: Config, p: Pair)
    requires Core(c, p) && p.yx != [] && p.yx[0].Clse? && p.x.Live?
    ensures p.x.sock.peer == Some(p.yi)
    ensures Core(c, Acts(Takes(p), Close(p.xi, p.x)))
  {
    ClseKeepsSending(c, p);
    ClseKeepsReceiving(c, p);
  }

  lemma XAppends(c: Config, p: Pair)
    requires Core(c, p) && p.yx != [] && p.yx[0].Wrte? && p.x.Live?
    ensures p.x.sock.peer == Some(p.yi)
    ensures Core(c, Takes(p).(x := Append(p.x, p.yx[0].data)))
  {
    FirstPacket(p.yx);
    var q := Takes(p).(x := Append(p.x, p.yx[0].data));
    assert Half(c, q);
    assert Half(c, Mirror(q));
  }

  lemma XTakesWrte(c: Config, p: Pair, w: Write)
    requires Core(c, p) && p.yx != [] && p.yx[0].Wrte? && p.x.Live?
    requires ValidWrite(p.x.sock.queue + p.yx[0].data, w)
    ensures p.x.sock.peer == Some(p.yi)
    ensures Core(c, Acts(Takes(p), Enqueue(c, p.xi, p.x, p.yx[0].data, w)))
  {
    XAppends(c, p);
    XFlushes(c, Takes(p).(x := Append(p.x, p.yx[0].data)), w);
  }

  /** WRTE and CLSE for a socket that is no longer open are dropped. */
  lemma XDrops(c: Config, p: Pair)
    requires Core(c, p) && p.yx != [] && !p.yx[0].Okay? && !p.x.Live?
    ensures Core(c, Takes(p))
  {
    FirstPacket(p.yx);
  }
}
