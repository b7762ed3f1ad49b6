/**
 Delayed-ack accounting on one stream: credit, bytes in flight, bytes queued and acknowledgements
 in flight always add up to the window. Every write fits the 31 bits that an acknowledgement keeps.
 */
module StreamCredit {
  import opened Common
  import opened StreamEndpoint
  import opened StreamPair

  const INT32_LIMIT: nat := 0x8000_0000

  /** Every acknowledgement of `ch` means the same number at both ends. */
  ghost predicate AcksExact(ch: seq<Packet>) {
    forall i :: 0 <= i < |ch| && ch[i].Okay? && ch[i].ack.Some? ==> ch[i].ack.value < INT32_LIMIT
  }

  lemma {:induction false} AckSumNonNegative(ch: seq<Packet>)
    requires AcksExact(ch)
    ensures AckSum(ch) >= 0
  {
    if ch != [] {
      AckSumNonNegative(ch[1..]);
    }
  }

  /** The accounting of `x` as a sender. */
  ghost predicate HalfCredit(p: Pair) {
    && AcksExact(p.yx)
    && (p.x.Live? ==>
        && p.x.sock.credit.Some?
        && (p.x.sock.reading ==> p.x.sock.credit.value > 0)
        && (p.y.Live? ==>
            p.x.sock.credit.value + |Payload(p.xy)| + |p.y.sock.queue| + AckSum(p.yx) == INITIAL_DELAYED_ACK_BYTES))
  }

  ghost predicate Credit(c: Config, p: Pair) {
    c.delayedAck ==> HalfCredit(p) && HalfCredit(Mirror(p))
  }

  /** Largest backlog a receiver can be made to hold. */
  ghost function Backlog(limit: nat): int { INITIAL_DELAYED_ACK_BYTES + limit - 1 }

  /** No overdraft beyond one payload at the sender, no backlog beyond the window at the receiver. */
  ghost predicate HalfBounded(limit: nat, p: Pair) {
    && (p.x.Live? && p.x.sock.credit.Some? ==> p.x.sock.credit.value >= 1 - limit)
    && (p.y.Live? ==> |p.y.sock.queue| + |Payload(p.xy)| <= Backlog(limit))
    && (p.y.Lingering? ==> |p.y.sock.queue| <= Backlog(limit))
  }

  /** `lx` and `ly` are the largest payloads the two ends send. */
  ghost predicate Bounded(c: Config, lx: nat, ly: nat, p: Pair) {
    c.delayedAck ==> HalfBounded(lx, p) && HalfBounded(ly, Mirror(p))
  }

  /** Re-read as a signed number, an acknowledgement is the amount exactly if it is below 2^31. */
  lemma AckExact(n: nat)
    ensures AsInt32(ToUint32(n)) == n <==> n < INT32_LIMIT
  {
  }

  /** Every write is acknowledged with the amount that was written. */
  lemma WriteExact(s: Sock, w: Write, n: nat)
    requires ValidWrite(s.queue, w) && n == |Flushed(s, w)|
    ensures n < INT32_LIMIT && ToUint32(n) == n && AsInt32(ToUint32(n)) == n
  {
    assert MAX_WRITE < INT32_LIMIT;
    AckExact(n);
  }

  lemma FlushCredit(c: Config, p: Pair, w: Write)
    requires Core(c, p) && !p.x.Gone? && ValidWrite(p.x.sock.queue, w) && Credit(c, p)
    ensures Credit(c, Acts(p, FlushIncoming(c, p.xi, p.x, w)))
  {
    if c.delayedAck {
      var r := FlushIncoming(c, p.xi, p.x, w);
      var q := Acts(p, r);
      WriteExact(p.x.sock, w, |Flushed(p.x.sock, w)|);
      FlushMoves(c, p.xi, p.x, w);
      Concat(p.xy, r.out);
      if p.x.sock.peer.Some? {
        assert AckSum(r.out) == |Flushed(p.x.sock, w)|;
      }
      assert HalfCredit(q);
      assert HalfCredit(Mirror(q));
    }
  }

  lemma ForwardCredit(c: Config, p: Pair, data: seq<byte>)
    requires Core(c, p) && !p.x.Gone? && Credit(c, p)
    ensures Credit(c, Acts(p, Forward(p.xi, p.x, data)))
  {
    if c.delayedAck {
      var r := Forward(p.xi, p.x, data);
      var q := Acts(p, r);
      Concat(p.xy, r.out);
      assert r.out != [] ==> Payload(r.out) == data;
      assert HalfCredit(q);
      assert HalfCredit(Mirror(q));
    }
  }

  lemma CloseCredit(c: Config, p: Pair)
    requires Core(c, p) && !p.x.Gone? && Credit(c, p)
    ensures Credit(c, Acts(p, Close(p.xi, p.x)))
  {
  }

  lemma OkayCredit(c: Config, p: Pair)
    requires Core(c, p) && p.yx != [] && p.yx[0].Okay? && p.x.Live? && Credit(c, p)
    ensures Credit(c, Takes(p).(x := HandleOkay(p.x, p.yx[0])))
  {
    FirstPacket(p.yx);
  }

  lemma WrteCredit(c: Config, p: Pair, w: Write)
    requires Core(c, p) && p.yx != [] && p.yx[0].Wrte? && p.x.Live? && Credit(c, p)
    requires ValidWrite(p.x.sock.queue + p.yx[0].data, w)
    ensures Credit(c, Acts(Takes(p), Enqueue(c, p.xi, p.x, p.yx[0].data, w)))
  {
    FirstPacket(p.yx);
    var q := Takes(p).(x := Append(p.x, p.yx[0].data));
    assert Core(c, q) by { XAppends(c, p); }
    FlushCredit(c, q, w);
  }

  lemma FlushBounded(c: Config, lx: nat, ly: nat, p: Pair, w: Write)
    requires !p.x.Gone? && ValidWrite(p.x.sock.queue, w) && Bounded(c, lx, ly, p)
    ensures Bounded(c, lx, ly, Acts(p, FlushIncoming(c, p.xi, p.x, w)))
  {
    var r := FlushIncoming(c, p.xi, p.x, w);
    FlushMoves(c, p.xi, p.x, w);
    Concat(p.xy, r.out);
  }

  /** A read that happens only while the socket is armed keeps the bounds. */
  lemma ForwardBounded(c: Config, lx: nat, ly: nat, p: Pair, data: seq<byte>)
    requires Core(c, p) && !p.x.Gone? && Credit(c, p) && Bounded(c, lx, ly, p)
    requires |data| <= lx
    requires p.x.Live? && p.x.sock.peer.Some? && data != [] ==> p.x.sock.reading
    ensures Bounded(c, lx, ly, Acts(p, Forward(p.xi, p.x, data)))
  {
    if c.delayedAck {
      var r := Forward(p.xi, p.x, data);
      var q := Acts(p, r);
      Concat(p.xy, r.out);
      assert r.out != [] ==> Payload(r.out) == data;
      ForwardCredit(c, p, data);
      AckSumNonNegative(p.yx);
      assert HalfBounded(lx, q);
      assert HalfBounded(ly, Mirror(q));
    }
  }

  lemma CloseBounded(c: Config, lx: nat, ly: nat, p: Pair)
    requires !p.x.Gone? && Bounded(c, lx, ly, p)
    ensures Bounded(c, lx, ly, Acts(p, Close(p.xi, p.x)))
  {
    Concat(p.xy, Close(p.xi, p.x).out);
  }

  lemma OkayBounded(c: Config, lx: nat, ly: nat, p: Pair)
    requires p.yx != [] && p.yx[0].Okay? && p.x.Live? && Credit(c, p) && Bounded(c, lx, ly, p)
    ensures Bounded(c, lx, ly, Takes(p).(x := HandleOkay(p.x, p.yx[0])))
  {
    FirstPacket(p.yx);
  }

  lemma WrteBounded(c: Config, lx: nat, ly: nat, p: Pair, w: Write)
    requires p.yx != [] && p.yx[0].Wrte? && p.x.Live? && Bounded(c, lx, ly, p)
    requires ValidWrite(p.x.sock.queue + p.yx[0].data, w)
    ensures Bounded(c, lx, ly, Acts(Takes(p), Enqueue(c, p.xi, p.x, p.yx[0].data, w)))
  {
    FirstPacket(p.yx);
    FlushBounded(c, lx, ly, Takes(p).(x := Append(p.x, p.yx[0].data)), w);
  }

  lemma DropBounded(c: Config, lx: nat, ly: nat, p: Pair)
    requires p.yx != [] && Bounded(c, lx, ly, p)
    ensures Bounded(c, lx, ly, Takes(p))
  {
    FirstPacket(p.yx);
  }

  // ---------- all actions of one end of a stream ----------

  datatype PairEvent =
    | Flush(w: Write)
    | Read(data: seq<byte>, eof: bool)
    | Take(w: Write)

  ghost predicate PairEnabled(p: Pair, ev: PairEvent) {
    match ev
    case Flush(w) => !p.x.Gone? && ValidWrite(p.x.sock.queue, w)
    case Read(_, _) => !p.x.Gone?
    case Take(w) =>
      && p.yx != []
      && (p.yx[0].Wrte? && p.x.Live? ==> ValidWrite(p.x.sock.queue + p.yx[0].data, w))
  }

  /** What `x` does to the stream when it handles `ev`. */
  ghost function PairNext(c: Config, p: Pair, ev: PairEvent): Pair
    requires PairEnabled(p, ev)
  {
    match ev
    case Flush(w) => Acts(p, FlushIncoming(c, p.xi, p.x, w))
    case Read(data, eof) => Acts(p, FlushOutgoing(p.xi, p.x, data, eof))
    case Take(w) =>
      var first := p.yx[0];
      if first.Okay? && p.x.Live? then Takes(p).(x := HandleOkay(p.x, first))
      else if first.Okay? then Acts(Takes(p), EndOut(p.x, [Clse(p.xi, p.yi)]))
      else if first.Clse? && p.x.Live? then Acts(Takes(p), Close(p.xi, p.x))
      else if first.Wrte? && p.x.Live? then Acts(Takes(p), Enqueue(c, p.xi, p.x, first.data, w))
      else Takes(p)
  }

  /** The event reads only if read interest is armed. */
  ghost predicate ArmedRead(limit: nat, p: Pair, ev: PairEvent) {
    ev.Read? ==> |ev.data| <= limit && (p.x.Live? ==> p.x.sock.reading)
  }

  lemma PairKeepsCore(c: Config, p: Pair, ev: PairEvent)
    requires Core(c, p) && PairEnabled(p, ev)
    ensures Core(c, PairNext(c, p, ev))
  {
    match ev
    case Flush(w) => XFlushes(c, p, w);
    case Read(data, eof) => XReads(c, p, data, eof);
    case Take(w) =>
      if p.yx[0].Okay? && p.x.Live? { XTakesOkay(c, p); }
      else if p.yx[0].Okay? { XTakesStrayOkay(c, p); }
      else if p.yx[0].Clse? && p.x.Live? { XTakesClse(c, p); }
      else if p.yx[0].Wrte? && p.x.Live? { XTakesWrte(c, p, w); }
      else { XDrops(c, p); }
  }

  lemma ReadComposes(p: Pair, data: seq<byte>)
    requires !p.x.Gone?
    ensures var q := Acts(p, Forward(p.xi, p.x, data));
      Acts(q, Close(q.xi, q.x)) == Acts(p, FlushOutgoing(p.xi, p.x, data, true))
  {
    var r := Forward(p.xi, p.x, data);
    assert (p.xy + r.out) + Close(p.xi, r.end).out == p.xy + (r.out + Close(p.xi, r.end).out);
  }

  lemma PairKeepsCredit(c: Config, p: Pair, ev: PairEvent)
    requires Core(c, p) && Credit(c, p) && PairEnabled(p, ev)
    ensures Credit(c, PairNext(c, p, ev))
  {
    match ev
    case Flush(w) => FlushCredit(c, p, w);
    case Read(data, eof) =>
      ForwardCredit(c, p, data);
      if eof {
        XForwards(c, p, data);
        CloseCredit(c, Acts(p, Forward(p.xi, p.x, data)));
        ReadComposes(p, data);
      }
    case Take(w) =>
      if p.yx[0].Okay? && p.x.Live? { OkayCredit(c, p); }
      else if p.yx[0].Wrte? && p.x.Live? { WrteCredit(c, p, w); }
  }

  lemma PairKeepsBounds(c: Config, lx: nat, ly: nat, p: Pair, ev: PairEvent)
    requires Core(c, p) && Credit(c, p) && Bounded(c, lx, ly, p) && PairEnabled(p, ev) && ArmedRead(lx, p, ev)
    ensures Bounded(c, lx, ly, PairNext(c, p, ev))
  {
    match ev
    case Flush(w) => FlushBounded(c, lx, ly, p, w);
    case Read(data, eof) =>
      ForwardBounded(c, lx, ly, p, data);
      if eof {
        CloseBounded(c, lx, ly, Acts(p, Forward(p.xi, p.x, data)));
        ReadComposes(p, data);
      }
    case Take(w) =>
      if p.yx[0].Okay? && p.x.Live? { OkayBounded(c, lx, ly, p); }
      else if p.yx[0].Okay? {
        DropBounded(c, lx, ly, p);
        Concat(p.xy, [Clse(p.xi, p.yi)]);
      }
      else if p.yx[0].Clse? && p.x.Live? {
        DropBounded(c, lx, ly, p);
        CloseBounded(c, lx, ly, Takes(p));
      }
      else if p.yx[0].Wrte? && p.x.Live? { WrteBounded(c, lx, ly, p, w); }
      else { DropBounded(c, lx, ly, p); }
  }
}
