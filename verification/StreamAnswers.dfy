/**
 When a receiver answers. The first part says, on the channel, which OKAY a step sends; the second
 part says over whole runs what a sender without delayed acks can be waiting for.
 */
module StreamAnswers {
  import opened Common
  import opened StreamEndpoint
  import opened StreamPair
  import opened StreamCredit
  import opened StreamSystem
  import opened StreamSteps
  import opened StreamInvariant
  import opened StreamTheorems
  import opened StreamFlow

  // ---------- one step ----------

  /** The event writes on socket `id`: its descriptor is ready, or a WRTE for it arrives. */
  ghost predicate WritesOn(s: System, e: Event, id: nat) {
    || (e.Writable? && e.id == id)
    || (e.Arrives? && s.ba != [] && s.ba[0].Wrte? && s.ba[0].src != 0 && s.ba[0].dst == id != 0
        && Found(s.a, id, s.ba[0].src))
  }

  /** What the socket has to write in this event. */
  ghost function ToWrite(s: System, e: Event, id: nat): seq<byte>
    requires WritesOn(s, e, id) && Held(s.a, id)
  {
    s.a.ends[id].sock.queue + (if e.Arrives? then s.ba[0].data else [])
  }

  /** How many bytes the event wrote. */
  ghost function Amount(e: Event): nat
    requires e.Writable? || e.Arrives?
  {
    if e.w.Wrote? then e.w.n else 0
  }

  /** What a flush of `queue` sends, for a connected open socket. */
  lemma FlushAnswers(c: Config, id: nat, e: End, w: Write, y: nat, n: nat)
    requires e.Live? && e.sock.peer == Some(y) && e.sock.credit.Some? == c.delayedAck
    requires ValidWrite(e.sock.queue, w) && n == if w.Wrote? then w.n else 0
    ensures var r := FlushIncoming(c, id, e, w);
      && r.end.Live? && r.end.sock.queue == e.sock.queue[n..]
      && r.out == if c.delayedAck then [Okay(id, y, Some(n))]
                  else if n > 0 && |e.sock.queue| - n < 0x10_0000 then [Okay(id, y, None)] else []
  {
    WriteExact(e.sock, w, n);
  }

  /**
   Every write of an open connected socket is answered with exactly one OKAY to its peer. With delayed
   acks it carries the number of bytes; without, it is sent only if something was written and less than
   1 MiB is left.
   */
  lemma WriteIsAnswered(c: Config, s: System, e: Event, id: nat, y: nat, n: nat)
    requires Reachable(c, s) && EnabledA(s, e) && WritesOn(s, e, id)
    requires id in s.a.ends && s.a.ends[id].Live? && s.a.ends[id].sock.peer == Some(y) && n == Amount(e)
    ensures var s' := ActA(c, s, e);
      && id in s'.a.ends && s'.a.ends[id].Live? && n <= |ToWrite(s, e, id)|
      && s'.a.ends[id].sock.queue == ToWrite(s, e, id)[n..]
      && s'.ab == s.ab + (if c.delayedAck then [Okay(id, y, Some(n))]
                          else if n > 0 && |s'.a.ends[id].sock.queue| < 0x10_0000 then [Okay(id, y, None)] else [])
  {
    ReachableInv(c, s);
    OpenIsTidy(c, s, id);
    var end := s.a.ends[id];
    if e.Writable? {
      assert end.sock.queue + [] == end.sock.queue;
      FlushAnswers(c, id, end, e.w, y, n);
    } else {
      FlushAnswers(c, id, Append(end, s.ba[0].data), e.w, y, n);
    }
  }

  lemma OpenIsTidy(c: Config, s: System, id: nat)
    requires Inv(c, s) && id in s.a.ends && s.a.ends[id].Live? && s.a.ends[id].sock.peer.Some?
    ensures s.a.ends[id].sock.credit.Some? == c.delayedAck
  {
    var y := PartnerOf(c, s, id);
    assert Core(c, PairOf(s, id, y));
  }

  /** The event accepts an OPEN. */
  ghost predicate AcceptsOpen(c: Config, s: System, e: Event) {
    e.Arrives? && s.ba != [] && s.ba[0].Open? && s.ba[0].src != 0 && e.accept && c.delayedAck == (s.ba[0].window != 0)
  }

  /** Nothing else is answered with an OKAY: only writes, and an OPEN that is accepted. */
  lemma OnlyWritesAnswer(c: Config, s: System, e: Event, i: nat)
    requires EnabledA(s, e) && |s.ab| <= i < |ActA(c, s, e).ab| && ActA(c, s, e).ab[i].Okay?
    ensures WritesOn(s, e, ActA(c, s, e).ab[i].src) || AcceptsOpen(c, s, e)
  {
  }

  /** An OPEN that is accepted is answered with the first OKAY, which opens the window. */
  lemma OpenIsAnswered(c: Config, s: System, e: Event)
    requires EnabledA(s, e) && AcceptsOpen(c, s, e)
    ensures var s' := ActA(c, s, e);
      && s'.a.nextId == s.a.nextId + 1 && s.a.nextId in s'.a.ends && s'.a.ends[s.a.nextId].Live?
      && s'.a.ends[s.a.nextId].sock.peer == Some(s.ba[0].src) && s'.a.ends[s.a.nextId].sock.reading
      && s'.ab == s.ab + [Okay(s.a.nextId, s.ba[0].src, if c.delayedAck then Some(0x200_0000) else None)]
  {
  }

  // ---------- what a sender waits for ----------

  /**
   Without delayed acks an open sender `x` that is not armed has data or an OKAY under way, or its
   receiver holds a full payload, or it has written nothing since it had written `mark` bytes.
   */
  ghost predicate Owed(p: Pair, mark: nat) {
    p.x.Live? && p.y.Live? && !p.x.sock.reading ==>
      || Payload(p.xy) != [] || HasOkay(p.yx)
      || |p.y.sock.queue| >= MAX_PAYLOAD || |p.y.log.written| == mark
  }

  lemma SenderReads(c: Config, p: Pair, data: seq<byte>, eof: bool, mark: nat)
    requires !c.delayedAck && Core(c, p) && !p.x.Gone? && Owed(p, mark)
    ensures Owed(Acts(p, FlushOutgoing(p.xi, p.x, data, eof)), mark)
  {
    var r := FlushOutgoing(p.xi, p.x, data, eof);
    Concat(p.xy, r.out);
    if data != [] && p.x.Live? && p.x.sock.peer.Some? && !eof {
      assert r.out == [Wrte(p.xi, p.x.sock.peer.value, data)];
      assert r.out[1..] == [] && Payload(r.out) == data;
    }
  }

  lemma SenderTakes(c: Config, p: Pair, w: Write, mark: nat)
    requires !c.delayedAck && Core(c, p) && PairEnabled(p, Take(w)) && Owed(p, mark)
    ensures Owed(PairNext(c, p, Take(w)), mark)
  {
    FirstPacket(p.yx);
    if p.yx[0].Wrte? && p.x.Live? {
      var r := Enqueue(c, p.xi, p.x, p.yx[0].data, w);
      FlushMoves(c, p.xi, Append(p.x, p.yx[0].data), w);
      Concat(p.xy, r.out);
    }
  }

  /** What the sender does keeps it. */
  lemma SenderActs(c: Config, p: Pair, ev: PairEvent, mark: nat)
    requires !c.delayedAck && Core(c, p) && PairEnabled(p, ev) && Owed(p, mark)
    ensures Owed(PairNext(c, p, ev), mark)
  {
    match ev
    case Flush(w) =>
      FlushMoves(c, p.xi, p.x, w);
      Concat(p.xy, FlushIncoming(c, p.xi, p.x, w).out);
    case Read(data, eof) => SenderReads(c, p, data, eof, mark);
    case Take(w) => SenderTakes(c, p, w, mark);
  }

  /** What the mark becomes when the receiver `q.x` handles `ev`. */
  ghost function NextMark(q: Pair, ev: PairEvent, mark: nat): nat {
    if ev.Take? && q.yx != [] && q.yx[0].Wrte? then |q.x.log.written| else mark
  }

  lemma ReceiverFlushes(c: Config, q: Pair, w: Write, mark: nat)
    requires !c.delayedAck && Core(c, q) && q.x.Live? && ValidWrite(q.x.sock.queue, w)
    requires Owed(Mirror(q), mark) || |q.x.log.written| == mark
    ensures Owed(Mirror(Acts(q, FlushIncoming(c, q.xi, q.x, w))), mark)
  {
    var r := FlushIncoming(c, q.xi, q.x, w);
    Concat(q.xy, r.out);
    if w.Wrote? && |r.end.sock.queue| < MAX_PAYLOAD {
      assert r.out == [Okay(q.xi, q.x.sock.peer.value, None)];
      assert r.out[0].Okay?;
    }
  }

  lemma ReceiverTakes(c: Config, q: Pair, w: Write, mark: nat)
    requires !c.delayedAck && Core(c, q) && PairEnabled(q, Take(w)) && Owed(Mirror(q), mark)
    ensures Owed(Mirror(PairNext(c, q, Take(w))), NextMark(q, Take(w), mark))
  {
    FirstPacket(q.yx);
    if q.yx[0].Wrte? && q.x.Live? {
      XAppends(c, q);
      ReceiverFlushes(c, Takes(q).(x := Append(q.x, q.yx[0].data)), w, |q.x.log.written|);
    } else if q.yx[0].Okay? && !q.x.Live? {
      Concat(q.xy, [Clse(q.xi, q.yi)]);
    }
  }

  /** What the receiver does keeps it, with the mark moved when a WRTE arrives. */
  lemma ReceiverActs(c: Config, q: Pair, ev: PairEvent, mark: nat)
    requires !c.delayedAck && Core(c, q) && PairEnabled(q, ev) && Owed(Mirror(q), mark)
    ensures Owed(Mirror(PairNext(c, q, ev)), NextMark(q, ev, mark))
  {
    match ev
    case Flush(w) => if q.x.Live? { ReceiverFlushes(c, q, w, mark); }
    case Read(data, eof) => Concat(q.xy, FlushOutgoing(q.xi, q.x, data, eof).out);
    case Take(w) => ReceiverTakes(c, q, w, mark);
  }

  // ---------- over a run ----------

  /** The step delivers a WRTE of socket `x` of end A to socket `y` of end B. */
  predicate Hears(s: System, act: Action, x: nat, y: nat) {
    !act.byA && act.event.Arrives? && s.ab != [] && s.ab[0].Wrte? && s.ab[0].src == x && s.ab[0].dst == y
  }

  /** How many bytes socket `y` of end B has written. */
  function WrittenBy(s: System, y: nat): nat { if y in s.b.ends then |s.b.ends[y].log.written| else 0 }

  /** How many bytes `y` had written before the last WRTE of `x` arrived, in the first `n` steps of the run. */
  ghost function Mark(run: seq<System>, acts: seq<Action>, n: nat, x: nat, y: nat): nat
    requires n <= |acts| < |run|
  {
    if n == 0 then 0
    else if Hears(run[n - 1], acts[n - 1], x, y) then WrittenBy(run[n - 1], y)
    else Mark(run, acts, n - 1, x, y)
  }

  ghost predicate OwedAt(s: System, x: nat, y: nat, mark: nat) {
    x in s.a.ends && y in s.b.ends && Owed(PairOf(s, x, y), mark)
  }

  /** A step of the sending end. */
  lemma OwedStepA(c: Config, s: System, e: Event, x: nat, y: nat, mark: nat)
    requires !c.delayedAck && Inv(c, s) && EnabledA(s, e) && Linked(ActA(c, s, e), x, y)
    requires Linked(s, x, y) ==> OwedAt(s, x, y, mark)
    ensures OwedAt(ActA(c, s, e), x, y, mark)
  {
    var cause := FindCause(c, s, e);
    var s' := ActA(c, s, e);
    StreamOrigin(c, s, e, cause, x, y);
    if cause == OnStream(x, y) && !SameStream(s, s', x, y) && !Newborn(c, PairOf(s', x, y)) {
      assert Core(c, PairOf(s, x, y));
      SenderActs(c, PairOf(s, x, y), AsPairEvent(e), mark);
    }
  }

  /** A packet of the stream at the head of its channel leaves the stream when it is delivered. */
  lemma HeadLeaves(s: System, s': System, x: nat, y: nat)
    requires s.ba != [] && s'.ba == s.ba[1..] && !s.ba[0].Open? && s.ba[0].src == y && s.ba[0].dst == x
    ensures |Between(s'.ba, y, x)| < |Between(s.ba, y, x)| && Between(s.ba, y, x)[0] == s.ba[0]
  {
  }

  /** A step of the receiving end, seen from it: `x` is the receiver, `y` the sender. */
  lemma OwedStepB(c: Config, s: System, e: Event, x: nat, y: nat, mark: nat, mark': nat)
    requires !c.delayedAck && Inv(c, s) && EnabledA(s, e) && Linked(ActA(c, s, e), x, y)
    requires Linked(s, x, y) ==> x in s.a.ends && y in s.b.ends && Owed(Mirror(PairOf(s, x, y)), mark)
    requires var heard := e.Arrives? && s.ba[0].Wrte? && s.ba[0].src == y && s.ba[0].dst == x;
      mark' == if !heard then mark else if x in s.a.ends then |s.a.ends[x].log.written| else 0
    ensures var s' := ActA(c, s, e);
      x in s'.a.ends && y in s'.b.ends && Owed(Mirror(PairOf(s', x, y)), mark')
  {
    var cause := FindCause(c, s, e);
    var s' := ActA(c, s, e);
    ChannelsAfter(c, s, e);
    StreamOrigin(c, s, e, cause, x, y);
    if SameStream(s, s', x, y) {
      if e.Arrives? && s.ba[0].Wrte? && s.ba[0].src == y && s.ba[0].dst == x { HeadLeaves(s, s', x, y); }
    } else if Newborn(c, PairOf(s', x, y)) {
      assert PairOf(s', x, y).xy[0].Okay?;
    } else {
      assert Core(c, PairOf(s, x, y));
      if e.Arrives? { HeadLeaves(s, s', x, y); }
      ReceiverActs(c, PairOf(s, x, y), AsPairEvent(e), mark);
    }
  }

  lemma OwedStep(c: Config, s: System, act: Action, s': System, x: nat, y: nat, mark: nat, mark': nat)
    requires !c.delayedAck && Inv(c, s) && Enabled(s, act) && s' == Step(c, s, act) && Linked(s', x, y)
    requires Linked(s, x, y) ==> OwedAt(s, x, y, mark)
    requires mark' == if Hears(s, act, x, y) then WrittenBy(s, y) else mark
    ensures OwedAt(s', x, y, mark')
  {
    if act.byA {
      OwedStepA(c, s, act.event, x, y, mark);
    } else {
      FlipInv(c, s);
      OwedStepB(c, Flip(s), act.event, y, x, mark, mark');
    }
  }

  lemma NothingLinkedYet(c: Config, run: seq<System>, acts: seq<Action>, x: nat, y: nat)
    requires IsRun(c, run, acts)
    ensures !Linked(run[0], x, y)
  {
  }

  /** One step of the run, and of the mark. */
  lemma OwedNext(c: Config, run: seq<System>, acts: seq<Action>, i: nat, n: nat, x: nat, y: nat)
    requires !c.delayedAck && IsRun(c, run, acts) && n == i + 1 <= |acts| && Inv(c, run[i]) && Linked(run[n], x, y)
    requires Linked(run[i], x, y) ==> OwedAt(run[i], x, y, Mark(run, acts, i, x, y))
    ensures OwedAt(run[n], x, y, Mark(run, acts, n, x, y))
  {
    OwedStep(c, run[i], acts[i], run[n], x, y, Mark(run, acts, i, x, y), Mark(run, acts, n, x, y));
  }

  lemma {:induction false} RunOwed(c: Config, run: seq<System>, acts: seq<Action>, n: nat, x: nat, y: nat)
    requires !c.delayedAck && IsRun(c, run, acts) && n <= |acts| && Linked(run[n], x, y)
    ensures OwedAt(run[n], x, y, Mark(run, acts, n, x, y))
  {
    NothingLinkedYet(c, run, acts, x, y);
    if n > 0 {
      var i: nat := n - 1;
      RunInv(c, run, acts, i);
      if Linked(run[i], x, y) {
        RunOwed(c, run, acts, i, x, y);
      }
      OwedNext(c, run, acts, i, n, x, y);
    }
  }

  /**
   Over every run without delayed acks: if nothing is under way either way, an open sender that is not
   armed has a receiver with bytes left to write, and either a full payload of them, or it has written
   nothing since the last WRTE arrived.
   */
  lemma WaitsForReceiver(c: Config, run: seq<System>, acts: seq<Action>, x: nat, y: nat)
    requires !c.delayedAck && IsRun(c, run, acts) && Linked(run[|acts|], x, y)
    ensures var s := run[|acts|];
      && x in s.a.ends && y in s.b.ends
      && (s.a.ends[x].Live? && s.b.ends[y].Live? && !s.a.ends[x].sock.reading
          && Between(s.ab, x, y) == [] && Between(s.ba, y, x) == [] ==>
          && s.b.ends[y].sock.queue != []
          && (|s.b.ends[y].sock.queue| >= 0x10_0000 || WrittenBy(s, y) == Mark(run, acts, |acts|, x, y)))
  {
    RunOwed(c, run, acts, |acts|, x, y);
    NoLostWakeUp(c, run, acts, x, y);
  }
}
