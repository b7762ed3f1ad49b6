/**
 What the protocol guarantees in every reachable state: pairing at quiescence and the integrity of
 every stream.
 */
module StreamTheorems {
  import opened Common
  import opened StreamEndpoint
  import opened StreamPair
  import opened StreamSystem
  import opened StreamInvariant
  import IOVectors

  ghost predicate IsRun(c: Config, run: seq<System>, acts: seq<Action>) {
    && |run| == |acts| + 1
    && Initial(run[0])
    && forall i :: 0 <= i < |acts| ==> Enabled(run[i], acts[i]) && run[i + 1] == Step(c, run[i], acts[i])
  }

  ghost predicate Reachable(c: Config, s: System) {
    exists run, acts :: IsRun(c, run, acts) && run[|acts|] == s
  }

  lemma StepKeeps(c: Config, s: System, act: Action)
    requires Inv(c, s) && Enabled(s, act)
    ensures Inv(c, Step(c, s, act))
  {
    if act.byA {
      StepAKeeps(c, s, act.event);
    } else {
      FlipInv(c, s);
      StepAKeeps(c, Flip(s), act.event);
      FlipInv(c, ActA(c, Flip(s), act.event));
    }
  }

  lemma {:induction false} RunInv(c: Config, run: seq<System>, acts: seq<Action>, i: nat)
    requires IsRun(c, run, acts) && i < |run|
    ensures Inv(c, run[i])
  {
    if i == 0 {
      InitInv(c, run[0]);
    } else {
      RunInv(c, run, acts, i - 1);
      StepKeeps(c, run[i - 1], acts[i - 1]);
    }
  }

  lemma ReachableInv(c: Config, s: System)
    requires Reachable(c, s)
    ensures Inv(c, s)
  {
    var run, acts :| IsRun(c, run, acts) && run[|acts|] == s;
    RunInv(c, run, acts, |acts|);
  }

  lemma ReachableStep(c: Config, s: System, act: Action)
    requires Reachable(c, s) && Enabled(s, act)
    ensures Reachable(c, Step(c, s, act))
  {
    var run, acts :| IsRun(c, run, acts) && run[|acts|] == s;
    assert IsRun(c, run + [Step(c, s, act)], acts + [act]);
  }

  // ---------- pairing ----------

  /** Socket `id` is on the open list of `h`, connected to socket `peer` of the other end. */
  predicate ListedWith(h: Host, id: nat, peer: nat) {
    id in h.ends && h.ends[id].Live? && h.ends[id].sock.peer == Some(peer)
  }

  lemma QuietOneWay(c: Config, s: System, x: nat, y: nat)
    requires Inv(c, s) && s.ab == [] && s.ba == []
    requires ListedWith(s.a, x, y)
    ensures Linked(s, x, y) && ListedWith(s.b, y, x)
  {
    var y' := QuietConnected(c, s, x);
  }

  /** With nothing in flight an open socket is connected to an open socket. */
  lemma QuietConnected(c: Config, s: System, x: nat) returns (y: nat)
    requires Inv(c, s) && s.ab == [] && s.ba == []
    requires x in s.a.ends && s.a.ends[x].Live?
    ensures Linked(s, x, y) && ListedWith(s.a, x, y) && ListedWith(s.b, y, x)
  {
    if x in s.a.openedIds {
      assert OpenerOk(c, s, x);
      y := s.b.answers[x].value;
    } else {
      y :| y in s.a.answers && s.a.answers[y] == Some(x);
    }
    assert Linked(s, x, y);
    assert Core(c, PairOf(s, x, y));
  }

  /**
   Pairing: once both channels are empty, the two ends agree on who is connected to whom, and no
   open socket is left without a peer.
   */
  lemma PairingAtQuiescence(c: Config, s: System)
    requires Reachable(c, s) && s.ab == [] && s.ba == []
    ensures forall x, y :: ListedWith(s.a, x, y) <==> ListedWith(s.b, y, x)
    ensures forall x :: x in s.a.ends && s.a.ends[x].Live? ==> s.a.ends[x].sock.peer.Some?
    ensures forall y :: y in s.b.ends && s.b.ends[y].Live? ==> s.b.ends[y].sock.peer.Some?
  {
    ReachableInv(c, s);
    FlipInv(c, s);
    forall x, y
      ensures ListedWith(s.a, x, y) <==> ListedWith(s.b, y, x)
    {
      if ListedWith(s.a, x, y) { QuietOneWay(c, s, x, y); }
      if ListedWith(s.b, y, x) { QuietOneWay(c, Flip(s), y, x); }
    }
    forall x | x in s.a.ends && s.a.ends[x].Live?
      ensures s.a.ends[x].sock.peer.Some?
    {
      var _ := QuietConnected(c, s, x);
    }
    forall y | y in s.b.ends && s.b.ends[y].Live?
      ensures s.b.ends[y].sock.peer.Some?
    {
      var _ := QuietConnected(c, Flip(s), y);
    }
  }

  // ---------- stream integrity ----------

  /** What the other end of the stream received so far, and what is still to come. */
  ghost predicate Delivers(receiver: End, inFlight: seq<Packet>, source: seq<byte>) {
    && receiver.log.written <= source
    && (receiver.Live? ==> source == receiver.log.written + receiver.sock.queue + Payload(inFlight))
  }

  /**
   Integrity: whatever a socket wrote to its descriptor is a prefix of what the one socket it is
   connected with sent; while it is open, nothing is missing, reordered or added.
   */
  lemma StreamIntegrity(c: Config, s: System, x: nat, y: nat)
    requires Reachable(c, s) && Linked(s, x, y)
    ensures x in s.a.ends && y in s.b.ends
    ensures Delivers(s.b.ends[y], Between(s.ab, x, y), s.a.ends[x].log.sent)
    ensures Delivers(s.a.ends[x], Between(s.ba, y, x), s.b.ends[y].log.sent)
    ensures forall x', y' :: Linked(s, x', y') ==> (x == x' <==> y == y')
  {
    ReachableInv(c, s);
    assert Core(c, PairOf(s, x, y));
    forall x', y' | Linked(s, x', y')
      ensures x == x' <==> y == y'
    {
      LinkUnique(c, s, x, y, x', y');
    }
  }

  /** Data in flight always belongs to a stream, and a socket without a stream wrote nothing. */
  lemma NoStrayBytes(c: Config, s: System)
    requires Reachable(c, s)
    ensures forall i :: 0 <= i < |s.ab| && s.ab[i].Wrte? ==> Linked(s, s.ab[i].src, s.ab[i].dst)
    ensures forall x :: x in s.a.ends && s.a.ends[x].log.written != [] ==> exists y :: Linked(s, x, y)
    ensures forall x :: x in s.a.ends && s.a.ends[x].Live? && s.a.ends[x].sock.peer.Some? ==>
      Linked(s, x, s.a.ends[x].sock.peer.value)
  {
    ReachableInv(c, s);
    forall i | 0 <= i < |s.ab| && s.ab[i].Wrte?
      ensures Linked(s, s.ab[i].src, s.ab[i].dst)
    {
      assert PacketOk(c, s, s.ab[i]);
    }
    forall x | x in s.a.ends && (s.a.ends[x].log.written != [] || (s.a.ends[x].Live? && s.a.ends[x].sock.peer.Some?))
      ensures exists y :: Linked(s, x, y)
      ensures s.a.ends[x].Live? && s.a.ends[x].sock.peer.Some? ==> Linked(s, x, s.a.ends[x].sock.peer.value)
    {
      var y := PartnerOf(c, s, x);
      assert Core(c, PairOf(s, x, y));
    }
  }

  lemma PartnerOf(c: Config, s: System, x: nat) returns (y: nat)
    requires Inv(c, s) && x in s.a.ends && !Idle(c, s.a.ends[x])
    ensures Linked(s, x, y)
  {
    if x in s.a.openedIds {
      assert OpenerOk(c, s, x);
      y := s.b.answers[x].value;
    } else {
      y :| y in s.a.answers && s.a.answers[y] == Some(x);
    }
  }

  // ---------- payloads ----------

  /** The blocks that `adb_writev` passes on hold no more than one write can return. */
  lemma CutFits(pieces: seq<seq<byte>>)
    requires |pieces| <= IOV_MAX && forall i :: 0 <= i < |pieces| ==> |pieces[i]| <= MAX_PAYLOAD
    ensures |IOVectors.Joined(pieces)| <= MAX_WRITE
  {
    IOVectors.CutIsShort(pieces, IOV_MAX, MAX_PAYLOAD);
  }

  /** No WRTE of the channel carries more than the largest payload. */
  ghost predicate SmallPayloads(ch: seq<Packet>) {
    forall i :: 0 <= i < |ch| && ch[i].Wrte? ==> |ch[i].data| <= MAX_PAYLOAD
  }

  ghost predicate Small(s: System) {
    s.a.maxPayload <= MAX_PAYLOAD && s.b.maxPayload <= MAX_PAYLOAD && SmallPayloads(s.ab) && SmallPayloads(s.ba)
  }

  /** What the event sends. */
  ghost function SentA(c: Config, s: System, e: Event): seq<Packet>
    requires EnabledA(s, e)
  {
    match e
    case Dial => Connect(c, s.a).out
    case Writable(id, w) => FlushIncoming(c, id, s.a.ends[id], w).out
    case Readable(id, data, eof) => FlushOutgoing(id, s.a.ends[id], data, eof).out
    case Arrives(w, accept) => Deliver(c, s.a, s.ba[0], w, accept).out
  }

  lemma ChannelsAfter(c: Config, s: System, e: Event)
    requires EnabledA(s, e)
    ensures ActA(c, s, e).a.maxPayload == s.a.maxPayload && ActA(c, s, e).b == s.b
    ensures ActA(c, s, e).ab == s.ab + SentA(c, s, e)
    ensures ActA(c, s, e).ba == if e.Arrives? then s.ba[1..] else s.ba
  {
  }

  lemma AnswersCarryNothing(c: Config, h: Host, p: Packet, w: Write, accept: bool)
    requires CanDeliver(h, p, w)
    ensures SmallPayloads(Deliver(c, h, p, w, accept).out)
  {
  }

  lemma FlushCarriesNothing(c: Config, id: nat, e: End, w: Write)
    requires !e.Gone? && ValidWrite(e.sock.queue, w)
    ensures SmallPayloads(FlushIncoming(c, id, e, w).out)
  {
  }

  /** Apart from what a read event takes from its descriptor, nothing is sent as data. */
  lemma SmallOutput(c: Config, s: System, e: Event)
    requires EnabledA(s, e) && s.a.maxPayload <= MAX_PAYLOAD
    ensures SmallPayloads(SentA(c, s, e))
  {
    match e
    case Dial =>
    case Writable(id, w) => FlushCarriesNothing(c, id, s.a.ends[id], w);
    case Readable(_, _, _) =>
    case Arrives(w, accept) => AnswersCarryNothing(c, s.a, s.ba[0], w, accept);
  }

  lemma SmallStepA(c: Config, s: System, e: Event)
    requires EnabledA(s, e) && Small(s)
    ensures Small(ActA(c, s, e))
  {
    ChannelsAfter(c, s, e);
    SmallOutput(c, s, e);
  }

  /** In every reachable state a payload in flight, and so every block of a queue, is at most MAX_PAYLOAD long. */
  lemma {:induction false} PayloadsAreSmall(c: Config, run: seq<System>, acts: seq<Action>, i: nat)
    requires IsRun(c, run, acts) && i < |run|
    ensures Small(run[i])
  {
    if i > 0 {
      PayloadsAreSmall(c, run, acts, i - 1);
      var s, act := run[i - 1], acts[i - 1];
      SmallStepA(c, if act.byA then s else Flip(s), act.event);
    }
  }
}
