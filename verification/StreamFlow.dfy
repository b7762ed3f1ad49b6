/** Flow control over whole runs: conservation of credit, its bounds, and wake-ups. */
module StreamFlow {
  import opened Common
  import opened StreamEndpoint
  import opened StreamPair
  import opened StreamCredit
  import opened StreamSystem
  import opened StreamSteps
  import opened StreamInvariant
  import opened StreamTheorems

  ghost predicate CreditsOk(c: Config, s: System) {
    forall x, y :: Linked(s, x, y) ==> x in s.a.ends && y in s.b.ends && Credit(c, PairOf(s, x, y))
  }

  ghost predicate BoundsOk(c: Config, s: System) {
    && 0 < s.a.maxPayload <= MAX_PAYLOAD && 0 < s.b.maxPayload <= MAX_PAYLOAD
    && forall x, y :: Linked(s, x, y) ==>
        x in s.a.ends && y in s.b.ends && Bounded(c, s.a.maxPayload, s.b.maxPayload, PairOf(s, x, y))
  }

  /** The event reads a descriptor only if its read interest is armed. */
  predicate ArmedA(s: System, e: Event) { e.Readable? && Held(s.a, e.id) ==> s.a.ends[e.id].sock.reading }

  predicate Armed(s: System, act: Action) { ArmedA(if act.byA then s else Flip(s), act.event) }

  lemma FlipFlow(c: Config, s: System)
    requires Inv(c, s)
    ensures CreditsOk(c, Flip(s)) <==> CreditsOk(c, s)
    ensures BoundsOk(c, Flip(s)) <==> BoundsOk(c, s)
  {
    forall x, y | Linked(s, x, y)
      ensures Linked(Flip(s), y, x) && PairOf(Flip(s), y, x) == Mirror(PairOf(s, x, y))
    {
    }
    forall x, y | Linked(Flip(s), y, x)
      ensures Linked(s, x, y)
    {
    }
  }

  lemma CreditStepA(c: Config, s: System, e: Event)
    requires Inv(c, s) && CreditsOk(c, s) && EnabledA(s, e)
    ensures CreditsOk(c, ActA(c, s, e))
  {
    var cause := FindCause(c, s, e);
    var s' := ActA(c, s, e);
    forall x, y | Linked(s', x, y)
      ensures x in s'.a.ends && y in s'.b.ends && Credit(c, PairOf(s', x, y))
    {
      StreamOrigin(c, s, e, cause, x, y);
      if x in s'.a.ends && y in s'.b.ends && Newborn(c, PairOf(s', x, y)) {
        NewbornOk(c, 1, 1, PairOf(s', x, y));
      } else if !SameStream(s, s', x, y) {
        PairKeepsCredit(c, PairOf(s, x, y), AsPairEvent(e));
      }
    }
  }

  lemma BoundsStepA(c: Config, s: System, e: Event)
    requires Inv(c, s) && CreditsOk(c, s) && BoundsOk(c, s) && EnabledA(s, e) && ArmedA(s, e)
    ensures BoundsOk(c, ActA(c, s, e))
  {
    var cause := FindCause(c, s, e);
    var s' := ActA(c, s, e);
    forall x, y | Linked(s', x, y)
      ensures x in s'.a.ends && y in s'.b.ends
      ensures Bounded(c, s'.a.maxPayload, s'.b.maxPayload, PairOf(s', x, y))
    {
      StreamOrigin(c, s, e, cause, x, y);
      if x in s'.a.ends && y in s'.b.ends && Newborn(c, PairOf(s', x, y)) {
        NewbornOk(c, s.a.maxPayload, s.b.maxPayload, PairOf(s', x, y));
      } else if !SameStream(s, s', x, y) {
        PairKeepsBounds(c, s.a.maxPayload, s.b.maxPayload, PairOf(s, x, y), AsPairEvent(e));
      }
    }
  }

  // ---------- runs ----------

  /** A run in which descriptors are read only while armed: no hang-up comes in between. */
  ghost predicate ArmedRun(c: Config, run: seq<System>, acts: seq<Action>) {
    IsRun(c, run, acts) && forall i :: 0 <= i < |acts| ==> Armed(run[i], acts[i])
  }

  lemma {:induction false} RunCredit(c: Config, run: seq<System>, acts: seq<Action>, i: nat)
    requires IsRun(c, run, acts) && i < |run|
    ensures CreditsOk(c, run[i])
  {
    if i > 0 {
      RunCredit(c, run, acts, i - 1);
      RunInv(c, run, acts, i - 1);
      RunInv(c, run, acts, i);
      var s, act := run[i - 1], acts[i - 1];
      if act.byA {
        CreditStepA(c, s, act.event);
      } else {
        FlipInv(c, s);
        FlipFlow(c, s);
        CreditStepA(c, Flip(s), act.event);
        FlipFlow(c, run[i]);
      }
    }
  }

  lemma {:induction false} RunBounds(c: Config, run: seq<System>, acts: seq<Action>, i: nat)
    requires ArmedRun(c, run, acts) && i < |run|
    ensures CreditsOk(c, run[i]) && BoundsOk(c, run[i])
  {
    if i > 0 {
      RunBounds(c, run, acts, i - 1);
      RunInv(c, run, acts, i - 1);
      RunInv(c, run, acts, i);
      var s, act := run[i - 1], acts[i - 1];
      if act.byA {
        BoundsStepA(c, s, act.event);
        CreditStepA(c, s, act.event);
      } else {
        FlipInv(c, s);
        FlipFlow(c, s);
        BoundsStepA(c, Flip(s), act.event);
        CreditStepA(c, Flip(s), act.event);
        FlipFlow(c, run[i]);
      }
    }
  }

  // ---------- theorems ----------

  /**
   Conservation, over every run: between two open ends, credit, data in flight, data queued at the
   receiver and acknowledgements in flight add up to the window, read interest is armed exactly while
   credit is left, and every acknowledgement in flight reads the same as a signed number.
   */
  lemma CreditConservation(c: Config, run: seq<System>, acts: seq<Action>, x: nat, y: nat)
    requires c.delayedAck && IsRun(c, run, acts) && Linked(run[|acts|], x, y)
    ensures var s := run[|acts|];
      && x in s.a.ends && y in s.b.ends
      && AcksExact(Between(s.ab, x, y)) && AcksExact(Between(s.ba, y, x))
      && (s.a.ends[x].Live? && s.b.ends[y].Live? ==>
          var sender, receiver := s.a.ends[x].sock, s.b.ends[y].sock;
          && sender.credit.Some?
          && sender.credit.value + |Payload(Between(s.ab, x, y))| + |receiver.queue| + AckSum(Between(s.ba, y, x))
             == INITIAL_DELAYED_ACK_BYTES
          && (sender.reading <==> sender.credit.value > 0))
  {
    RunCredit(c, run, acts, |acts|);
    RunInv(c, run, acts, |acts|);
    var p := PairOf(run[|acts|], x, y);
    assert Core(c, p) && Credit(c, p);
  }

  /**
   Bounds: while descriptors are read only when armed, a sender overdraws by less than one payload,
   a receiver never holds more than the window and one payload, and every acknowledgement in flight
   reads the same as a signed number.
   */
  lemma CreditBounds(c: Config, run: seq<System>, acts: seq<Action>, x: nat, y: nat)
    requires c.delayedAck && ArmedRun(c, run, acts) && Linked(run[|acts|], x, y)
    ensures var s := run[|acts|];
      && x in s.a.ends && y in s.b.ends
      && (s.a.ends[x].Live? && s.a.ends[x].sock.credit.Some? ==> s.a.ends[x].sock.credit.value >= 1 - s.a.maxPayload)
      && (!s.b.ends[y].Gone? ==> |s.b.ends[y].sock.queue| <= INITIAL_DELAYED_ACK_BYTES + MAX_PAYLOAD - 1)
      && (forall i :: var ch := Between(s.ab, x, y);
          0 <= i < |ch| && ch[i].Okay? && ch[i].ack.Some? ==> AsInt32(ch[i].ack.value) == ch[i].ack.value)
  {
    RunBounds(c, run, acts, |acts|);
    var s := run[|acts|];
    var p := PairOf(s, x, y);
    assert Bounded(c, s.a.maxPayload, s.b.maxPayload, p) && Credit(c, p);
    assert AcksExact(p.xy);
  }

  /**
   The bound on credit is exactly what read interest protects: a full read keeps it if and only if
   the socket was armed.
   */
  lemma FullReadKeepsBound(c: Config, limit: nat, p: Pair, data: seq<byte>)
    requires c.delayedAck && Core(c, p) && Credit(c, p) && p.x.Live? && p.x.sock.peer.Some?
    requires |data| == limit && limit > 0
    ensures Forward(p.xi, p.x, data).end.sock.credit.value >= 1 - limit <==> p.x.sock.reading
  {
  }

  // A sender that hangs up after the handshake, read a full payload at a time.

  function Handshake(n: nat): Action
  {
    if n == 0 then Action(true, Dial) else if n == 1 then Action(false, Arrives(WouldBlock, true))
    else Action(true, Arrives(WouldBlock, true))
  }

  function Block(): seq<byte> { seq(MAX_PAYLOAD, _ => 0) }

  /** The state after the handshake and `k` full reads of the opener's descriptor. */
  ghost function Drained(c: Config, k: nat): (s: System)
    requires c.delayedAck
    ensures 1 in s.a.ends && s.a.maxPayload == MAX_PAYLOAD && Linked(s, 1, 1)
    ensures s.a.ends[1].Live? && s.a.ends[1].sock.peer == Some(1)
    ensures s.a.ends[1].sock.credit == Some(INITIAL_DELAYED_ACK_BYTES - k * MAX_PAYLOAD)
  {
    if k == 0 then
      var h := Host(map[], {}, map[], 1, MAX_PAYLOAD);
      Step(c, Step(c, Step(c, System(h, h, [], []), Handshake(0)), Handshake(1)), Handshake(2))
    else Step(c, Drained(c, k - 1), Action(true, Readable(1, Block(), false)))
  }

  lemma {:induction false} DrainedReachable(c: Config, k: nat)
    requires c.delayedAck
    ensures Reachable(c, Drained(c, k))
  {
    if k == 0 {
      var h := Host(map[], {}, map[], 1, MAX_PAYLOAD);
      var s := System(h, h, [], []);
      assert IsRun(c, [s], []);
      ReachableStep(c, s, Handshake(0));
      ReachableStep(c, Step(c, s, Handshake(0)), Handshake(1));
      ReachableStep(c, Step(c, Step(c, s, Handshake(0)), Handshake(1)), Handshake(2));
    } else {
      DrainedReachable(c, k - 1);
      ReachableStep(c, Drained(c, k - 1), Action(true, Readable(1, Block(), false)));
    }
  }

  ghost predicate Overdrawn(s: System, amount: nat) {
    && 1 in s.a.ends && s.a.ends[1].Live? && s.a.ends[1].sock.credit.Some?
    && s.a.ends[1].sock.credit.value + amount < 0
  }

  /** With a hang-up the overdraft has no bound. */
  lemma HangupOverdraws(c: Config, amount: nat)
    requires c.delayedAck
    ensures exists s :: Reachable(c, s) && Overdrawn(s, amount)
  {
    var k := INITIAL_DELAYED_ACK_BYTES + amount + 1;
    DrainedReachable(c, k);
    assert Overdrawn(Drained(c, k), amount);
  }

  /** No lost wake-up: a sender whose receiver is idle, with nothing under way, is armed. */
  lemma NoLostWakeUp(c: Config, run: seq<System>, acts: seq<Action>, x: nat, y: nat)
    requires IsRun(c, run, acts) && Linked(run[|acts|], x, y)
    ensures var s := run[|acts|];
      && x in s.a.ends && y in s.b.ends
      && (s.a.ends[x].Live? && s.b.ends[y].Live? && s.b.ends[y].sock.queue == []
          && Between(s.ab, x, y) == [] && Between(s.ba, y, x) == []
          ==> s.a.ends[x].sock.reading)
  {
    RunInv(c, run, acts, |acts|);
    var p := PairOf(run[|acts|], x, y);
    assert Core(c, p);
    if c.delayedAck {
      RunCredit(c, run, acts, |acts|);
      assert Credit(c, p);
    }
  }
}
