/**
 Where bytes taken from a descriptor can fail to reach the stream: a read on a socket that has no
 peer yet discards what it read. Read interest is never armed then, but a hang-up is delivered as
 a read whatever the interest is.
 */
module StreamLoss {
  import opened Common
  import opened StreamEndpoint
  import opened StreamPair
  import opened StreamSystem
  import opened StreamTheorems

  /** Everything taken from the descriptor while the socket was open was sent. */
  ghost predicate Whole(e: End) {
    if e.Live? then e.log.sent == e.log.read else e.log.sent <= e.log.read
  }

  ghost predicate HostWhole(h: Host) { forall id :: id in h.ends ==> Whole(h.ends[id]) }

  ghost predicate AllWhole(s: System) { HostWhole(s.a) && HostWhole(s.b) }

  /** The event reads bytes on an open socket without a peer and does not close it. */
  predicate DropsA(s: System, e: Event)
    requires EnabledA(s, e)
  {
    && e.Readable? && e.data != [] && !e.eof
    && s.a.ends[e.id].Live? && s.a.ends[e.id].sock.peer.None?
  }

  predicate Drops(s: System, act: Action)
    requires Enabled(s, act)
  {
    DropsA(if act.byA then s else Flip(s), act.event)
  }

  lemma WholeAfterRead(id: nat, e: End, data: seq<byte>, eof: bool)
    requires !e.Gone? && Whole(e) && (e.Lingering? ==> e.sock.peer.None?)
    ensures Whole(FlushOutgoing(id, e, data, eof).end)
      <==> !(data != [] && !eof && e.Live? && e.sock.peer.None?)
  {
    if data != [] && !eof && e.Live? && e.sock.peer.None? {
      assert |e.log.read + data| > |e.log.sent|;
    }
  }

  lemma WholeAfterFlush(c: Config, id: nat, e: End, w: Write)
    requires !e.Gone? && Whole(e) && ValidWrite(e.sock.queue, w)
    ensures Whole(FlushIncoming(c, id, e, w).end)
  {
  }

  lemma LingeringHasNoPeer(c: Config, s: System, id: nat)
    requires Inv(c, s) && id in s.a.ends && s.a.ends[id].Lingering?
    ensures s.a.ends[id].sock.peer.None?
  {
    var y := PartnerOf(c, s, id);
    assert Core(c, PairOf(s, id, y));
  }

  lemma WholeReadStep(c: Config, s: System, e: Event)
    requires Inv(c, s) && EnabledA(s, e) && e.Readable? && HostWhole(s.a)
    ensures HostWhole(ActA(c, s, e).a) <==> !DropsA(s, e)
  {
    var id, h := e.id, ActA(c, s, e).a;
    if s.a.ends[id].Lingering? { LingeringHasNoPeer(c, s, id); }
    WholeAfterRead(id, s.a.ends[id], e.data, e.eof);
    assert Whole(h.ends[id]) <==> HostWhole(h);
  }

  lemma WholeArrival(c: Config, s: System, e: Event)
    requires EnabledA(s, e) && e.Arrives? && HostWhole(s.a)
    ensures HostWhole(ActA(c, s, e).a)
  {
    if s.ba[0].Wrte? && Found(s.a, s.ba[0].dst, s.ba[0].src) {
      WholeAfterFlush(c, s.ba[0].dst, Append(s.a.ends[s.ba[0].dst], s.ba[0].data), e.w);
    }
  }

  /** A step of end A keeps every socket whole exactly when it is not such a read. */
  lemma WholeStepA(c: Config, s: System, e: Event)
    requires Inv(c, s) && EnabledA(s, e) && HostWhole(s.a)
    ensures HostWhole(ActA(c, s, e).a) <==> !DropsA(s, e)
  {
    match e
    case Dial =>
    case Writable(id, w) => WholeAfterFlush(c, id, s.a.ends[id], w);
    case Readable(_, _, _) => WholeReadStep(c, s, e);
    case Arrives(_, _) => WholeArrival(c, s, e);
  }

  lemma WholeStep(c: Config, s: System, act: Action)
    requires Inv(c, s) && Enabled(s, act) && AllWhole(s)
    ensures AllWhole(Step(c, s, act)) <==> !Drops(s, act)
  {
    if act.byA {
      WholeStepA(c, s, act.event);
    } else {
      FlipInv(c, s);
      WholeStepA(c, Flip(s), act.event);
    }
  }

  /** A run in which no socket was read before it was connected. */
  ghost predicate LosslessRun(c: Config, run: seq<System>, acts: seq<Action>) {
    IsRun(c, run, acts) && forall i :: 0 <= i < |acts| ==> !Drops(run[i], acts[i])
  }

  lemma {:induction false} RunWhole(c: Config, run: seq<System>, acts: seq<Action>, i: nat)
    requires LosslessRun(c, run, acts) && i < |run|
    ensures AllWhole(run[i])
  {
    if i > 0 {
      RunWhole(c, run, acts, i - 1);
      RunInv(c, run, acts, i - 1);
      WholeStep(c, run[i - 1], acts[i - 1]);
    }
  }

  /** Over every run: all sockets stay whole if and only if no step drops bytes. */
  lemma WholeRun(c: Config, run: seq<System>, acts: seq<Action>)
    requires IsRun(c, run, acts)
    ensures (forall i :: 0 <= i < |run| ==> AllWhole(run[i])) <==> LosslessRun(c, run, acts)
  {
    if LosslessRun(c, run, acts) {
      forall i | 0 <= i < |run|
        ensures AllWhole(run[i])
      {
        RunWhole(c, run, acts, i);
      }
    } else {
      var i :| 0 <= i < |acts| && Drops(run[i], acts[i]);
      RunInv(c, run, acts, i);
      if AllWhole(run[i]) {
        WholeStep(c, run[i], acts[i]);
        assert !AllWhole(run[i + 1]);
      }
    }
  }

  /** Integrity from descriptor to descriptor, for the runs that lose nothing. */
  lemma DescriptorIntegrity(c: Config, run: seq<System>, acts: seq<Action>, x: nat, y: nat)
    requires LosslessRun(c, run, acts) && Linked(run[|acts|], x, y)
    ensures var s := run[|acts|];
      && x in s.a.ends && y in s.b.ends
      && s.b.ends[y].log.written <= s.a.ends[x].log.read
      && (s.a.ends[x].Live? ==> Delivers(s.b.ends[y], Between(s.ab, x, y), s.a.ends[x].log.read))
      && s.a.ends[x].log.written <= s.b.ends[y].log.read
      && (s.b.ends[y].Live? ==> Delivers(s.a.ends[x], Between(s.ba, y, x), s.b.ends[y].log.read))
  {
    var s := run[|acts|];
    RunWhole(c, run, acts, |acts|);
    assert Reachable(c, s);
    StreamIntegrity(c, s, x, y);
    PrefixTrans(s.b.ends[y].log.written, s.a.ends[x].log.sent, s.a.ends[x].log.read);
    PrefixTrans(s.a.ends[x].log.written, s.b.ends[y].log.sent, s.b.ends[y].log.read);
  }

  lemma PrefixTrans(a: seq<byte>, b: seq<byte>, d: seq<byte>)
    requires a <= b && b <= d
    ensures a <= d
  {
  }

  /** An armed socket has a peer, so only a hang-up can cause the loss. */
  lemma ArmedHasPeer(c: Config, s: System, id: nat)
    requires Reachable(c, s) && id in s.a.ends && s.a.ends[id].Live? && s.a.ends[id].sock.reading
    ensures s.a.ends[id].sock.peer.Some?
  {
    ReachableInv(c, s);
    var y := PartnerOf(c, s, id);
    assert Core(c, PairOf(s, id, y));
  }

  /** The actions of a run that loses the byte 1: it is read before the OPEN is answered. */
  const LossyActs: seq<Action> := [
    Action(true, Dial),
    Action(true, Readable(1, [1], false)),
    Action(false, Arrives(WouldBlock, true)),
    Action(true, Arrives(WouldBlock, true)),
    Action(true, Readable(1, [2], false)),
    Action(false, Arrives(Wrote(1), true))
  ]

  /** The state after the first `n` of the lossy actions, without delayed acks. */
  ghost function LossyState(n: nat): System
    requires n <= 6
  {
    var h := Host(map[], {}, map[], 1, MAX_PAYLOAD);
    var f := Sock(None, [], None, false, false, false);
    var waiting := Live(f, Log(if n < 2 then [] else [1], [], []));
    var talking := Live(f.(peer := Some(1), reading := true), Log([1], [], []));
    var stopped := Live(f.(peer := Some(1)), Log([1, 2], [2], []));
    var served := Live(f.(peer := Some(1), reading := true), Log([], [], if n == 6 then [2] else []));
    var open := Open(1, 0);
    var okay := Okay(1, 1, None);
    if n == 0 then System(h, h, [], [])
    else
      var a := h.(ends := map[1 := if n < 4 then waiting else if n == 4 then talking else stopped],
                  openedIds := {1}, nextId := 2);
      var b := if n < 3 then h else h.(ends := map[1 := served], answers := map[1 := Some(1)], nextId := 2);
      System(a, b,
             if n < 3 then [open] else if n == 5 then [Wrte(1, 1, [2])] else [],
             if n == 3 || n == 6 then [okay] else [])
  }

  lemma LossyOpening(n: nat)
    requires n < 3
    ensures Enabled(LossyState(n), LossyActs[n])
    ensures Step(Config(false), LossyState(n), LossyActs[n]) == LossyState(n + 1)
  {
    var nil: seq<byte> := [];
    assert nil + [1] == [1];
    var t, u := Step(Config(false), LossyState(n), LossyActs[n]), LossyState(n + 1);
    if n == 1 { assert t.a.ends[1] == u.a.ends[1]; }
    assert t == u;
  }

  /** What the sender's socket does in the two steps that follow. */
  lemma LossySocket()
    ensures var talking := LossyState(4).a.ends[1];
      && HandleOkay(LossyState(3).a.ends[1], Okay(1, 1, None)) == talking
      && FlushOutgoing(1, talking, [2], false) == EndOut(LossyState(5).a.ends[1], [Wrte(1, 1, [2])])
  {
    var nil: seq<byte> := [];
    assert [1] + [2] == [1, 2] && nil + [2] == [2];
  }

  lemma LossyAnswer(m: nat)
    requires m == 4
    ensures Enabled(LossyState(3), LossyActs[3])
    ensures Step(Config(false), LossyState(3), LossyActs[3]) == LossyState(m)
  {
    LossySocket();
    var t, u := Step(Config(false), LossyState(3), LossyActs[3]), LossyState(m);
    assert t.a.ends == u.a.ends;
    assert t == u;
  }

  lemma LossyTransfer(m: nat)
    requires m == 5
    ensures Enabled(LossyState(4), LossyActs[4])
    ensures Step(Config(false), LossyState(4), LossyActs[4]) == LossyState(m)
  {
    LossySocket();
    var t, u := Step(Config(false), LossyState(4), LossyActs[4]), LossyState(m);
    assert t.a.ends == u.a.ends;
    assert t == u;
  }

  lemma LossyDelivery()
    ensures Enabled(LossyState(5), LossyActs[5])
    ensures Step(Config(false), LossyState(5), LossyActs[5]) == LossyState(6)
  {
    LossyReceiver();
    var t, u := Step(Config(false), LossyState(5), LossyActs[5]), LossyState(6);
    assert t.b.ends == u.b.ends;
    assert t == u;
  }

  /** What the receiver's socket does with the byte. */
  lemma LossyReceiver()
    ensures ValidWrite(LossyState(5).b.ends[1].sock.queue + [2], Wrote(1))
    ensures Enqueue(Config(false), 1, LossyState(5).b.ends[1], [2], Wrote(1))
         == EndOut(LossyState(6).b.ends[1], [Okay(1, 1, None)])
  {
    var nil: seq<byte> := [];
    assert nil + [2] == [2] && [2][..1] == [2] && [2][1..] == nil;
  }

  /** A run whose receiver wrote bytes that are not a prefix of what the sender read. */
  lemma HangupLosesBytes()
    ensures var s := LossyState(6);
      && Reachable(Config(false), s) && Linked(s, 1, 1)
      && s.a.ends[1].log.read == [1, 2] && s.b.ends[1].log.written == [2]
      && !(s.b.ends[1].log.written <= s.a.ends[1].log.read)
  {
    var run := seq(7, i requires 0 <= i < 7 => LossyState(i));
    forall i | 0 <= i < 6
      ensures Enabled(run[i], LossyActs[i]) && run[i + 1] == Step(Config(false), run[i], LossyActs[i])
    {
      if i < 3 { LossyOpening(i); }
      else if i == 3 { LossyAnswer(4); }
      else if i == 4 { LossyTransfer(5); }
      else { LossyDelivery(); }
    }
    assert IsRun(Config(false), run, LossyActs);
    assert [1, 2][0] == 1 && [2][0] == 2;
  }
}
