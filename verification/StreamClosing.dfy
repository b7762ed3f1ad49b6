/**
 The closing discipline over whole runs: a socket is destroyed only once its queue is written or a
 write has failed. A hang-up breaks it: delivered as a read, it destroys a closing socket with bytes
 still in its queue.
 */
module StreamClosing {
  import opened Common
  import opened StreamEndpoint
  import opened StreamPair
  import opened StreamSystem
  import opened StreamTheorems
  import opened StreamFlow

  /** Everything that was in the queue of the socket has been written. */
  ghost predicate Written(before: End, after: End)
    requires !before.Gone?
  {
    after.log.written == before.log.written + before.sock.queue
  }

  /** The event is a write on socket `id` that fails. */
  predicate FailsOn(e: Event, id: nat) { e.Writable? && e.id == id && e.w.WriteFailed? }

  /** Socket `id`, if the event destroys it, has written its queue, or a write of it has failed. */
  ghost predicate DisciplinedAt(c: Config, s: System, e: Event, id: nat)
    requires EnabledA(s, e) && Held(s.a, id)
  {
    id in ActA(c, s, e).a.ends && (ActA(c, s, e).a.ends[id].Gone? ==>
      || Written(s.a.ends[id], ActA(c, s, e).a.ends[id])
      || s.a.ends[id].sock.writeError || FailsOn(e, id))
  }

  ghost predicate DisciplinedA(c: Config, s: System, e: Event)
    requires EnabledA(s, e)
  {
    forall id :: Held(s.a, id) ==> DisciplinedAt(c, s, e, id)
  }

  ghost predicate Disciplined(c: Config, s: System, act: Action)
    requires Enabled(s, act)
  {
    DisciplinedA(c, if act.byA then s else Flip(s), act.event)
  }

  /** The event reads end of file, or an error, from a socket that is already closing. */
  predicate HangsUpA(s: System, e: Event) {
    e.Readable? && e.eof && e.id in s.a.ends && s.a.ends[e.id].Lingering?
  }

  predicate HangsUp(s: System, act: Action) { HangsUpA(if act.byA then s else Flip(s), act.event) }

  // ---------- one step ----------

  lemma FlushDisciplined(c: Config, id: nat, e: End, w: Write)
    requires !e.Gone? && ValidWrite(e.sock.queue, w) && FlushIncoming(c, id, e, w).end.Gone?
    ensures Written(e, FlushIncoming(c, id, e, w).end) || e.sock.writeError || w.WriteFailed?
  {
    if w.Wrote? {
      WriteSplits(e.sock, w);
      assert AfterWrite(e.sock, w).queue == [] ==> Flushed(e.sock, w) + [] == e.sock.queue;
    }
  }

  lemma ReadDisciplined(id: nat, e: End, data: seq<byte>, eof: bool)
    requires !e.Gone? && (e.Lingering? ==> FdFull(e.sock))
    ensures var e' := FlushOutgoing(id, e, data, eof).end;
      (e'.Gone? ==> Written(e, e') || e.sock.writeError) <==> !(e.Lingering? && eof)
  {
    if e.Lingering? && eof {
      assert |e.log.written + e.sock.queue| > |e.log.written|;
    }
  }

  lemma ClosingIsFull(c: Config, s: System, id: nat)
    requires Inv(c, s) && id in s.a.ends && s.a.ends[id].Lingering?
    ensures FdFull(s.a.ends[id].sock) && !s.a.ends[id].sock.reading
  {
    var y := PartnerOf(c, s, id);
    assert Core(c, PairOf(s, id, y));
  }

  lemma ArrivalDisciplined(c: Config, s: System, e: Event, id: nat)
    requires Inv(c, s) && EnabledA(s, e) && e.Arrives? && Held(s.a, id)
    ensures DisciplinedAt(c, s, e, id)
  {
    assert id != s.a.nextId;
    if Hears(s.a, s.ba[0], id) {
      HeardDisciplined(c, s.a, s.ba[0], e.w, e.accept, id);
    } else {
      Unheard(c, s.a, s.ba[0], e.w, e.accept, id);
    }
  }

  /** Only an open socket hears a packet, and only one that is addressed to it. */
  predicate Hears(h: Host, p: Packet, id: nat) { !p.Open? && p.dst == id && id in h.ends && h.ends[id].Live? }

  lemma Unheard(c: Config, h: Host, p: Packet, w: Write, accept: bool, id: nat)
    requires CanDeliver(h, p, w) && id in h.ends && id != h.nextId && !Hears(h, p, id)
    ensures var h' := Deliver(c, h, p, w, accept).host;
      id in h'.ends && h'.ends[id] == h.ends[id]
  {
  }

  lemma HeardDisciplined(c: Config, h: Host, p: Packet, w: Write, accept: bool, id: nat)
    requires CanDeliver(h, p, w) && Hears(h, p, id)
    ensures var h' := Deliver(c, h, p, w, accept).host;
      id in h'.ends && (h'.ends[id].Gone? ==> Written(h.ends[id], h'.ends[id]) || h.ends[id].sock.writeError)
  {
    if p.Clse? && Found(h, id, p.src) {
      var e := h.ends[id];
      assert e.sock.queue == [] ==> e.log.written + e.sock.queue == e.log.written;
    }
  }

  /** A step of end A keeps the discipline exactly when it is not such a read. */
  lemma DisciplineStepA(c: Config, s: System, e: Event)
    requires Inv(c, s) && EnabledA(s, e)
    ensures DisciplinedA(c, s, e) <==> !HangsUpA(s, e)
  {
    if e.Readable? {
      if s.a.ends[e.id].Lingering? { ClosingIsFull(c, s, e.id); }
      ReadDisciplined(e.id, s.a.ends[e.id], e.data, e.eof);
      assert DisciplinedAt(c, s, e, e.id) <==> !HangsUpA(s, e);
    }
    forall id | Held(s.a, id) && !(e.Readable? && e.id == id)
      ensures DisciplinedAt(c, s, e, id)
    {
      if e.Arrives? {
        ArrivalDisciplined(c, s, e, id);
      } else if e.Writable? && e.id == id && ActA(c, s, e).a.ends[id].Gone? {
        FlushDisciplined(c, id, s.a.ends[id], e.w);
      }
    }
  }

  lemma DisciplineStep(c: Config, s: System, act: Action)
    requires Inv(c, s) && Enabled(s, act)
    ensures Disciplined(c, s, act) <==> !HangsUp(s, act)
  {
    if act.byA {
      DisciplineStepA(c, s, act.event);
    } else {
      FlipInv(c, s);
      DisciplineStepA(c, Flip(s), act.event);
    }
  }

  /** What ends a closing socket: a write after which nothing is left to write, or such a read. */
  lemma ClosingEnds(c: Config, s: System, e: Event, id: nat)
    requires Inv(c, s) && EnabledA(s, e) && id in s.a.ends && s.a.ends[id].Lingering?
    ensures id in ActA(c, s, e).a.ends
    ensures ActA(c, s, e).a.ends[id].Gone? <==>
      || (e.Writable? && e.id == id && !FdFull(AfterWrite(s.a.ends[id].sock, e.w)))
      || (e.Readable? && e.id == id && e.eof)
  {
    if e.Arrives? {
      ArrivalKeepsClosing(c, s, e, id);
    } else {
      assert id != s.a.nextId;
    }
  }

  lemma ArrivalKeepsClosing(c: Config, s: System, e: Event, id: nat)
    requires Inv(c, s) && EnabledA(s, e) && e.Arrives? && id in s.a.ends && s.a.ends[id].Lingering?
    ensures id in ActA(c, s, e).a.ends && ActA(c, s, e).a.ends[id] == s.a.ends[id]
  {
    assert id != s.a.nextId;
    Unheard(c, s.a, s.ba[0], e.w, e.accept, id);
  }

  // ---------- runs ----------

  /** Over every run: all its steps keep the discipline if and only if none is a hang-up of a closing socket. */
  lemma ClosingDiscipline(c: Config, run: seq<System>, acts: seq<Action>)
    requires IsRun(c, run, acts)
    ensures (forall i :: 0 <= i < |acts| ==> Disciplined(c, run[i], acts[i]))
       <==> (forall i :: 0 <= i < |acts| ==> !HangsUp(run[i], acts[i]))
  {
    forall i | 0 <= i < |acts|
      ensures Disciplined(c, run[i], acts[i]) <==> !HangsUp(run[i], acts[i])
    {
      RunInv(c, run, acts, i);
      DisciplineStep(c, run[i], acts[i]);
    }
  }

  lemma ArmedStep(c: Config, s: System, act: Action)
    requires Inv(c, s) && Enabled(s, act) && Armed(s, act)
    ensures !HangsUp(s, act)
  {
    var t := if act.byA then s else Flip(s);
    FlipInv(c, s);
    if HangsUpA(t, act.event) { ClosingIsFull(c, t, act.event.id); }
  }

  /** In particular, every run that reads descriptors only while armed keeps the discipline. */
  lemma ArmedDiscipline(c: Config, run: seq<System>, acts: seq<Action>)
    requires ArmedRun(c, run, acts)
    ensures forall i :: 0 <= i < |acts| ==> Disciplined(c, run[i], acts[i])
  {
    forall i | 0 <= i < |acts|
      ensures Disciplined(c, run[i], acts[i])
    {
      RunInv(c, run, acts, i);
      ArmedStep(c, run[i], acts[i]);
      DisciplineStep(c, run[i], acts[i]);
    }
  }

  // ---------- a run that breaks it ----------

  /** The receiver cannot write the byte 1, closes at the end of its own file, and then hangs up. */
  const HangupActs: seq<Action> := [
    Action(true, Dial),
    Action(false, Arrives(WouldBlock, true)),
    Action(true, Arrives(WouldBlock, true)),
    Action(true, Readable(1, [1], false)),
    Action(false, Arrives(WouldBlock, true)),
    Action(false, Readable(1, [], true)),
    Action(false, Readable(1, [], true))
  ]

  /** Socket 1 of the receiving end after the first `n` of these actions. */
  ghost function HangupReceiver(n: nat): End {
    var f := Sock(Some(1), [], None, true, false, false);
    if n < 5 then Live(f, NoLog)
    else if n == 5 then Live(f.(queue := [1], writing := true), NoLog)
    else if n == 6 then Lingering(Sock(None, [1], None, false, true, false), NoLog)
    else Gone(NoLog)
  }

  /** The state after the first `n` of these actions, without delayed acks. */
  ghost function HangupState(n: nat): System
    requires n <= 7
  {
    var h := Host(map[], {}, map[], 1, MAX_PAYLOAD);
    var f := Sock(None, [], None, false, false, false);
    var sender := if n < 3 then Live(f, NoLog)
      else if n == 3 then Live(f.(peer := Some(1), reading := true), NoLog)
      else Live(f.(peer := Some(1)), Log([1], [1], []));
    if n == 0 then System(h, h, [], [])
    else
      var a := h.(ends := map[1 := sender], openedIds := {1}, nextId := 2);
      var b := if n < 2 then h
        else h.(ends := map[1 := HangupReceiver(n)], answers := map[1 := Some(1)], nextId := 2);
      System(a, b,
             if n < 2 then [Open(1, 0)] else if n == 4 then [Wrte(1, 1, [1])] else [],
             if n == 2 then [Okay(1, 1, None)] else if n < 6 then [] else [Clse(1, 1)])
  }

  lemma HangupOpening(n: nat)
    requires n < 3
    ensures Enabled(HangupState(n), HangupActs[n])
    ensures Step(Config(false), HangupState(n), HangupActs[n]) == HangupState(n + 1)
  {
    var t, u := Step(Config(false), HangupState(n), HangupActs[n]), HangupState(n + 1);
    assert t == u;
  }

  lemma HangupTransfer(n: nat)
    requires 3 <= n < 5
    ensures Enabled(HangupState(n), HangupActs[n])
    ensures Step(Config(false), HangupState(n), HangupActs[n]) == HangupState(n + 1)
  {
    var nil: seq<byte> := [];
    assert nil + [1] == [1] && nil + nil == nil;
    var t, u := Step(Config(false), HangupState(n), HangupActs[n]), HangupState(n + 1);
    if n == 3 { assert t.a.ends[1] == u.a.ends[1]; } else { assert t.b.ends[1] == u.b.ends[1]; }
    assert t == u;
  }

  /** What end of file does to the receiver: it closes, and is then destroyed. */
  lemma HangupReads(n: nat, m: nat)
    requires 5 <= n < 7 && m == n + 1
    ensures FlushOutgoing(1, HangupReceiver(n), [], true)
         == EndOut(HangupReceiver(m), if n == 5 then [Clse(1, 1)] else [])
  {
    var nil: seq<Packet> := [];
    assert nil + nil == nil && nil + [Clse(1, 1)] == [Clse(1, 1)];
    var empty: seq<byte> := [];
    assert empty + empty == empty;
  }

  lemma HangupClosing(n: nat, m: nat)
    requires 5 <= n < 7 && m == n + 1
    ensures Enabled(HangupState(n), HangupActs[n])
    ensures Step(Config(false), HangupState(n), HangupActs[n]) == HangupState(m)
  {
    HangupReads(n, m);
    var t, u := Step(Config(false), HangupState(n), HangupActs[n]), HangupState(m);
    assert t.b.ends == u.b.ends;
    assert t == u;
  }

  /** A reachable state in which a closing socket was destroyed without writing the byte in its queue. */
  lemma HangupDropsQueue()
    ensures Reachable(Config(false), HangupState(6)) && Reachable(Config(false), HangupState(7))
    ensures HangupState(6).b.ends[1].Lingering? && HangupState(6).b.ends[1].sock.queue == [1]
    ensures !HangupState(6).b.ends[1].sock.writeError
    ensures HangupState(7).b.ends[1].Gone? && HangupState(7).b.ends[1].log.written == []
    ensures HangupState(7).a.ends[1].log.sent == [1] && HangupState(7).ab == []
  {
    var run := seq(8, i requires 0 <= i < 8 => HangupState(i));
    forall i | 0 <= i < 7
      ensures Enabled(run[i], HangupActs[i]) && run[i + 1] == Step(Config(false), run[i], HangupActs[i])
    {
      if i < 3 { HangupOpening(i); } else if i < 5 { HangupTransfer(i); } else { HangupClosing(i, i + 1); }
    }
    assert IsRun(Config(false), run, HangupActs);
    assert IsRun(Config(false), run[..7], HangupActs[..6]);
    assert run[..7][6] == HangupState(6);
  }
}
