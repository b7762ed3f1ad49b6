/**
 The case analysis over all steps: connected sockets (handled stream by stream), new sockets,
 answered and refused OPENs, and sockets that are still waiting for an answer.
 */
module StreamInvariant {
  import opened Common
  import opened StreamEndpoint
  import opened StreamPair
  import opened StreamCredit
  import opened StreamSystem
  import opened StreamSteps

  lemma LinkedStreamOk(c: Config, s: System, x: nat, y: nat)
    requires Inv(c, s) && Linked(s, x, y)
    ensures StreamOk(c, s, x, y)
  {
    LinkedNotPending(c, s, x, y);
  }

  lemma StreamStep(c: Config, s: System, e: Event, x: nat, y: nat) returns (r: EndOut)
    requires Inv(c, s) && Linked(s, x, y) && EnabledA(s, e) && Concerns(s, e, x, y)
    ensures x in s.a.ends && y in s.b.ends && ActsOn(c, s, e, x, y, r)
    ensures OnlyLink(s, ActA(c, s, e), x, y, r.out)
    ensures PairOf(ActA(c, s, e), x, y) == PairNext(c, PairOf(s, x, y), AsPairEvent(e))
    ensures Inv(c, ActA(c, s, e))
  {
    LinkedStreamOk(c, s, x, y);
    if e.Writable? || e.Readable? {
      r := LocalActs(c, s, e, x, y);
    } else if s.ba[0].Okay? {
      r := OkayArrives(c, s, e, x, y);
    } else if s.ba[0].Clse? {
      r := ClseArrives(c, s, e, x, y);
    } else {
      r := WrteArrives(c, s, e, x, y);
    }
    Project(s, x, y, r, e.Arrives?);
    PairKeepsCore(c, PairOf(s, x, y), AsPairEvent(e));
    LinkedStep(c, s, ActA(c, s, e), x, y, r.out);
  }

  /** No stream of `s'` differs from what it was in `s`. */
  ghost predicate SameStream(s: System, s': System, x: nat, y: nat) {
    && Linked(s, x, y)
    && x in s.a.ends && y in s.b.ends && x in s'.a.ends && y in s'.b.ends
    && PairOf(s', x, y) == PairOf(s, x, y)
  }

  /** A stream at the moment its OPEN is accepted by `x`. */
  ghost predicate Newborn(c: Config, p: Pair) {
    && p.xi != 0 && p.yi != 0
    && p.x == Live(Sock(Some(p.yi), [], if c.delayedAck then Some(Window(c)) else None, true, false, false), NoLog)
    && Idle(c, p.y)
    && p.xy == [Ready(c, p.xi, p.yi, Window(c))] && p.yx == []
  }

  lemma NewbornOk(c: Config, lx: nat, ly: nat, p: Pair)
    requires Newborn(c, p) && lx > 0 && ly > 0
    ensures Core(c, p) && Credit(c, p) && Bounded(c, lx, ly, p)
  {
    assert p.xy[1..] == [];
    assert Payload(p.xy) == [];
    assert HasOkay(p.xy);
    assert Half(c, p);
    assert Half(c, Mirror(p));
  }

  // ---------- what a step must show for each end ----------

  /** End A of `s'` knows at least what it knew in `s`, and end B still answers as before. */
  ghost predicate Grows(s: System, s': System) {
    && s.a.openedIds <= s'.a.openedIds
    && (forall o :: o in s.a.answers ==> o in s'.a.answers && s'.a.answers[o] == s.a.answers[o])
    && s'.b.answers == s.b.answers
  }

  lemma PacketGrows(c: Config, s: System, s': System, p: Packet)
    requires Grows(s, s') && PacketOk(c, s, p)
    ensures PacketOk(c, s', p)
  {
  }

  /** Appending one legitimate packet to a channel keeps it in order. */
  lemma ChannelAppends(c: Config, s: System, s': System, out: seq<Packet>)
    requires ChannelOk(c, s) && Grows(s, s') && s'.ab == s.ab + out && |out| <= 1
    requires out != [] ==> PacketOk(c, s', out[0])
    requires out != [] && out[0].Open? ==> out[0].src !in s.a.openedIds
    ensures ChannelOk(c, s')
  {
    forall i | 0 <= i < |s'.ab|
      ensures PacketOk(c, s', s'.ab[i])
    {
      assert s'.ab[i] == if i < |s.ab| then s.ab[i] else out[i - |s.ab|];
      if i < |s.ab| {
        PacketGrows(c, s, s', s.ab[i]);
      }
    }
    assert forall i {:trigger s.ab[i]} :: 0 <= i < |s.ab| ==> PacketOk(c, s, s.ab[i]);
  }

  // ---------- connect_to_remote ----------

  lemma DialHere(c: Config, s: System)
    requires Inv(c, s)
    ensures HalfInv(c, ActA(c, s, Dial))
  {
    var s' := ActA(c, s, Dial);
    var n := s.a.nextId;
    assert n !in s.a.ends;
    assert s'.ab[|s.ab|] == Open(n, Window(c));
    assert IdsOk(s') && AnswersOk(s');
    forall o | o in s'.a.openedIds
      ensures OpenerOk(c, s', o)
    {
      if o != n {
        assert OpenerOk(c, s, o);
        assert Open(o, Window(c)) in s.ab ==> Open(o, Window(c)) in s'.ab;
      }
    }
    ChannelAppends(c, s, s', [Open(n, Window(c))]);
  }

  lemma DialThere(c: Config, s: System)
    requires Inv(c, s)
    ensures HalfInv(c, Flip(ActA(c, s, Dial)))
  {
    var s' := ActA(c, s, Dial);
    forall o | o in s'.b.openedIds
      ensures OpenerOk(c, Flip(s'), o)
    {
      assert OpenerOk(c, Flip(s), o);
      assert Clse(0, o) in s.ab ==> Clse(0, o) in s'.ab;
    }
    forall i | 0 <= i < |s'.ba|
      ensures PacketOk(c, Flip(s'), s'.ba[i])
    {
      assert PacketOk(c, Flip(s), s.ba[i]);
    }
  }

  lemma DialQuiet(c: Config, s: System, x: nat, y: nat)
    requires Inv(c, s) && Linked(ActA(c, s, Dial), x, y)
    ensures SameStream(s, ActA(c, s, Dial), x, y)
  {
    var out := [Open(s.a.nextId, Window(c))];
    assert Linked(s, x, y);
    assert x in s.a.ends && x != s.a.nextId;
    BetweenConcat(s.ab, out, x, y);
    BetweenNone(out, x, y);
  }

  // ---------- an OPEN arrives ----------

  /** The first packet for A is an OPEN, hence a legitimate one. */
  ghost predicate OpenArrives(s: System) {
    s.ba != [] && s.ba[0].Open?
  }

  ghost function Answered(c: Config, s: System, accept: bool): System
    requires OpenArrives(s)
  {
    var o := s.ba[0].src;
    Send(s.(ba := s.ba[1..]), if accept then Accept(c, s.a, o, Window(c)) else Refuse(s.a, o))
  }

  lemma OpenIsGenuine(c: Config, s: System, w: Write, accept: bool)
    requires Inv(c, s) && OpenArrives(s)
    ensures s.ba[0].src in s.b.openedIds && s.ba[0].src !in s.a.answers && s.ba[0].src in s.b.ends
    ensures Idle(c, s.b.ends[s.ba[0].src])
    ensures ActA(c, s, Arrives(w, accept)) == Answered(c, s, accept)
  {
    assert PacketOk(c, Flip(s), s.ba[0]);
    assert OpenerOk(c, Flip(s), s.ba[0].src);
  }

  lemma AnswerIds(c: Config, s: System, accept: bool)
    requires Inv(c, s) && OpenArrives(s) && s.ba[0].src in s.b.openedIds && s.ba[0].src !in s.a.answers
    ensures var s' := Answered(c, s, accept);
      IdsOk(s') && IdsOk(Flip(s')) && AnswersOk(s') && AnswersOk(Flip(s'))
  {
    var s' := Answered(c, s, accept);
    var o := s.ba[0].src;
    assert s.a.nextId !in s.a.ends;
    forall id | id in s'.a.ends
      ensures id in s'.a.openedIds || exists y :: y in s'.a.answers && s'.a.answers[y] == Some(id)
    {
      if id in s.a.ends && id !in s.a.openedIds {
        var y :| y in s.a.answers && s.a.answers[y] == Some(id);
        assert s'.a.answers[y] == Some(id);
      } else if id !in s.a.ends {
        assert s'.a.answers[o] == Some(id);
      }
    }
  }

  lemma AnswerPending(c: Config, s: System, accept: bool)
    requires Inv(c, s) && OpenArrives(s) && s.ba[0].src !in s.a.answers
    requires s.ba[0].src in s.b.ends && Idle(c, s.b.ends[s.ba[0].src])
    ensures PendingOk(c, Answered(c, s, accept))
    ensures PendingOk(c, Flip(Answered(c, s, accept)))
  {
    var s' := Answered(c, s, accept);
    forall o | o in s'.a.openedIds
      ensures OpenerOk(c, s', o)
    {
      assert OpenerOk(c, s, o) && o != s.a.nextId;
      assert Open(o, Window(c)) in s.ab ==> Open(o, Window(c)) in s'.ab;
      assert Clse(0, o) in s.ba ==> Clse(0, o) in s'.ba;
    }
    assert s'.ab[|s.ab|] == if accept then Ready(c, s.a.nextId, s.ba[0].src, Window(c)) else Clse(0, s.ba[0].src);
    forall o | o in s'.b.openedIds
      ensures OpenerOk(c, Flip(s'), o)
    {
      assert OpenerOk(c, Flip(s), o);
      assert o != s.ba[0].src && Open(o, Window(c)) in s.ba ==> Open(o, Window(c)) in s'.ba;
      assert Clse(0, o) in s.ab ==> Clse(0, o) in s'.ab;
    }
  }

  lemma AnswerChannels(c: Config, s: System, accept: bool)
    requires Inv(c, s) && OpenArrives(s) && s.ba[0].src !in s.a.answers
    ensures ChannelOk(c, Answered(c, s, accept))
    ensures ChannelOk(c, Flip(Answered(c, s, accept)))
  {
    var s' := Answered(c, s, accept);
    var o := s.ba[0].src;
    ChannelAppends(c, s, s', [if accept then Ready(c, s.a.nextId, o, Window(c)) else Clse(0, o)]);
    forall i | 0 <= i < |s'.ba|
      ensures s'.ba[i] == s.ba[i + 1] && PacketOk(c, Flip(s'), s'.ba[i])
    {
      assert PacketOk(c, Flip(s), s.ba[i + 1]);
    }
  }

  /** No packet mentions a socket that does not exist yet. */
  lemma NothingForNew(c: Config, s: System, o: nat)
    requires Inv(c, s)
    ensures Between(s.ab, s.a.nextId, o) == []
    ensures Between(s.ba, o, s.a.nextId) == []
  {
    var n := s.a.nextId;
    forall i | 0 <= i < |s.ab|
      ensures s.ab[i].Open? || s.ab[i].src != n
    {
      assert PacketOk(c, s, s.ab[i]);
    }
    BetweenNone(s.ab, n, o);
    forall i | 0 <= i < |s.ba|
      ensures s.ba[i].Open? || s.ba[i].dst != n
    {
      assert PacketOk(c, Flip(s), s.ba[i]);
    }
    BetweenNone(s.ba, o, n);
  }

  lemma AnswerOldStream(c: Config, s: System, accept: bool, x: nat, y: nat)
    requires Inv(c, s) && OpenArrives(s) && Linked(s, x, y)
    requires s.ba[0].src !in s.a.answers
    ensures SameStream(s, Answered(c, s, accept), x, y)
  {
    var out := [if accept then Ready(c, s.a.nextId, s.ba[0].src, Window(c)) else Clse(0, s.ba[0].src)];
    LinkedNotPending(c, s, x, y);
    assert x in s.a.ends && y in s.b.ends && x != s.a.nextId;
    BetweenConcat(s.ab, out, x, y);
    BetweenNone(out, x, y);
  }

  lemma AnswerNewStream(c: Config, s: System)
    requires Inv(c, s) && OpenArrives(s) && s.ba[0].src in s.b.ends && Idle(c, s.b.ends[s.ba[0].src])
    ensures Newborn(c, PairOf(Answered(c, s, true), s.a.nextId, s.ba[0].src))
  {
    var o, n := s.ba[0].src, s.a.nextId;
    var out := [Ready(c, n, o, Window(c))];
    BetweenConcat(s.ab, out, n, o);
    BetweenAll(out, n, o);
    NothingForNew(c, s, o);
    assert Between(s.ba, o, n) == Between(s.ba[1..], o, n);
  }

  lemma AnswerStreams(c: Config, s: System, accept: bool, x: nat, y: nat)
    requires Inv(c, s) && OpenArrives(s) && s.ba[0].src !in s.a.answers
    requires s.ba[0].src in s.b.ends && Idle(c, s.b.ends[s.ba[0].src])
    requires Linked(Answered(c, s, accept), x, y)
    ensures
      || SameStream(s, Answered(c, s, accept), x, y)
      || (x == s.a.nextId && y == s.ba[0].src && accept && Newborn(c, PairOf(Answered(c, s, accept), x, y)))
  {
    if Linked(s, x, y) {
      AnswerOldStream(c, s, accept, x, y);
    } else {
      AnswerNewStream(c, s);
    }
  }

  // ---------- sockets that are waiting for an answer ----------

  /** A socket without a stream changed, and perhaps took the refusal of its OPEN. */
  ghost predicate OnlyIdle(c: Config, s: System, s': System, x: nat) {
    && x in s.a.openedIds && x in s.a.ends && x in s'.a.ends
    && (x in s.b.answers ==> s.b.answers[x].None?)
    && Idle(c, s'.a.ends[x])
    && s'.a == s.a.(ends := s.a.ends[x := s'.a.ends[x]])
    && s'.b == s.b && s'.ab == s.ab
    && (s'.a.ends[x].Live? ==> s.a.ends[x].Live?)
    && (s'.ba == s.ba || (s.ba != [] && s'.ba == s.ba[1..] && s.ba[0] == Clse(0, x) && !s'.a.ends[x].Live?))
  }

  lemma IdleKeeps(c: Config, s: System, s': System, x: nat)
    requires Inv(c, s) && OnlyIdle(c, s, s', x)
    ensures HalfInv(c, s') && HalfInv(c, Flip(s'))
  {
    assert IdsOk(s') && AnswersOk(s') && IdsOk(Flip(s')) && AnswersOk(Flip(s'));
    forall o | o in s'.a.openedIds
      ensures OpenerOk(c, s', o)
    {
      assert OpenerOk(c, s, o);
      assert o != x && Clse(0, o) in s.ba ==> Clse(0, o) in s'.ba;
    }
    forall o | o in s'.b.openedIds
      ensures OpenerOk(c, Flip(s'), o)
    {
      assert OpenerOk(c, Flip(s), o);
      assert Open(o, Window(c)) in s.ba ==> Open(o, Window(c)) in s'.ba;
    }
    IdleChannels(c, s, s', x);
  }

  lemma IdleChannels(c: Config, s: System, s': System, x: nat)
    requires ChannelOk(c, s) && ChannelOk(c, Flip(s)) && OnlyIdle(c, s, s', x)
    ensures ChannelOk(c, s') && ChannelOk(c, Flip(s'))
  {
    forall i | 0 <= i < |s'.ab|
      ensures PacketOk(c, s', s'.ab[i])
    {
      assert PacketOk(c, s, s.ab[i]);
    }
    var k := |s.ba| - |s'.ba|;
    forall i | 0 <= i < |s'.ba|
      ensures s'.ba[i] == s.ba[i + k] && PacketOk(c, Flip(s'), s'.ba[i])
    {
      assert PacketOk(c, Flip(s), s.ba[i + k]);
    }
  }

  lemma IdleQuiet(c: Config, s: System, s': System, x: nat, x': nat, y': nat)
    requires Inv(c, s) && OnlyIdle(c, s, s', x) && Linked(s', x', y')
    ensures SameStream(s, s', x', y')
  {
    assert Linked(s, x', y');
    LinkedNotPending(c, s, x', y');
  }

  // ---------- all steps ----------

  /** Why no stream but at most one is touched by a step. */
  datatype Cause =
    | OnStream(x: nat, y: nat)
    | OnDial
    | OnOpen
    | OnIdle(x: nat)

  ghost predicate Causes(c: Config, s: System, e: Event, cause: Cause)
    requires EnabledA(s, e)
  {
    match cause
    case OnStream(x, y) => Linked(s, x, y) && Concerns(s, e, x, y)
    case OnDial => e.Dial?
    case OnOpen => e.Arrives? && OpenArrives(s)
    case OnIdle(x) => OnlyIdle(c, s, ActA(c, s, e), x)
  }

  lemma FindCause(c: Config, s: System, e: Event) returns (cause: Cause)
    requires Inv(c, s) && EnabledA(s, e)
    ensures Causes(c, s, e, cause)
  {
    match e
    case Dial => cause := OnDial;
    case Writable(id, _) => cause := SocketCause(c, s, e, id);
    case Readable(id, _, _) => cause := SocketCause(c, s, e, id);
    case Arrives(w, accept) =>
      var p := s.ba[0];
      assert PacketOk(c, Flip(s), p);
      if p.Open? {
        cause := OnOpen;
      } else if Linked(Flip(s), p.src, p.dst) {
        cause := OnStream(p.dst, p.src);
      } else {
        assert OpenerOk(c, s, p.dst);
        cause := OnIdle(p.dst);
        assert s.a.ends[p.dst := s.a.ends[p.dst]] == s.a.ends;
      }
  }

  lemma SocketCause(c: Config, s: System, e: Event, id: nat) returns (cause: Cause)
    requires Inv(c, s) && EnabledA(s, e) && (e.Writable? || e.Readable?) && e.id == id
    ensures Causes(c, s, e, cause)
  {
    if id in s.a.openedIds {
      assert OpenerOk(c, s, id);
      if id in s.b.answers && s.b.answers[id].Some? {
        cause := OnStream(id, s.b.answers[id].value);
      } else {
        cause := OnIdle(id);
      }
    } else {
      var y :| y in s.a.answers && s.a.answers[y] == Some(id);
      cause := OnStream(id, y);
    }
  }

  /** How each stream of the next state came about. */
  lemma StreamOrigin(c: Config, s: System, e: Event, cause: Cause, x: nat, y: nat)
    requires Inv(c, s) && EnabledA(s, e) && Causes(c, s, e, cause)
    requires Linked(ActA(c, s, e), x, y)
    ensures
      || SameStream(s, ActA(c, s, e), x, y)
      || (cause == OnStream(x, y) && x in s.a.ends && y in s.b.ends
          && x in ActA(c, s, e).a.ends && y in ActA(c, s, e).b.ends
          && PairEnabled(PairOf(s, x, y), AsPairEvent(e))
          && PairOf(ActA(c, s, e), x, y) == PairNext(c, PairOf(s, x, y), AsPairEvent(e)))
      || (x in ActA(c, s, e).a.ends && y in ActA(c, s, e).b.ends && Newborn(c, PairOf(ActA(c, s, e), x, y)))
  {
    match cause
    case OnStream(x', y') =>
      var r := StreamStep(c, s, e, x', y');
      assert Linked(s, x, y);
      if (x, y) != (x', y') {
        OthersUnchanged(c, s, ActA(c, s, e), x', y', r.out, x, y);
      }
    case OnDial => DialQuiet(c, s, x, y);
    case OnOpen =>
      OpenIsGenuine(c, s, e.w, e.accept);
      AnswerStreams(c, s, e.accept, x, y);
    case OnIdle(x') => IdleQuiet(c, s, ActA(c, s, e), x', x, y);
  }

  /** Every step of end A keeps the invariant. */
  lemma StepAKeeps(c: Config, s: System, e: Event)
    requires Inv(c, s) && EnabledA(s, e)
    ensures Inv(c, ActA(c, s, e))
  {
    var cause := FindCause(c, s, e);
    var s' := ActA(c, s, e);
    match cause {
      case OnStream(x, y) => var _ := StreamStep(c, s, e, x, y);
      case OnDial => DialHere(c, s); DialThere(c, s);
      case OnOpen =>
        OpenIsGenuine(c, s, e.w, e.accept);
        AnswerIds(c, s, e.accept);
        AnswerPending(c, s, e.accept);
        AnswerChannels(c, s, e.accept);
      case OnIdle(x) => IdleKeeps(c, s, s', x);
    }
    forall x, y | Linked(s', x, y)
      ensures x in s'.a.ends && y in s'.b.ends && Core(c, PairOf(s', x, y))
    {
      StreamOrigin(c, s, e, cause, x, y);
      if x in s'.a.ends && y in s'.b.ends && Newborn(c, PairOf(s', x, y)) {
        NewbornOk(c, 1, 1, PairOf(s', x, y));
      } else if !SameStream(s, s', x, y) {
        PairKeepsCore(c, PairOf(s, x, y), AsPairEvent(e));
      }
    }
  }
}
