/**
 Two endpoints and the two FIFO channels between them: the step relation of the multiplexed
 protocol, and the invariant that reduces every step to an action on one stream.
 */
module StreamSystem {
  import opened Common
  import opened StreamEndpoint
  import opened StreamPair

  datatype System = System(a: Host, b: Host, ab: seq<Packet>, ba: seq<Packet>)

  /** The same system with the ends exchanged. */
  function Flip(s: System): System { System(s.b, s.a, s.ba, s.ab) }

  /**
   One callback of the looper at one end. A descriptor can report readable although read interest
   is not armed: a hang-up is delivered as a read.
   */
  datatype Event =
    | Dial
    | Writable(id: nat, w: Write)
    | Readable(id: nat, data: seq<byte>, eof: bool)
    | Arrives(w: Write, accept: bool)

  datatype Action = Action(byA: bool, event: Event)

  predicate Held(h: Host, id: nat) { id in h.ends && !h.ends[id].Gone? }

  predicate EnabledA(s: System, e: Event) {
    match e
    case Dial => true
    case Writable(id, w) => Held(s.a, id) && s.a.ends[id].sock.writing && ValidWrite(s.a.ends[id].sock.queue, w)
    case Readable(id, data, eof) => Held(s.a, id) && |data| <= s.a.maxPayload && (eof ==> |data| < s.a.maxPayload)
    case Arrives(w, _) => s.ba != [] && CanDeliver(s.a, s.ba[0], w)
  }

  function ActA(c: Config, s: System, e: Event): System
    requires EnabledA(s, e)
  {
    match e
    case Dial => Send(s, Connect(c, s.a))
    case Writable(id, w) => Send(s, With(s.a, id, FlushIncoming(c, id, s.a.ends[id], w)))
    case Readable(id, data, eof) => Send(s, With(s.a, id, FlushOutgoing(id, s.a.ends[id], data, eof)))
    case Arrives(w, accept) =>
      Send(s.(ba := s.ba[1..]), Deliver(c, s.a, s.ba[0], w, accept))
  }

  function Send(s: System, r: HostOut): System { s.(a := r.host, ab := s.ab + r.out) }

  predicate Enabled(s: System, act: Action) { EnabledA(if act.byA then s else Flip(s), act.event) }

  function Step(c: Config, s: System, act: Action): System
    requires Enabled(s, act)
  {
    if act.byA then ActA(c, s, act.event) else Flip(ActA(c, Flip(s), act.event))
  }

  predicate Initial(s: System) {
    && s.ab == [] && s.ba == []
    && s.a == Host(map[], {}, map[], 1, s.a.maxPayload) && 0 < s.a.maxPayload <= MAX_PAYLOAD
    && s.b == Host(map[], {}, map[], 1, s.b.maxPayload) && 0 < s.b.maxPayload <= MAX_PAYLOAD
  }

  // ---------- projection on one stream ----------

  /** Socket `x` of end A and socket `y` of end B are the two ends of one stream. */
  ghost predicate Linked(s: System, x: nat, y: nat) {
    || (x in s.b.answers && s.b.answers[x] == Some(y))
    || (y in s.a.answers && s.a.answers[y] == Some(x))
  }

  /** The packets of `ch` that go from socket `x` to socket `y`. */
  ghost function Between(ch: seq<Packet>, x: nat, y: nat): seq<Packet> {
    if ch == [] then []
    else if !ch[0].Open? && ch[0].src == x && ch[0].dst == y then [ch[0]] + Between(ch[1..], x, y)
    else Between(ch[1..], x, y)
  }

  ghost function PairOf(s: System, x: nat, y: nat): Pair
    requires x in s.a.ends && y in s.b.ends
  {
    Pair(x, s.a.ends[x], y, s.b.ends[y], Between(s.ab, x, y), Between(s.ba, y, x))
  }

  lemma {:induction false} BetweenConcat(a: seq<Packet>, b: seq<Packet>, x: nat, y: nat)
    ensures Between(a + b, x, y) == Between(a, x, y) + Between(b, x, y)
  {
    if a == [] {
      assert a + b == b;
    } else {
      assert (a + b)[1..] == a[1..] + b;
      BetweenConcat(a[1..], b, x, y);
    }
  }

  lemma {:induction false} BetweenAll(ch: seq<Packet>, x: nat, y: nat)
    requires forall i :: 0 <= i < |ch| ==> !ch[i].Open? && ch[i].src == x && ch[i].dst == y
    ensures Between(ch, x, y) == ch
  {
    if ch != [] {
      BetweenAll(ch[1..], x, y);
    }
  }

  lemma {:induction false} BetweenNone(ch: seq<Packet>, x: nat, y: nat)
    requires forall i :: 0 <= i < |ch| ==> ch[i].Open? || ch[i].src != x || ch[i].dst != y
    ensures Between(ch, x, y) == []
  {
    if ch != [] {
      BetweenNone(ch[1..], x, y);
    }
  }

  // ---------- the invariant ----------

  /** A socket that sent an OPEN and has not been connected. */
  ghost predicate Idle(c: Config, e: End) {
    Waiting(c, e) || (e.Gone? && e.log.sent == e.log.written == [])
  }

  /** Bookkeeping of ids at end A. */
  ghost predicate IdsOk(s: System) {
    && s.a.nextId > 0
    && (forall id :: id in s.a.ends ==> 0 < id < s.a.nextId && WriteArmed(s.a.ends[id]))
    && (forall id :: id in s.a.openedIds ==> id in s.a.ends)
    && (forall id :: id in s.a.ends ==>
          id in s.a.openedIds || exists y :: y in s.a.answers && s.a.answers[y] == Some(id))
    && 0 < s.a.maxPayload <= MAX_PAYLOAD
  }

  /** Every OPEN of end A is answered at most once, and no two OPENs get the same socket. */
  ghost predicate AnswersOk(s: System) {
    && (forall o :: o in s.b.answers ==>
        && o in s.a.openedIds
        && (s.b.answers[o].Some? ==> s.b.answers[o].value in s.b.ends && s.b.answers[o].value !in s.b.openedIds))
    && (forall o, o' :: o in s.b.answers && o' in s.b.answers && o != o' && s.b.answers[o].Some? ==>
        s.b.answers[o] != s.b.answers[o'])
  }

  /** A socket that sent an OPEN and is not connected has the OPEN or a refusal under way. */
  ghost predicate OpenerOk(c: Config, s: System, o: nat) {
    && (o !in s.b.answers ==>
        o in s.a.ends && Idle(c, s.a.ends[o]) && Open(o, Window(c)) in s.ab)
    && (o in s.b.answers && s.b.answers[o].None? ==>
        o in s.a.ends && Idle(c, s.a.ends[o]) && (s.a.ends[o].Live? ==> Clse(0, o) in s.ba))
  }

  ghost predicate PendingOk(c: Config, s: System) {
    forall o :: o in s.a.openedIds ==> OpenerOk(c, s, o)
  }

  /** A packet that may be on its way from A to B. */
  ghost predicate PacketOk(c: Config, s: System, p: Packet) {
    if p.Open? then p.src in s.a.openedIds && p.src !in s.b.answers && p.window == Window(c)
    else
      || Linked(s, p.src, p.dst)
      || (p.Clse? && p.src == 0 && p.dst in s.a.answers && s.a.answers[p.dst].None?)
  }

  ghost predicate OpensDistinct(ch: seq<Packet>) {
    forall i, j :: 0 <= i < j < |ch| && ch[i].Open? && ch[j].Open? ==> ch[i].src != ch[j].src
  }

  ghost predicate ChannelOk(c: Config, s: System) {
    && OpensDistinct(s.ab)
    && (forall i :: 0 <= i < |s.ab| ==> PacketOk(c, s, s.ab[i]))
  }

  ghost predicate HalfInv(c: Config, s: System) {
    IdsOk(s) && AnswersOk(s) && PendingOk(c, s) && ChannelOk(c, s)
  }

  ghost predicate StreamsOk(c: Config, s: System) {
    forall x, y :: Linked(s, x, y) ==> x in s.a.ends && y in s.b.ends && Core(c, PairOf(s, x, y))
  }

  ghost predicate Inv(c: Config, s: System) {
    HalfInv(c, s) && HalfInv(c, Flip(s)) && StreamsOk(c, s)
  }

  lemma FlipInv(c: Config, s: System)
    ensures Inv(c, Flip(s)) <==> Inv(c, s)
  {
    forall x, y | Linked(s, x, y) && x in s.a.ends && y in s.b.ends
      ensures Linked(Flip(s), y, x)
      ensures PairOf(Flip(s), y, x) == Mirror(PairOf(s, x, y))
    {
    }
    forall x, y | Linked(Flip(s), y, x) && x in s.a.ends && y in s.b.ends
      ensures Linked(s, x, y)
      ensures PairOf(Flip(s), y, x) == Mirror(PairOf(s, x, y))
    {
    }
  }

  lemma InitInv(c: Config, s: System)
    requires Initial(s)
    ensures Inv(c, s)
  {
  }

  /** A socket belongs to one stream only. */
  lemma LinkUnique(c: Config, s: System, x: nat, y: nat, x': nat, y': nat)
    requires HalfInv(c, s) && HalfInv(c, Flip(s))
    requires Linked(s, x, y) && Linked(s, x', y')
    ensures x == x' <==> y == y'
  {
  }

  // ---------- steps on a connected socket ----------

  /** `s'` differs from `s` in socket `x`, in what it sent to `y`, and perhaps in having taken a packet from `y`. */
  ghost predicate OnlyLink(s: System, s': System, x: nat, y: nat, out: seq<Packet>) {
    && x in s.a.ends && x in s'.a.ends
    && s'.a == s.a.(ends := s.a.ends[x := s'.a.ends[x]])
    && s'.b == s.b
    && s'.ab == s.ab + out
    && (forall i :: 0 <= i < |out| ==> !out[i].Open? && out[i].src == x && out[i].dst == y)
    && (s'.ba == s.ba
        || (s.ba != [] && s'.ba == s.ba[1..] && !s.ba[0].Open? && s.ba[0].src == y && s.ba[0].dst == x))
  }

  /** Streams do not disturb one another. */
  lemma OthersUnchanged(c: Config, s: System, s': System, x: nat, y: nat, out: seq<Packet>, x': nat, y': nat)
    requires HalfInv(c, s) && HalfInv(c, Flip(s)) && Linked(s, x, y) && OnlyLink(s, s', x, y, out)
    requires Linked(s, x', y') && (x', y') != (x, y) && x' in s.a.ends && y' in s.b.ends
    ensures PairOf(s', x', y') == PairOf(s, x', y')
  {
    LinkUnique(c, s, x, y, x', y');
    BetweenConcat(s.ab, out, x', y');
    BetweenNone(out, x', y');
  }

  lemma LinkedStep(c: Config, s: System, s': System, x: nat, y: nat, out: seq<Packet>)
    requires Inv(c, s) && Linked(s, x, y) && OnlyLink(s, s', x, y, out)
    requires WriteArmed(s'.a.ends[x]) && Core(c, PairOf(s', x, y))
    ensures Inv(c, s')
  {
    forall x', y' | Linked(s', x', y')
      ensures x' in s'.a.ends && y' in s'.b.ends && Core(c, PairOf(s', x', y'))
    {
      assert Linked(s, x', y');
      if (x', y') != (x, y) {
        OthersUnchanged(c, s, s', x, y, out, x', y');
      }
    }
    LinkedNotPending(c, s, x, y);
    LinkedIds(c, s, s', x, y, out);
    LinkedPending(c, s, s', x, y, out);
    LinkedPendingThere(c, s, s', x, y, out);
    LinkedChannel(c, s, s', x, y, out);
    LinkedChannelThere(c, s, s', x, y, out);
  }

  lemma LinkedNotPending(c: Config, s: System, x: nat, y: nat)
    requires HalfInv(c, s) && HalfInv(c, Flip(s)) && Linked(s, x, y)
    ensures x != 0 && y != 0
    ensures x in s.a.openedIds ==> x in s.b.answers && s.b.answers[x] == Some(y)
    ensures x in s.b.answers ==> s.b.answers[x] == Some(y)
    ensures y in s.b.openedIds ==> y in s.a.answers && s.a.answers[y] == Some(x)
  {
  }

  lemma LinkedIds(c: Config, s: System, s': System, x: nat, y: nat, out: seq<Packet>)
    requires IdsOk(s) && AnswersOk(s) && OnlyLink(s, s', x, y, out) && WriteArmed(s'.a.ends[x])
    ensures IdsOk(s') && AnswersOk(s')
  {
  }

  lemma LinkedPending(c: Config, s: System, s': System, x: nat, y: nat, out: seq<Packet>)
    requires PendingOk(c, s) && OnlyLink(s, s', x, y, out) && y != 0
    requires x in s.a.openedIds ==> x in s.b.answers && s.b.answers[x].Some?
    ensures PendingOk(c, s')
  {
    forall o | o in s'.a.openedIds
      ensures OpenerOk(c, s', o)
    {
      assert OpenerOk(c, s, o);
      assert Open(o, Window(c)) in s.ab ==> Open(o, Window(c)) in s'.ab;
      assert Clse(0, o) in s.ba ==> Clse(0, o) in s'.ba;
    }
  }

  lemma LinkedPendingThere(c: Config, s: System, s': System, x: nat, y: nat, out: seq<Packet>)
    requires PendingOk(c, Flip(s)) && OnlyLink(s, s', x, y, out)
    ensures PendingOk(c, Flip(s'))
  {
    forall o | o in s'.b.openedIds
      ensures OpenerOk(c, Flip(s'), o)
    {
      assert OpenerOk(c, Flip(s), o);
      assert Open(o, Window(c)) in s.ba ==> Open(o, Window(c)) in s'.ba;
      assert Clse(0, o) in s.ab ==> Clse(0, o) in s'.ab;
    }
  }

  lemma LinkedChannel(c: Config, s: System, s': System, x: nat, y: nat, out: seq<Packet>)
    requires ChannelOk(c, s) && Linked(s, x, y) && OnlyLink(s, s', x, y, out)
    ensures ChannelOk(c, s')
  {
    forall i | 0 <= i < |s'.ab|
      ensures PacketOk(c, s', s'.ab[i])
    {
      assert s'.ab[i] == if i < |s.ab| then s.ab[i] else out[i - |s.ab|];
      assert i < |s.ab| ==> PacketOk(c, s, s.ab[i]);
    }
  }

  lemma LinkedChannelThere(c: Config, s: System, s': System, x: nat, y: nat, out: seq<Packet>)
    requires ChannelOk(c, Flip(s)) && OnlyLink(s, s', x, y, out)
    ensures ChannelOk(c, Flip(s'))
  {
    var k := |s.ba| - |s'.ba|;
    forall i | 0 <= i < |s'.ba|
      ensures s'.ba[i] == s.ba[i + k] && PacketOk(c, Flip(s'), s'.ba[i])
    {
      assert PacketOk(c, Flip(s), s.ba[i + k]);
    }
  }
}
