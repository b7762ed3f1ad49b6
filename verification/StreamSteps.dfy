/** Every step of the two-endpoint system keeps the invariant, and acts on at most one stream. */
module StreamSteps {
  import opened Common
  import opened StreamEndpoint
  import opened StreamPair
  import opened StreamCredit
  import opened StreamSystem

  /** The event is about socket `x` of end A, connected to socket `y` of end B. */
  ghost predicate Concerns(s: System, e: Event, x: nat, y: nat) {
    match e
    case Dial => false
    case Writable(id, _) => id == x
    case Readable(id, _, _) => id == x
    case Arrives(_, _) => s.ba != [] && !s.ba[0].Open? && s.ba[0].src == y && s.ba[0].dst == x
  }

  ghost function AsPairEvent(e: Event): PairEvent
    requires !e.Dial?
  {
    match e
    case Writable(_, w) => Flush(w)
    case Readable(_, data, eof) => Read(data, eof)
    case Arrives(w, _) => Take(w)
  }

  ghost predicate Addressed(out: seq<Packet>, x: nat, y: nat) {
    forall i :: 0 <= i < |out| ==> !out[i].Open? && out[i].src == x && out[i].dst == y
  }

  /** End A after its socket `x` became `r.end` and sent `r.out`, having perhaps taken a packet. */
  ghost function After(s: System, x: nat, r: EndOut, taken: bool): System
    requires taken ==> s.ba != []
  {
    Send(if taken then s.(ba := s.ba[1..]) else s, With(s.a, x, r))
  }

  lemma ArrivalIsFirst(s: System, x: nat, y: nat)
    requires s.ba != [] && !s.ba[0].Open? && s.ba[0].src == y && s.ba[0].dst == x
    ensures Between(s.ba, y, x) == [s.ba[0]] + Between(s.ba[1..], y, x)
  {
  }

  /** Sockets `x` and `y` exist and their stream is in order. */
  ghost predicate StreamOk(c: Config, s: System, x: nat, y: nat) {
    && x in s.a.ends && y in s.b.ends && x != 0 && y != 0
    && WriteArmed(s.a.ends[x])
    && Core(c, PairOf(s, x, y))
  }

  /** A WRTE or CLSE that arrives finds its socket exactly when that socket is still open. */
  lemma ArrivalFinds(c: Config, s: System, x: nat, y: nat)
    requires StreamOk(c, s, x, y)
    requires s.ba != [] && s.ba[0].src == y && !s.ba[0].Open? && s.ba[0].dst == x
    ensures (s.ba[0].Wrte? || s.ba[0].Clse?) ==> (s.a.ends[x].Live? <==> Found(s.a, x, y))
  {
    ArrivalIsFirst(s, x, y);
    var p := PairOf(s, x, y);
    if s.ba[0].Wrte? && p.x.Live? { XAppends(c, p); }
    if s.ba[0].Clse? && p.x.Live? { XTakesClse(c, p); }
  }

  /** An action of socket `x` is seen by its own stream as an action of that stream. */
  lemma Project(s: System, x: nat, y: nat, r: EndOut, taken: bool)
    requires x in s.a.ends && y in s.b.ends && Addressed(r.out, x, y)
    requires taken ==> s.ba != [] && !s.ba[0].Open? && s.ba[0].src == y && s.ba[0].dst == x
    ensures OnlyLink(s, After(s, x, r, taken), x, y, r.out)
    ensures taken ==> PairOf(s, x, y).yx != []
    ensures PairOf(After(s, x, r, taken), x, y)
         == Acts(if taken then Takes(PairOf(s, x, y)) else PairOf(s, x, y), r)
  {
    BetweenConcat(s.ab, r.out, x, y);
    BetweenAll(r.out, x, y);
    if taken {
      ArrivalIsFirst(s, x, y);
    }
  }

  lemma KnowsPeer(c: Config, p: Pair)
    requires Core(c, p) && !p.x.Gone?
    ensures p.x.sock.peer == Some(p.yi) || p.x.sock.peer == None
  {
  }

  /** A socket of a stream sends only to the other end of that stream. */
  lemma SendsToPeer(c: Config, p: Pair, w: Write, data: seq<byte>, eof: bool)
    requires Core(c, p) && !p.x.Gone?
    ensures ValidWrite(p.x.sock.queue, w) ==> Addressed(FlushIncoming(c, p.xi, p.x, w).out, p.xi, p.yi)
    ensures Addressed(FlushOutgoing(p.xi, p.x, data, eof).out, p.xi, p.yi)
    ensures Addressed(Close(p.xi, p.x).out, p.xi, p.yi)
    ensures p.x.Live? && ValidWrite(p.x.sock.queue + data, w) ==>
      Addressed(Enqueue(c, p.xi, p.x, data, w).out, p.xi, p.yi)
  {
    KnowsPeer(c, p);
    if ValidWrite(p.x.sock.queue, w) { FlushToPeer(c, p.xi, p.yi, p.x, w); }
    ReadToPeer(p.xi, p.yi, p.x, data, eof);
    CloseToPeer(p.xi, p.yi, p.x);
    if p.x.Live? && ValidWrite(p.x.sock.queue + data, w) { EnqueueToPeer(c, p.xi, p.yi, p.x, data, w); }
  }

  ghost predicate Knows(x: End, yi: nat) { !x.Gone? && (x.sock.peer == Some(yi) || x.sock.peer == None) }

  lemma FlushToPeer(c: Config, xi: nat, yi: nat, x: End, w: Write)
    requires Knows(x, yi) && ValidWrite(x.sock.queue, w)
    ensures Addressed(FlushIncoming(c, xi, x, w).out, xi, yi)
  {
  }

  lemma CloseToPeer(xi: nat, yi: nat, x: End)
    requires Knows(x, yi)
    ensures Addressed(Close(xi, x).out, xi, yi)
  {
  }

  lemma ReadToPeer(xi: nat, yi: nat, x: End, data: seq<byte>, eof: bool)
    requires Knows(x, yi)
    ensures Addressed(FlushOutgoing(xi, x, data, eof).out, xi, yi)
  {
  }

  lemma EnqueueToPeer(c: Config, xi: nat, yi: nat, x: End, data: seq<byte>, w: Write)
    requires Knows(x, yi) && x.Live? && ValidWrite(x.sock.queue + data, w)
    ensures Addressed(Enqueue(c, xi, x, data, w).out, xi, yi)
  {
  }

  /** A step is one action of one stream; `r` is what its socket became and sent. */
  ghost predicate ActsOn(c: Config, s: System, e: Event, x: nat, y: nat, r: EndOut)
    requires EnabledA(s, e) && x in s.a.ends && y in s.b.ends
  {
    && ActA(c, s, e) == After(s, x, r, e.Arrives?)
    && Addressed(r.out, x, y)
    && WriteArmed(r.end)
    && !e.Dial?
    && PairEnabled(PairOf(s, x, y), AsPairEvent(e))
    && PairNext(c, PairOf(s, x, y), AsPairEvent(e))
       == Acts(if e.Arrives? then Takes(PairOf(s, x, y)) else PairOf(s, x, y), r)
  }

  lemma LocalActs(c: Config, s: System, e: Event, x: nat, y: nat) returns (r: EndOut)
    requires StreamOk(c, s, x, y) && EnabledA(s, e) && (e.Writable? || e.Readable?) && Concerns(s, e, x, y)
    ensures ActsOn(c, s, e, x, y, r)
  {
    var p := PairOf(s, x, y);
    if e.Writable? {
      r := FlushIncoming(c, x, p.x, e.w);
      SendsToPeer(c, p, e.w, [], false);
    } else {
      r := FlushOutgoing(x, p.x, e.data, e.eof);
      SendsToPeer(c, p, WouldBlock, e.data, e.eof);
    }
  }

  lemma ClosingKeepsArmed(id: nat, e: End)
    requires !e.Gone? && WriteArmed(e)
    ensures WriteArmed(Close(id, e).end)
  {
  }

  lemma OkayArrives(c: Config, s: System, e: Event, x: nat, y: nat) returns (r: EndOut)
    requires StreamOk(c, s, x, y) && EnabledA(s, e) && e.Arrives? && Concerns(s, e, x, y) && s.ba[0].Okay?
    ensures ActsOn(c, s, e, x, y, r)
  {
    ArrivalIsFirst(s, x, y);
    var p := PairOf(s, x, y);
    r := if p.x.Live? then EndOut(HandleOkay(p.x, s.ba[0]), []) else EndOut(p.x, [Clse(x, y)]);
    assert s.a.ends[x := s.a.ends[x]] == s.a.ends;
    assert Takes(p).xy + [] == p.xy;
  }

  lemma ClseArrives(c: Config, s: System, e: Event, x: nat, y: nat) returns (r: EndOut)
    requires StreamOk(c, s, x, y) && EnabledA(s, e) && e.Arrives? && Concerns(s, e, x, y) && s.ba[0].Clse?
    ensures ActsOn(c, s, e, x, y, r)
  {
    ArrivalFinds(c, s, x, y);
    ArrivalIsFirst(s, x, y);
    var p := PairOf(s, x, y);
    assert s.a.ends[x := s.a.ends[x]] == s.a.ends;
    if p.x.Live? {
      r := Close(x, p.x);
      SendsToPeer(c, p, WouldBlock, [], false);
      ClosingKeepsArmed(x, p.x);
    } else {
      r := EndOut(p.x, []);
      assert Takes(p).xy + [] == p.xy;
    }
  }

  lemma WrteArrives(c: Config, s: System, e: Event, x: nat, y: nat) returns (r: EndOut)
    requires StreamOk(c, s, x, y) && EnabledA(s, e) && e.Arrives? && Concerns(s, e, x, y) && s.ba[0].Wrte?
    ensures ActsOn(c, s, e, x, y, r)
  {
    ArrivalFinds(c, s, x, y);
    ArrivalIsFirst(s, x, y);
    var p := PairOf(s, x, y);
    assert s.a.ends[x := s.a.ends[x]] == s.a.ends;
    if p.x.Live? {
      r := Enqueue(c, x, p.x, s.ba[0].data, e.w);
      SendsToPeer(c, p, e.w, s.ba[0].data, false);
    } else {
      r := EndOut(p.x, []);
      assert Takes(p).xy + [] == p.xy;
    }
  }
}
