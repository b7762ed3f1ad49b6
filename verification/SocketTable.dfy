/**
 The socket table of one process: asocket objects, the open list and the closing list, and the
 operations of sockets.cpp that mutate them. A local socket may be connected to a remote socket
 (which stands for the transport) or directly to another local socket.
 */
module SocketTable {
  import opened Common
  import opened StreamEndpoint

  class Asocket {
    const local: bool
    var id: nat
    var closing: bool
    var hasWriteError: bool
    var peer: Asocket?
    var transport: Option<nat>
    var queue: seq<byte>
    var credit: Option<int>
    var reading: bool
    var writing: bool

    constructor (local: bool, id: nat, transport: Option<nat>)
      ensures this.local == local && this.id == id && this.transport == transport
      ensures !closing && !hasWriteError && peer == null && queue == [] && credit == None && !reading && !writing
    {
      this.local, this.id, this.transport := local, id, transport;
      closing, hasWriteError, reading, writing := false, false, false, false;
      peer, queue, credit := null, [], None;
    }

    /** The socket as the stream engine sees it; `remote` is the id of its peer. */
    ghost function Value(remote: Option<nat>): Sock
      reads this
    {
      Sock(remote, queue, credit, reading, writing, hasWriteError)
    }
  }

  /** `xs` without the sockets in `gone`, in the same order. */
  ghost function Without(xs: seq<Asocket>, gone: set<Asocket>): seq<Asocket> {
    if xs == [] then []
    else (if xs[0] in gone then [] else [xs[0]]) + Without(xs[1..], gone)
  }

  lemma WithoutStep(xs: seq<Asocket>, gone: set<Asocket>, i: nat)
    requires i < |xs|
    ensures Without(xs[i..], gone) == (if xs[i] in gone then [] else [xs[i]]) + Without(xs[i + 1..], gone)
  {
    assert xs[i..][1..] == xs[i + 1..];
  }

  lemma WithoutHead(xs: seq<Asocket>, gone: set<Asocket>)
    requires xs != []
    ensures xs[0] in gone ==> Without(xs, gone) == Without(xs[1..], gone)
    ensures xs[0] !in gone ==> Without(xs, gone) != [] && Without(xs, gone)[0] == xs[0]
    ensures xs[0] !in gone ==> Without(xs, gone)[1..] == Without(xs[1..], gone)
  {
  }

  ghost predicate NoDup(xs: seq<Asocket>) { forall i, j :: 0 <= i < j < |xs| ==> xs[i] != xs[j] }

  lemma {:induction false} WithoutMembers(xs: seq<Asocket>, gone: set<Asocket>)
    ensures forall s :: s in Without(xs, gone) <==> s in xs && s !in gone
    ensures |Without(xs, gone)| <= |xs|
    ensures (exists s :: s in xs && s in gone) ==> |Without(xs, gone)| < |xs|
    ensures NoDup(xs) ==> NoDup(Without(xs, gone))
  {
    if xs != [] {
      WithoutMembers(xs[1..], gone);
      assert xs == [xs[0]] + xs[1..];
    }
  }

  lemma NoDupAppend(xs: seq<Asocket>, s: Asocket)
    requires NoDup(xs) && s !in xs
    ensures NoDup(xs + [s])
  {
  }

  lemma {:induction false} WithoutTwice(xs: seq<Asocket>, a: set<Asocket>, b: set<Asocket>)
    ensures Without(Without(xs, a), b) == Without(xs, a + b)
  {
    if xs != [] {
      WithoutTwice(xs[1..], a, b);
      var rest := Without(xs[1..], a);
      if xs[0] in a {
        assert Without(xs, a) == rest;
      } else {
        assert ([xs[0]] + rest)[1..] == rest;
      }
    }
  }

  lemma {:induction false} WithoutNone(xs: seq<Asocket>, gone: set<Asocket>)
    requires forall s :: s in xs ==> s !in gone
    ensures Without(xs, gone) == xs
  {
    if xs != [] {
      WithoutNone(xs[1..], gone);
    }
  }

  /** A socket as `close_all_sockets` meets it: is it bound to the transport, what does closing it send. */
  datatype Picture = Picture(
    bound: bool, word: seq<(Option<nat>, Packet)>, canWrite: bool, peer: Asocket?, closing: bool, reading: bool)

  type Album = map<Asocket, Picture>

  /** What the sockets of `xs` say, one after the other. */
  ghost function Spoken(xs: seq<Asocket>, album: Album): seq<(Option<nat>, Packet)>
    requires AllIn(xs, album)
  {
    if xs == [] then [] else album[xs[0]].word + Spoken(xs[1..], album)
  }

  ghost predicate AllIn(xs: seq<Asocket>, album: Album) { forall s :: s in xs ==> s in album }

  lemma {:induction false} WithoutAllIn(xs: seq<Asocket>, album: Album, gone: set<Asocket>)
    requires AllIn(xs, album)
    ensures AllIn(Without(xs, gone), album)
  {
    if xs != [] {
      WithoutAllIn(xs[1..], album, gone);
    }
  }

  /** Sockets with nothing to say can leave unnoticed. */
  lemma {:induction false} SpokenWithout(xs: seq<Asocket>, album: Album, gone: set<Asocket>)
    requires AllIn(xs, album) && forall s :: s in xs && s in gone ==> album[s].word == []
    ensures AllIn(Without(xs, gone), album) && Spoken(Without(xs, gone), album) == Spoken(xs, album)
  {
    if xs != [] {
      WithoutAllIn(xs, album, gone);
      WithoutHead(xs, gone);
      SpokenWithout(xs[1..], album, gone);
    }
  }

  lemma {:induction false} SpokenNothing(xs: seq<Asocket>, album: Album)
    requires AllIn(xs, album) && forall s :: s in xs ==> album[s].word == []
    ensures Spoken(xs, album) == []
  {
    if xs != [] {
      SpokenNothing(xs[1..], album);
    }
  }

  /** Of the sockets that leave, only the first one with anything to say is heard. */
  lemma {:induction false} SpokenFirst(xs: seq<Asocket>, album: Album, gone: set<Asocket>, i: nat)
    requires NoDup(xs) && i < |xs| && xs[i] in gone && AllIn(xs, album)
    requires forall j :: 0 <= j < i ==> album[xs[j]].word == []
    requires forall s :: s in xs && s in gone && s != xs[i] ==> album[s].word == []
    ensures AllIn(Without(xs, gone), album)
    ensures Spoken(xs, album) == album[xs[i]].word + Spoken(Without(xs, gone), album)
  {
    WithoutAllIn(xs, album, gone);
    WithoutHead(xs, gone);
    if i == 0 {
      SpokenWithout(xs[1..], album, gone);
    } else {
      SpokenFirst(xs[1..], album, gone, i - 1);
      SpokenSilent(xs, album, gone);
    }
  }

  lemma SpokenSilent(xs: seq<Asocket>, album: Album, gone: set<Asocket>)
    requires xs != [] && AllIn(xs, album) && album[xs[0]].word == []
    requires AllIn(Without(xs, gone), album) && AllIn(Without(xs[1..], gone), album)
    ensures Spoken(xs, album) == Spoken(xs[1..], album)
    ensures Spoken(Without(xs, gone), album) == Spoken(Without(xs[1..], gone), album)
  {
    WithoutHead(xs, gone);
  }

  /** `late` are the sockets of `gone` that can still write, and all of `gone` is bound to the transport. */
  ghost predicate Kept(late: seq<Asocket>, gone: set<Asocket>, album: Album) {
    && (forall s :: s in gone ==> s in album && album[s].bound)
    && (forall s :: s in late ==> s in gone && s in album && album[s].canWrite)
    && (forall s :: s in gone && album[s].canWrite ==> s in late)
  }

  lemma KeptBoth(late: seq<Asocket>, gone: set<Asocket>, more: seq<Asocket>, leaving: set<Asocket>, album: Album)
    requires Kept(late, gone, album) && Kept(more, leaving, album)
    ensures Kept(late + more, gone + leaving, album)
  {
  }

  /** The open list, the closing list and what was sent. */
  datatype Lists = Lists(open: seq<Asocket>, closing: seq<Asocket>, sent: seq<(Option<nat>, Packet)>)

  /** What closing the sockets of `gone` does: `late` are kept, and what they had to say was sent. */
  ghost predicate Closed(a: Lists, b: Lists, gone: set<Asocket>, late: seq<Asocket>, album: Album) {
    && AllIn(a.open, album) && AllIn(b.open, album)
    && b.open == Without(a.open, gone) && b.closing == a.closing + late && Kept(late, gone, album)
    && b.sent + Spoken(b.open, album) == a.sent + Spoken(a.open, album)
  }

  lemma ClosedTwice(a: Lists, b: Lists, c: Lists, gone: set<Asocket>, late: seq<Asocket>,
                    leaving: set<Asocket>, more: seq<Asocket>, album: Album)
    requires Closed(a, b, gone, late, album) && Closed(b, c, leaving, more, album)
    ensures Closed(a, c, gone + leaving, late + more, album)
  {
    WithoutTwice(a.open, gone, leaving);
    KeptBoth(late, gone, more, leaving, album);
  }

  lemma ClosedNone(a: Lists, album: Album)
    requires AllIn(a.open, album)
    ensures Closed(a, a, {}, [], album)
  {
    WithoutNone(a.open, {});
    assert a.closing + [] == a.closing;
  }

  /** Once no socket that is left is bound to the transport, exactly those that were bound are gone. */
  lemma ClosedAll(a: Lists, b: Lists, gone: set<Asocket>, late: seq<Asocket>, album: Album, doomed: set<Asocket>)
    requires Closed(a, b, gone, late, album) && (forall s :: s in album <==> s in a.open)
    requires forall s :: s in b.open ==> !album[s].bound
    requires forall s :: s in album && !album[s].bound ==> album[s].word == []
    requires forall s :: s in doomed <==> s in a.open && album[s].bound
    ensures b.open == Without(a.open, doomed) && b.sent == a.sent + Spoken(a.open, album)
    ensures a.closing <= b.closing
    ensures forall s :: s in b.closing[|a.closing|..] <==> s in a.open && album[s].bound && album[s].canWrite
  {
    WithoutMembers(a.open, gone);
    assert gone == doomed;
    SpokenNothing(b.open, album);
    assert b.closing[|a.closing|..] == late;
  }

  datatype FlushResult = Destroyed | TryAgain | Completed

  class Table {
    var open: seq<Asocket>
    var closingList: seq<Asocket>
    var nextId: nat
    /** Packets handed to the transports, oldest first. */
    var sent: seq<(Option<nat>, Packet)>
    const config: Config
    ghost var Repr: set<Asocket>

    /** An open socket between two callbacks. */
    ghost predicate Stable(s: Asocket)
      reads s`closing, s`writing, s`queue, s`hasWriteError
    {
      s.local && !s.closing && (s.writing <==> s.queue != [] && !s.hasWriteError)
    }

    /** A closing socket between two callbacks. */
    ghost predicate Dormant(s: Asocket)
      reads s
    {
      s.local && s.closing && s.peer == null && !s.reading && s.writing && s.queue != [] && !s.hasWriteError
    }

    /** A socket and its peer point to each other, and a local peer is open as well. */
    ghost predicate Paired(s: Asocket)
      requires s in Repr
      reads this`open, this`Repr, Repr`peer
    {
      s.peer != null ==>
        && s.peer in Repr && s.peer != s && s.peer.peer == s
        && (s.peer.local ==> s.peer in open)
    }

    /** Every listed socket is known, and no socket is listed twice. */
    ghost predicate ListsOk()
      reads this`open, this`closingList, this`Repr
    {
      && (forall s :: s in open ==> s in Repr && s !in closingList)
      && (forall s :: s in closingList ==> s in Repr)
      && NoDup(open) && NoDup(closingList)
    }

    ghost predicate IdsOk()
      reads this`open, this`nextId, open`id
    {
      && nextId > 0
      && (forall s :: s in open ==> 0 < s.id < nextId)
      && (forall s, s' :: s in open && s' in open && s.id == s'.id ==> s == s')
    }

    /** The lists, ids and links are in order, except that `x` may point to a peer that no longer points back. */
    ghost predicate Wired(x: Asocket?)
      reads this`open, this`closingList, this`Repr, this`nextId, open`id, Repr`peer
    {
      ListsOk() && IdsOk() && forall s :: s in open && s != x ==> Paired(s)
    }

    /** Every listed socket but `y` is as it must be between two callbacks. */
    ghost predicate Settled(y: Asocket?)
      reads this`open, this`closingList, open, closingList
    {
      && (forall s :: s in open && s != y ==> Stable(s))
      && (forall s :: s in closingList && s != y ==> Dormant(s))
    }

    ghost predicate ValidBut(x: Asocket?)
      reads this, Repr, open, closingList
    {
      Wired(x) && Settled(null)
    }

    ghost predicate Valid()
      reads this, Repr, open, closingList
    {
      ValidBut(null)
    }

    constructor (config: Config)
      ensures Valid() && open == [] && closingList == [] && sent == [] && this.config == config
    {
      open, closingList, nextId, sent, Repr := [], [], 1, [], {};
      this.config := config;
    }

    /** `remove_socket`. */
    method Remove(s: Asocket)
      modifies this`open, this`closingList
      ensures open == Without(old(open), {s}) && closingList == Without(old(closingList), {s})
    {
      open := Erase(open, s);
      closingList := Erase(closingList, s);
    }

    static method Erase(xs: seq<Asocket>, s: Asocket) returns (r: seq<Asocket>)
      ensures r == Without(xs, {s})
    {
      r := [];
      var i := 0;
      while i < |xs|
        invariant 0 <= i <= |xs|
        invariant Without(xs, {s}) == r + Without(xs[i..], {s})
      {
        WithoutStep(xs, {s}, i);
        ghost var before, rest := r, Without(xs[i + 1..], {s});
        if xs[i] != s {
          r := r + [xs[i]];
          assert before + ([xs[i]] + rest) == r + rest;
        }
        i := i + 1;
      }
    }

    /** No listed socket but `x` points to `s`. */
    ghost predicate Unreferenced(s: Asocket, x: Asocket?)
      reads this`open, open`peer
    {
      forall s' :: s' in open && s' != x ==> s'.peer != s
    }

    /** Take a socket that nothing points to off both lists; `local_socket_destroy` then frees it. */
    method Unlist(s: Asocket, ghost x: Asocket?)
      requires Wired(x) && Settled(s) && s in open + closingList && Unreferenced(s, x)
      modifies this`open, this`closingList
      ensures ValidBut(x)
      ensures open == Without(old(open), {s}) && closingList == Without(old(closingList), {s})
    {
      ghost var open0, closing0 := open, closingList;
      Remove(s);
      WithoutMembers(open0, {s});
      WithoutMembers(closing0, {s});
    }

    /** Put an open socket with unwritten bytes on the closing list. */
    method Linger(s: Asocket, ghost x: Asocket?)
      requires ValidBut(x) && s in open && s.peer == null && Unreferenced(s, x)
      requires s.queue != [] && !s.hasWriteError
      modifies this`open, this`closingList, s`closing, s`reading
      ensures ValidBut(x)
      ensures open == Without(old(open), {s}) && closingList == old(closingList) + [s]
      ensures s.closing && !s.reading
    {
      WithoutNone(closingList, {s});
      ghost var open0 := open;
      Unlist(s, x);
      WithoutMembers(open0, {s});
      s.closing := true;
      s.reading := false;
      assert s.writing;  // the event loop still waits for the descriptor to become writable
      PushClosing(s, x);
    }

    /** A socket on neither list joins the closing list. */
    method PushClosing(s: Asocket, ghost x: Asocket?)
      requires ValidBut(x) && s !in open && s !in closingList && s in Repr && Dormant(s)
      modifies this`closingList
      ensures ValidBut(x) && closingList == old(closingList) + [s]
    {
      NoDupAppend(closingList, s);
      closingList := closingList + [s];
    }

    /**
     The part of `local_socket_close` after the peer is gone: destroy the socket, or move it to the
     closing list while it has bytes to write.
     */
    method Retire(s: Asocket, ghost x: Asocket?)
      requires ValidBut(x) && s in open && s.peer == null && Unreferenced(s, x)
      modifies this`open, this`closingList, s`closing, s`reading
      ensures ValidBut(x)
      ensures open == Without(old(open), {s})
      ensures s.closing == (s.queue != [] && !s.hasWriteError)
      ensures closingList == old(closingList) + (if s.closing then [s] else [])
      ensures s.closing ==> !s.reading
    {
      if s.closing || s.hasWriteError || s.queue == [] {
        WithoutNone(closingList, {s});
        Unlist(s, x);
      } else {
        Linger(s, x);
      }
    }

    /** Cut the link between an open socket and its peer; a remote peer first sends a CLSE. */
    method Disconnect(s: Asocket)
      requires Valid() && s in open && s.peer != null
      modifies this`sent, s.peer`peer
      ensures ValidBut(s) && s.peer.peer == null && s.peer == old(s.peer)
      ensures s.peer.local ==> Unreferenced(s.peer, s)
      ensures sent == old(sent) + (if s.peer.local then [] else [(s.peer.transport, Clse(s.id, s.peer.id))])
    {
      if !s.peer.local {
        sent := sent + [(s.peer.transport, Clse(s.id, s.peer.id))];
      }
      s.peer.peer := null;
    }

    /** Forget a peer that no longer points back. */
    method Forget(s: Asocket)
      requires ValidBut(s) && s in open && (s.peer != null ==> s.peer.peer == null)
      modifies s`peer
      ensures Valid() && s.peer == null && Unreferenced(s, null)
    {
      s.peer := null;
    }

    /** What closing `s` adds to the closing list. */
    ghost function Lingering(s: Asocket?): seq<Asocket>
      reads s
    {
      if s != null && s.local && s.queue != [] && !s.hasWriteError then [s] else []
    }

    /** The sockets that leave the open list when `s` is closed. */
    ghost function Leaving(s: Asocket): set<Asocket>
      reads s`peer
    {
      if s.peer != null && s.peer.local then {s, s.peer} else {s}
    }

    /** The CLSE that closing `s` sends. */
    ghost function Farewell(s: Asocket): seq<(Option<nat>, Packet)>
      reads s, s.peer
    {
      if s.peer != null && !s.peer.local then [(s.peer.transport, Clse(s.id, s.peer.id))] else []
    }

    /**
     `local_socket_close` of an open socket: it and a local peer leave the open list, each stays on
     the closing list exactly if it still has bytes it can write, and a remote peer sends one CLSE.
     */
    method CloseOpen(s: Asocket)
      requires Valid() && s in open
      modifies this`open, this`closingList, this`sent, Repr`peer, Repr`closing, Repr`reading
      ensures Valid()
      ensures open == Without(old(open), old(Leaving(s))) && s !in open
      ensures closingList == old(closingList) + old(Lingering(s.peer)) + old(Lingering(s))
      ensures sent == old(sent) + old(Farewell(s))
      ensures forall s' :: s' in Repr && s' != s && s' != old(s.peer) ==>
        s'.peer == old(s'.peer) && s'.closing == old(s'.closing) && s'.reading == old(s'.reading)
    {
      ghost var open0, peers := open, if s.peer != null && s.peer.local then {s.peer} else {};
      ClosePeer(s, if s.peer != null then {s.peer} else {}, peers);
      CloseSelf(s);
      WithoutTwice(open0, peers, {s});
      assert peers + {s} == old(Leaving(s));
    }

    /** The second part of the close: the socket itself. */
    method CloseSelf(s: Asocket)
      requires ValidBut(s) && s in open && s.local && (s.peer != null ==> s.peer.peer == null)
      modifies this`open, this`closingList, s`peer, s`closing, s`reading
      ensures Valid() && s !in open && s.peer == null
      ensures open == Without(old(open), {s}) && closingList == old(closingList) + old(Lingering(s))
    {
      Forget(s);
      ghost var before := open;
      Retire(s, null);
      WithoutMembers(before, {s});
    }

    /** The first part of the close: cut the link, and retire a local peer. */
    method ClosePeer(s: Asocket, ghost links: set<Asocket>, ghost peers: set<Asocket>)
      requires Valid() && s in open && links == if s.peer != null then {s.peer} else {}
      requires peers == if s.peer != null && s.peer.local then {s.peer} else {}
      modifies this`open, this`closingList, this`sent, links`peer, links`closing, links`reading
      ensures ValidBut(s) && s in open && s.peer == old(s.peer) && (s.peer != null ==> s.peer.peer == null)
      ensures open == Without(old(open), peers) && closingList == old(closingList) + old(Lingering(s.peer))
      ensures sent == old(sent) + old(Farewell(s))
    {
      ghost var open0 := open;
      if s.peer != null {
        Disconnect(s);
        var p := s.peer;
        if p.local {
          Retire(p, s);
          WithoutMembers(open0, {p});
        }
      }
      if peers == {} { WithoutNone(open0, {}); }
    }

    /** The socket is bound to transport `t`, itself or through its peer. */
    predicate Matches(s: Asocket, t: nat)
      reads s, s.peer
    {
      s.transport == Some(t) || (s.peer != null && s.peer.transport == Some(t))
    }

    /** The index of the first open socket bound to `t`, or the length of the list. */
    method FirstMatch(t: nat) returns (i: nat)
      requires Valid()
      ensures Valid()
      ensures i <= |open| && (i < |open| ==> Matches(open[i], t))
      ensures forall j :: 0 <= j < i ==> !Matches(open[j], t)
    {
      i := 0;
      while i < |open|
        invariant i <= |open|
        invariant forall j :: 0 <= j < i ==> !Matches(open[j], t)
      {
        if Matches(open[i], t) { return; }
        i := i + 1;
      }
    }

    /** There is something left that the socket can still write. */
    ghost predicate CanWrite(s: Asocket)
      reads s`queue, s`hasWriteError
    {
      s.queue != [] && !s.hasWriteError
    }

    /** Close the socket at `i`: what leaves the open list, what is kept for later, and what is sent. */
    method CloseAt(i: nat) returns (ghost leaving: set<Asocket>, ghost late: seq<Asocket>)
      requires Valid() && i < |open|
      modifies this`open, this`closingList, this`sent, Repr`peer, Repr`closing, Repr`reading
      ensures Valid() && leaving == old(Leaving(open[i]))
      ensures open == Without(old(open), leaving)
      ensures closingList == old(closingList) + late && forall s :: s in late <==> s in leaving && CanWrite(s)
      ensures sent == old(sent) + old(Farewell(open[i]))
      ensures forall s :: s in open ==>
        s in old(open) && s.peer == old(s.peer) && s.closing == old(s.closing) && s.reading == old(s.reading)
    {
      ghost var before := open;
      leaving := Leaving(open[i]);
      late := Lingering(open[i].peer) + Lingering(open[i]);
      assert Paired(open[i]);
      CloseOpen(open[i]);
      WithoutMembers(before, leaving);
    }

    /** The local peer of an open socket is open, bound to the same transport and has nothing to send. */
    lemma LeavingTogether(s: Asocket, t: nat)
      requires Valid() && s in open && Matches(s, t)
      ensures forall s' :: s' in Leaving(s) ==> s' in open && Matches(s', t)
      ensures forall s' :: s' in Leaving(s) && s' != s ==> Farewell(s') == []
    {
      assert Paired(s);
    }

    /** Close one match; what leaves the list with it matches as well, because a link is seen from both sides. */
    method CloseMatch(i: nat, t: nat) returns (ghost leaving: set<Asocket>, ghost late: seq<Asocket>)
      requires Valid() && i < |open| && Matches(open[i], t)
      modifies this`open, this`closingList, this`sent, Repr`peer, Repr`closing, Repr`reading
      ensures Valid() && leaving == old(Leaving(open[i]))
      ensures open == Without(old(open), leaving) && |open| < |old(open)|
      ensures forall s :: s in leaving ==> s in old(open) && old(Matches(s, t))
      ensures closingList == old(closingList) + late && forall s :: s in late <==> s in leaving && CanWrite(s)
      ensures sent == old(sent) + old(Farewell(open[i])) && old(open[i]) in leaving
      ensures forall s :: s in leaving && s != old(open[i]) ==> old(Farewell(s)) == []
      ensures forall s :: s in open ==> PictureOf(s, t) == old(PictureOf(s, t))
      ensures forall s :: s in open ==>
        s in old(open) && s.peer == old(s.peer) && s.closing == old(s.closing) && s.reading == old(s.reading)
    {
      ghost var before := open;
      LeavingTogether(open[i], t);
      leaving, late := CloseAt(i);
      WithoutMembers(before, leaving);
    }

    /** The CLSE that `close_all_sockets` sends for a socket. */
    ghost function Word(s: Asocket, t: nat): seq<(Option<nat>, Packet)>
      reads s, s.peer
    {
      if Matches(s, t) then Farewell(s) else []
    }

    /** The CLSE packets of all the sockets in a list, in the order of the list. */
    ghost function Goodbyes(xs: seq<Asocket>, t: nat): seq<(Option<nat>, Packet)>
      reads xs, set s | s in xs && s.peer != null :: s.peer
    {
      if xs == [] then [] else Word(xs[0], t) + Goodbyes(xs[1..], t)
    }

    ghost function PictureOf(s: Asocket, t: nat): Picture
      reads s, s.peer
    {
      Picture(Matches(s, t), Word(s, t), CanWrite(s), s.peer, s.closing, s.reading)
    }

    /** The open sockets look like their pictures. */
    ghost predicate Pictured(t: nat, album: Album)
      reads this`open, open, set s | s in open && s.peer != null :: s.peer
    {
      forall s :: s in open ==> s in album && album[s] == PictureOf(s, t)
    }

    lemma {:induction false} GoodbyesSpoken(xs: seq<Asocket>, t: nat, album: Album)
      requires forall s :: s in xs ==> s in album && album[s] == PictureOf(s, t)
      ensures Goodbyes(xs, t) == Spoken(xs, album)
    {
      if xs != [] {
        GoodbyesSpoken(xs[1..], t, album);
      }
    }

    /** Of all that is still to be said, the first match says its part. */
    lemma FirstIsHeard(i: nat, t: nat, album: Album, leaving: set<Asocket>)
      requires Valid() && Pictured(t, album) && i < |open| && Matches(open[i], t) && leaving == Leaving(open[i])
      requires forall j :: 0 <= j < i ==> !Matches(open[j], t)
      ensures AllIn(open, album) && album[open[i]].word == Farewell(open[i])
      ensures AllIn(Without(open, leaving), album)
      ensures Spoken(open, album) == album[open[i]].word + Spoken(Without(open, leaving), album)
    {
      LeavingTogether(open[i], t);
      SpokenFirst(open, album, leaving, i);
    }

    /** One close, seen in the pictures. */
    method ClosePictured(i: nat, t: nat, ghost album: Album)
      returns (ghost leaving: set<Asocket>, ghost late: seq<Asocket>)
      requires Valid() && Pictured(t, album) && i < |open| && Matches(open[i], t)
      modifies this`open, this`closingList, this`sent, Repr`peer, Repr`closing, Repr`reading
      ensures Valid() && Pictured(t, album) && leaving == old(Leaving(open[i]))
      ensures open == Without(old(open), leaving) && |open| < |old(open)|
      ensures closingList == old(closingList) + late && Kept(late, leaving, album)
      ensures sent == old(sent) + old(Farewell(open[i]))
    {
      leaving, late := CloseMatch(i, t);
    }

    ghost function Now(): Lists
      reads this`open, this`closingList, this`sent
    {
      Lists(open, closingList, sent)
    }

    /** Closing the first match sends what it has to say. */
    method CloseHeard(i: nat, t: nat, ghost album: Album)
      returns (ghost leaving: set<Asocket>, ghost late: seq<Asocket>)
      requires Valid() && Pictured(t, album) && i < |open| && Matches(open[i], t)
      requires forall j :: 0 <= j < i ==> !Matches(open[j], t)
      modifies this`open, this`closingList, this`sent, Repr`peer, Repr`closing, Repr`reading
      ensures Valid() && Pictured(t, album) && |open| < |old(open)|
      ensures Closed(old(Now()), Now(), leaving, late, album)
    {
      ghost var word, sent0 := album[open[i]].word, sent;
      FirstIsHeard(i, t, album, Leaving(open[i]));
      leaving, late := ClosePictured(i, t, album);
      assert (sent0 + word) + Spoken(open, album) == sent0 + (word + Spoken(open, album));
    }

    /** One scan of the list: close the first match, if there is one. */
    method CloseFirst(t: nat, ghost album: Album)
      returns (found: bool, ghost leaving: set<Asocket>, ghost late: seq<Asocket>)
      requires Valid() && Pictured(t, album)
      modifies this`open, this`closingList, this`sent, Repr`peer, Repr`closing, Repr`reading
      ensures Valid() && Pictured(t, album)
      ensures found ==> |open| < |old(open)|
      ensures !found ==> forall s :: s in open ==> !album[s].bound
      ensures Closed(old(Now()), Now(), leaving, late, album)
    {
      var i := FirstMatch(t);
      found := i < |open|;
      if found {
        leaving, late := CloseHeard(i, t, album);
      } else {
        leaving, late := {}, [];
        ClosedNone(Now(), album);
      }
    }

    /** The restarting scan of `close_all_sockets`. */
    method CloseMatches(t: nat, ghost album: Album) returns (ghost gone: set<Asocket>, ghost late: seq<Asocket>)
      requires Valid() && Pictured(t, album)
      modifies this`open, this`closingList, this`sent, Repr`peer, Repr`closing, Repr`reading
      ensures Valid() && Pictured(t, album)
      ensures forall s :: s in open ==> !album[s].bound
      ensures Closed(old(Now()), Now(), gone, late, album)
    {
      gone, late := {}, [];
      ghost var start := Now();
      ClosedNone(start, album);
      var found := true;
      while found
        invariant Valid() && Pictured(t, album)
        invariant !found ==> forall s :: s in open ==> !album[s].bound
        invariant Closed(start, Now(), gone, late, album)
        decreases found, |open|
      {
        ghost var before, leaving, more := Now(), {}, [];
        found, leaving, more := CloseFirst(t, album);
        ClosedTwice(start, before, Now(), gone, late, leaving, more, album);
        gone, late := gone + leaving, late + more;
      }
    }

    /** `close_all_sockets`: the scan restarts after every close, because a close changes the list. */
    method CloseAll(t: nat)
      requires Valid()
      modifies this`open, this`closingList, this`sent, Repr`peer, Repr`closing, Repr`reading
      ensures Valid()
      ensures forall s :: s in open ==> !Matches(s, t)
      ensures open == Without(old(open), set s | s in old(open) && old(Matches(s, t)))
      ensures forall s :: s in open ==>
        s.peer == old(s.peer) && s.closing == old(s.closing) && s.reading == old(s.reading)
      ensures old(closingList) <= closingList
      ensures forall s :: s in closingList[|old(closingList)|..] <==>
        s in old(open) && old(Matches(s, t)) && CanWrite(s)
      ensures sent == old(sent) + old(Goodbyes(open, t))
    {
      ghost var doomed := set s | s in open && Matches(s, t);
      ghost var album := map s | s in open :: PictureOf(s, t);
      GoodbyesSpoken(open, t, album);
      ghost var gone, late := CloseMatches(t, album);
      ClosedAll(old(Now()), Now(), gone, late, album, doomed);
    }

    // ---------- data ----------

    ghost function RemoteId(s: Asocket): Option<nat>
      reads s, s.peer
    {
      if s.peer != null then Some(s.peer.id) else None
    }

    /** The write at the top of `local_socket_flush_incoming`. */
    method WriteOut(s: Asocket, w: Write) returns (flushed: nat)
      requires Wired(null) && Settled(s) && ValidWrite(s.queue, w)
      modifies s`queue, s`hasWriteError
      ensures Wired(null) && Settled(s)
      ensures forall r :: s.Value(r) == AfterWrite(old(s.Value(r)), w)
      ensures flushed == |Flushed(old(s.Value(None)), w)|
    {
      flushed := 0;
      if s.queue != [] {
        match w {
          case Wrote(n) =>
            flushed := n;
            if n == |s.queue| { s.queue := []; } else { s.queue := s.queue[n..]; }
          case WouldBlock =>
          case WriteFailed => s.hasWriteError := true;
        }
      }
    }

    /** The acknowledgements of `local_socket_flush_incoming`. */
    method Acknowledge(s: Asocket, flushed: nat)
      modifies this`sent
      ensures sent == old(sent) + AcksOf(s, flushed)
    {
      if s.transport.Some? && s.peer != null {
        if s.credit.Some? {
          sent := sent + [(s.transport, Ready(config, s.id, s.peer.id, flushed))];
        } else if flushed != 0 && |s.queue| < MAX_PAYLOAD {
          sent := sent + [(s.transport, Ready(config, s.id, s.peer.id, 0))];
        }
      }
    }

    /**
     A connected socket of a transport tells the other end what it wrote: with credit, how much; without,
     only that it takes more, if it wrote something and less than 1 MiB is left.
     */
    ghost function AcksOf(s: Asocket, flushed: nat): seq<(Option<nat>, Packet)>
      reads s, s.peer
    {
      if s.transport.None? || s.peer == null then []
      else if s.credit.Some? then
        [(s.transport, Okay(s.id, s.peer.id, if config.delayedAck then Some(flushed % 0x1_0000_0000) else None))]
      else if flushed > 0 && |s.queue| < 0x10_0000 then
        [(s.transport, Okay(s.id, s.peer.id, if config.delayedAck then Some(0) else None))]
      else []
    }

    /** These are the answers of the endpoint. */
    lemma AnswersAgree(s: Asocket, flushed: nat)
      requires s.transport.Some?
      ensures var acks := AcksFor(config, s.id, s.Value(RemoteId(s)), flushed);
        AcksOf(s, flushed) == if acks == [] then [] else [(s.transport, acks[0])]
    {
    }

    /** The end of `local_socket_flush_incoming`: destroy a drained closing socket, or set write interest. */
    method Conclude(s: Asocket) returns (res: FlushResult)
      requires Wired(null) && Settled(s) && s in open + closingList
      requires s.local && s.closing == (s in closingList) && (s.closing ==> s.peer == null && !s.reading)
      modifies this`closingList, this`open, s`writing
      ensures Valid() && open == old(open)
      ensures res.Destroyed? <==> s in old(closingList) && (s.queue == [] || s.hasWriteError)
      ensures res.TryAgain? <==> s.queue != [] && !s.hasWriteError
      ensures closingList == if res.Destroyed? then Without(old(closingList), {s}) else old(closingList)
      ensures !res.Destroyed? ==> s.writing == res.TryAgain?
    {
      var fdFull := s.queue != [] && !s.hasWriteError;
      if s.closing && !fdFull {
        WithoutNone(open, {s});
        Unlist(s, null);
        res := Destroyed;
      } else {
        s.writing := fdFull;
        res := if fdFull then TryAgain else Completed;
      }
    }

    /**
     `local_socket_flush_incoming`. The queue loses exactly what was written, the other end is told,
     and a closing socket is destroyed exactly when nothing is left that it could write.
     */
    method FlushIncoming(s: Asocket, w: Write) returns (res: FlushResult)
      requires Wired(null) && Settled(s) && s in open + closingList && ValidWrite(s.queue, w)
      requires s.local && s.closing == (s in closingList) && (s.closing ==> s.peer == null && !s.reading)
      modifies this`closingList, this`open, this`sent, s`queue, s`hasWriteError, s`writing
      ensures Valid() && open == old(open)
      ensures s.queue == AfterWrite(old(s.Value(None)), w).queue
      ensures s.hasWriteError == AfterWrite(old(s.Value(None)), w).writeError
      ensures sent == old(sent) + AcksOf(s, |Flushed(old(s.Value(None)), w)|)
      ensures res.Destroyed? <==> s in old(closingList) && (s.queue == [] || s.hasWriteError)
      ensures res.TryAgain? <==> s.queue != [] && !s.hasWriteError
      ensures closingList == if res.Destroyed? then Without(old(closingList), {s}) else old(closingList)
      ensures !res.Destroyed? ==> s.writing == res.TryAgain?
    {
      var flushed := WriteOut(s, w);
      Acknowledge(s, flushed);
      res := Conclude(s);
    }

    /** `local_socket_enqueue`: append and write at once; it never destroys an open socket. */
    method Enqueue(s: Asocket, data: seq<byte>, w: Write) returns (r: int)
      requires Valid() && s in open && ValidWrite(s.queue + data, w)
      modifies this`closingList, this`open, this`sent, s`queue, s`hasWriteError, s`writing
      ensures Valid() && open == old(open) && closingList == old(closingList)
      ensures s.queue == AfterWrite(old(s.Value(None)).(queue := old(s.queue) + data), w).queue
      ensures s.hasWriteError == AfterWrite(old(s.Value(None)).(queue := old(s.queue) + data), w).writeError
      ensures r == if s.queue != [] && !s.hasWriteError then 1 else 0
      ensures s.writing == (r == 1)
      ensures sent == old(sent) + AcksOf(s, |Flushed(old(s.Value(None)).(queue := old(s.queue) + data), w)|)
    {
      s.queue := s.queue + data;
      var res := FlushIncoming(s, w);
      r := match res case Destroyed => -1 case TryAgain => 1 case Completed => 0;
    }

    /** `remote_socket_enqueue`: send a WRTE and wait for an answer; a payload that is too long is refused. */
    method EnqueueRemote(s: Asocket, data: seq<byte>) returns (r: int)
      requires Valid() && s in open && s.peer != null && !s.peer.local
      modifies this`sent
      ensures Valid() && r == if |data| <= MAX_PAYLOAD then 1 else -1
      ensures sent == old(sent) + if r == 1 then [(s.peer.transport, Wrte(s.id, s.peer.id, data))] else []
    {
      if |data| > MAX_PAYLOAD {
        return -1;
      }
      sent := sent + [(s.peer.transport, Wrte(s.id, s.peer.id, data))];
      r := 1;
    }

    /** Drop read interest when the peer cannot take more; `r` is what its enqueue returned. */
    method Throttle(s: Asocket, r: int)
      requires Valid() && s in open
      modifies s`reading
      ensures Valid()
      ensures s.reading == (old(s.reading) && !(r > 0 && OutOfCredit(s)))
    {
      if r > 0 {
        if OutOfCredit(s) {
          s.reading := false;
        }
      }
    }

    /** The sender has to wait for an acknowledgement. */
    predicate OutOfCredit(s: Asocket)
      reads s`credit
    {
      s.credit.None? || s.credit.value <= 0
    }

    method Deduct(s: Asocket, n: nat)
      requires Valid() && s in open
      modifies s`credit
      ensures Valid() && s.credit == if old(s.credit).Some? then Some(old(s.credit).value - n) else None
    {
      if s.credit.Some? {
        s.credit := Some(s.credit.value - n);
      }
    }

    /** A local socket after `data` was enqueued and the write `w` was made. */
    ghost function Received(p: Asocket, data: seq<byte>, w: Write): Sock
      requires ValidWrite(p.queue + data, w)
      reads p, p.peer
    {
      AfterWrite(p.Value(RemoteId(p)).(queue := p.queue + data), w)
    }

    /** What a local socket answers to `data` when it makes the write `w`. */
    ghost function Answer(p: Asocket, data: seq<byte>, w: Write): seq<(Option<nat>, Packet)>
      requires ValidWrite(p.queue + data, w)
      reads p, p.peer
    {
      var flushed := |Flushed(p.Value(RemoteId(p)).(queue := p.queue + data), w)|;
      var acks := AcksFor(config, p.id, Received(p, data, w), flushed);
      if p.transport.None? || acks == [] then [] else [(p.transport, acks[0])]
    }

    /** `local_socket_enqueue` to the peer of an open socket. */
    method EnqueueLocal(s: Asocket, data: seq<byte>, w: Write) returns (r: int)
      requires Valid() && s in open && s.peer != null && s.peer.local && ValidWrite(s.peer.queue + data, w)
      modifies this`closingList, this`open, this`sent, s.peer`queue, s.peer`hasWriteError, s.peer`writing
      ensures Valid() && open == old(open) && closingList == old(closingList)
      ensures s.peer.queue == old(Received(s.peer, data, w)).queue
      ensures s.peer.hasWriteError == old(Received(s.peer, data, w)).writeError
      ensures s.peer.writing == FdFull(old(Received(s.peer, data, w))) && r == if s.peer.writing then 1 else 0
      ensures sent == old(sent) + old(Answer(s.peer, data, w))
    {
      assert Paired(s);
      r := Enqueue(s.peer, data, w);
    }

    /** Hand bytes read from the descriptor of `s` to its peer, in `local_socket_flush_outgoing`. */
    method Forward(s: Asocket, data: seq<byte>, w: Write)
      requires Valid() && s in open && s.peer != null && data != [] && |data| <= MAX_PAYLOAD
      requires s.peer.local ==> ValidWrite(s.peer.queue + data, w)
      modifies this`closingList, this`open, this`sent, s`credit, s`reading
      modifies s.peer`queue, s.peer`hasWriteError, s.peer`writing
      ensures Valid() && open == old(open) && closingList == old(closingList)
      ensures !s.peer.local ==>
        && s.Value(None) == Charge(old(s.Value(None)), |data|)
        && sent == old(sent) + [(s.peer.transport, Wrte(s.id, s.peer.id, data))]
      ensures s.peer.local ==>
        && s.peer.queue == old(Received(s.peer, data, w)).queue
        && s.peer.hasWriteError == old(Received(s.peer, data, w)).writeError
        && s.peer.writing == FdFull(old(Received(s.peer, data, w)))
        && sent == old(sent) + old(Answer(s.peer, data, w))
        && s.credit == (if old(s.credit).Some? then Some(old(s.credit).value - |data|) else None)
        && s.reading == (old(s.reading) && !(s.peer.writing && OutOfCredit(s)))
    {
      Deduct(s, |data|);
      var r;
      if s.peer.local {
        r := EnqueueLocal(s, data, w);
      } else {
        r := EnqueueRemote(s, data);
      }
      Throttle(s, r);
    }

    /** `local_socket_close`. */
    method Close(s: Asocket)
      requires Valid() && s in open + closingList
      modifies this`open, this`closingList, this`sent, Repr`peer, Repr`closing, Repr`reading
      ensures Valid()
      ensures s in old(open) ==>
        && open == Without(old(open), old(Leaving(s))) && s !in open
        && closingList == old(closingList) + old(Lingering(s.peer)) + old(Lingering(s))
        && sent == old(sent) + old(Farewell(s))
      ensures s in old(closingList) ==>
        open == old(open) && closingList == Without(old(closingList), {s}) && sent == old(sent)
      ensures forall s' :: s' in Repr && s' != s && s' != old(s.peer) ==>
        s'.peer == old(s'.peer) && s'.closing == old(s'.closing) && s'.reading == old(s'.reading)
    {
      if s.closing {
        WithoutNone(open, {s});
        Unlist(s, null);
      } else {
        CloseOpen(s);
      }
    }

    ghost predicate PeerLocal(s: Asocket)
      reads s`peer
    {
      s.peer != null && s.peer.local
    }

    /** What reading `data` from the descriptor of `s` sends: a WRTE, or the answer of a local peer. */
    ghost function Carried(s: Asocket, data: seq<byte>, w: Write): seq<(Option<nat>, Packet)>
      requires PeerLocal(s) ==> ValidWrite(s.peer.queue + data, w)
      reads s, s.peer, if s.peer != null then {s.peer.peer} else {}
    {
      if data == [] || s.peer == null then []
      else if s.peer.local then Answer(s.peer, data, w)
      else [(s.peer.transport, Wrte(s.id, s.peer.id, data))]
    }

    /** A local peer after the bytes were handed over; without bytes nothing is enqueued. */
    ghost function Fed(p: Asocket, data: seq<byte>, w: Write): Sock
      requires ValidWrite(p.queue + data, w)
      reads p, p.peer
    {
      if data == [] then p.Value(RemoteId(p)) else Received(p, data, w)
    }

    /** The first half of `local_socket_flush_outgoing` after its read loop. */
    method HandOver(s: Asocket, data: seq<byte>, w: Write)
      requires Valid() && s in open + closingList && |data| <= MAX_PAYLOAD
      requires PeerLocal(s) ==> ValidWrite(s.peer.queue + data, w)
      modifies this`closingList, this`open, this`sent, s`credit, s`reading
      modifies Repr`queue, Repr`hasWriteError, Repr`writing
      ensures Valid() && open == old(open) && closingList == old(closingList)
      ensures sent == old(sent) + old(Carried(s, data, w))
      ensures forall s' :: s' in Repr && s' != s && s' != s.peer ==> unchanged(s')
      ensures s.queue == old(s.queue) && s.hasWriteError == old(s.hasWriteError)
      ensures PeerLocal(s) ==>
        && s.peer.queue == old(Fed(s.peer, data, w)).queue
        && s.peer.hasWriteError == old(Fed(s.peer, data, w)).writeError
      ensures data != [] && s.peer != null && !PeerLocal(s) ==> s.Value(None) == Charge(old(s.Value(None)), |data|)
      ensures data != [] && PeerLocal(s) ==>
        && s.credit == (if old(s.credit).Some? then Some(old(s.credit).value - |data|) else None)
        && s.reading == (old(s.reading) && !(s.peer.writing && OutOfCredit(s)))
    {
      if data != [] && s.peer != null {
        assert Paired(s);
        Forward(s, data, w);
      }
    }

    /**
     `local_socket_flush_outgoing` after its read loop, which reads at most `MAX_PAYLOAD` bytes; the
     result is whether the socket is still open.
     */
    method FlushOutgoing(s: Asocket, data: seq<byte>, eof: bool, w: Write) returns (alive: bool)
      requires Valid() && s in open + closingList && |data| <= MAX_PAYLOAD
      requires PeerLocal(s) ==> ValidWrite(s.peer.queue + data, w)
      modifies this`closingList, this`open, this`sent, Repr
      ensures Valid() && alive == !eof
      ensures sent == old(sent) + old(Carried(s, data, w)) + (if eof then old(Farewell(s)) else [])
      ensures old(PeerLocal(s)) ==>
        && old(s.peer).queue == old(Fed(s.peer, data, w)).queue
        && old(s.peer).hasWriteError == old(Fed(s.peer, data, w)).writeError
      ensures !eof ==> open == old(open) && closingList == old(closingList) && s.peer == old(s.peer)
      ensures !eof && data != [] && s.peer != null && !PeerLocal(s) ==>
        s.Value(None) == Charge(old(s.Value(None)), |data|)
      ensures !eof && data != [] && PeerLocal(s) ==>
        && s.credit == (if old(s.credit).Some? then Some(old(s.credit).value - |data|) else None)
        && s.reading == (old(s.reading) && !(s.peer.writing && OutOfCredit(s)))
      ensures eof && s in old(closingList) ==> open == old(open) && closingList == Without(old(closingList), {s})
      ensures eof && s in old(open) ==>
        && open == Without(old(open), old(Leaving(s)))
        && closingList == old(closingList)
          + (if old(PeerLocal(s)) && FdFull(old(Fed(s.peer, data, w))) then [old(s.peer)] else []) + old(Lingering(s))
      ensures forall s' :: s' in Repr && s' != s && s' != old(s.peer) ==> unchanged(s')
    {
      HandOver(s, data, w);
      if eof {
        Close(s);
      }
      return !eof;
    }

    /** `local_socket_ack`. */
    method Ack(s: Asocket, acked: Option<int>)
      requires Valid() && s in open
      modifies s`credit, s`reading
      ensures Valid() && s.Value(None) == StreamEndpoint.Ack(old(s.Value(None)), acked)
    {
      if s.credit.Some? != acked.Some? {
        return;
      }
      if s.credit.Some? {
        Grant(s, acked.value);
        if s.credit.value > 0 { ArmRead(s); }
      } else {
        ArmRead(s);
      }
    }

    method Grant(s: Asocket, n: int)
      requires Valid() && s in open && s.credit.Some?
      modifies s`credit
      ensures Valid() && s.credit == Some(old(s.credit).value + n)
    {
      s.credit := Some(s.credit.value + n);
    }

    method ArmRead(s: Asocket)
      requires Valid() && s in open
      modifies s`reading
      ensures Valid() && s.reading
    {
      s.reading := true;
    }

    /** `find_local_socket`. */
    method Find(localId: nat, peerId: nat) returns (r: Asocket?)
      requires Valid()
      ensures r != null ==> r in open && r.id == localId && (peerId == 0 || RemoteId(r) == Some(peerId))
      ensures r == null ==> forall s :: s in open && s.id == localId ==> peerId != 0 && RemoteId(s) != Some(peerId)
    {
      r := null;
      var i := 0;
      while i < |open|
        invariant 0 <= i <= |open|
        invariant forall j :: 0 <= j < i ==> open[j].id != localId
      {
        var s := open[i];
        if s.id == localId {
          if peerId == 0 || (s.peer != null && s.peer.id == peerId) {
            r := s;
          }
          assert forall s' :: s' in open && s'.id == localId ==> s' == s;
          return;
        }
        i := i + 1;
      }
    }

    /** `create_local_socket` with `install_local_socket`. */
    method Install(transport: Option<nat>) returns (s: Asocket)
      requires Valid()
      modifies this`open, this`nextId, this`Repr
      ensures Valid() && fresh(s) && open == old(open) + [s] && closingList == old(closingList)
      ensures s.id == old(nextId) && nextId == old(nextId) + 1 && Repr == old(Repr) + {s}
      ensures s.peer == null && s.queue == [] && s.transport == transport
    {
      s := new Asocket(true, nextId, transport);
      NoDupAppend(open, s);
      nextId := nextId + 1;
      Repr := Repr + {s};
      open := open + [s];
    }

    /** `create_remote_socket` and the two links that an OPEN or a first OKAY sets up. */
    method ConnectRemote(s: Asocket, remoteId: nat, t: nat)
      requires Valid() && s in open && s.peer == null
      modifies this`Repr, s`peer
      ensures Valid() && s.peer != null && fresh(s.peer) && !s.peer.local && Repr == old(Repr) + {s.peer}
      ensures s.peer.id == remoteId && s.peer.transport == Some(t)
    {
      var r := new Asocket(false, remoteId, Some(t));
      r.peer := s;
      s.peer := r;
      Repr := Repr + {r};
    }

    /** Peer two local sockets, as for a service of the host itself. */
    method ConnectLocal(s: Asocket, s2: Asocket)
      requires Valid() && s in open && s2 in open && s != s2 && s.peer == null && s2.peer == null
      modifies s`peer, s2`peer
      ensures Valid() && s.peer == s2 && s2.peer == s
    {
      s.peer := s2;
      s2.peer := s;
    }
  }
}
