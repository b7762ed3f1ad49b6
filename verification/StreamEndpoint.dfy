/**
 The stream engine of one ADB endpoint: what a local socket does when its descriptor becomes
 readable or writable, and what `handle_packet` does with OPEN, OKAY, WRTE and CLSE.

 A socket is modelled together with a log of the bytes it took from and gave to its
 descriptor, so that statements about whole streams can be made after it is gone.
 */
module StreamEndpoint {
  import opened Common

  const MAX_PAYLOAD: nat := 1024 * 1024
  const INITIAL_DELAYED_ACK_BYTES: nat := 32 * 1024 * 1024

  /** The most blocks that `adb_writev` passes on; a queued block is one payload. */
  const IOV_MAX: nat := 1024
  /** What one write can return: Windows aborts beyond it, and elsewhere `IOV_MAX` blocks are shorter. */
  const MAX_WRITE: nat := 0x7fff_ffff

  /** What the two ends agreed on when the transport came up. */
  datatype Config = Config(delayedAck: bool)

  datatype Packet =
    | Open(src: nat, window: nat)
    | Okay(src: nat, dst: nat, ack: Option<nat>)
    | Wrte(src: nat, dst: nat, data: seq<byte>)
    | Clse(src: nat, dst: nat)

  /** The fields of `asocket` that a local socket uses; `peer` is the id of its remote socket. */
  datatype Sock = Sock(
    peer: Option<nat>,
    queue: seq<byte>,
    credit: Option<int>,
    reading: bool,
    writing: bool,
    writeError: bool)

  /** Bytes taken from the descriptor, bytes handed to the transport, bytes given to the descriptor. */
  datatype Log = Log(read: seq<byte>, sent: seq<byte>, written: seq<byte>)

  /** A socket on the open list, on the closing list, or destroyed. */
  datatype End =
    | Live(sock: Sock, log: Log)
    | Lingering(sock: Sock, log: Log)
    | Gone(log: Log)

  /** What writev on the descriptor did. */
  datatype Write = Wrote(n: nat) | WouldBlock | WriteFailed

  datatype EndOut = EndOut(end: End, out: seq<Packet>)

  /**
   One endpoint: every socket ever created, the ids it sent an OPEN for, and how it answered the
   OPENs of the other end (`None` is a refusal).
   */
  datatype Host = Host(
    ends: map<nat, End>,
    openedIds: set<nat>,
    answers: map<nat, Option<nat>>,
    nextId: nat,
    maxPayload: nat)

  datatype HostOut = HostOut(host: Host, out: seq<Packet>)

  predicate ValidWrite(queue: seq<byte>, w: Write) {
    w.Wrote? ==> 0 < w.n <= |queue| && w.n <= MAX_WRITE
  }

  function ToUint32(n: nat): nat { n % 0x1_0000_0000 }

  /** The four payload bytes of an OKAY re-read as a signed number. */
  function AsInt32(u: nat): int { if u < 0x8000_0000 then u else u - 0x1_0000_0000 }

  function Window(c: Config): nat { if c.delayedAck then INITIAL_DELAYED_ACK_BYTES else 0 }

  /** The OKAY that `send_ready` builds. */
  function Ready(c: Config, src: nat, dst: nat, bytes: nat): Packet {
    Okay(src, dst, if c.delayedAck then Some(ToUint32(bytes)) else None)
  }

  /** A socket as `connect_to_remote` leaves it. */
  function FreshSock(c: Config): Sock {
    Sock(None, [], if c.delayedAck then Some(0) else None, false, false, false)
  }

  const NoLog: Log := Log([], [], [])

  // ---------- local_socket_flush_incoming ----------

  function AfterWrite(s: Sock, w: Write): Sock
    requires ValidWrite(s.queue, w)
  {
    if s.queue == [] then s
    else match w
      case Wrote(n) => s.(queue := s.queue[n..])
      case WouldBlock => s
      case WriteFailed => s.(writeError := true)
  }

  function Flushed(s: Sock, w: Write): seq<byte>
    requires ValidWrite(s.queue, w)
  {
    if w.Wrote? then s.queue[..w.n] else []
  }

  predicate FdFull(s: Sock) { s.queue != [] && !s.writeError }

  /** `s` is the socket after the write of `flushed` bytes. */
  function AcksFor(c: Config, id: nat, s: Sock, flushed: nat): seq<Packet> {
    if s.peer.None? then []
    else if s.credit.Some? then [Ready(c, id, s.peer.value, flushed)]
    else if flushed != 0 && |s.queue| < MAX_PAYLOAD then [Ready(c, id, s.peer.value, 0)]
    else []
  }

  function FlushIncoming(c: Config, id: nat, e: End, w: Write): EndOut
    requires !e.Gone? && ValidWrite(e.sock.queue, w)
  {
    var s := AfterWrite(e.sock, w);
    var bytes := Flushed(e.sock, w);
    var log := e.log.(written := e.log.written + bytes);
    var out := AcksFor(c, id, s, |bytes|);
    if e.Lingering? && !FdFull(s) then EndOut(Gone(log), out)
    else if e.Lingering? then EndOut(Lingering(s.(writing := true), log), out)
    else EndOut(Live(s.(writing := FdFull(s)), log), out)
  }

  // ---------- local_socket_close ----------

  function Close(id: nat, e: End): EndOut
    requires !e.Gone?
  {
    var out := if e.sock.peer.Some? then [Clse(id, e.sock.peer.value)] else [];
    if e.Lingering? || e.sock.writeError || e.sock.queue == [] then EndOut(Gone(e.log), out)
    else EndOut(Lingering(e.sock.(peer := None, reading := false), e.log), out)
  }

  // ---------- local_socket_flush_outgoing ----------

  /** Charge `n` sent bytes and drop read interest when the other end must answer first. */
  function Charge(s: Sock, n: nat): Sock {
    match s.credit
    case Some(k) => s.(credit := Some(k - n), reading := s.reading && k - n > 0)
    case None => s.(reading := false)
  }

  /** Hand what the read loop obtained to the peer; without a peer it is dropped. */
  function Forward(id: nat, e: End, data: seq<byte>): EndOut
    requires !e.Gone?
  {
    var log := e.log.(read := e.log.read + data);
    if data != [] && e.sock.peer.Some? then
      EndOut(e.(sock := Charge(e.sock, |data|), log := log.(sent := log.sent + data)),
             [Wrte(id, e.sock.peer.value, data)])
    else EndOut(e.(log := log), [])
  }

  /** `data` is everything the read loop obtained, `eof` that it ended in end-of-file or an error. */
  function FlushOutgoing(id: nat, e: End, data: seq<byte>, eof: bool): EndOut
    requires !e.Gone?
  {
    var r := Forward(id, e, data);
    if !eof then r
    else
      var closed := Close(id, r.end);
      EndOut(closed.end, r.out + closed.out)
  }

  // ---------- handle_packet ----------

  /** `local_socket_ack`. */
  function Ack(s: Sock, acked: Option<int>): Sock {
    match (s.credit, acked)
    case (Some(k), Some(n)) => s.(credit := Some(k + n), reading := s.reading || k + n > 0)
    case (None, None) => s.(reading := true)
    case (_, _) => s
  }

  function HandleOkay(e: End, p: Packet): End
    requires e.Live? && p.Okay?
  {
    var acked := if p.ack.Some? then Some(AsInt32(p.ack.value)) else None;
    match e.sock.peer
    case None => e.(sock := Ack(e.sock.(peer := Some(p.src)), acked).(reading := true))
    case Some(b) => if b == p.src then e.(sock := Ack(e.sock, acked)) else e
  }

  function Append(e: End, data: seq<byte>): End
    requires e.Live?
  {
    e.(sock := e.sock.(queue := e.sock.queue + data))
  }

  /** `local_socket_enqueue`: append, then try to write at once. */
  function Enqueue(c: Config, id: nat, e: End, data: seq<byte>, w: Write): EndOut
    requires e.Live? && ValidWrite(e.sock.queue + data, w)
  {
    FlushIncoming(c, id, Append(e, data), w)
  }

  /** `find_local_socket`: an open socket, and with a non-zero `peer` only if connected to it. */
  predicate Found(h: Host, id: nat, peer: nat) {
    id in h.ends && h.ends[id].Live? && (peer == 0 || h.ends[id].sock.peer == Some(peer))
  }

  function Refuse(h: Host, src: nat): HostOut {
    HostOut(h.(answers := h.answers[src := None]), [Clse(0, src)])
  }

  function Accept(c: Config, h: Host, src: nat, window: nat): HostOut {
    var sock := Sock(Some(src), [], if c.delayedAck then Some(window) else None, true, false, false);
    HostOut(h.(ends := h.ends[h.nextId := Live(sock, NoLog)],
               answers := h.answers[src := Some(h.nextId)],
               nextId := h.nextId + 1),
            [Ready(c, h.nextId, src, Window(c))])
  }

  predicate CanDeliver(h: Host, p: Packet, w: Write) {
    p.Wrte? && Found(h, p.dst, p.src) ==> ValidWrite(h.ends[p.dst].sock.queue + p.data, w)
  }

  function With(h: Host, id: nat, r: EndOut): HostOut {
    HostOut(h.(ends := h.ends[id := r.end]), r.out)
  }

  /** `w` is the outcome of the write a WRTE attempts at once, `accept` whether a service answers an OPEN. */
  function Deliver(c: Config, h: Host, p: Packet, w: Write, accept: bool): HostOut
    requires CanDeliver(h, p, w)
  {
    match p
    case Open(src, window) =>
      if src == 0 then HostOut(h, [])
      else if c.delayedAck != (window != 0) || !accept then Refuse(h, src)
      else Accept(c, h, src, window)
    case Okay(src, dst, _) =>
      if src == 0 || dst == 0 then HostOut(h, [])
      else if Found(h, dst, 0) then With(h, dst, EndOut(HandleOkay(h.ends[dst], p), []))
      else HostOut(h, [Clse(dst, src)])
    case Clse(src, dst) =>
      if dst != 0 && Found(h, dst, src) then With(h, dst, Close(dst, h.ends[dst]))
      else HostOut(h, [])
    case Wrte(src, dst, data) =>
      if src != 0 && dst != 0 && Found(h, dst, src) then With(h, dst, Enqueue(c, dst, h.ends[dst], data, w))
      else HostOut(h, [])
  }

  /** `create_local_socket` followed by `connect_to_remote`. */
  function Connect(c: Config, h: Host): HostOut {
    HostOut(h.(ends := h.ends[h.nextId := Live(FreshSock(c), NoLog)],
               openedIds := h.openedIds + {h.nextId},
               nextId := h.nextId + 1),
            [Open(h.nextId, Window(c))])
  }
}
