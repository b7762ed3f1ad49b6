/** What a write and an OKAY do to any socket, field by field, in any state. */
module StreamEffects {
  import opened Common
  import opened StreamEndpoint

  /** The write failed although there was something to write. */
  ghost predicate Fails(e: End, w: Write)
    requires !e.Gone?
  {
    w.WriteFailed? && e.sock.queue != []
  }

  /**
   A write of `n` bytes moves exactly these from the queue to the descriptor. A socket that is closing
   is destroyed if and only if nothing is left or a write failed, now or before; otherwise write
   interest is armed exactly while something is left and no write failed.
   */
  lemma WriteEffect(c: Config, id: nat, e: End, w: Write, n: nat, failed: bool)
    requires !e.Gone? && ValidWrite(e.sock.queue, w) && n == (if w.Wrote? then w.n else 0)
    requires failed == (e.sock.writeError || Fails(e, w))
    ensures var r := FlushIncoming(c, id, e, w).end;
      && n <= |e.sock.queue|
      && r.log == Log(e.log.read, e.log.sent, e.log.written + e.sock.queue[..n])
      && (r.Gone? <==> e.Lingering? && (n == |e.sock.queue| || failed))
      && (!r.Gone? ==>
          && (r.Live? <==> e.Live?)
          && r.sock == Sock(e.sock.peer, e.sock.queue[n..], e.sock.credit, e.sock.reading,
                            n < |e.sock.queue| && !failed, failed))
  {
    assert e.sock.queue[0..] == e.sock.queue;
  }

  /** The number in an OKAY, if it carries one: four bytes taken for a signed number. */
  ghost function Carried(p: Packet): int
    requires p.Okay? && p.ack.Some?
  {
    if p.ack.value >= 0x8000_0000 then p.ack.value - 0x1_0000_0000 else p.ack.value
  }

  /**
   An OKAY for an open socket. The first one connects it and arms reading. One from its peer adds to
   the credit and arms reading if that is now positive; without delayed acks it arms reading. One from
   another socket, and one of the other kind, changes nothing.
   */
  lemma OkayEffect(e: End, p: Packet)
    requires e.Live? && p.Okay?
    ensures var r, s := HandleOkay(e, p), e.sock;
      && r.Live? && r.log == e.log && r.sock.queue == s.queue
      && r.sock.writing == s.writing && r.sock.writeError == s.writeError
      && (s.peer.None? ==> r.sock.peer == Some(p.src) && r.sock.reading)
      && (s.peer.Some? ==> r.sock.peer == s.peer)
      && (s.peer.Some? && s.peer.value != p.src ==> r == e)
      && ((s.peer.None? || s.peer.value == p.src) && s.credit.Some? && p.ack.Some? ==>
          r.sock.credit == Some(s.credit.value + Carried(p)))
      && (s.peer == Some(p.src) && s.credit.Some? && p.ack.Some? ==>
          (r.sock.reading <==> s.reading || s.credit.value + Carried(p) > 0))
      && (s.credit.None? || p.ack.None? ==> r.sock.credit == s.credit)
      && (s.peer == Some(p.src) && s.credit.None? && p.ack.None? ==> r.sock.reading)
      && (s.peer == Some(p.src) && s.credit.Some? != p.ack.Some? ==> r == e)
  {
  }
}
