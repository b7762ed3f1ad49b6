/**
 NonblockingFdConnection: packets are framed as a 24-byte header and a payload, written through an
 IOVector with partial writes, and reassembled from whatever chunks the descriptor delivers.
 */
module FdConnections {
  import opened Common
  import opened IOVectors
  import LittleEndian

  type uint32 = x: int | 0 <= x < 0x1_0000_0000

  const HEADER_SIZE: nat := 24
  const MAX_PAYLOAD: nat := 1024 * 1024

  /** `amessage`. */
  datatype Message = Message(
    command: uint32, arg0: uint32, arg1: uint32, dataLength: uint32, dataCheck: uint32, magic: uint32)

  /** `apacket`. */
  datatype Packet = Packet(msg: Message, payload: seq<byte>)

  function Word(n: uint32): seq<byte> { LittleEndian.Encode(n, 4) }

  function Header(m: Message): (b: seq<byte>)
    ensures |b| == HEADER_SIZE
  {
    Word(m.command) + Word(m.arg0) + Word(m.arg1) + Word(m.dataLength) + Word(m.dataCheck) + Word(m.magic)
  }

  function WordAt(b: seq<byte>, i: nat): uint32
    requires i + 4 <= |b|
  {
    LittleEndian.Widths();
    LittleEndian.Decode(b[i..i + 4])
  }

  function ParseHeader(b: seq<byte>): Message
    requires |b| == HEADER_SIZE
  {
    Message(WordAt(b, 0), WordAt(b, 4), WordAt(b, 8), WordAt(b, 12), WordAt(b, 16), WordAt(b, 20))
  }

  lemma WordRoundTrip(n: uint32, b: seq<byte>, i: nat)
    requires i + 4 <= |b| && b[i..i + 4] == Word(n)
    ensures WordAt(b, i) == n
  {
    LittleEndian.Widths();
    LittleEndian.DecodeEncode(n, 4);
  }

  lemma ParseOfHeader(m: Message)
    ensures ParseHeader(Header(m)) == m
  {
    var b := Header(m);
    WordRoundTrip(m.command, b, 0);
    WordRoundTrip(m.arg0, b, 4);
    WordRoundTrip(m.arg1, b, 8);
    WordRoundTrip(m.dataLength, b, 12);
    WordRoundTrip(m.dataCheck, b, 16);
    WordRoundTrip(m.magic, b, 20);
  }

  lemma HeaderOfParse(b: seq<byte>)
    requires |b| == HEADER_SIZE
    ensures Header(ParseHeader(b)) == b
  {
    LittleEndian.EncodeDecode(b[0..4]);
    LittleEndian.EncodeDecode(b[4..8]);
    LittleEndian.EncodeDecode(b[8..12]);
    LittleEndian.EncodeDecode(b[12..16]);
    LittleEndian.EncodeDecode(b[16..20]);
    LittleEndian.EncodeDecode(b[20..24]);
    SixPieces(b);
  }

  lemma SixPieces(b: seq<byte>)
    requires |b| == 24
    ensures b == b[0..4] + b[4..8] + b[8..12] + b[12..16] + b[16..20] + b[20..24]
  {
  }

  /** A packet on the wire. */
  function Wire(p: Packet): seq<byte> { Header(p.msg) + p.payload }

  ghost function WireAll(ps: seq<Packet>): seq<byte> {
    if ps == [] then [] else Wire(ps[0]) + WireAll(ps[1..])
  }

  predicate WellFormed(p: Packet) { |p.payload| == p.msg.dataLength }

  ghost predicate AllWellFormed(ps: seq<Packet>) { forall i :: 0 <= i < |ps| ==> WellFormed(ps[i]) }

  lemma {:induction false} WireAppend(ps: seq<Packet>, p: Packet)
    ensures WireAll(ps + [p]) == WireAll(ps) + Wire(p)
  {
    if ps == [] {
      assert [p][1..] == [];
    } else {
      assert (ps + [p])[1..] == ps[1..] + [p];
      WireAppend(ps[1..], p);
    }
  }

  lemma FirstFrame(d: Packet, w: Packet, x: seq<byte>, y: seq<byte>)
    requires WellFormed(d) && WellFormed(w) && Wire(d) + x <= Wire(w) + y
    ensures d == w && x <= y
  {
    assert Header(d.msg) == (Wire(d) + x)[..HEADER_SIZE] == (Wire(w) + y)[..HEADER_SIZE] == Header(w.msg);
    ParseOfHeader(d.msg);
    ParseOfHeader(w.msg);
    var n := HEADER_SIZE + |d.payload|;
    assert d.payload == (Wire(d) + x)[HEADER_SIZE..n] == (Wire(w) + y)[HEADER_SIZE..n] == w.payload;
    assert x == (Wire(d) + x)[n..] && y == (Wire(w) + y)[n..];
  }

  /** Frames can be read off the wire in one way only. */
  lemma {:induction false} FramesUnique(written: seq<Packet>, delivered: seq<Packet>, rest: seq<byte>)
    requires AllWellFormed(written) && AllWellFormed(delivered)
    requires WireAll(delivered) + rest <= WireAll(written)
    ensures delivered <= written
  {
    if delivered != [] {
      assert written != [];
      assert WireAll(delivered) + rest == Wire(delivered[0]) + (WireAll(delivered[1..]) + rest);
      FirstFrame(delivered[0], written[0], WireAll(delivered[1..]) + rest, WireAll(written[1..]));
      FramesUnique(written[1..], delivered[1..], rest);
    }
  }

  ghost function HeaderBytes(h: Option<Message>): seq<byte> { if h.Some? then Header(h.value) else [] }

  /** Every byte received is in a delivered packet, in the pending header, or still buffered. */
  ghost predicate Accounted(received: seq<byte>, delivered: seq<Packet>, header: Option<Message>, buffered: seq<byte>) {
    received == WireAll(delivered) + HeaderBytes(header) + buffered && AllWellFormed(delivered)
  }

  lemma ChunkAccounted(received: seq<byte>, delivered: seq<Packet>, header: Option<Message>,
                       buffered: seq<byte>, chunk: seq<byte>)
    requires Accounted(received, delivered, header, buffered)
    ensures Accounted(received + chunk, delivered, header, buffered + chunk)
  {
  }

  lemma Regroup(a: seq<byte>, b: seq<byte>, c: seq<byte>, d: seq<byte>)
    ensures a + b + (c + d) == (a + (b + c)) + d
  {
  }

  lemma Associate(a: seq<byte>, b: seq<byte>, c: seq<byte>)
    ensures a + (b + c) == (a + b) + c
  {
  }

  lemma SplitAt(s: seq<byte>, n: nat)
    requires n <= |s|
    ensures s == s[..n] + s[n..]
  {
  }

  lemma HeaderAccounted(received: seq<byte>, delivered: seq<Packet>, buffered: seq<byte>)
    requires Accounted(received, delivered, None, buffered) && |buffered| >= HEADER_SIZE
    ensures Accounted(received, delivered, Some(ParseHeader(buffered[..HEADER_SIZE])), buffered[HEADER_SIZE..])
  {
    HeaderOfParse(buffered[..HEADER_SIZE]);
    SplitAt(buffered, HEADER_SIZE);
    Regroup(WireAll(delivered), [], buffered[..HEADER_SIZE], buffered[HEADER_SIZE..]);
    assert [] + buffered[..HEADER_SIZE] == buffered[..HEADER_SIZE];
  }

  lemma PacketAccounted(received: seq<byte>, delivered: seq<Packet>, h: Message, buffered: seq<byte>)
    requires Accounted(received, delivered, Some(h), buffered) && |buffered| >= h.dataLength
    ensures Accounted(received, delivered + [Packet(h, buffered[..h.dataLength])], None, buffered[h.dataLength..])
  {
    var p := Packet(h, buffered[..h.dataLength]);
    WireAppend(delivered, p);
    SplitAt(buffered, h.dataLength);
    Regroup(WireAll(delivered), Header(h), p.payload, buffered[h.dataLength..]);
    assert WireAll(delivered + [p]) + [] == WireAll(delivered + [p]);
  }

  // ---------- what a read event finds ----------

  /** A complete frame lies in the pending header and the buffer. */
  predicate Complete(header: Option<Message>, buffered: seq<byte>) {
    if header.Some? then |buffered| >= header.value.dataLength
    else |buffered| >= HEADER_SIZE && |buffered| - HEADER_SIZE >= ParseHeader(buffered[..HEADER_SIZE]).dataLength
  }

  /** The pending header, read from the buffer if necessary, and the bytes behind it. */
  function Opened(header: Option<Message>, buffered: seq<byte>): (Message, seq<byte>)
    requires Complete(header, buffered)
  {
    if header.Some? then (header.value, buffered)
    else (ParseHeader(buffered[..HEADER_SIZE]), buffered[HEADER_SIZE..])
  }

  /** The first frame and the bytes behind it. */
  function Extracted(header: Option<Message>, buffered: seq<byte>): (Packet, seq<byte>)
    requires Complete(header, buffered)
  {
    var (h, rest) := Opened(header, buffered);
    (Packet(h, rest[..h.dataLength]), rest[h.dataLength..])
  }

  predicate TwoComplete(header: Option<Message>, buffered: seq<byte>) {
    Complete(header, buffered) && Complete(None, Extracted(header, buffered).1)
  }

  /** A frame at the front of the wire is complete, and it is what is extracted. */
  lemma FrameComplete(p: Packet, rest: seq<byte>)
    requires WellFormed(p)
    ensures Complete(None, Wire(p) + rest) && Extracted(None, Wire(p) + rest) == (p, rest)
  {
    var b := Wire(p) + rest;
    assert b[..HEADER_SIZE] == Header(p.msg) && b[HEADER_SIZE..] == p.payload + rest;
    ParseOfHeader(p.msg);
  }

  /** Anything shorter than a frame is not complete. */
  lemma PrefixIncomplete(p: Packet, part: seq<byte>)
    requires WellFormed(p) && part < Wire(p)
    ensures !Complete(None, part)
  {
    if |part| >= HEADER_SIZE {
      assert part[..HEADER_SIZE] == Wire(p)[..HEADER_SIZE] == Header(p.msg);
      ParseOfHeader(p.msg);
    }
  }

  /** It makes no difference whether the header was taken from the buffer in an earlier read. */
  lemma HeaderTaken(b: seq<byte>, h: Message)
    requires |b| >= HEADER_SIZE && h == ParseHeader(b[..HEADER_SIZE])
    ensures Complete(Some(h), b[HEADER_SIZE..]) <==> Complete(None, b)
    ensures Complete(None, b) ==> Extracted(Some(h), b[HEADER_SIZE..]) == Extracted(None, b)
  {
  }

  /** Two frames on the wire are two complete frames. */
  lemma TwoFrames(p: Packet, q: Packet)
    requires WellFormed(p) && WellFormed(q)
    ensures TwoComplete(None, Wire(p) + Wire(q)) && Extracted(None, Wire(p) + Wire(q)) == (p, Wire(q))
  {
    FrameComplete(p, Wire(q));
    FrameComplete(q, []);
    assert Wire(q) + [] == Wire(q);
  }

  /** What a write of the descriptor did. */
  datatype WriteOutcome = Wrote(n: nat) | WouldBlock | WriteFailed | WroteNothing

  datatype WriteResult = Error | Completed | TryAgain

  class Connection {
    var readHeader: Option<Message>
    var readBuffer: IOVector
    var writeBuffer: IOVector
    var writable: bool

    /** All bytes read from the descriptor, and the packets handed to the transport. */
    ghost var received: seq<byte>
    ghost var delivered: seq<Packet>
    /** All packets given to `Write`, and the bytes the descriptor accepted. */
    ghost var packets: seq<Packet>
    ghost var accepted: seq<byte>

    ghost predicate Buffers()
      reads this, readBuffer, writeBuffer
    {
      && readBuffer != writeBuffer
      && readBuffer.Valid() && readBuffer.HasFront()
      && writeBuffer.Valid() && writeBuffer.HasFront()
    }

    ghost predicate Valid()
      reads this, readBuffer, writeBuffer
    {
      && Buffers()
      && Accounted(received, delivered, readHeader, readBuffer.Content())
      && WireAll(packets) == accepted + writeBuffer.Content()
    }

    constructor ()
      ensures Valid() && writable && fresh(readBuffer) && fresh(writeBuffer)
      ensures received == [] && delivered == [] && packets == [] && accepted == []
    {
      readHeader, writable := None, true;
      readBuffer := new IOVector();
      writeBuffer := new IOVector();
      received, delivered, packets, accepted := [], [], [], [];
    }

    /** Take the next bytes of the read buffer as one block. */
    method TakeBytes(n: nat) returns (bytes: seq<byte>)
      requires Buffers() && n <= |readBuffer.Content()|
      modifies readBuffer
      ensures Buffers() && writeBuffer.Content() == old(writeBuffer.Content())
      ensures bytes == old(readBuffer.Content())[..n] && readBuffer.Content() == old(readBuffer.Content())[n..]
    {
      var front := readBuffer.TakeFront(n);
      var block := front.Coalesce();
      bytes := block.Bytes();
    }

    method AppendRead(block: Block)
      requires Buffers() && block.Ok()
      modifies readBuffer
      ensures Buffers() && writeBuffer.Content() == old(writeBuffer.Content())
      ensures readBuffer.Content() == old(readBuffer.Content()) + block.Bytes()
    {
      readBuffer.Append(block);
    }

    method AppendWrite(block: Block)
      requires Buffers() && block.Ok()
      modifies writeBuffer
      ensures Buffers() && readBuffer.Content() == old(readBuffer.Content())
      ensures writeBuffer.Content() == old(writeBuffer.Content()) + block.Bytes()
    {
      writeBuffer.Append(block);
    }

    method DropWritten(n: nat)
      requires Buffers() && n <= |writeBuffer.Content()| && n < UINT32_LIMIT
      modifies writeBuffer
      ensures Buffers() && readBuffer.Content() == old(readBuffer.Content())
      ensures writeBuffer.Content() == old(writeBuffer.Content())[n..]
    {
      ShortDropFits(writeBuffer.Runs(), 0, n);
      writeBuffer.DropFront(n);
    }

    method Buffer(chunk: seq<byte>)
      requires Valid() && 0 < |chunk| <= MAX_PAYLOAD
      modifies this`received, readBuffer
      ensures Valid() && received == old(received) + chunk
      ensures readBuffer.Content() == old(readBuffer.Content()) + chunk
    {
      ChunkAccounted(received, delivered, readHeader, readBuffer.Content(), chunk);
      var block := Block(chunk + seq(MAX_PAYLOAD - |chunk|, _ => 0), MAX_PAYLOAD).Resize(|chunk|);
      assert block.Bytes() == chunk;
      AppendRead(block);
      received := received + chunk;
    }

    /** Once 24 bytes are there, turn them into the pending header. */
    method StartPacket()
      requires Valid() && readHeader.None? && |readBuffer.Content()| >= HEADER_SIZE
      modifies this`readHeader, readBuffer
      ensures Valid() && readHeader == Some(ParseHeader(old(readBuffer.Content())[..HEADER_SIZE]))
      ensures readBuffer.Content() == old(readBuffer.Content())[HEADER_SIZE..]
    {
      HeaderAccounted(received, delivered, readBuffer.Content());
      var bytes := TakeBytes(HEADER_SIZE);
      readHeader := Some(ParseHeader(bytes));
    }

    /** Once the payload is there, deliver the packet. */
    method FinishPacket() returns (packet: Packet)
      requires Valid() && readHeader.Some? && |readBuffer.Content()| >= readHeader.value.dataLength
      modifies this`readHeader, this`delivered, readBuffer
      ensures Valid() && readHeader.None? && delivered == old(delivered) + [packet]
      ensures var n := old(readHeader).value.dataLength;
        && packet == Packet(old(readHeader).value, old(readBuffer.Content())[..n])
        && readBuffer.Content() == old(readBuffer.Content())[n..]
    {
      ghost var content := readBuffer.Content();
      PacketAccounted(received, delivered, readHeader.value, content);
      var msg := readHeader.value;
      var payload := TakeBytes(msg.dataLength);
      packet := Packet(msg, payload);
      assert packet == Packet(msg, content[..msg.dataLength]);
      readHeader := None;
      delivered := delivered + [packet];
    }

    /**
     One POLLIN event: `chunk` is what the read returned. A packet is delivered exactly when one is
     complete, and a complete packet is left behind exactly when there were two.
     */
    method OnReadable(chunk: seq<byte>) returns (out: Option<Packet>)
      requires Valid() && 0 < |chunk| <= MAX_PAYLOAD
      modifies this`readHeader, this`received, this`delivered, readBuffer
      ensures Valid() && received == old(received) + chunk
      ensures delivered == old(delivered) + (if out.Some? then [out.value] else [])
      ensures out.Some? <==> Complete(old(readHeader), old(readBuffer.Content()) + chunk)
      ensures out.Some? ==>
        && readHeader.None?
        && (out.value, readBuffer.Content()) == Extracted(old(readHeader), old(readBuffer.Content()) + chunk)
      ensures Complete(readHeader, readBuffer.Content())
        <==> TwoComplete(old(readHeader), old(readBuffer.Content()) + chunk)
    {
      Buffer(chunk);
      out := Parse();
    }

    /** The part of the event after the read. */
    method Parse() returns (out: Option<Packet>)
      requires Valid()
      modifies this`readHeader, this`delivered, readBuffer
      ensures Valid() && delivered == old(delivered) + (if out.Some? then [out.value] else [])
      ensures out.Some? <==> Complete(old(readHeader), old(readBuffer.Content()))
      ensures out.Some? ==>
        readHeader.None? && (out.value, readBuffer.Content()) == Extracted(old(readHeader), old(readBuffer.Content()))
      ensures out.None? ==> !Complete(readHeader, readBuffer.Content())
    {
      if readHeader.None? && readBuffer.Size() >= HEADER_SIZE {
        StartPacket();
      }
      out := None;
      if readHeader.Some? && readBuffer.Size() >= readHeader.value.dataLength {
        var packet := FinishPacket();
        out := Some(packet);
      }
    }

    /** `DispatchWrites`: hand the buffer to the descriptor and drop what it took. */
    method DispatchWrites(w: WriteOutcome) returns (res: WriteResult)
      requires Valid() && writeBuffer.Content() != []
      requires w.Wrote? ==> 0 < w.n <= |writeBuffer.Content()| && w.n < UINT32_LIMIT
      modifies this`writable, this`accepted, writeBuffer
      ensures Valid()
      ensures accepted == old(accepted) + (if w.Wrote? then old(writeBuffer.Content())[..w.n] else [])
      ensures res.Error? <==> w.WriteFailed? || w.WroteNothing?
      ensures !res.Error? ==> (writable <==> writeBuffer.Content() == []) && (res.Completed? <==> writable)
    {
      match w
      case WouldBlock =>
        writable := false;
        res := TryAgain;
      case WriteFailed => res := Error;
      case WroteNothing => res := Error;
      case Wrote(n) =>
        Accept(n);
        writable := writeBuffer.Size() == 0;
        res := if writeBuffer.Size() == 0 then Completed else TryAgain;
    }

    /** The descriptor took the first `n` bytes of the buffer. */
    method Accept(n: nat)
      requires Valid() && n <= |writeBuffer.Content()| && n < UINT32_LIMIT
      modifies this`accepted, writeBuffer
      ensures Valid() && accepted == old(accepted) + old(writeBuffer.Content())[..n]
    {
      ghost var before := writeBuffer.Content();
      assert accepted + before == (accepted + before[..n]) + before[n..];
      DropWritten(n);
      accepted := accepted + before[..n];
    }

    method AppendFrame(header: seq<byte>, payload: seq<byte>)
      requires Buffers()
      modifies writeBuffer
      ensures Buffers() && readBuffer.Content() == old(readBuffer.Content())
      ensures writeBuffer.Content() == old(writeBuffer.Content()) + (header + payload)
    {
      ghost var before := writeBuffer.Content();
      AppendWrite(BlockOf(header));
      if payload != [] {
        AppendWrite(BlockOf(payload));
      }
      assert (before + header) + payload == before + (header + payload);
    }

    /** Queue the header and the payload of a packet. */
    method Queue(packet: Packet)
      requires Valid()
      modifies this`packets, writeBuffer
      ensures Valid() && packets == old(packets) + [packet]
      ensures writeBuffer.Content() == old(writeBuffer.Content()) + Wire(packet)
    {
      WireAppend(packets, packet);
      ghost var before := writeBuffer.Content();
      AppendFrame(Header(packet.msg), packet.payload);
      packets := packets + [packet];
      Associate(accepted, before, Wire(packet));
    }

    /** `Write`; a result of TryAgain wakes the poll loop so that it asks for POLLOUT. */
    method Write(packet: Packet, w: WriteOutcome) returns (ok: bool)
      requires Valid()
      requires w.Wrote? ==> 0 < w.n <= |writeBuffer.Content()| + |Wire(packet)| && w.n < UINT32_LIMIT
      modifies this`packets, this`writable, this`accepted, writeBuffer
      ensures Valid() && packets == old(packets) + [packet]
      ensures ok <==> !w.WriteFailed? && !w.WroteNothing?
      ensures ok ==> (writable <==> writeBuffer.Content() == [])
    {
      Queue(packet);
      var res := DispatchWrites(w);
      ok := !res.Error?;
    }
  }

  /** Two packets in one read of a new connection: the first is delivered, the second waits. */
  method SecondPacketWaits(p: Packet, q: Packet) returns (c: Connection, out: Option<Packet>)
    requires WellFormed(p) && WellFormed(q) && |Wire(p) + Wire(q)| <= MAX_PAYLOAD
    ensures fresh(c) && c.Valid() && out == Some(p) && c.delivered == [p]
    ensures Complete(c.readHeader, c.readBuffer.Content()) && c.readBuffer.Content() == Wire(q)
  {
    c := new Connection();
    var chunk := Wire(p) + Wire(q);
    TwoFrames(p, q);
    assert c.readBuffer.Content() + chunk == chunk;
    out := c.OnReadable(chunk);
  }

  /**
   End to end: whatever the partial writes and the chunks, the packets one end delivered are a prefix
   of the packets the other end was given.
   */
  lemma DeliveredArePrefix(sender: Connection, receiver: Connection)
    requires sender.Valid() && receiver.Valid() && AllWellFormed(sender.packets)
    requires receiver.received <= sender.accepted
    ensures receiver.delivered <= sender.packets
  {
    var pending := HeaderBytes(receiver.readHeader) + receiver.readBuffer.Content();
    Associate(WireAll(receiver.delivered), HeaderBytes(receiver.readHeader), receiver.readBuffer.Content());
    assert receiver.received <= WireAll(sender.packets);
    FramesUnique(sender.packets, receiver.delivered, pending);
  }
}
