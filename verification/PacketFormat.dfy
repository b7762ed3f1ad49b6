/** Where each field of a message lies in the 24 bytes of its header. */
module PacketFormat {
  import opened Common
  import opened Digits
  import opened FdConnections
  import LittleEndian

  /** The fields of `amessage`, in their order. */
  ghost function Ordered(m: Message): seq<nat> { [m.command, m.arg0, m.arg1, m.dataLength, m.dataCheck, m.magic] }

  lemma HeaderWord(m: Message, i: nat, at: nat)
    requires i < 6 && at == 4 * i
    ensures at + 4 <= |Header(m)| && Header(m)[at..at + 4] == LittleEndian.Encode(Ordered(m)[i], 4)
  {
    var a, b, c, d, e, f :=
      Word(m.command), Word(m.arg0), Word(m.arg1), Word(m.dataLength), Word(m.dataCheck), Word(m.magic);
    assert Header(m) == a + b + c + d + e + f;
    SixWords(a, b, c, d, e, f, a + b + c + d + e + f, i, at);
  }

  lemma SixWords(a: seq<byte>, b: seq<byte>, c: seq<byte>, d: seq<byte>, e: seq<byte>, f: seq<byte>, s: seq<byte>,
                 i: nat, at: nat)
    requires |a| == |b| == |c| == |d| == |e| == |f| == 4 && s == a + b + c + d + e + f && i < 6 && at == 4 * i
    ensures s[at..at + 4] == [a, b, c, d, e, f][i]
  {
  }

  /** Byte `j` of field `i` of a header is the field's digit of weight 256^j. */
  lemma HeaderByte(m: Message, i: nat, j: nat, at: nat)
    requires i < 6 && j < 4 && at == 4 * i + j
    ensures at < |Header(m)| && Header(m)[at] == Ordered(m)[i] / LittleEndian.Pow256(j) % 256
  {
    HeaderWord(m, i, 4 * i);
    EncodeDigit(Ordered(m)[i], 4, j);
    assert Header(m)[at] == Header(m)[4 * i..4 * i + 4][j];
  }

  /** Field `i` of the message in any 24 bytes is the number in bytes 4i to 4i + 3, lowest first. */
  lemma ParsedWord(b: seq<byte>, i: nat, at: nat)
    requires |b| == 24 && i < 6 && at == 4 * i
    ensures Ordered(ParseHeader(b))[i]
         == b[at] as int + 0x100 * b[at + 1] as int + 0x1_0000 * b[at + 2] as int + 0x100_0000 * b[at + 3] as int
  {
    assert Ordered(ParseHeader(b))[i] == LittleEndian.Decode(b[at..at + 4]);
    FourBytes(b[at..at + 4]);
    TwoBytes(b[at..at + 4][0..2]);
    TwoBytes(b[at..at + 4][2..4]);
  }
}
