/** Little-endian numbers, byte by byte. */
module Digits {
  import opened Common
  import opened LittleEndian
  import Bits

  /** Byte `j` of an encoded number is its base-256 digit of weight 256^j. */
  lemma {:induction false} EncodeDigit(n: nat, k: nat, j: nat)
    requires j < k
    ensures Encode(n, k)[j] == n / Pow256(j) % 256
  {
    if j > 0 {
      EncodeDigit(n / 256, k - 1, j - 1);
      DivTwice(n, Pow256(j - 1));
    }
  }

  lemma DivTwice(n: nat, p: nat)
    requires p > 0
    ensures n / 256 / p == n / (256 * p)
  {
    var q, r := n / 256 / p, n / 256 % p;
    assert n / 256 == p * q + r;
    Distribute(r, p, q);
    Bits.DivModUnique(n, 256 * p, q, 256 * r + n % 256);
  }

  lemma TwoBytes(b: seq<byte>)
    requires |b| == 2
    ensures Decode(b) == b[0] as int + 0x100 * b[1] as int
  {
    assert b[1..][1..] == [];
  }

  lemma FourBytes(b: seq<byte>)
    requires |b| == 4
    ensures Decode(b) == Decode(b[0..2]) + 0x1_0000 * Decode(b[2..4])
  {
    DecodeSplit(b, 2);
    Widths();
    assert b[..2] == b[0..2] && b[2..] == b[2..4];
  }

  lemma EightBytes(b: seq<byte>)
    requires |b| == 8
    ensures Decode(b) == Decode(b[0..4]) + 0x1_0000_0000 * Decode(b[4..8])
  {
    DecodeSplit(b, 4);
    Widths();
    assert b[..4] == b[0..4] && b[4..] == b[4..8];
  }

  lemma {:induction false} DecodeSplit(b: seq<byte>, k: nat)
    requires k <= |b|
    ensures Decode(b) == Decode(b[..k]) + Pow256(k) * Decode(b[k..])
  {
    if k == 0 {
      assert b[k..] == b;
    } else {
      var low, high, p := Decode(b[1..][..k - 1]), Decode(b[k..]), Pow256(k - 1);
      DecodeSplit(b[1..], k - 1);
      assert b[1..][..k - 1] == b[..k][1..] && b[1..][k - 1..] == b[k..];
      Distribute(low, p, high);
    }
  }

  lemma Distribute(x: nat, p: nat, y: nat)
    ensures 256 * (x + p * y) == 256 * x + (256 * p) * y
  {
  }
}
