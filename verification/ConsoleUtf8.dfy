/**
 Console output on Windows: bytes arrive in any chunks, and only whole UTF-8 sequences are passed on.
 What is left waits in one buffer for the next chunk.
 */
module ConsoleUtf8 {
  import opened Common
  import opened Bits

  // ---------- the length of a sequence ----------

  /** `((0xe5000000 >> ((ch >> 3) & 0x1e)) & 3) + 1`. */
  function CodepointLen(ch: byte): (n: nat)
    ensures 1 <= n <= 4
  {
    Shr(0xe500_0000, And(ch / 8, 0x1e)) % 4 + 1
  }

  /** What the table of two-bit fields in that constant says. */
  function LengthOf(ch: byte): nat { if ch < 0xc0 then 1 else if ch < 0xe0 then 2 else if ch < 0xf0 then 3 else 4 }

  lemma AndFifteen(b: nat)
    requires b < 16
    ensures And(b, 15) == b
  {
    assert Pow2(4) == 16;
    AndMask(b, 4);
    LowSmall(b, 4);
  }

  lemma AndThirty(a: nat)
    ensures And(a, 30) == 2 * And(a / 2, 15)
  {
  }

  lemma ShiftAmount(ch: byte)
    ensures And(ch / 8, 0x1e) == 2 * (ch / 16)
  {
    AndThirty(ch / 8);
    AndFifteen(ch / 8 / 2);
  }

  lemma TableField(h: nat)
    requires h < 16
    ensures Shr(0xe500_0000, 2 * h) % 4 == if h < 12 then 0 else if h < 14 then 1 else if h == 14 then 2 else 3
  {
    ShrBy4(h);
    if h < 12 {
      QuarterZero(h);
    } else {
      assert Quarter(0xe500_0000, 12) == 0xe5 by { QuarterTwelve(); }
      QuarterMore(0xe500_0000, 12, h - 12);
      assert Quarter(0xe5, 0) == 0xe5 && Quarter(0xe5, 1) == 0x39 && Quarter(0xe5, 2) == 0xe && Quarter(0xe5, 3) == 3;
    }
  }

  function Quarter(v: nat, h: nat): nat { if h == 0 then v else Quarter(v / 4, h - 1) }

  lemma {:induction false} QuarterMore(v: nat, i: nat, j: nat)
    ensures Quarter(v, i + j) == Quarter(Quarter(v, i), j)
  {
    if i > 0 {
      QuarterMore(v / 4, i - 1, j);
    }
  }

  lemma {:induction false} ShrBy4(h: nat)
    ensures forall v: nat :: Shr(v, 2 * h) == Quarter(v, h)
  {
    if h > 0 {
      ShrBy4(h - 1);
      forall v: nat
        ensures Shr(v, 2 * h) == Quarter(v, h)
      {
        assert Shr(v, 2 * h) == Shr(v / 2 / 2, 2 * h - 2);
        assert v / 2 / 2 == v / 4;
      }
    }
  }

  /** The low 24 bits of the constant are zero. */
  lemma QuarterTwelve()
    ensures Quarter(0xe500_0000, 12) == 0xe5
  {
    assert Quarter(0xe500_0000, 4) == 0xe5_0000;
    QuarterMore(0xe500_0000, 4, 4);
    assert Quarter(0xe5_0000, 4) == 0xe500;
    QuarterMore(0xe500_0000, 8, 4);
    assert Quarter(0xe500, 4) == 0xe5;
  }

  lemma QuarterZero(h: nat)
    requires h < 12
    ensures Quarter(0xe500_0000, h) % 4 == 0
  {
    QuarterTwelve();
    QuarterMore(0xe500_0000, h, 12 - h);
    assert Quarter(0xe500_0000, 4) == 0xe5_0000;
    QuarterMore(0xe500_0000, 4, 4);
    assert Quarter(0xe5_0000, 4) == 0xe500;
    if h < 4 {
      assert Quarter(0xe500_0000, 0) == 0xe500_0000 && Quarter(0xe500_0000, 1) == 0x3940_0000;
      assert Quarter(0xe500_0000, 2) == 0xe50_0000 && Quarter(0xe500_0000, 3) == 0x394_0000;
    } else if h < 8 {
      QuarterMore(0xe500_0000, 4, h - 4);
      assert Quarter(0xe5_0000, 0) == 0xe5_0000 && Quarter(0xe5_0000, 1) == 0x39_4000;
      assert Quarter(0xe5_0000, 2) == 0xe_5000 && Quarter(0xe5_0000, 3) == 0x3_9400;
    } else {
      QuarterMore(0xe500_0000, 8, h - 8);
      assert Quarter(0xe500, 0) == 0xe500 && Quarter(0xe500, 1) == 0x3940;
      assert Quarter(0xe500, 2) == 0xe50 && Quarter(0xe500, 3) == 0x394;
    }
  }

  /** The bit trick reads off the length that the lead byte announces. */
  lemma CodepointLenIs(ch: byte)
    ensures CodepointLen(ch) == LengthOf(ch)
  {
    ShiftAmount(ch);
    TableField(ch / 16);
  }

  // ---------- splitting a buffer ----------

  /** How much of the buffer can be passed on, looking backwards from `after`. */
  function Complete(buf: seq<byte>, after: nat): (n: nat)
    requires after <= |buf|
    ensures n <= |buf| && |buf| - n <= 3
  {
    if after == 0 then |buf|
    else
      var ch := buf[after - 1];
      if ch < 0x80 then |buf|
      else if ch >= 0xc0 then
        if |buf| - (after - 1) < CodepointLen(ch) then after - 1 else |buf|
      else Complete(buf, after - 1)
  }

  /** `ParseCompleteUTF8`: the number of complete bytes, and the rest appended to `remaining`. */
  method ParseComplete(buf: seq<byte>, remaining: seq<byte>) returns (n: nat, remaining': seq<byte>)
    ensures n == Complete(buf, |buf|)
    ensures remaining' == remaining + buf[n..]
  {
    var after: nat := |buf|;
    while after != 0
      invariant after <= |buf| && Complete(buf, |buf|) == Complete(buf, after)
      decreases after
    {
      var current := after - 1;
      var ch := buf[current];
      if ch < 0x80 {
        break;
      } else if ch >= 0xc0 {
        var available := |buf| - current;
        if available < CodepointLen(ch) {
          return current, remaining + buf[current..];
        } else {
          break;
        }
      }
      after := after - 1;
    }
    n, remaining' := |buf|, remaining;
    assert Complete(buf, |buf|) == |buf|;
    assert buf[n..] == [];
  }

  class Console {
    /** Bytes of an incomplete sequence, waiting for the rest. */
    var carry: seq<byte>

    constructor ()
      ensures carry == []
    {
      carry := [];
    }

    /** The part of `_console_write_utf8` that decides what is passed on now. */
    method Write(buf: seq<byte>) returns (emitted: seq<byte>)
      modifies this
      ensures emitted == Emitted(old(carry), buf) && carry == Kept(old(carry), buf)
    {
      if carry == [] {
        var n;
        n, carry := ParseComplete(buf, carry);
        emitted := buf[..n];
        assert old(carry) + buf == buf;
      } else {
        var combined := carry + buf;
        var n;
        n, carry := ParseComplete(combined, []);
        emitted := combined[..n];
      }
    }
  }

  function Emitted(carry: seq<byte>, buf: seq<byte>): seq<byte> {
    (carry + buf)[..Complete(carry + buf, |carry + buf|)]
  }

  function Kept(carry: seq<byte>, buf: seq<byte>): seq<byte> {
    (carry + buf)[Complete(carry + buf, |carry + buf|)..]
  }

  // ---------- any stream, any chunks ----------

  function Flat(chunks: seq<seq<byte>>): seq<byte> {
    if chunks == [] then [] else Flat(chunks[..|chunks| - 1]) + chunks[|chunks| - 1]
  }

  /** The pieces passed on and the carry after the chunks were written one by one. */
  function Output(chunks: seq<seq<byte>>): (r: (seq<seq<byte>>, seq<byte>))
    ensures |r.0| == |chunks|
  {
    if chunks == [] then ([], [])
    else
      var last := |chunks| - 1;
      var (pieces, carry) := Output(chunks[..last]);
      (pieces + [Emitted(carry, chunks[last])], Kept(carry, chunks[last]))
  }

  /** Nothing is lost, added or reordered, and at most three bytes wait. */
  lemma {:induction false} NothingLost(chunks: seq<seq<byte>>)
    ensures Flat(Output(chunks).0) + Output(chunks).1 == Flat(chunks)
    ensures |Output(chunks).1| <= 3
  {
    if chunks != [] {
      var last := |chunks| - 1;
      NothingLost(chunks[..last]);
      var (pieces, carry) := Output(chunks[..last]);
      var piece, kept := Emitted(carry, chunks[last]), Kept(carry, chunks[last]);
      assert piece + kept == carry + chunks[last];
      assert (pieces + [piece])[..|pieces|] == pieces;
      Regroup(Flat(pieces), carry, chunks[last], piece, kept);
    }
  }

  lemma Regroup(f: seq<byte>, carry: seq<byte>, chunk: seq<byte>, piece: seq<byte>, kept: seq<byte>)
    requires piece + kept == carry + chunk
    ensures (f + piece) + kept == (f + carry) + chunk
  {
    assert (f + piece) + kept == f + (piece + kept);
    assert (f + carry) + chunk == f + (carry + chunk);
  }

  // ---------- valid streams ----------

  predicate IsTail(b: byte) { 0x80 <= b < 0xc0 }

  /** One encoded code point (the grammar of section 4 of RFC 3629). */
  predicate CodePoint(c: seq<byte>) {
    && c != [] && |c| == LengthOf(c[0])
    && (forall i :: 1 <= i < |c| ==> IsTail(c[i]))
    && (|c| == 1 ==> c[0] < 0x80)
    && (|c| == 2 ==> 0xc2 <= c[0])
    && (|c| == 3 && c[0] == 0xe0 ==> c[1] >= 0xa0)
    && (|c| == 3 && c[0] == 0xed ==> c[1] < 0xa0)
    && (|c| == 4 ==> c[0] <= 0xf4)
    && (|c| == 4 && c[0] == 0xf0 ==> c[1] >= 0x90)
    && (|c| == 4 && c[0] == 0xf4 ==> c[1] < 0x90)
  }

  /** A sequence of whole code points. */
  predicate Whole(s: seq<byte>) {
    s == [] || (LengthOf(s[0]) <= |s| && CodePoint(s[..LengthOf(s[0])]) && Whole(s[LengthOf(s[0])..]))
  }

  /** Nothing, or the beginning of a code point. */
  ghost predicate Partial(p: seq<byte>) { p == [] || exists c :: CodePoint(c) && p < c }

  lemma {:induction false} WholeAppend(a: seq<byte>, b: seq<byte>)
    requires Whole(a) && Whole(b)
    ensures Whole(a + b)
    decreases |a|
  {
    if a == [] {
      assert a + b == b;
    } else {
      var n := LengthOf(a[0]);
      assert (a + b)[..n] == a[..n] && (a + b)[n..] == a[n..] + b;
      WholeAppend(a[n..], b);
    }
  }

  /** What follows whole code points in a valid stream is valid. */
  lemma {:induction false} WholeDrop(a: seq<byte>, v: seq<byte>)
    requires Whole(a) && Whole(v) && a <= v
    ensures Whole(v[|a|..])
    decreases |a|
  {
    if a == [] {
      assert v[0..] == v;
    } else {
      var n := LengthOf(a[0]);
      assert v[..n] == a[..n];
      WholeDrop(a[n..], v[n..]);
      assert v[n..][|a| - n..] == v[|a|..];
    }
  }

  lemma ShortIsPartial(x: seq<byte>, c: seq<byte>)
    requires CodePoint(c) && x < c
    ensures Partial(x)
  {
  }

  lemma FirstThenRest(x: seq<byte>, c: seq<byte>, w: seq<byte>, p: seq<byte>)
    requires CodePoint(c) && c <= x && x[|c|..] == w + p && Whole(w)
    ensures x == (c + w) + p && Whole(c + w)
  {
    OneWhole(c);
    WholeAppend(c, w);
    assert x == c + x[|c|..];
  }

  /** The beginning of a valid stream is whole code points and perhaps the beginning of one more. */
  lemma {:induction false} PrefixSplits(x: seq<byte>, v: seq<byte>) returns (w: seq<byte>, p: seq<byte>)
    requires Whole(v) && x <= v
    ensures x == w + p && Whole(w) && Partial(p)
    decreases |x|
  {
    if x == [] {
      w, p := [], [];
    } else {
      var n := LengthOf(v[0]);
      var c := v[..n];
      if |x| < n {
        w, p := [], x;
        ShortIsPartial(x, c);
      } else {
        assert c == x[..n] && x[n..] <= v[n..];
        w, p := PrefixSplits(x[n..], v[n..]);
        FirstThenRest(x, c, w, p);
        w := c + w;
      }
    }
  }

  lemma OneWhole(c: seq<byte>)
    requires CodePoint(c)
    ensures Whole(c)
  {
    assert c[..|c|] == c && c[|c|..] == [];
  }

  // ---------- the backward scan on such a split ----------

  /** The scan walks back over the tail bytes to the byte at `at`. */
  lemma {:induction false} ScanBack(buf: seq<byte>, at: nat, after: nat)
    requires at < after <= |buf| && forall i :: at < i < after ==> IsTail(buf[i])
    ensures Complete(buf, after) == Complete(buf, at + 1)
    decreases after
  {
    if after > at + 1 {
      ScanBack(buf, at, after - 1);
    }
  }

  lemma EndsWhole(a: seq<byte>, c: seq<byte>)
    requires CodePoint(c)
    ensures Complete(a + c, |a + c|) == |a + c|
  {
    var buf := a + c;
    forall i | |a| < i < |buf| ensures IsTail(buf[i]) { assert buf[i] == c[i - |a|]; }
    ScanBack(buf, |a|, |buf|);
    CodepointLenIs(c[0]);
  }

  lemma EndsPartial(a: seq<byte>, p: seq<byte>)
    requires Partial(p) && p != []
    ensures Complete(a + p, |a + p|) == |a|
  {
    var c :| CodePoint(c) && p < c;
    var buf := a + p;
    forall i | |a| < i < |buf| ensures IsTail(buf[i]) { assert buf[i] == c[i - |a|]; }
    ScanBack(buf, |a|, |buf|);
    CodepointLenIs(c[0]);
    assert buf[|a|] == c[0];
  }

  lemma {:induction false} LastCodePoint(w: seq<byte>) returns (a: seq<byte>, c: seq<byte>)
    requires Whole(w) && w != []
    ensures w == a + c && CodePoint(c)
    decreases |w|
  {
    var n := LengthOf(w[0]);
    if |w| == n {
      a, c := [], w;
      assert w[..n] == w;
    } else {
      a, c := LastCodePoint(w[n..]);
      a := w[..n] + a;
    }
  }

  /** The scan cuts exactly after the last whole code point. */
  lemma CutsRight(w: seq<byte>, p: seq<byte>)
    requires Whole(w) && Partial(p)
    ensures Complete(w + p, |w + p|) == |w|
  {
    if p != [] {
      EndsPartial(w, p);
    } else {
      assert w + p == w;
      if w != [] {
        var a, c := LastCodePoint(w);
        EndsWhole(a, c);
      }
    }
  }

  lemma StepWhole(done: seq<byte>, carry: seq<byte>, chunk: seq<byte>, v: seq<byte>)
    requires Whole(v) && Whole(done) && done + (carry + chunk) <= v
    ensures Whole(Emitted(carry, chunk)) && Partial(Kept(carry, chunk))
  {
    var x := carry + chunk;
    PrefixSplit(v, done, x);
    WholeDrop(done, v);
    var w, p := PrefixSplits(x, v[|done|..]);
    CutsRight(w, p);
    assert x[..|w|] == w && x[|w|..] == p;
  }

  ghost predicate AllWhole(pieces: seq<seq<byte>>) { forall i :: 0 <= i < |pieces| ==> Whole(pieces[i]) }

  lemma PushPiece(pieces: seq<seq<byte>>, piece: seq<byte>)
    requires AllWhole(pieces) && Whole(Flat(pieces)) && Whole(piece)
    ensures AllWhole(pieces + [piece]) && Whole(Flat(pieces + [piece]))
  {
    assert (pieces + [piece])[..|pieces|] == pieces;
    WholeAppend(Flat(pieces), piece);
  }

  lemma Received(front: seq<seq<byte>>, chunk: seq<byte>)
    ensures Flat(Output(front).0) + (Output(front).1 + chunk) == Flat(front) + chunk
  {
    NothingLost(front);
    Assoc(Flat(Output(front).0), Output(front).1, chunk);
  }

  lemma Assoc(a: seq<byte>, b: seq<byte>, c: seq<byte>)
    ensures a + (b + c) == (a + b) + c
  {
  }

  /**
   However a valid stream is cut into chunks, each piece passed on is whole code points, and what waits
   is a proper beginning of one.
   */
  lemma {:induction false} PiecesWhole(chunks: seq<seq<byte>>, v: seq<byte>)
    requires Whole(v) && Flat(chunks) <= v
    ensures AllWhole(Output(chunks).0) && Whole(Flat(Output(chunks).0)) && Partial(Output(chunks).1)
  {
    if chunks != [] {
      var last := |chunks| - 1;
      PiecesWhole(chunks[..last], v);
      Received(chunks[..last], chunks[last]);
      var (pieces, carry) := Output(chunks[..last]);
      StepWhole(Flat(pieces), carry, chunks[last], v);
      PushPiece(pieces, Emitted(carry, chunks[last]));
    }
  }
}
