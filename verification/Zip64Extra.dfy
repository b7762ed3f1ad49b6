/**
 The walk over an extra field in search of the Zip64 extended information (sections 4.5.2 and 4.5.3
 of APPNOTE.TXT), and what it finds, described without the walk.
 */
module Zip64Extra {
  import opened Common
  import opened ZipErrors
  import LittleEndian

  const HEADER_ID: nat := 1
  const UINT32_MAX: nat := 0xffff_ffff

  datatype Info = Info(uncompressed: Option<nat>, compressed: Option<nat>, headerOffset: Option<nat>)

  /** Which of the 32-bit fields hold all ones, so that the true value must be in the extra field. */
  datatype Want = Want(uncompressed: bool, compressed: bool, headerOffset: bool)

  function WantOf(uncompressed: nat, compressed: nat, headerOffset: Option<nat>): Want {
    Want(uncompressed == UINT32_MAX, compressed == UINT32_MAX, headerOffset == Some(UINT32_MAX))
  }

  function U16(b: seq<byte>, at: nat): (n: nat)
    requires at + 2 <= |b|
    ensures n < 0x1_0000
  {
    LittleEndian.Widths();
    LittleEndian.Decode(b[at..at + 2])
  }

  function U64(b: seq<byte>, at: nat): nat
    requires at + 8 <= |b|
  {
    LittleEndian.Decode(b[at..at + 8])
  }

  /** `TryConsumeUnaligned<uint64_t>`, if the field is wanted: the value and the next position. */
  function TryConsume(extra: seq<byte>, at: nat, wanted: bool): (r: Result<(Option<nat>, nat), ZipError>)
    ensures r.Success? <==> !wanted || at + 8 <= |extra|
    ensures r.Success? ==> r.value.0.Some? == wanted && r.value.1 == at + (if wanted then 8 else 0)
  {
    if !wanted then Success((None, at))
    else if |extra| < 8 || at > |extra| - 8 then Failure(InvalidOffset)
    else Success((Some(U64(extra, at)), at + 8))
  }

  /** The fields of a Zip64 record whose data of `size` bytes starts at `at`. */
  function Take(extra: seq<byte>, at: nat, size: nat, want: Want): Result<Info, ZipError> {
    var dataSize := if size == 28 then 24 else size;
    var complete := dataSize == 24;
    match TryConsume(extra, at, want.uncompressed || complete)
    case Failure(e) => Failure(e)
    case Success((u, p)) =>
    match TryConsume(extra, p, want.compressed || complete)
    case Failure(e) => Failure(e)
    case Success((c, q)) =>
    match TryConsume(extra, q, want.headerOffset || complete)
    case Failure(e) => Failure(e)
    case Success((h, end)) =>
      if end == at || dataSize != end - at then Failure(InvalidFile) else Success(Info(u, c, h))
  }

  /** What the walk from position `at` on yields. */
  function Walk(extra: seq<byte>, at: nat, want: Want): Result<Info, ZipError>
    decreases |extra| - at
  {
    if at >= |extra| - 4 then Failure(InvalidFile)
    else
      var id, size := U16(extra, at), U16(extra, at + 2);
      if size > |extra| - at - 4 then Failure(InvalidOffset)
      else if id != HEADER_ID then Walk(extra, at + 4 + size, want)
      else Take(extra, at + 4, size, want)
  }

  /** The fields asked for. */
  predicate Provides(info: Info, want: Want) {
    && (want.uncompressed ==> info.uncompressed.Some?)
    && (want.compressed ==> info.compressed.Some?)
    && (want.headerOffset ==> info.headerOffset.Some?)
  }

  lemma {:induction false} WalkProvides(extra: seq<byte>, at: nat, want: Want)
    requires Walk(extra, at, want).Success?
    ensures Provides(Walk(extra, at, want).value, want)
    decreases |extra| - at
  {
    var id, size := U16(extra, at), U16(extra, at + 2);
    if id != HEADER_ID {
      WalkProvides(extra, at + 4 + size, want);
    }
  }

  lemma WalkGoesOn(extra: seq<byte>, at: nat, want: Want, next: nat)
    requires at < |extra| - 4 && U16(extra, at) != HEADER_ID && next == at + 4 + U16(extra, at + 2) <= |extra|
    ensures Walk(extra, at, want) == Walk(extra, next, want)
  {
  }

  /** Add to the 16-bit offset; it never wraps around here. */
  method Advance(offset: nat, n: nat) returns (next: nat)
    requires offset + n < 0x1_0000
    ensures next == offset + n
  {
    next := (offset + n) % 0x1_0000;
  }

  /**
   `ParseZip64ExtendedInfoInExtraField`, with its 16-bit offset: it ends, never leaves the field and
   never wraps around. The fields asked for are there whenever it succeeds, so the assertions of its
   callers hold.
   */
  method ParseExtra(extra: seq<byte>, uncompressed: nat, compressed: nat, headerOffset: Option<nat>)
    returns (r: Result<Info, ZipError>)
    requires |extra| < 0x1_0000
    ensures r == Walk(extra, 0, WantOf(uncompressed, compressed, headerOffset))
    ensures r.Success? ==> Provides(r.value, WantOf(uncompressed, compressed, headerOffset))
  {
    if |extra| <= 4 {
      return Failure(InvalidFile);
    }
    var want := WantOf(uncompressed, compressed, headerOffset);
    if Walk(extra, 0, want).Success? { WalkProvides(extra, 0, want); }
    var offset: nat := 0;
    while offset < |extra| - 4
      invariant offset <= |extra|
      invariant Walk(extra, 0, want) == Walk(extra, offset, want)
      decreases |extra| - offset
    {
      var headerId := U16(extra, offset);
      var dataSize := U16(extra, offset + 2);
      ghost var start: nat := offset;
      offset := Advance(offset, 4);
      if dataSize > |extra| - offset {
        return Failure(InvalidOffset);
      }
      if headerId != HEADER_ID {
        offset := Advance(offset, dataSize);
        WalkGoesOn(extra, start, want, offset);
        continue;
      }
      return Take(extra, offset, dataSize, want);
    }
    r := Failure(InvalidFile);
  }

  // ---------- the same, without a walk ----------

  /** One record of an extra field. */
  datatype Block = Block(id: nat, data: seq<byte>)

  ghost predicate BlockFits(b: Block) { b.id < 0x1_0000 && |b.data| < 0x1_0000 }

  function BlockBytes(b: Block): (s: seq<byte>)
    ensures |s| == 4 + |b.data|
  {
    LittleEndian.Encode(b.id, 2) + LittleEndian.Encode(|b.data|, 2) + b.data
  }

  function Blocks(bs: seq<Block>): seq<byte> {
    if bs == [] then [] else BlockBytes(bs[0]) + Blocks(bs[1..])
  }

  ghost predicate Foreign(bs: seq<Block>) {
    forall i :: 0 <= i < |bs| ==> BlockFits(bs[i]) && bs[i].id != HEADER_ID
  }

  function Count(b: bool): nat { if b then 1 else 0 }

  /** The `k`-th 64-bit number of the data. */
  function Number(data: seq<byte>, k: nat): nat
    requires 8 * k + 8 <= |data|
  {
    LittleEndian.Decode(data[8 * k..8 * k + 8])
  }

  /** The data has one number per wanted field, or all three, perhaps followed by a disk number. */
  ghost predicate GoodData(data: seq<byte>, want: Want) {
    || |data| == 24 || |data| == 28
    || (|data| > 0 && |data| == 8 * (Count(want.uncompressed) + Count(want.compressed) + Count(want.headerOffset)))
  }

  /** The numbers, in the order of the fields. */
  ghost function Fields(data: seq<byte>, want: Want): Info
    requires GoodData(data, want)
  {
    if |data| >= 24 then Info(Some(Number(data, 0)), Some(Number(data, 1)), Some(Number(data, 2)))
    else
      var k := Count(want.uncompressed);
      Info(if want.uncompressed then Some(Number(data, 0)) else None,
           if want.compressed then Some(Number(data, k)) else None,
           if want.headerOffset then Some(Number(data, k + Count(want.compressed))) else None)
  }

  lemma NumberAt(extra: seq<byte>, at: nat, data: seq<byte>, k: nat)
    requires at + |data| <= |extra| && extra[at..at + |data|] == data && 8 * k + 8 <= |data|
    ensures U64(extra, at + 8 * k) == Number(data, k)
  {
    SliceOfSlice(extra, at, at + |data|, 8 * k, 8 * k + 8);
  }

  /** Reading the fields of a record succeeds exactly when its data is good. */
  lemma TakeExact(extra: seq<byte>, at: nat, data: seq<byte>, want: Want)
    requires at + |data| <= |extra| && extra[at..at + |data|] == data
    ensures Take(extra, at, |data|, want).Success? <==> GoodData(data, want)
    ensures GoodData(data, want) ==> Take(extra, at, |data|, want) == Success(Fields(data, want))
  {
    forall k: nat | 8 * k + 8 <= |data|
      ensures U64(extra, at + 8 * k) == Number(data, k)
    {
      NumberAt(extra, at, data, k);
    }
  }

  /** The header and data of a record that lies at position `at`. */
  ghost predicate BlockAt(extra: seq<byte>, at: nat, b: Block) {
    at + 4 + |b.data| <= |extra| && extra[at..at + 4 + |b.data|] == BlockBytes(b)
  }

  lemma BlockReads(extra: seq<byte>, at: nat, b: Block)
    requires BlockAt(extra, at, b) && BlockFits(b)
    ensures U16(extra, at) == b.id && U16(extra, at + 2) == |b.data|
    ensures extra[at + 4..at + 4 + |b.data|] == b.data
  {
    LittleEndian.Widths();
    LittleEndian.DecodeEncode(b.id, 2);
    LittleEndian.DecodeEncode(|b.data|, 2);
    var s := BlockBytes(b);
    var n := 4 + |b.data|;
    SliceOfSlice(extra, at, at + n, 0, 2);
    SliceOfSlice(extra, at, at + n, 2, 4);
    SliceOfSlice(extra, at, at + n, 4, n);
    assert s[0..2] == LittleEndian.Encode(b.id, 2) && s[2..4] == LittleEndian.Encode(|b.data|, 2) && s[4..n] == b.data;
  }

  lemma BlockFromBytes(extra: seq<byte>, at: nat)
    requires at + 4 <= |extra| && at + 4 + U16(extra, at + 2) <= |extra|
    ensures var b := Block(U16(extra, at), extra[at + 4..at + 4 + U16(extra, at + 2)]);
      BlockFits(b) && BlockAt(extra, at, b)
  {
    LittleEndian.EncodeDecode(extra[at..at + 2]);
    LittleEndian.EncodeDecode(extra[at + 2..at + 4]);
    var n := U16(extra, at + 2);
    assert extra[at..at + 4 + n] == extra[at..at + 2] + extra[at + 2..at + 4] + extra[at + 4..at + 4 + n];
  }

  lemma WalkHere(extra: seq<byte>, at: nat, data: seq<byte>, want: Want)
    requires BlockAt(extra, at, Block(HEADER_ID, data)) && |data| < 0x1_0000
    ensures Walk(extra, at, want).Success? <==> GoodData(data, want)
    ensures GoodData(data, want) ==> Walk(extra, at, want) == Success(Fields(data, want))
  {
    BlockReads(extra, at, Block(HEADER_ID, data));
    TakeExact(extra, at + 4, data, want);
  }

  lemma WalkSkips(extra: seq<byte>, at: nat, b: Block, want: Want)
    requires BlockAt(extra, at, b) && BlockFits(b) && b.id != HEADER_ID && at + 4 < |extra|
    ensures Walk(extra, at, want) == Walk(extra, at + 4 + |b.data|, want)
  {
    BlockReads(extra, at, b);
  }

  /** The extra field from `at` on starts with these records. */
  ghost predicate StartsWith(extra: seq<byte>, at: nat, bs: seq<Block>)
    decreases |bs|
  {
    if bs == [] then at <= |extra|
    else BlockAt(extra, at, bs[0]) && StartsWith(extra, at + 4 + |bs[0].data|, bs[1..])
  }

  /** That is, with their bytes one after the other. */
  lemma {:induction false} StartsWithBytes(extra: seq<byte>, at: nat, bs: seq<Block>)
    requires at <= |extra|
    ensures StartsWith(extra, at, bs) <==> Blocks(bs) <= extra[at..]
    decreases |bs|
  {
    if bs != [] {
      var b, n, rest := bs[0], 4 + |bs[0].data|, Blocks(bs[1..]);
      if at + n <= |extra| {
        StartsWithBytes(extra, at + n, bs[1..]);
        assert extra[at..at + n] == extra[at..][..n] && extra[at + n..] == extra[at..][n..];
        assert extra[at..] == extra[at..at + n] + extra[at + n..];
        if Blocks(bs) <= extra[at..] {
          PrefixSplit(extra[at..], BlockBytes(b), rest);
        }
      }
    }
  }

  /** Records of other kinds are skipped, and the first Zip64 record decides, whatever follows it. */
  lemma {:induction false} WalkFinds(extra: seq<byte>, at: nat, before: seq<Block>, data: seq<byte>, want: Want)
    requires Foreign(before) && |data| < 0x1_0000
    requires StartsWith(extra, at, before + [Block(HEADER_ID, data)])
    ensures Walk(extra, at, want).Success? <==> GoodData(data, want)
    ensures GoodData(data, want) ==> Walk(extra, at, want) == Success(Fields(data, want))
    decreases |before|
  {
    if before == [] {
      assert before + [Block(HEADER_ID, data)] == [Block(HEADER_ID, data)];
      WalkHere(extra, at, data, want);
    } else {
      var next: nat := at + 4 + |before[0].data|;
      StartsLater(extra, at, before, Block(HEADER_ID, data), next);
      WalkFinds(extra, next, before[1..], data, want);
      WalkSkips(extra, at, before[0], want);
    }
  }

  lemma {:induction false} StartsLater(extra: seq<byte>, at: nat, before: seq<Block>, last: Block, next: nat)
    requires before != [] && StartsWith(extra, at, before + [last]) && next == at + 4 + |before[0].data|
    ensures BlockAt(extra, at, before[0]) && at + 4 < |extra| && StartsWith(extra, next, before[1..] + [last])
  {
    assert (before + [last])[1..] == before[1..] + [last];
    StartsInside(extra, next, before[1..] + [last]);
  }

  lemma {:induction false} StartsInside(extra: seq<byte>, at: nat, bs: seq<Block>)
    requires bs != [] && StartsWith(extra, at, bs)
    ensures at + 4 <= |extra|
  {
  }

  lemma WalkStep(extra: seq<byte>, at: nat, want: Want) returns (b: Block)
    requires at <= |extra| && Walk(extra, at, want).Success?
    ensures BlockFits(b) && BlockAt(extra, at, b)
    ensures b.id == HEADER_ID ==> GoodData(b.data, want) && Walk(extra, at, want) == Success(Fields(b.data, want))
    ensures b.id != HEADER_ID ==> Walk(extra, at, want) == Walk(extra, at + 4 + |b.data|, want)
  {
    BlockFromBytes(extra, at);
    b := Block(U16(extra, at), extra[at + 4..at + 4 + U16(extra, at + 2)]);
    if b.id == HEADER_ID {
      WalkHere(extra, at, b.data, want);
    }
  }

  /** A walk that succeeds has skipped records of other kinds and read the first Zip64 record. */
  lemma {:induction false} WalkSound(extra: seq<byte>, at: nat, want: Want)
    returns (before: seq<Block>, data: seq<byte>)
    requires at <= |extra| && Walk(extra, at, want).Success?
    ensures Foreign(before) && |data| < 0x1_0000 && GoodData(data, want)
    ensures StartsWith(extra, at, before + [Block(HEADER_ID, data)])
    ensures Walk(extra, at, want).value == Fields(data, want)
    decreases |extra| - at
  {
    var b := WalkStep(extra, at, want);
    if b.id == HEADER_ID {
      before := StartsHere(extra, at, b);
      data := b.data;
    } else {
      var later;
      var next: nat := at + 4 + |b.data|;
      later, data := WalkSound(extra, next, want);
      before := StartsEarlier(extra, at, b, next, later, Block(HEADER_ID, data));
    }
  }

  lemma {:induction false} StartsHere(extra: seq<byte>, at: nat, b: Block) returns (before: seq<Block>)
    requires BlockAt(extra, at, b)
    ensures Foreign(before) && StartsWith(extra, at, before + [b])
  {
    before := [];
    assert before + [b] == [b] + [];
    StartsFirst(extra, at, b, at + 4 + |b.data|, []);
  }

  lemma {:induction false} StartsEarlier(extra: seq<byte>, at: nat, b: Block, next: nat, later: seq<Block>, last: Block)
    returns (before: seq<Block>)
    requires BlockAt(extra, at, b) && next == at + 4 + |b.data| && StartsWith(extra, next, later + [last])
    requires Foreign(later) && BlockFits(b) && b.id != HEADER_ID
    ensures Foreign(before) && StartsWith(extra, at, before + [last])
  {
    before := [b] + later;
    assert before + [last] == [b] + (later + [last]);
    StartsFirst(extra, at, b, next, later + [last]);
  }

  lemma {:induction false} StartsFirst(extra: seq<byte>, at: nat, b: Block, next: nat, rest: seq<Block>)
    requires BlockAt(extra, at, b) && next == at + 4 + |b.data| && StartsWith(extra, next, rest)
    ensures StartsWith(extra, at, [b] + rest)
  {
    assert ([b] + rest)[1..] == rest;
  }

  /** `data` is that of the first Zip64 record of the field; only records of other kinds precede it. */
  ghost predicate FirstRecord(extra: seq<byte>, before: seq<Block>, data: seq<byte>) {
    Foreign(before) && |data| < 0x1_0000 && StartsWith(extra, 0, before + [Block(HEADER_ID, data)])
  }

  ghost predicate Carries(extra: seq<byte>, want: Want, info: Info) {
    exists before, data :: FirstRecord(extra, before, data) && GoodData(data, want) && info == Fields(data, want)
  }

  /** The walk yields exactly what the first Zip64 record carries, and fails if that is not usable. */
  lemma WalkExact(extra: seq<byte>, want: Want, info: Info)
    ensures Walk(extra, 0, want) == Success(info) <==> Carries(extra, want, info)
  {
    if Walk(extra, 0, want) == Success(info) {
      var before, data := WalkSound(extra, 0, want);
      assert FirstRecord(extra, before, data);
    }
    if Carries(extra, want, info) {
      var before, data :| FirstRecord(extra, before, data) && GoodData(data, want) && info == Fields(data, want);
      WalkFinds(extra, 0, before, data, want);
    }
  }

  // ---------- how it fails ----------

  /** The walk passes records of other kinds. */
  lemma {:induction false} WalkPasses(extra: seq<byte>, at: nat, before: seq<Block>, p: nat, want: Want)
    requires Foreign(before) && StartsWith(extra, at, before) && p == at + |Blocks(before)|
    ensures p <= |extra|
    ensures p + 4 < |extra| ==> Walk(extra, at, want) == Walk(extra, p, want)
    ensures p + 4 >= |extra| ==> Walk(extra, at, want) == Failure(InvalidFile)
    decreases |before|
  {
    if before != [] {
      var b := before[0];
      WalkPasses(extra, at + 4 + |b.data|, before[1..], p, want);
      if at + 4 < |extra| {
        WalkSkips(extra, at, b, want);
      }
    }
  }

  /**
   The code of a walk that fails behind the records `before`: no room for another record, a record that
   leaves the field, or a Zip64 record without the numbers wanted.
   */
  lemma WalkCodes(extra: seq<byte>, before: seq<Block>, p: nat, want: Want)
    requires Foreign(before) && StartsWith(extra, 0, before) && p == |Blocks(before)|
    ensures p + 4 >= |extra| ==> Walk(extra, 0, want) == Failure(InvalidFile)
    ensures p + 4 < |extra| && p + 4 + U16(extra, p + 2) > |extra| ==> Walk(extra, 0, want) == Failure(InvalidOffset)
    ensures p + 4 < |extra| && p + 4 + U16(extra, p + 2) <= |extra| && U16(extra, p) == 1
            && !GoodData(extra[p + 4..p + 4 + U16(extra, p + 2)], want) ==>
      Walk(extra, 0, want) == Failure(if p + 4 + Needed(want) > |extra| then InvalidOffset else InvalidFile)
  {
    WalkPasses(extra, 0, before, p, want);
  }

  ghost function Needed(want: Want): nat {
    8 * (Count(want.uncompressed) + Count(want.compressed) + Count(want.headerOffset))
  }
}
