/**
 The packed records of a ZIP file: the local file header, the central directory record and the end
 of central directory record (sections 4.3.7, 4.3.12 and 4.3.16 of APPNOTE.TXT), as little-endian
 fields in the order of the structs.
 */
module ZipRecords {
  import opened Common
  import LittleEndian

  function Total(widths: seq<nat>): nat { if widths == [] then 0 else widths[0] + Total(widths[1..]) }

  function EncodeFields(values: seq<nat>, widths: seq<nat>): (b: seq<byte>)
    requires |values| == |widths|
    ensures |b| == Total(widths)
  {
    if values == [] then [] else LittleEndian.Encode(values[0], widths[0]) + EncodeFields(values[1..], widths[1..])
  }

  function DecodeFields(b: seq<byte>, widths: seq<nat>): (values: seq<nat>)
    requires |b| == Total(widths)
    ensures |values| == |widths|
  {
    if widths == [] then []
    else [LittleEndian.Decode(b[..widths[0]])] + DecodeFields(b[widths[0]..], widths[1..])
  }

  lemma {:induction false} TotalConcat(a: seq<nat>, b: seq<nat>)
    ensures Total(a + b) == Total(a) + Total(b)
  {
    if a == [] {
      assert a + b == b;
    } else {
      assert (a + b)[1..] == a[1..] + b;
      TotalConcat(a[1..], b);
    }
  }

  /** Every value fits its field. */
  ghost predicate Fit(values: seq<nat>, widths: seq<nat>) {
    |values| == |widths| && forall i :: 0 <= i < |values| ==> values[i] < LittleEndian.Pow256(widths[i])
  }

  lemma {:induction false} FieldsRoundTrip(values: seq<nat>, widths: seq<nat>)
    requires Fit(values, widths)
    ensures DecodeFields(EncodeFields(values, widths), widths) == values
  {
    if values != [] {
      var b := EncodeFields(values, widths);
      LittleEndian.DecodeEncode(values[0], widths[0]);
      assert b[..widths[0]] == LittleEndian.Encode(values[0], widths[0]);
      assert b[widths[0]..] == EncodeFields(values[1..], widths[1..]);
      FieldsRoundTrip(values[1..], widths[1..]);
    }
  }

  // ---------- local file header ----------

  const LFH_SIZE: nat := 30
  const LFH_SIGNATURE: nat := 0x04034b50
  const LFH_HEAD: seq<nat> := [4, 2, 2, 2, 2, 2]
  const LFH_TAIL: seq<nat> := [4, 4, 4, 2, 2]
  const LFH_WIDTHS: seq<nat> := LFH_HEAD + LFH_TAIL

  datatype LocalHeader = LocalHeader(
    signature: nat, versionNeeded: nat, flags: nat, compression: nat, time: nat, date: nat,
    crc: nat, compressedSize: nat, uncompressedSize: nat, nameLength: nat, extraLength: nat)

  function LocalFields(h: LocalHeader): seq<nat> {
    [h.signature, h.versionNeeded, h.flags, h.compression, h.time, h.date,
     h.crc, h.compressedSize, h.uncompressedSize, h.nameLength, h.extraLength]
  }

  function LocalBytes(h: LocalHeader): (b: seq<byte>)
    ensures |b| == LFH_SIZE
  {
    LocalSize();
    EncodeFields(LocalFields(h), LFH_WIDTHS)
  }

  function ReadLocal(b: seq<byte>): LocalHeader
    requires |b| == LFH_SIZE
  {
    LocalSize();
    var v := DecodeFields(b, LFH_WIDTHS);
    LocalHeader(v[0], v[1], v[2], v[3], v[4], v[5], v[6], v[7], v[8], v[9], v[10])
  }

  lemma LocalSize()
    ensures Total(LFH_WIDTHS) == LFH_SIZE
  {
    assert Total([4, 2, 2, 2, 2, 2]) == 14 && Total([4, 4, 4, 2, 2]) == 16;
    TotalConcat(LFH_HEAD, LFH_TAIL);
  }

  ghost predicate LocalFits(h: LocalHeader) {
    && h.signature < 0x1_0000_0000 && h.versionNeeded < 0x1_0000 && h.flags < 0x1_0000 && h.compression < 0x1_0000
    && h.time < 0x1_0000 && h.date < 0x1_0000 && h.crc < 0x1_0000_0000 && h.compressedSize < 0x1_0000_0000
    && h.uncompressedSize < 0x1_0000_0000 && h.nameLength < 0x1_0000 && h.extraLength < 0x1_0000
  }

  lemma LocalRoundTrip(h: LocalHeader)
    requires LocalFits(h)
    ensures ReadLocal(LocalBytes(h)) == h
  {
    LittleEndian.Widths();
    FieldsRoundTrip(LocalFields(h), LFH_WIDTHS);
  }

  // ---------- central directory record ----------

  const CDR_SIZE: nat := 46
  const CDR_SIGNATURE: nat := 0x02014b50
  const CDR_HEAD: seq<nat> := [4, 2, 2, 2, 2, 2, 2, 4]
  const CDR_TAIL: seq<nat> := [4, 4, 2, 2, 2, 2, 2, 4, 4]
  const CDR_WIDTHS: seq<nat> := CDR_HEAD + CDR_TAIL

  lemma CdHeadSize()
    ensures Total(CDR_HEAD) == 20
  {
    assert Total([4, 2, 2, 2, 2, 2, 2, 4]) == 20;
  }

  lemma CdTailSize()
    ensures Total(CDR_TAIL) == 26
  {
    assert Total([4, 4, 2, 2, 2, 2, 2, 4, 4]) == 26;
  }

  datatype CdRecord = CdRecord(
    signature: nat, versionMadeBy: nat, versionNeeded: nat, flags: nat, compression: nat, time: nat, date: nat,
    crc: nat, compressedSize: nat, uncompressedSize: nat, nameLength: nat, extraLength: nat, commentLength: nat,
    startDisk: nat, internalAttributes: nat, externalAttributes: nat, headerOffset: nat)

  function CdFields(r: CdRecord): seq<nat> {
    [r.signature, r.versionMadeBy, r.versionNeeded, r.flags, r.compression, r.time, r.date,
     r.crc, r.compressedSize, r.uncompressedSize, r.nameLength, r.extraLength, r.commentLength,
     r.startDisk, r.internalAttributes, r.externalAttributes, r.headerOffset]
  }

  function CdBytes(r: CdRecord): (b: seq<byte>)
    ensures |b| == CDR_SIZE
  {
    CdSize();
    EncodeFields(CdFields(r), CDR_WIDTHS)
  }

  function ReadCd(b: seq<byte>): CdRecord
    requires |b| == CDR_SIZE
  {
    CdSize();
    var v := DecodeFields(b, CDR_WIDTHS);
    CdRecord(v[0], v[1], v[2], v[3], v[4], v[5], v[6], v[7], v[8], v[9],
             v[10], v[11], v[12], v[13], v[14], v[15], v[16])
  }

  lemma CdSize()
    ensures Total(CDR_WIDTHS) == CDR_SIZE
  {
    CdHeadSize();
    CdTailSize();
    TotalConcat(CDR_HEAD, CDR_TAIL);
  }

  ghost predicate CdFits(r: CdRecord) {
    && r.signature < 0x1_0000_0000 && r.versionMadeBy < 0x1_0000 && r.versionNeeded < 0x1_0000 && r.flags < 0x1_0000
    && r.compression < 0x1_0000 && r.time < 0x1_0000 && r.date < 0x1_0000 && r.crc < 0x1_0000_0000
    && r.compressedSize < 0x1_0000_0000 && r.uncompressedSize < 0x1_0000_0000 && r.nameLength < 0x1_0000
    && r.extraLength < 0x1_0000 && r.commentLength < 0x1_0000 && r.startDisk < 0x1_0000
    && r.internalAttributes < 0x1_0000 && r.externalAttributes < 0x1_0000_0000 && r.headerOffset < 0x1_0000_0000
  }

  lemma CdRoundTrip(r: CdRecord)
    requires CdFits(r)
    ensures ReadCd(CdBytes(r)) == r
  {
    LittleEndian.Widths();
    FieldsRoundTrip(CdFields(r), CDR_WIDTHS);
  }

  // ---------- end of central directory record ----------

  const EOCD_SIZE: nat := 22
  const EOCD_SIGNATURE: nat := 0x06054b50
  const EOCD_HEAD: seq<nat> := [4, 2, 2, 2, 2]
  const EOCD_TAIL: seq<nat> := [4, 4, 2]
  const EOCD_WIDTHS: seq<nat> := EOCD_HEAD + EOCD_TAIL

  datatype Eocd = Eocd(
    signature: nat, diskNum: nat, cdStartDisk: nat, recordsOnDisk: nat, records: nat,
    cdSize: nat, cdOffset: nat, commentLength: nat)

  function EocdFields(r: Eocd): seq<nat> {
    [r.signature, r.diskNum, r.cdStartDisk, r.recordsOnDisk, r.records, r.cdSize, r.cdOffset, r.commentLength]
  }

  function EocdBytes(r: Eocd): (b: seq<byte>)
    ensures |b| == EOCD_SIZE
  {
    EocdTotal();
    EncodeFields(EocdFields(r), EOCD_WIDTHS)
  }

  function ReadEocd(b: seq<byte>): Eocd
    requires |b| == EOCD_SIZE
  {
    EocdTotal();
    var v := DecodeFields(b, EOCD_WIDTHS);
    Eocd(v[0], v[1], v[2], v[3], v[4], v[5], v[6], v[7])
  }

  lemma EocdTotal()
    ensures Total(EOCD_WIDTHS) == EOCD_SIZE
  {
    assert Total([4, 2, 2, 2, 2]) == 12 && Total([4, 4, 2]) == 10;
    TotalConcat(EOCD_HEAD, EOCD_TAIL);
  }

  ghost predicate EocdFits(r: Eocd) {
    && r.signature < 0x1_0000_0000 && r.diskNum < 0x1_0000 && r.cdStartDisk < 0x1_0000 && r.recordsOnDisk < 0x1_0000
    && r.records < 0x1_0000 && r.cdSize < 0x1_0000_0000 && r.cdOffset < 0x1_0000_0000 && r.commentLength < 0x1_0000
  }

  lemma EocdRoundTrip(r: Eocd)
    requires EocdFits(r)
    ensures ReadEocd(EocdBytes(r)) == r
  {
    LittleEndian.Widths();
    FieldsRoundTrip(EocdFields(r), EOCD_WIDTHS);
  }
}
