/**
 Finding the central directory: the end records are written with an encoder of their own, with any
 field values and any comment, and the reader takes the directory's place from the right fields.
 */
module ZipLocate {
  import opened Common
  import opened ZipErrors
  import opened ZipRecords
  import opened Zip64Extra
  import opened ZipReading
  import opened ZipLayout
  import opened ZipFormat
  import opened ZipRoundTrip

  // ---------- the Zip64 records, written ----------

  /** `Zip64EocdRecord` without its signature. */
  datatype End64 = End64(
    recordSize: nat, versionMadeBy: nat, versionNeeded: nat, diskNum: nat, cdStartDisk: nat,
    recordsOnDisk: nat, records: nat, cdSize: nat, cdOffset: nat)

  const END64_WIDTHS: seq<nat> := [4, 8, 2, 2, 4, 4] + [8, 8, 8, 8]
  const LOCATOR_WIDTHS: seq<nat> := [4, 4] + [8, 4]

  ghost function End64Fields(x: End64): seq<nat> {
    [0x06064b50, x.recordSize, x.versionMadeBy, x.versionNeeded, x.diskNum, x.cdStartDisk,
     x.recordsOnDisk, x.records, x.cdSize, x.cdOffset]
  }

  ghost function End64Bytes(x: End64): seq<byte> { EncodeFields(End64Fields(x), END64_WIDTHS) }

  ghost predicate End64Fits(x: End64) { Fit(End64Fields(x), END64_WIDTHS) }

  /** `Zip64EocdLocator`: the Zip64 end record is at `end`. */
  ghost function LocatorFields(disk: nat, end: nat, disks: nat): seq<nat> { [0x07064b50, disk, end, disks] }

  ghost function LocatorBytes(disk: nat, end: nat, disks: nat): seq<byte> {
    EncodeFields(LocatorFields(disk, end, disks), LOCATOR_WIDTHS)
  }

  ghost predicate LocatorFits(disk: nat, end: nat, disks: nat) { Fit(LocatorFields(disk, end, disks), LOCATOR_WIDTHS) }

  lemma End64Parts(x: End64) returns (w: seq<nat>, v: seq<nat>, b: seq<byte>)
    requires End64Fits(x)
    ensures b == End64Bytes(x) && |w| == |v| == 10 && Total(w) == 56 == |b| && v == DecodeFields(b, w)
    ensures w[0] == 4 && w[1] == 8 && w[2] == w[3] == 2 && w[4] == w[5] == 4 && w[6] == w[7] == w[8] == w[9] == 8
    ensures v[0] == 0x06064b50 && v[7] == x.records && v[8] == x.cdSize && v[9] == x.cdOffset
  {
    w, v := END64_WIDTHS, End64Fields(x);
    b := End64Bytes(x);
    TotalConcat([4, 8, 2, 2, 4, 4], [8, 8, 8, 8]);
    assert Total([4, 8, 2, 2, 4, 4]) == 24 && Total([8, 8, 8, 8]) == 32;
    FieldsRoundTrip(v, w);
  }

  lemma End64Reads(x: End64)
    requires End64Fits(x)
    ensures var b := End64Bytes(x);
      && |b| == 56 && U32(b, 0) == 0x06064b50
      && U64(b, 32) == x.records && U64(b, 40) == x.cdSize && U64(b, 48) == x.cdOffset
  {
    var w, v, b := End64Parts(x);
    Field(b, w, v, 0, 0, 4);
    Field(b, w, v, 1, 4, 12);
    Field(b, w, v, 2, 12, 14);
    Field(b, w, v, 3, 14, 16);
    Field(b, w, v, 4, 16, 20);
    Field(b, w, v, 5, 20, 24);
    Field(b, w, v, 6, 24, 32);
    Field(b, w, v, 7, 32, 40);
    Field(b, w, v, 8, 40, 48);
    Field(b, w, v, 9, 48, 56);
  }

  lemma LocatorParts(disk: nat, end: nat, disks: nat) returns (w: seq<nat>, v: seq<nat>, b: seq<byte>)
    requires LocatorFits(disk, end, disks)
    ensures b == LocatorBytes(disk, end, disks) && |w| == |v| == 4 && Total(w) == 20 == |b| && v == DecodeFields(b, w)
    ensures w[0] == w[1] == 4 && w[2] == 8 && w[3] == 4 && v[0] == 0x07064b50 && v[2] == end
  {
    w, v := LOCATOR_WIDTHS, LocatorFields(disk, end, disks);
    b := LocatorBytes(disk, end, disks);
    TotalConcat([4, 4], [8, 4]);
    assert Total([4, 4]) == 8 && Total([8, 4]) == 12;
    FieldsRoundTrip(v, w);
  }

  lemma LocatorReads(disk: nat, end: nat, disks: nat)
    requires LocatorFits(disk, end, disks)
    ensures var b := LocatorBytes(disk, end, disks); |b| == 20 && U32(b, 0) == 0x07064b50 && U64(b, 8) == end
  {
    var w, v, b := LocatorParts(disk, end, disks);
    Field(b, w, v, 0, 0, 4);
    Field(b, w, v, 1, 4, 8);
    Field(b, w, v, 2, 8, 16);
  }

  lemma U32Inside(file: seq<byte>, at: nat, part: seq<byte>, d: nat, to: nat)
    requires Lies(file, at, part) && d + 4 <= |part| && to == at + d
    ensures to + 4 <= |file| && U32(file, to) == U32(part, d)
  {
    SliceOfSlice(file, at, at + |part|, d, d + 4);
  }

  lemma U64Inside(file: seq<byte>, at: nat, part: seq<byte>, d: nat, to: nat)
    requires Lies(file, at, part) && d + 8 <= |part| && to == at + d
    ensures to + 8 <= |file| && U64(file, to) == U64(part, d)
  {
    SliceOfSlice(file, at, at + |part|, d, d + 8);
  }

  // ---------- the end record ----------

  /** The end record `e` stands at `at`, and no signature of one follows in the rest of the file. */
  ghost predicate LastEnd(file: seq<byte>, at: nat, e: Eocd) {
    && e.signature == 0x06054b50 && EocdFits(e) && Lies(file, at, EocdBytes(e))
    && at + 22 <= |file| <= at + 22 + 65535 && |file| <= 0x40_0000_0000
    && forall j :: at < j <= |file| - 22 ==> U32(file, j) != 0x06054b50
  }

  /** Some field of the end record holds its largest value. */
  ghost predicate Full(e: Eocd) {
    || e.recordsOnDisk == 0xffff || e.records == 0xffff || e.cdSize == 0xffff_ffff
    || e.cdOffset == 0xffff_ffff || e.commentLength == 0xffff
  }

  lemma SearchFinds(file: seq<byte>, at: nat, e: Eocd)
    requires LastEnd(file, at, e)
    ensures MapDirectory(file) == MapFrom(file, at, e)
  {
    EndReads(file, at, e);
    FoundLast(file, SearchStart(|file|), |file| - 21, at);
    Mapped(file, at, SearchStart(|file|), |file| - 21);
    EndTaken(file, at, e);
  }

  lemma EndTaken(file: seq<byte>, at: nat, e: Eocd)
    requires at + 22 <= |file| && ReadEocd(file[at..at + 22]) == e
    ensures DirectoryAt(file, at) == MapFrom(file, at, e)
  {
  }

  lemma FoundLast(file: seq<byte>, lo: nat, hi: nat, at: nat)
    requires lo <= at < hi && hi + 3 <= |file| && U32(file, at) == 0x06054b50
    requires forall j :: at < j < hi ==> U32(file, j) != 0x06054b50
    ensures LastSignature(file, lo, hi) == Some(at)
  {
  }

  lemma Mapped(file: seq<byte>, at: nat, lo: nat, hi: nat)
    requires 22 <= |file| <= 0x40_0000_0000 && at + 22 <= |file|
    requires lo == SearchStart(|file|) && hi == |file| - EOCD_SIZE + 1 && LastSignature(file, lo, hi) == Some(at)
    ensures MapDirectory(file) == DirectoryAt(file, at)
  {
  }

  /** What is read if the record's comment is not what follows it, or no field of it is full. */
  lemma PlainExact(file: seq<byte>, at: nat, e: Eocd)
    requires LastEnd(file, at, e)
    ensures |file| != at + 22 + e.commentLength ==> MapDirectory(file) == Failure(InvalidFile)
    ensures |file| == at + 22 + e.commentLength && !Full(e) ==>
      MapDirectory(file) == if e.cdOffset + e.cdSize > at then Failure(InvalidOffset)
                            else if e.records == 0 then Failure(EmptyArchive)
                            else Success(Directory(e.records, e.cdSize, e.cdOffset))
  {
    SearchFinds(file, at, e);
  }

  /** A file that is too short or too long, or without an end record in its last 65557 bytes. */
  lemma NoEnd(file: seq<byte>)
    requires || |file| < 22 || |file| > 0x40_0000_0000
             || forall j: nat :: |file| <= j + 65557 && j + 22 <= |file| ==> U32(file, j) != 0x06054b50
    ensures MapDirectory(file) == Failure(InvalidFile)
  {
  }

  // ---------- the Zip64 end record ----------

  /** A full end record at `at` that closes the file, and in front of it a locator that points to `end`. */
  ghost predicate Located(file: seq<byte>, at: nat, e: Eocd, disk: nat, end: nat, disks: nat) {
    && LastEnd(file, at, e) && Full(e) && |file| == at + 22 + e.commentLength
    && at > 20 && LocatorFits(disk, end, disks) && Lies(file, at - 20, LocatorBytes(disk, end, disks))
  }

  lemma LocatorFound(file: seq<byte>, disk: nat, end: nat, disks: nat, l: nat)
    requires LocatorFits(disk, end, disks) && Lies(file, l, LocatorBytes(disk, end, disks))
    ensures l + 20 <= |file| && U32(file, l) == 0x07064b50 && U64(file, l + 8) == end
  {
    var b := LocatorBytes(disk, end, disks);
    LocatorReads(disk, end, disks);
    U32Inside(file, l, b, 0, l);
    U64Inside(file, l, b, 8, l + 8);
  }

  lemma End64Found(file: seq<byte>, end: nat, x: End64)
    requires End64Fits(x) && Lies(file, end, End64Bytes(x))
    ensures end + 56 <= |file| && U32(file, end) == 0x06064b50 && U64(file, end + 32) == x.records
    ensures U64(file, end + 40) == x.cdSize && U64(file, end + 48) == x.cdOffset
  {
    var b := End64Bytes(x);
    End64Reads(x);
    U32Inside(file, end, b, 0, end);
    U64Inside(file, end, b, 32, end + 32);
    U64Inside(file, end, b, 40, end + 40);
    U64Inside(file, end, b, 48, end + 48);
  }

  lemma FullLeads(file: seq<byte>, at: nat, e: Eocd)
    requires LastEnd(file, at, e) && Full(e) && |file| == at + 22 + e.commentLength
    ensures MapDirectory(file) == NotEmpty(Directory64(file, at))
  {
    SearchFinds(file, at, e);
  }

  /** What a Zip64 end record at `end` says about the directory. */
  ghost function Said(x: End64, end: nat): Result<Directory, ZipError> {
    if end <= x.cdSize || x.cdOffset > end - x.cdSize then Failure(InvalidOffset)
    else if x.records == 0 then Failure(EmptyArchive)
    else Success(Directory(x.records, x.cdSize, x.cdOffset))
  }

  lemma Numbers(file: seq<byte>, at: nat, l: nat, end: nat, x: End64)
    requires 20 < at <= |file| && l == at - 20 && U32(file, l) == 0x07064b50 && U64(file, l + 8) == end
    requires end + 56 <= l && U32(file, end) == 0x06064b50 && U64(file, end + 32) == x.records
    requires U64(file, end + 40) == x.cdSize && U64(file, end + 48) == x.cdOffset
    ensures NotEmpty(Directory64(file, at)) == Said(x, end)
  {
  }

  lemma Zip64Reads(file: seq<byte>, at: nat, l: nat, disk: nat, end: nat, disks: nat, x: End64)
    requires 20 < at <= |file| && l == at - 20 && end + 56 <= l
    requires LocatorFits(disk, end, disks) && Lies(file, l, LocatorBytes(disk, end, disks))
    requires End64Fits(x) && Lies(file, end, End64Bytes(x))
    ensures NotEmpty(Directory64(file, at)) == Said(x, end)
  {
    LocatorFound(file, disk, end, disks, l);
    End64Found(file, end, x);
    Numbers(file, at, l, end, x);
  }

  /**
   The locator leads to the Zip64 end record `x` in front of it: the number of records, size and offset
   of the directory are those of `x`, whatever the other fields and the bytes around them are.
   */
  lemma Zip64Exact(file: seq<byte>, at: nat, e: Eocd, disk: nat, end: nat, disks: nat, x: End64)
    requires Located(file, at, e, disk, end, disks)
    requires End64Fits(x) && Lies(file, end, End64Bytes(x)) && end + 76 <= at
    ensures MapDirectory(file) == Said(x, end)
  {
    FullLeads(file, at, e);
    Zip64Reads(file, at, at - 20, disk, end, disks, x);
  }

  /** A locator that points too far, or not to a Zip64 end record. */
  lemma Zip64Astray(file: seq<byte>, at: nat, e: Eocd, disk: nat, end: nat, disks: nat)
    requires Located(file, at, e, disk, end, disks)
    ensures end + 76 > at || at <= 76 ==> MapDirectory(file) == Failure(InvalidOffset)
    ensures end + 76 <= at && at > 76 && U32(file, end) != 0x06064b50 ==> MapDirectory(file) == Failure(InvalidFile)
  {
    FullLeads(file, at, e);
    LocatorFound(file, disk, end, disks, at - 20);
  }

  /** A full end record without a locator in front of it. */
  lemma Zip64Missing(file: seq<byte>, at: nat, e: Eocd)
    requires LastEnd(file, at, e) && Full(e)
    requires at <= 20 || U32(file, at - 20) != 0x07064b50
    ensures MapDirectory(file) == Failure(InvalidFile)
  {
    if |file| == at + 22 + e.commentLength {
      FullLeads(file, at, e);
    } else {
      PlainExact(file, at, e);
    }
  }
}
