/**
 When an entry is found, said without the order of the checks: what the directory record, its extra
 field and the local header must be, and what is returned.
 */
module ZipFinding {
  import opened Common
  import opened Bits
  import opened ZipErrors
  import opened ZipRecords
  import opened Zip64Extra
  import opened ZipReading
  import opened ZipLookup
  import opened ZipLayout

  // ---------- the flag ----------

  /** Bit 3 is what the mask 8 selects. */
  lemma FlagIsMask(flags: nat)
    ensures And(flags, 8) != 0 <==> flags / 8 % 2 == 1
  {
    assert And(flags / 2 / 2 / 2, 1) == (if flags / 2 / 2 / 2 % 2 == 1 then 1 else 0);
    assert And(flags / 2 / 2, 2) == 2 * And(flags / 2 / 2 / 2, 1);
    assert And(flags / 2, 4) == 2 * And(flags / 2 / 2, 2);
    assert And(flags, 8) == 2 * And(flags / 2, 4);
  }

  // ---------- sizes ----------

  /** The first Zip64 record of the extra field holds `data`. */
  ghost predicate Recorded(extra: seq<byte>, data: seq<byte>) {
    exists before :: FirstRecord(extra, before, data)
  }

  lemma CarriedIsRecorded(extra: seq<byte>, want: Want, info: Info)
    ensures Carries(extra, want, info)
       <==> exists data :: Recorded(extra, data) && GoodData(data, want) && info == Fields(data, want)
  {
    if Carries(extra, want, info) {
      var before, data :| FirstRecord(extra, before, data) && GoodData(data, want) && info == Fields(data, want);
      assert Recorded(extra, data);
    }
  }

  /** The sizes in a local header: its own fields, or, if both are all ones, those of the extra field. */
  ghost predicate SizesAre(l: LocalHeader, extra: seq<byte>, compressed: nat, uncompressed: nat) {
    || (l.compressedSize != 0xffff_ffff && l.uncompressedSize != 0xffff_ffff
        && compressed == l.compressedSize && uncompressed == l.uncompressedSize)
    || (l.compressedSize == 0xffff_ffff && l.uncompressedSize == 0xffff_ffff
        && exists data :: Recorded(extra, data) && Both(data, compressed, uncompressed))
  }

  /** The data has two numbers, or three and perhaps a disk number; the uncompressed size comes first. */
  ghost predicate Both(data: seq<byte>, compressed: nat, uncompressed: nat) {
    (|data| == 16 || |data| == 24 || |data| == 28) && uncompressed == Number(data, 0) && compressed == Number(data, 1)
  }

  lemma SizesExact(l: LocalHeader, extra: seq<byte>, compressed: nat, uncompressed: nat)
    ensures LocalSizes(l, extra) == Success((compressed, uncompressed))
       <==> SizesAre(l, extra, compressed, uncompressed)
  {
    if l.compressedSize == 0xffff_ffff && l.uncompressedSize == 0xffff_ffff {
      SizesCarried(l, extra, compressed, uncompressed);
    }
  }

  lemma SizesCarried(l: LocalHeader, extra: seq<byte>, compressed: nat, uncompressed: nat)
    requires l.compressedSize == 0xffff_ffff && l.uncompressedSize == 0xffff_ffff
    ensures LocalSizes(l, extra) == Success((compressed, uncompressed))
       <==> exists data :: Recorded(extra, data) && Both(data, compressed, uncompressed)
  {
    var want := Want(true, true, false);
    if LocalSizes(l, extra) == Success((compressed, uncompressed)) {
      var info := Walk(extra, 0, want).value;
      WalkExact(extra, want, info);
      CarriedIsRecorded(extra, want, info);
      var data :| Recorded(extra, data) && GoodData(data, want) && info == Fields(data, want);
      assert Both(data, compressed, uncompressed);
    }
    if data :| Recorded(extra, data) && Both(data, compressed, uncompressed) {
      CarriedIsRecorded(extra, want, Fields(data, want));
      WalkExact(extra, want, Fields(data, want));
    }
  }

  /** Only one size all ones is an error; with both, the code is that of the search in the extra field. */
  lemma SizesCodes(l: LocalHeader, extra: seq<byte>)
    ensures (l.compressedSize == 0xffff_ffff) != (l.uncompressedSize == 0xffff_ffff) ==>
      LocalSizes(l, extra) == Failure(InvalidFile)
    ensures l.compressedSize == 0xffff_ffff && l.uncompressedSize == 0xffff_ffff && LocalSizes(l, extra).Failure? ==>
      Walk(extra, 0, Want(true, true, false)) == Failure(LocalSizes(l, extra).error)
  {
  }

  ghost predicate SizesKnown(l: LocalHeader, extra: seq<byte>) { exists c, u :: SizesAre(l, extra, c, u) }

  lemma KnownExact(l: LocalHeader, extra: seq<byte>)
    ensures LocalSizes(l, extra).Success? <==> SizesKnown(l, extra)
  {
    if LocalSizes(l, extra).Success? {
      SizesExact(l, extra, LocalSizes(l, extra).value.0, LocalSizes(l, extra).value.1);
    }
    if c, u :| SizesAre(l, extra, c, u) {
      SizesExact(l, extra, c, u);
    }
  }

  // ---------- the directory record ----------

  function One(field: nat): nat { if field == 0xffff_ffff then 1 else 0 }

  /** How many of the fields are all ones. */
  function Ones(r: CdRecord): nat { One(r.uncompressedSize) + One(r.compressedSize) + One(r.headerOffset) }

  /**
   What a directory record says: its own fields if none is all ones. Otherwise the first Zip64 record
   has a number for each field, or one for each field that is all ones, in the order uncompressed
   size, compressed size, header offset.
   */
  ghost predicate ExtentIs(r: CdRecord, extra: seq<byte>, x: Extent) {
    if Ones(r) == 0 then x == Extent(r.compressedSize, r.uncompressedSize, r.headerOffset)
    else exists data :: Recorded(extra, data) && Tells(r, data, x)
  }

  ghost predicate Tells(r: CdRecord, data: seq<byte>, x: Extent) {
    if |data| == 24 || |data| == 28 then x == Extent(Number(data, 1), Number(data, 0), Signed64(Number(data, 2)))
    else
      && |data| == 8 * Ones(r)
      && x.uncompressed == Pick(data, r.uncompressedSize, 0)
      && x.compressed == Pick(data, r.compressedSize, One(r.uncompressedSize))
      && x.headerOffset == if r.headerOffset != 0xffff_ffff then r.headerOffset else Signed64(Number(data, Ones(r) - 1))
  }

  /** The field, or number `k` of the data if the field is all ones. */
  ghost function Pick(data: seq<byte>, field: nat, k: nat): nat
    requires field == 0xffff_ffff ==> 8 * k + 8 <= |data|
  {
    if field != 0xffff_ffff then field else Number(data, k)
  }

  lemma ExtentExact(r: CdRecord, extra: seq<byte>, x: Extent)
    ensures ExtentOf(r, extra) == Success(x) <==> ExtentIs(r, extra, x)
  {
    if Ones(r) > 0 {
      ExtentSound(r, extra, x);
      if data :| Recorded(extra, data) && Tells(r, data, x) {
        ExtentComplete(r, extra, x, data);
      }
    }
  }

  lemma ExtentSound(r: CdRecord, extra: seq<byte>, x: Extent)
    requires Ones(r) > 0
    ensures ExtentOf(r, extra) == Success(x) ==> exists data :: Recorded(extra, data) && Tells(r, data, x)
  {
    var want := WantOf(r.uncompressedSize, r.compressedSize, Some(r.headerOffset));
    if ExtentOf(r, extra) == Success(x) {
      var info := Walk(extra, 0, want).value;
      WalkExact(extra, want, info);
      CarriedIsRecorded(extra, want, info);
      var data :| Recorded(extra, data) && GoodData(data, want) && info == Fields(data, want);
      FieldsTell(r, data, want, x);
    }
  }

  lemma ExtentComplete(r: CdRecord, extra: seq<byte>, x: Extent, data: seq<byte>)
    requires Ones(r) > 0 && Recorded(extra, data) && Tells(r, data, x)
    ensures ExtentOf(r, extra) == Success(x)
  {
    var want := WantOf(r.uncompressedSize, r.compressedSize, Some(r.headerOffset));
    CarriedIsRecorded(extra, want, Fields(data, want));
    WalkExact(extra, want, Fields(data, want));
    FieldsTell(r, data, want, x);
  }

  /** What `ExtentOf` makes of the numbers. */
  ghost function FromInfo(r: CdRecord, info: Info): Extent {
    Extent(ValueOr(info.compressed, r.compressedSize), ValueOr(info.uncompressed, r.uncompressedSize),
           if info.headerOffset.Some? then Signed64(info.headerOffset.value) else r.headerOffset)
  }

  lemma FieldsTell(r: CdRecord, data: seq<byte>, want: Want, x: Extent)
    requires Ones(r) > 0 && want == WantOf(r.uncompressedSize, r.compressedSize, Some(r.headerOffset))
    ensures Tells(r, data, x) <==> GoodData(data, want) && x == FromInfo(r, Fields(data, want))
  {
  }

  // ---------- the local header ----------

  /** Without a data descriptor, the header agrees with the directory in the sizes and the checksum. */
  ghost predicate Consistent(l: LocalHeader, extra: seq<byte>, r: CdRecord, x: Extent) {
    && SizesKnown(l, extra)
    && (And(l.flags, 8) == 0 ==> SizesAre(l, extra, x.compressed, x.uncompressed) && l.crc == r.crc)
  }

  /** The local header `l` at `at` belongs to the record `r`, and its data lies in front of the directory. */
  ghost predicate Belongs(file: seq<byte>, cdOffset: nat, name: Name, r: CdRecord, x: Extent, at: nat, l: LocalHeader)
    requires at + 30 <= cdOffset <= |file|
  {
    var data := at + 30 + |name| + l.extraLength;
    && l.signature == 0x04034b50 && l.nameLength == |name|
    && data <= cdOffset && Lies(file, at + 30, name)
    && Consistent(l, file[data - l.extraLength..data], r, x)
    && data + x.compressed <= cdOffset && (r.compression == 0 ==> data + x.uncompressed <= cdOffset)
  }

  /** A local header passes exactly if it belongs; everything but the place comes from the directory. */
  lemma LocalExact(file: seq<byte>, cdOffset: nat, name: Name, r: CdRecord, x: Extent, at: nat, l: LocalHeader)
    requires at + 30 <= cdOffset <= |file|
    ensures var result := CheckLocal(file, cdOffset, name, r, x, at, l);
      && (result.Success? <==> Belongs(file, cdOffset, name, r, x, at, l))
      && (result.Success? ==>
          result.value == ZipEntry(r.compression, r.time, r.date, r.crc, x.compressed, x.uncompressed,
                                   at + 30 + |name| + l.extraLength, And(l.flags, 8) != 0))
  {
    FlagIsMask(l.flags);
    LocalPasses(file, cdOffset, name, r, x, at, l);
  }

  lemma LocalPasses(file: seq<byte>, cdOffset: nat, name: Name, r: CdRecord, x: Extent, at: nat, l: LocalHeader)
    requires at + 30 <= cdOffset <= |file|
    ensures CheckLocal(file, cdOffset, name, r, x, at, l).Success? <==> Belongs(file, cdOffset, name, r, x, at, l)
  {
    var data := at + 30 + |name| + l.extraLength;
    FlagIsMask(l.flags);
    if data <= cdOffset {
      var extra := file[data - l.extraLength..data];
      KnownExact(l, extra);
      SizesExact(l, extra, x.compressed, x.uncompressed);
    }
  }

  /** The name of the local header is right, and its extra field ends in front of the directory. */
  ghost predicate Named(file: seq<byte>, cdOffset: nat, name: Name, at: nat, l: LocalHeader) {
    && l.signature == 0x04034b50 && l.nameLength == |name|
    && at + 30 + |name| + l.extraLength <= cdOffset <= |file| && Lies(file, at + 30, name)
  }

  /** The code of a local header whose name or extra field is wrong, by the first thing that is. */
  lemma NameCodes(file: seq<byte>, cdOffset: nat, name: Name, r: CdRecord, x: Extent, at: nat, l: LocalHeader)
    requires at + 30 <= cdOffset <= |file| && !Named(file, cdOffset, name, at, l)
    ensures CheckLocal(file, cdOffset, name, r, x, at, l)
         == Failure(if l.signature != 0x04034b50 then InvalidOffset
                    else if l.nameLength != |name| then InconsistentInformation
                    else if at + 30 + |name| > cdOffset then InvalidOffset
                    else if !Lies(file, at + 30, name) then InconsistentInformation
                    else InvalidOffset)
  {
  }

  /** The code of one whose sizes, checksum or data are wrong. */
  lemma LocalCodes(file: seq<byte>, cdOffset: nat, name: Name, r: CdRecord, x: Extent, at: nat, l: LocalHeader,
                   extra: seq<byte>)
    requires at + 30 <= cdOffset && Named(file, cdOffset, name, at, l)
    requires extra == file[at + 30 + |name|..at + 30 + |name| + l.extraLength]
    ensures LocalSizes(l, extra).Failure? ==>
      CheckLocal(file, cdOffset, name, r, x, at, l) == Failure(LocalSizes(l, extra).error)
    ensures SizesKnown(l, extra) && !Consistent(l, extra, r, x) ==>
      CheckLocal(file, cdOffset, name, r, x, at, l) == Failure(InconsistentInformation)
    ensures Consistent(l, extra, r, x) && !Belongs(file, cdOffset, name, r, x, at, l) ==>
      CheckLocal(file, cdOffset, name, r, x, at, l) == Failure(InvalidOffset)
  {
    FlagIsMask(l.flags);
    KnownExact(l, extra);
    SizesExact(l, extra, x.compressed, x.uncompressed);
  }

  // ---------- finding ----------

  /** The local header that `x` points to belongs to `r`, and the entry is `e`. */
  ghost predicate Headed(file: seq<byte>, cdOffset: nat, name: Name, r: CdRecord, x: Extent, e: ZipEntry)
    requires cdOffset <= |file|
  {
    && 0 <= x.headerOffset && x.headerOffset + 30 < cdOffset
    && var l := ReadLocal(file[x.headerOffset..x.headerOffset + 30]);
    && Belongs(file, cdOffset, name, r, x, x.headerOffset, l)
    && e == ZipEntry(r.compression, r.time, r.date, r.crc, x.compressed, x.uncompressed,
                     x.headerOffset + 30 + |name| + l.extraLength, And(l.flags, 8) != 0)
  }

  lemma HeadedExact(file: seq<byte>, cdOffset: nat, name: Name, r: CdRecord, x: Extent, e: ZipEntry)
    requires cdOffset <= |file|
    ensures AtLocal(file, cdOffset, name, r, x) == Success(e) <==> Headed(file, cdOffset, name, r, x, e)
  {
    if 0 <= x.headerOffset && x.headerOffset + 30 < cdOffset {
      var h: nat := x.headerOffset;
      LocalExact(file, cdOffset, name, r, x, h, ReadLocal(file[h..h + 30]));
    }
  }

  /** A header that does not begin in front of the directory, or begins in front of the file. */
  lemma HeaderCodes(file: seq<byte>, cdOffset: nat, name: Name, r: CdRecord, x: Extent)
    requires cdOffset <= |file|
    ensures x.headerOffset + 30 >= cdOffset ==> AtLocal(file, cdOffset, name, r, x) == Failure(InvalidOffset)
    ensures x.headerOffset + 30 < cdOffset && x.headerOffset < 0 ==>
      AtLocal(file, cdOffset, name, r, x) == Failure(ReadFailed)
  {
  }

  ghost predicate FoundAs(file: seq<byte>, cdOffset: nat, name: Name, r: CdRecord, extra: seq<byte>, e: ZipEntry)
    requires cdOffset <= |file|
  {
    exists x :: ExtentIs(r, extra, x) && Headed(file, cdOffset, name, r, x, e)
  }

  ghost function AtExtent(file: seq<byte>, cdOffset: nat, name: Name, r: CdRecord, found: Result<Extent, ZipError>)
    : Result<ZipEntry, ZipError>
    requires cdOffset <= |file|
  {
    match found
    case Failure(e) => Failure(e)
    case Success(x) => AtLocal(file, cdOffset, name, r, x)
  }

  lemma FoundExact(file: seq<byte>, cdOffset: nat, name: Name, r: CdRecord, extra: seq<byte>, e: ZipEntry)
    requires cdOffset <= |file|
    ensures AtExtent(file, cdOffset, name, r, ExtentOf(r, extra)) == Success(e)
       <==> FoundAs(file, cdOffset, name, r, extra, e)
  {
    var found := ExtentOf(r, extra);
    if found.Success? {
      ExtentExact(r, extra, found.value);
      HeadedExact(file, cdOffset, name, r, found.value, e);
    }
    if x :| ExtentIs(r, extra, x) && Headed(file, cdOffset, name, r, x, e) {
      ExtentExact(r, extra, x);
    }
  }

  /** Where the index leads: the record `r` and its extra field. */
  ghost predicate IndexedAs(o: Opening, name: Name, r: CdRecord, extra: seq<byte>)
    requires IndexOk(o.cd, o.index)
  {
    && name in o.index
    && var at := o.index[name];
    && at >= 46 && r == RecordAt(o.cd, at - 46) && extra == o.cd[at + |name|..at + |name| + r.extraLength]
  }

  lemma FindAtLeads(file: seq<byte>, cd: seq<byte>, n: nat, name: Name, at: nat, r: CdRecord, extra: seq<byte>)
    requires n <= |file| && EntryAt(cd, name, at) && r == RecordAt(cd, at - 46)
    requires extra == cd[at + |name|..at + |name| + r.extraLength]
    ensures FindAt(file, cd, n, name, at) == AtExtent(file, n, name, r, ExtentOf(r, extra))
  {
    assert at + |name| == at + r.nameLength;
  }

  lemma FindLeads(file: seq<byte>, o: Opening, name: Name, r: CdRecord, extra: seq<byte>)
    requires o.cdOffset <= |file| && IndexOk(o.cd, o.index)
    requires 0 < |name| <= 65535 && IndexedAs(o, name, r, extra)
    ensures Find(file, o, name) == AtExtent(file, o.cdOffset, name, r, ExtentOf(r, extra))
  {
    FindAtLeads(file, o.cd, o.cdOffset, name, o.index[name], r, extra);
  }

  /** A name is found as `e` exactly if its directory record and the local header say so. */
  lemma FindExact(file: seq<byte>, o: Opening, name: Name, r: CdRecord, extra: seq<byte>, e: ZipEntry)
    requires o.cdOffset <= |file| && IndexOk(o.cd, o.index)
    requires 0 < |name| <= 65535 && IndexedAs(o, name, r, extra)
    ensures Find(file, o, name) == Success(e) <==> FoundAs(file, o.cdOffset, name, r, extra, e)
  {
    FindLeads(file, o, name, r, extra);
    FoundExact(file, o.cdOffset, name, r, extra, e);
  }
}
