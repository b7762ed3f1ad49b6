/** Finding an entry of an open archive by its name. */
module ZipLookup {
  import opened Common
  import opened ZipErrors
  import opened ZipRecords
  import opened Zip64Extra
  import opened ZipReading

  const STORED: nat := 0

  /** `ZipEntry64`, as far as extraction needs it. */
  datatype ZipEntry = ZipEntry(
    compression: nat, time: nat, date: nat, crc: nat, compressedLength: nat, uncompressedLength: nat,
    offset: nat, hasDataDescriptor: bool)

  /** Sizes and header offset after the Zip64 information, if any, was taken into account. */
  datatype Extent = Extent(compressed: nat, uncompressed: nat, headerOffset: int)

  function ValueOr(o: Option<nat>, d: nat): nat { if o.Some? then o.value else d }

  function ExtentOf(r: CdRecord, extra: seq<byte>): Result<Extent, ZipError> {
    if r.uncompressedSize != UINT32_MAX && r.compressedSize != UINT32_MAX && r.headerOffset != UINT32_MAX then
      Success(Extent(r.compressedSize, r.uncompressedSize, r.headerOffset))
    else
      match Walk(extra, 0, WantOf(r.uncompressedSize, r.compressedSize, Some(r.headerOffset)))
      case Failure(e) => Failure(e)
      case Success(info) => Success(Extent(
        ValueOr(info.compressed, r.compressedSize), ValueOr(info.uncompressed, r.uncompressedSize),
        if info.headerOffset.Some? then Signed64(info.headerOffset.value) else r.headerOffset))
  }

  /** The sizes (compressed, uncompressed) in a local header. */
  function LocalSizes(l: LocalHeader, extra: seq<byte>): Result<(nat, nat), ZipError> {
    if l.uncompressedSize != UINT32_MAX && l.compressedSize != UINT32_MAX then
      Success((l.compressedSize, l.uncompressedSize))
    else if l.uncompressedSize != UINT32_MAX || l.compressedSize != UINT32_MAX then Failure(InvalidFile)
    else
      var want := WantOf(l.uncompressedSize, l.compressedSize, None);
      match Walk(extra, 0, want)
      case Failure(e) => Failure(e)
      case Success(info) =>
        WalkProvides(extra, 0, want);
        Success((info.compressed.value, info.uncompressed.value))
  }

  predicate DataDescriptorFlag(flags: nat) { flags / 8 % 2 == 1 }

  /** The entry's data lies in front of the central directory, and so do all bytes extraction reads. */
  predicate DataInside(e: ZipEntry, cdOffset: nat) {
    && e.offset + e.compressedLength <= cdOffset
    && (e.compression == STORED ==> e.offset + e.uncompressedLength <= cdOffset)
  }

  /** The checks on the local header `l` at `at`, against the directory record `r`. */
  function CheckLocal(file: seq<byte>, cdOffset: nat, name: Name, r: CdRecord, x: Extent, at: nat, l: LocalHeader)
    : (result: Result<ZipEntry, ZipError>)
    requires at + LFH_SIZE <= cdOffset <= |file|
    ensures result.Success? ==> DataInside(result.value, cdOffset)
    ensures result.Success? ==>
      && result.value.offset == at + LFH_SIZE + |name| + l.extraLength
      && file[at + LFH_SIZE..at + LFH_SIZE + |name|] == name
      && l.signature == LFH_SIGNATURE && l.nameLength == |name|
    ensures result.Success? ==>
      && result.value.compression == r.compression && result.value.time == r.time && result.value.date == r.date
      && result.value.crc == r.crc && result.value.compressedLength == x.compressed
      && result.value.uncompressedLength == x.uncompressed
      && (result.value.hasDataDescriptor <==> l.flags / 8 % 2 == 1)
    ensures result.Success? && !result.value.hasDataDescriptor ==>
      && result.value.crc == r.crc == l.crc
      && var e := result.value;
         LocalSizes(l, file[e.offset - l.extraLength..e.offset]) == Success((e.compressedLength, e.uncompressedLength))
  {
    var nameEnd := at + LFH_SIZE + |name|;
    if l.signature != LFH_SIGNATURE then Failure(InvalidOffset)
    else if l.nameLength != |name| then Failure(InconsistentInformation)
    else if nameEnd > cdOffset then Failure(InvalidOffset)
    else if file[at + LFH_SIZE..nameEnd] != name then Failure(InconsistentInformation)
    else if nameEnd + l.extraLength > cdOffset then Failure(InvalidOffset)
    else
      match LocalSizes(l, file[nameEnd..nameEnd + l.extraLength])
      case Failure(e) => Failure(e)
      case Success((compressed, uncompressed)) =>
        var described := DataDescriptorFlag(l.flags);
        if !described && (x.compressed != compressed || x.uncompressed != uncompressed || r.crc != l.crc) then
          Failure(InconsistentInformation)
        else
          var entry := ZipEntry(r.compression, r.time, r.date, r.crc, x.compressed, x.uncompressed,
                                nameEnd + l.extraLength, described);
          if DataInside(entry, cdOffset) then Success(entry) else Failure(InvalidOffset)
  }

  /** Read the local header that `x` points to. */
  function AtLocal(file: seq<byte>, cdOffset: nat, name: Name, r: CdRecord, x: Extent)
    : (result: Result<ZipEntry, ZipError>)
    requires cdOffset <= |file|
    ensures result.Success? ==> DataInside(result.value, cdOffset)
  {
    if x.headerOffset + LFH_SIZE >= cdOffset then Failure(InvalidOffset)
    else if x.headerOffset < 0 then Failure(ReadFailed)
    else
      var at := x.headerOffset;
      CheckLocal(file, cdOffset, name, r, x, at, ReadLocal(file[at..at + LFH_SIZE]))
  }

  /** `FindEntry` for the record whose name is at `at` in the directory. */
  function FindAt(file: seq<byte>, cd: seq<byte>, cdOffset: nat, name: Name, at: nat)
    : (result: Result<ZipEntry, ZipError>)
    requires cdOffset <= |file| && EntryAt(cd, name, at)
    ensures result.Success? ==> DataInside(result.value, cdOffset)
  {
    var r := RecordAt(cd, at - CDR_SIZE);
    var extra := at + r.nameLength;
    match ExtentOf(r, cd[extra..extra + r.extraLength])
    case Failure(e) => Failure(e)
    case Success(x) => AtLocal(file, cdOffset, name, r, x)
  }

  /**
   `FindEntry`. For any file that opens and any name: an entry that is found lies inside the file, in
   front of the central directory.
   */
  function Find(file: seq<byte>, o: Opening, name: Name): (result: Result<ZipEntry, ZipError>)
    requires o.cdOffset <= |file| && IndexOk(o.cd, o.index)
    ensures result.Success? ==> name in o.index && DataInside(result.value, o.cdOffset)
    ensures |name| == 0 || |name| > 65535 ==> result == Failure(InvalidEntryName)
    ensures 0 < |name| <= 65535 && name !in o.index ==> result == Failure(EntryNotFound)
  {
    if name == [] || |name| > UINT16_MAX then Failure(InvalidEntryName)
    else if name !in o.index then Failure(EntryNotFound)
    else FindAt(file, o.cd, o.cdOffset, name, o.index[name])
  }

  lemma FindsAt(file: seq<byte>, o: Opening, name: Name, at: nat)
    requires o.cdOffset <= |file| && IndexOk(o.cd, o.index)
    requires name != [] && |name| <= UINT16_MAX && name in o.index && o.index[name] == at
    ensures EntryAt(o.cd, name, at) && Find(file, o, name) == FindAt(file, o.cd, o.cdOffset, name, at)
  {
  }

  /** The stored bytes of an entry. */
  function Content(file: seq<byte>, e: ZipEntry): seq<byte>
    requires e.offset + e.uncompressedLength <= |file|
  {
    file[e.offset..e.offset + e.uncompressedLength]
  }
}
