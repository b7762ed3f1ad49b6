/**
 Opening an archive and finding an entry, on the bytes of the file: every check of the reader in its
 order. Nothing is assumed about the file; each slice below is inside it.
 */
module ZipReading {
  import opened Common
  import opened EntryNames
  import opened ZipErrors
  import opened ZipRecords
  import opened Zip64Extra
  import LittleEndian

  const UINT16_MAX: nat := 0xffff
  const MAX_FILE_LENGTH: nat := 256 * 0x4000_0000
  const MAX_EOCD_SEARCH: nat := 65535 + EOCD_SIZE
  const LOCATOR_SIZE: nat := 20
  const LOCATOR_SIGNATURE: nat := 0x07064b50
  const EOCD64_SIZE: nat := 56
  const EOCD64_SIGNATURE: nat := 0x06064b50

  type Name = seq<byte>

  function U32(b: seq<byte>, at: nat): nat
    requires at + 4 <= |b|
  {
    LittleEndian.Decode(b[at..at + 4])
  }

  // ---------- where the central directory is ----------

  datatype Directory = Directory(records: nat, size: nat, offset: nat)

  /** The last place in `[lo, hi)` where the signature of an end record stands. */
  function LastSignature(file: seq<byte>, lo: nat, hi: nat): (r: Option<nat>)
    requires lo <= hi && hi + 3 <= |file|
    ensures r.Some? ==> lo <= r.value < hi && U32(file, r.value) == EOCD_SIGNATURE
    ensures r.Some? ==> forall j :: r.value < j < hi ==> U32(file, j) != EOCD_SIGNATURE
    ensures r.None? ==> forall j :: lo <= j < hi ==> U32(file, j) != EOCD_SIGNATURE
    decreases hi
  {
    if hi == lo then None
    else if U32(file, hi - 1) == EOCD_SIGNATURE then Some(hi - 1)
    else LastSignature(file, lo, hi - 1)
  }

  /** `FindCentralDirectoryInfoForZip64`: through the locator in front of the end record at `at`. */
  function Directory64(file: seq<byte>, at: nat): (r: Result<Directory, ZipError>)
    requires at <= |file|
    ensures r.Success? ==> r.value.offset + r.value.size <= |file|
  {
    if at <= LOCATOR_SIZE then Failure(InvalidFile)
    else
      var locator := at - LOCATOR_SIZE;
      if U32(file, locator) != LOCATOR_SIGNATURE then Failure(InvalidFile)
      else
        var end := U64(file, locator + 8);
        if locator <= EOCD64_SIZE || end > locator - EOCD64_SIZE then Failure(InvalidOffset)
        else if U32(file, end) != EOCD64_SIGNATURE then Failure(InvalidFile)
        else
          var records, size, offset := U64(file, end + 32), U64(file, end + 40), U64(file, end + 48);
          if end <= size || offset > end - size then Failure(InvalidOffset)
          else Success(Directory(records, size, offset))
  }

  /** Some field of the end record is too small for its value. */
  predicate Overflowing(e: Eocd) {
    || e.recordsOnDisk == UINT16_MAX || e.records == UINT16_MAX || e.cdSize == UINT32_MAX
    || e.cdOffset == UINT32_MAX || e.commentLength == UINT16_MAX
  }

  /** What the end record `e` at `at` says. */
  function DirectoryFrom(file: seq<byte>, at: nat, e: Eocd): (r: Result<Directory, ZipError>)
    requires at <= |file|
    ensures r.Success? ==> r.value.offset + r.value.size <= |file|
  {
    if at + EOCD_SIZE + e.commentLength != |file| then Failure(InvalidFile)
    else if Overflowing(e) then Directory64(file, at)
    else if e.cdOffset + e.cdSize > at then Failure(InvalidOffset)
    else Success(Directory(e.records, e.cdSize, e.cdOffset))
  }

  /** What the bytes at `at` say, taken for an end record; an archive without entries is refused. */
  function DirectoryAt(file: seq<byte>, at: nat): (r: Result<Directory, ZipError>)
    requires at + EOCD_SIZE <= |file|
    ensures r.Success? ==> r.value.offset + r.value.size <= |file| && r.value.records > 0
  {
    NotEmpty(DirectoryFrom(file, at, ReadEocd(file[at..at + EOCD_SIZE])))
  }

  function NotEmpty(r: Result<Directory, ZipError>): Result<Directory, ZipError> {
    if r.Success? && r.value.records == 0 then Failure(EmptyArchive) else r
  }

  /** Where the search for the end record starts. */
  function SearchStart(length: nat): (lo: nat)
    ensures lo <= length
  {
    length - Min(length, MAX_EOCD_SEARCH)
  }

  /** `MapCentralDirectory`. */
  function MapDirectory(file: seq<byte>): (r: Result<Directory, ZipError>)
    ensures r.Success? ==> r.value.offset + r.value.size <= |file| && EOCD_SIZE <= |file| && r.value.records > 0
  {
    if |file| > MAX_FILE_LENGTH || |file| < EOCD_SIZE then Failure(InvalidFile)
    else
      match LastSignature(file, SearchStart(|file|), |file| - EOCD_SIZE + 1)
      case None => Failure(InvalidFile)
      case Some(at) => DirectoryAt(file, at)
  }

  // ---------- the central directory ----------

  /** A 64-bit value taken for a signed one. */
  function Signed64(n: nat): (r: int)
    ensures n < 0x1_0000_0000_0000_0000 ==>
      -0x8000_0000_0000_0000 <= r < 0x8000_0000_0000_0000 && r % 0x1_0000_0000_0000_0000 == n
  {
    if n < 0x8000_0000_0000_0000 then n else n - 0x1_0000_0000_0000_0000
  }

  /** Where the record says its local header is. */
  function RecordedOffset(r: CdRecord, extra: seq<byte>): Result<int, ZipError> {
    if r.headerOffset != UINT32_MAX then Success(r.headerOffset)
    else
      var want := WantOf(r.uncompressedSize, r.compressedSize, Some(r.headerOffset));
      match Walk(extra, 0, want)
      case Failure(e) => Failure(e)
      case Success(info) => WalkProvides(extra, 0, want); Success(Signed64(info.headerOffset.value))
  }

  function RecordAt(cd: seq<byte>, pos: nat): CdRecord
    requires pos + CDR_SIZE <= |cd|
  {
    ReadCd(cd[pos..pos + CDR_SIZE])
  }

  /** The checks on the record `r` at `pos`; yields where the next record starts. */
  function CheckFields(cd: seq<byte>, cdOffset: nat, pos: nat, r: CdRecord): (next: Result<nat, ZipError>)
    requires pos + CDR_SIZE <= |cd|
    ensures next.Success? ==> RecordInside(cd, pos, r) && next.value == NextStart(pos, r)
    ensures next.Success? ==> ValidName(NameOf(cd, pos, r))
  {
    var name := pos + CDR_SIZE;
    var extra := name + r.nameLength;
    if r.signature != CDR_SIGNATURE then Failure(InvalidFile)
    else if r.nameLength >= |cd| || extra > |cd| then Failure(InvalidEntryName)
    else if r.extraLength >= |cd| || extra + r.extraLength > |cd| then Failure(InvalidFile)
    else
      match RecordedOffset(r, cd[extra..extra + r.extraLength])
      case Failure(e) => Failure(e)
      case Success(offset) =>
        if offset >= cdOffset then Failure(InvalidFile)
        else if !ValidName(cd[name..extra]) then Failure(InvalidEntryName)
        else if extra + r.extraLength + r.commentLength > |cd| then Failure(InvalidFile)
        else Success(extra + r.extraLength + r.commentLength)
  }

  function NextStart(pos: nat, r: CdRecord): nat {
    pos + CDR_SIZE + r.nameLength + r.extraLength + r.commentLength
  }

  predicate RecordInside(cd: seq<byte>, pos: nat, r: CdRecord) { NextStart(pos, r) <= |cd| }

  function NameOf(cd: seq<byte>, pos: nat, r: CdRecord): Name
    requires RecordInside(cd, pos, r)
  {
    cd[pos + CDR_SIZE..pos + CDR_SIZE + r.nameLength]
  }

  function CheckRecord(cd: seq<byte>, cdOffset: nat, pos: nat): Result<nat, ZipError> {
    if pos + CDR_SIZE > |cd| then Failure(InvalidFile) else CheckFields(cd, cdOffset, pos, RecordAt(cd, pos))
  }

  /** Where the `n` records from `pos` on start, if they all pass the checks. */
  function Starts(cd: seq<byte>, cdOffset: nat, pos: nat, n: nat): Result<seq<nat>, ZipError>
    decreases n
  {
    if n == 0 then Success([])
    else
      match CheckRecord(cd, cdOffset, pos)
      case Failure(e) => Failure(e)
      case Success(next) =>
        match Starts(cd, cdOffset, next, n - 1)
        case Failure(e) => Failure(e)
        case Success(rest) => Success([pos] + rest)
  }

  /** A record that passed the checks starts at `pos`. */
  predicate Checked(cd: seq<byte>, pos: nat) {
    && pos + CDR_SIZE <= |cd|
    && RecordInside(cd, pos, RecordAt(cd, pos))
    && ValidName(NameOf(cd, pos, RecordAt(cd, pos)))
  }

  predicate AllChecked(cd: seq<byte>, starts: seq<nat>) { forall i :: 0 <= i < |starts| ==> Checked(cd, starts[i]) }

  lemma {:induction false} StartsChecked(cd: seq<byte>, cdOffset: nat, pos: nat, n: nat)
    requires Starts(cd, cdOffset, pos, n).Success?
    ensures AllChecked(cd, Starts(cd, cdOffset, pos, n).value) && |Starts(cd, cdOffset, pos, n).value| == n
    decreases n
  {
    if n > 0 {
      StartsChecked(cd, cdOffset, CheckRecord(cd, cdOffset, pos).value, n - 1);
    }
  }

  function EntryName(cd: seq<byte>, pos: nat): (name: Name)
    requires Checked(cd, pos)
    ensures ValidName(name)
  {
    NameOf(cd, pos, RecordAt(cd, pos))
  }

  /** Add the names of the records at `starts` to `index`; a name that is there already is an error. */
  function IndexFrom(cd: seq<byte>, starts: seq<nat>, index: map<Name, nat>): Result<map<Name, nat>, ZipError>
    requires AllChecked(cd, starts)
    decreases |starts|
  {
    if starts == [] then Success(index)
    else
      var name := EntryName(cd, starts[0]);
      if name in index then Failure(DuplicateEntry)
      else IndexFrom(cd, starts[1..], index[name := starts[0] + CDR_SIZE])
  }

  /** Every name of the index lies, with its record, where the index says. */
  ghost predicate IndexOk(cd: seq<byte>, index: map<Name, nat>) {
    forall name :: name in index ==> EntryAt(cd, name, index[name])
  }

  ghost predicate EntryAt(cd: seq<byte>, name: Name, at: nat) {
    at >= CDR_SIZE && Checked(cd, at - CDR_SIZE) && EntryName(cd, at - CDR_SIZE) == name
  }

  lemma {:induction false} IndexFromOk(cd: seq<byte>, starts: seq<nat>, index: map<Name, nat>)
    requires AllChecked(cd, starts) && IndexOk(cd, index) && IndexFrom(cd, starts, index).Success?
    ensures IndexOk(cd, IndexFrom(cd, starts, index).value)
    decreases |starts|
  {
    if starts != [] {
      var name := EntryName(cd, starts[0]);
      assert EntryAt(cd, name, starts[0] + CDR_SIZE);
      IndexFromOk(cd, starts[1..], index[name := starts[0] + CDR_SIZE]);
    }
  }

  // ---------- the whole archive ----------

  /** What an open archive keeps. */
  datatype Opening = Opening(cd: seq<byte>, cdOffset: nat, index: map<Name, nat>)

  /** `OpenArchiveInternal`. */
  function Open(file: seq<byte>): (r: Result<Opening, ZipError>)
    ensures r.Success? ==> IndexOk(r.value.cd, r.value.index) && r.value.cdOffset <= |file| && |file| >= EOCD_SIZE
    ensures MapDirectory(file).Failure? ==> r == Failure(MapDirectory(file).error)
  {
    match MapDirectory(file)
    case Failure(e) => Failure(e)
    case Success(d) => ParseDirectory(file, file[d.offset..d.offset + d.size], d.offset, d.records)
  }

  /** `ParseZipArchive`. */
  function ParseDirectory(file: seq<byte>, cd: seq<byte>, cdOffset: nat, records: nat): (r: Result<Opening, ZipError>)
    requires |file| >= 4
    ensures r.Success? ==> IndexOk(r.value.cd, r.value.index) && r.value.cdOffset == cdOffset
  {
    match Starts(cd, cdOffset, 0, records)
    case Failure(e) => Failure(e)
    case Success(starts) =>
      StartsChecked(cd, cdOffset, 0, records);
      match IndexFrom(cd, starts, map[])
      case Failure(e) => Failure(e)
      case Success(index) =>
        IndexFromOk(cd, starts, map[]);
        if U32(file, 0) != LFH_SIGNATURE then Failure(InvalidFile) else Success(Opening(cd, cdOffset, index))
  }
}
