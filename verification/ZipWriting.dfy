/**
 The ZipWriter state machine over a seekable file, on values: what each call does to the writer and
 to the bytes of the file, when the file operations succeed. Entries are stored, not compressed.
 */
module ZipWriting {
  import opened Common
  import opened Bits
  import opened EntryNames
  import opened ZipRecords

  const UINT32_MAX: nat := 0xffff_ffff
  const UINT16_MAX: nat := 0xffff
  const DD_FLAG: nat := 8

  /** `ZipWriter::FileEntry` of a stored entry. */
  datatype FileEntry = FileEntry(
    path: seq<byte>, crc: nat, compressedSize: nat, uncompressedSize: nat,
    time: nat, date: nat, paddingLength: nat, headerOffset: nat)

  datatype State = WritingZip | WritingEntry | Done | Error

  datatype Code = NoError | InvalidState | IoError | InvalidEntryName | InvalidAlignment

  /** The writer and its file: contents, file position, and the fields of the class. */
  datatype Writer = Writer(
    data: seq<byte>, pos: nat, offset: nat, state: State, files: seq<FileEntry>, current: FileEntry)

  /** `time` and `date` are the DOS time stamp of the entry. */
  datatype Op =
    | Start(path: seq<byte>, alignment: nat, time: nat, date: nat)
    | Write(bytes: seq<byte>)
    | FinishEntry
    | Discard
    | Finish

  datatype Outcome = Outcome(code: Code, writer: Writer)

  /** The checksum function, left open: from a checksum and more bytes to the next checksum. */
  type Crc = (nat, seq<byte>) -> nat

  // ---------- the file ----------

  /** Writing `bytes` at `pos`: they replace what is there and may extend the file. */
  function Splice(data: seq<byte>, pos: nat, bytes: seq<byte>): (r: seq<byte>)
    requires pos <= |data|
    ensures pos + |bytes| <= |r| && |data| <= |r|
    ensures r[..pos + |bytes|] == data[..pos] + bytes
    ensures forall i :: pos + |bytes| <= i < |data| ==> r[i] == data[i]
  {
    data[..pos] + bytes + (if pos + |bytes| < |data| then data[pos + |bytes|..] else [])
  }

  /** Append at the current position, which is also the current offset. */
  function Put(w: Writer, bytes: seq<byte>): Writer
    requires w.pos <= |w.data|
  {
    w.(data := Splice(w.data, w.pos, bytes), pos := w.pos + |bytes|, offset := w.offset + |bytes|)
  }

  // ---------- records ----------

  function Zeros(n: nat): (z: seq<byte>)
    ensures |z| == n
  {
    seq(n, _ => 0)
  }

  /** `CopyFromFileEntry`. */
  function HeaderFor(e: FileEntry, useDataDescriptor: bool): LocalHeader {
    if useDataDescriptor then
      LocalHeader(LFH_SIGNATURE, 0, DD_FLAG, 0, e.time, e.date, 0, 0, 0, |e.path|, e.paddingLength)
    else
      LocalHeader(LFH_SIGNATURE, 0, 0, 0, e.time, e.date, e.crc, e.compressedSize, e.uncompressedSize,
                  |e.path|, e.paddingLength)
  }

  function DirectoryRecord(e: FileEntry): CdRecord {
    CdRecord(CDR_SIGNATURE, 0, 0, 0, 0, e.time, e.date, e.crc, e.compressedSize, e.uncompressedSize,
             |e.path|, 0, 0, 0, 0, 0, e.headerOffset)
  }

  function RecordBytes(e: FileEntry): (b: seq<byte>)
    ensures |b| == CDR_SIZE + |e.path|
  {
    CdBytes(DirectoryRecord(e)) + e.path
  }

  /** The central directory. */
  function Central(files: seq<FileEntry>): seq<byte> {
    if files == [] then [] else Central(files[..|files| - 1]) + RecordBytes(files[|files| - 1])
  }

  function EndRecord(count: nat, cdSize: nat, cdOffset: nat): Eocd {
    Eocd(EOCD_SIGNATURE, 0, 0, count, count, cdSize, cdOffset, 0)
  }

  // ---------- the calls ----------

  predicate PowerOfTwoOrZero(a: nat) { a == 0 || And(a, a - 1) == 0 }

  /** How many zero bytes after a header at `offset` and a name bring the data to the alignment. */
  function Padding(offset: nat, nameLength: nat, alignment: nat): nat {
    var start := offset + LFH_SIZE + nameLength;
    if alignment != 0 && And(start, alignment - 1) != 0 then alignment - Rem(start, alignment) else 0
  }

  function Fail(w: Writer, code: Code): Outcome { Outcome(code, w.(state := Error)) }

  predicate InPlace(w: Writer) { w.pos == w.offset <= |w.data| }

  /** The checks of `StartAlignedEntryWithTime`, in their order. */
  function StartCode(count: nat, offset: nat, path: seq<byte>, alignment: nat): Code {
    if count == UINT16_MAX then IoError
    else if !PowerOfTwoOrZero(alignment) then InvalidAlignment
    else if alignment > UINT16_MAX then InvalidAlignment
    else if offset > UINT32_MAX then IoError
    else if !ValidName(path) then InvalidEntryName
    else NoError
  }

  function StartAlignedEntry(w: Writer, path: seq<byte>, alignment: nat, time: nat, date: nat): Outcome
    requires w.state == WritingZip ==> InPlace(w)
  {
    StartWith(w, StartCode(|w.files|, w.offset, path, alignment),
              FileEntry(path, 0, 0, 0, time, date, Padding(w.offset, |path|, alignment), w.offset))
  }

  /** `code` is the verdict of the checks, `entry` what is to be written. */
  function StartWith(w: Writer, code: Code, entry: FileEntry): Outcome
    requires w.state == WritingZip ==> InPlace(w)
  {
    if w.state != WritingZip then Outcome(InvalidState, w)
    else if code == IoError then Fail(w, IoError)
    else if code != NoError then Outcome(code, w)
    else Outcome(NoError, Begin(w, entry))
  }

  /** Write a header that announces a data descriptor, the name and the padding. */
  function Begin(w: Writer, entry: FileEntry): Writer
    requires InPlace(w)
  {
    Put(w, LocalBytes(HeaderFor(entry, true)) + entry.path + Zeros(entry.paddingLength))
      .(current := entry, state := WritingEntry)
  }

  function WriteBytes(crc: Crc, w: Writer, bytes: seq<byte>): Outcome
    requires w.state == WritingEntry ==> InPlace(w)
  {
    if w.state != WritingEntry then Fail(w, InvalidState)
    else if |bytes| + w.current.uncompressedSize > UINT32_MAX then Fail(w, IoError)
    else
      var e := w.current;
      Outcome(NoError, Put(w, bytes).(current := e.(
        compressedSize := e.compressedSize + |bytes|,
        crc := crc(e.crc, bytes) % 0x1_0000_0000,
        uncompressedSize := e.uncompressedSize + |bytes|)))
  }

  /** Seek back, rewrite the header with the sizes, and return to the end. */
  function EndEntry(w: Writer): Outcome
    requires w.state == WritingEntry ==> InPlace(w) && w.current.headerOffset <= |w.data|
  {
    if w.state != WritingEntry then Outcome(InvalidState, w)
    else
      var header := LocalBytes(HeaderFor(w.current, false));
      Outcome(NoError, w.(data := Splice(w.data, w.current.headerOffset, header),
                          pos := w.offset, files := w.files + [w.current], state := WritingZip))
  }

  function DiscardLastEntry(w: Writer): Outcome {
    if w.state != WritingZip || w.files == [] then Outcome(InvalidState, w)
    else
      var last := w.files[|w.files| - 1];
      Outcome(NoError, w.(offset := last.headerOffset, pos := last.headerOffset, files := w.files[..|w.files| - 1]))
  }

  function FinishArchive(w: Writer): Outcome
    requires w.state == WritingZip ==> InPlace(w)
  {
    if w.state != WritingZip then Outcome(InvalidState, w)
    else
      var cd := Central(w.files);
      if w.offset + |cd| > UINT32_MAX then Fail(Put(w, cd), IoError)
      else Outcome(NoError, Conclude(Put(w, cd), EndRecord(|w.files|, |cd|, w.offset)))
  }

  /** Write the end record and cut off whatever lies behind it. */
  function Conclude(w: Writer, end: Eocd): Writer
    requires InPlace(w)
  {
    var w' := Put(w, EocdBytes(end));
    w'.(data := w'.data[..w'.offset], state := Done)
  }

  /** What every reachable writer satisfies, and what the calls need. */
  predicate Ready(w: Writer) {
    && (w.state == WritingZip || w.state == WritingEntry ==> InPlace(w))
    && (w.state == WritingEntry ==> w.current.headerOffset <= |w.data|)
  }

  function Apply(crc: Crc, w: Writer, op: Op): Outcome
    requires Ready(w)
  {
    match op
    case Start(path, alignment, time, date) => StartAlignedEntry(w, path, alignment, time, date)
    case Write(bytes) => WriteBytes(crc, w, bytes)
    case FinishEntry => EndEntry(w)
    case Discard => DiscardLastEntry(w)
    case Finish => FinishArchive(w)
  }
}
