/** An archive that the writer finished, read back. */
module ZipRoundTrip {
  import opened Common
  import opened ZipErrors
  import opened ZipRecords
  import W = ZipWriting
  import opened ZipImage
  import opened ZipEntries
  import opened ZipLayout
  import opened ZipReading
  import opened ZipLookup
  import opened ZipIndex
  import LittleEndian

  // ---------- the end record ----------

  /** The signature is the first field of each record. */
  lemma EocdStarts(b: seq<byte>)
    requires |b| == EOCD_SIZE
    ensures LittleEndian.Decode(b[..4]) == ReadEocd(b).signature
  {
  }

  lemma LocalStarts(b: seq<byte>)
    requires |b| == LFH_SIZE
    ensures LittleEndian.Decode(b[..4]) == ReadLocal(b).signature
  {
  }

  lemma EndReads(file: seq<byte>, at: nat, e: Eocd)
    requires Lies(file, at, EocdBytes(e)) && EocdFits(e)
    ensures at + EOCD_SIZE <= |file| && ReadEocd(file[at..at + EOCD_SIZE]) == e && U32(file, at) == e.signature
  {
    EocdRoundTrip(e);
    EocdStarts(file[at..at + EOCD_SIZE]);
    SliceOfSlice(file, at, at + EOCD_SIZE, 0, 4);
    assert file[at..at + EOCD_SIZE][..4] == file[at..at + EOCD_SIZE][0..4];
  }

  lemma EndFits(es: seq<Entry>)
    requires EntriesOk(es) && SizeOk(es)
    ensures EocdFits(EndOf(es))
  {
  }

  /** The backward search stops at once: the end record is the last thing in the file. */
  lemma SearchHits(file: seq<byte>, lo: nat, hi: nat, at: nat)
    requires lo <= at && hi == at + 1 && hi + 3 <= |file| && U32(file, at) == EOCD_SIGNATURE
    ensures LastSignature(file, lo, hi) == Some(at)
  {
  }

  /** `MapDirectory` once the end record was found. */
  ghost function MapFrom(file: seq<byte>, at: nat, e: Eocd): Result<Directory, ZipError>
    requires at <= |file|
  {
    NotEmpty(DirectoryFrom(file, at, e))
  }

  lemma MapEnding(file: seq<byte>, at: nat, e: Eocd)
    requires Lies(file, at, EocdBytes(e)) && EocdFits(e) && e.signature == EOCD_SIGNATURE
    requires |file| == at + EOCD_SIZE <= MAX_FILE_LENGTH
    ensures MapDirectory(file) == MapFrom(file, at, e)
  {
    EndReads(file, at, e);
    SearchHits(file, SearchStart(|file|), |file| - EOCD_SIZE + 1, at);
  }

  lemma MapWritten(es: seq<Entry>, at: nat)
    requires EntriesOk(es) && SizeOk(es) && at == |Locals(es)| + |W.Central(FilesOf(es))|
    ensures |Archive(es)| == at + EOCD_SIZE && MapDirectory(Archive(es)) == MapFrom(Archive(es), at, EndOf(es))
  {
    ArchiveEnd(es, at);
    EndFits(es);
    MapEnding(Archive(es), at, EndOf(es));
  }

  // ---------- opening ----------

  lemma FileFits(es: seq<Entry>, i: nat)
    requires EntriesOk(es) && SizeOk(es) && i < |es| && |W.Central(FilesOf(es))| > 0
    ensures FileOk(FilesOf(es)[i], |Locals(es)|)
  {
    FilesAt(es, i);
    LocalAt(es, i);
    assert EntryOk(es[i], HeaderOffset(es, i));
  }

  lemma FilesFit(es: seq<Entry>)
    requires EntriesOk(es) && SizeOk(es) && es != []
    ensures FilesOk(FilesOf(es), |Locals(es)|)
    ensures |W.Central(FilesOf(es))| >= CDR_SIZE && |Locals(es)| >= LFH_SIZE
  {
    RecordPlaced(FilesOf(es), 0);
    LocalAt(es, 0);
    forall i | 0 <= i < |es|
      ensures FileOk(FilesOf(es)[i], |Locals(es)|)
    {
      FileFits(es, i);
    }
  }

  /** The local header at `h` is `l`. */
  ghost predicate ReadsLocal(file: seq<byte>, h: nat, l: LocalHeader) {
    h + LFH_SIZE <= |file| && ReadLocal(file[h..h + LFH_SIZE]) == l
  }

  lemma HeaderStarts(file: seq<byte>, l: LocalHeader)
    requires ReadsLocal(file, 0, l)
    ensures U32(file, 0) == l.signature
  {
    LocalStarts(file[0..LFH_SIZE]);
    SliceOfSlice(file, 0, LFH_SIZE, 0, 4);
    assert file[0..LFH_SIZE][..4] == file[0..LFH_SIZE][0..4];
  }

  /** The first local header starts the file. */
  lemma FirstHeader(es: seq<Entry>)
    requires EntriesOk(es) && es != []
    ensures |Archive(es)| >= 4 && U32(Archive(es), 0) == LFH_SIGNATURE
  {
    assert es[..0] == [];
    LocalReads(es, 0, 0);
    HeaderStarts(Archive(es), W.HeaderFor(FileOf(es[0], 0), false));
  }

  lemma HeaderFits(e: Entry, offset: nat)
    requires EntryOk(e, offset)
    ensures LocalFits(W.HeaderFor(FileOf(e, 0), false))
  {
    if e.alignment != 0 { DataAligned(e, offset); }
  }

  lemma HeaderReads(file: seq<byte>, h: nat, l: LocalHeader)
    requires Lies(file, h, LocalBytes(l)) && LocalFits(l)
    ensures ReadsLocal(file, h, l)
  {
    LocalRoundTrip(l);
  }

  /** The header of entry `i`, read at its place. */
  lemma LocalReads(es: seq<Entry>, i: nat, h: nat)
    requires EntriesOk(es) && i < |es| && h == HeaderOffset(es, i)
    ensures ReadsLocal(Archive(es), h, W.HeaderFor(FileOf(es[i], 0), false))
  {
    ArchiveLocal(es, i);
    HeaderOf(es[i]);
    LiesInside(Archive(es), h, LocalImage(es[i]), 0, LocalBytes(W.HeaderFor(FileOf(es[i], 0), false)), h);
    HeaderFits(es[i], h);
    HeaderReads(Archive(es), h, W.HeaderFor(FileOf(es[i], 0), false));
  }

  /** What the reader keeps of the archive. */
  ghost function OpeningOf(es: seq<Entry>): Opening {
    var files := FilesOf(es);
    Opening(W.Central(files), |Locals(es)|, NamesIndex(files, |files|))
  }

  lemma ParseWritten(es: seq<Entry>, file: seq<byte>)
    requires EntriesOk(es) && SizeOk(es) && es != [] && |file| >= 4 && U32(file, 0) == LFH_SIGNATURE
    ensures ParseDirectory(file, W.Central(FilesOf(es)), |Locals(es)|, |es|)
         == if Distinct(FilesOf(es)) then Success(OpeningOf(es)) else Failure(DuplicateEntry)
  {
    var files, n := FilesOf(es), |Locals(es)|;
    FilesFit(es);
    assert files[..0] == [];
    StartsAll(files, n, 0, |files|, 0);
    StartsChecked(W.Central(files), n, 0, |files|);
    IndexAll(files, n, 0);
    FreshIsDistinct(files);
  }

  lemma DirectoryWritten(es: seq<Entry>)
    requires EntriesOk(es) && SizeOk(es) && 0 < |es| < UINT16_MAX
    ensures MapDirectory(Archive(es)) == Success(Directory(|es|, |W.Central(FilesOf(es))|, |Locals(es)|))
  {
    var offset, size := |Locals(es)|, |W.Central(FilesOf(es))|;
    var at: nat := offset + size;
    MapWritten(es, at);
    FilesFit(es);
    EndPlain(|es|, size, offset);
    MapPlain(Archive(es), at, EndOf(es));
  }

  /** A record like this does not point to a Zip64 record. */
  lemma EndPlain(count: nat, size: nat, offset: nat)
    requires 0 < count < UINT16_MAX && size > 0 && offset > 0 && offset + size <= 0xffff_ffff
    ensures !Overflowing(W.EndRecord(count, size, offset)) && W.EndRecord(count, size, offset).commentLength == 0
  {
  }

  lemma MapPlain(file: seq<byte>, at: nat, e: Eocd)
    requires at <= |file| && MapDirectory(file) == MapFrom(file, at, e)
    requires |file| == at + EOCD_SIZE + e.commentLength && !Overflowing(e)
    requires e.records > 0 && e.cdOffset + e.cdSize <= at
    ensures MapDirectory(file) == Success(Directory(e.records, e.cdSize, e.cdOffset))
  {
  }

  lemma OpenParses(file: seq<byte>, d: Directory, cd: seq<byte>)
    requires MapDirectory(file) == Success(d) && |cd| == d.size && Lies(file, d.offset, cd)
    ensures Open(file) == ParseDirectory(file, cd, d.offset, d.records)
  {
  }

  lemma OpenWritten(es: seq<Entry>)
    requires EntriesOk(es) && SizeOk(es) && 0 < |es| < UINT16_MAX
    ensures Open(Archive(es)) == if Distinct(FilesOf(es)) then Success(OpeningOf(es)) else Failure(DuplicateEntry)
  {
    var cd := W.Central(FilesOf(es));
    DirectoryWritten(es);
    ArchiveDirectory(es);
    OpenParses(Archive(es), Directory(|es|, |cd|, |Locals(es)|), cd);
    FirstHeader(es);
    ParseWritten(es, Archive(es));
  }

  // ---------- finding ----------

  /** What the reader says about an entry that the writer wrote with its header at `h`. */
  function EntryFor(e: Entry, h: nat): ZipEntry {
    ZipEntry(STORED, e.time, e.date, e.crc, |e.content|, |e.content|, DataOffset(e, h), false)
  }

  lemma RecordLeads(file: seq<byte>, cd: seq<byte>, cdOffset: nat, name: Name, at: nat, p: nat, f: W.FileEntry)
    requires cdOffset <= |file| && EntryAt(cd, name, at) && at == p + CDR_SIZE && Reads(cd, p, W.DirectoryRecord(f))
    requires f.compressedSize < 0xffff_ffff && f.uncompressedSize < 0xffff_ffff && f.headerOffset < 0xffff_ffff
    ensures FindAt(file, cd, cdOffset, name, at)
         == AtLocal(file, cdOffset, name, W.DirectoryRecord(f),
                    Extent(f.compressedSize, f.uncompressedSize, f.headerOffset))
  {
    assert RecordAt(cd, at - CDR_SIZE) == W.DirectoryRecord(f);
  }

  lemma HeaderLeads(file: seq<byte>, cdOffset: nat, name: Name, r: CdRecord, x: Extent, h: nat, l: LocalHeader)
    requires h == x.headerOffset && h + LFH_SIZE < cdOffset <= |file| && ReadsLocal(file, h, l)
    ensures AtLocal(file, cdOffset, name, r, x) == CheckLocal(file, cdOffset, name, r, x, h, l)
  {
  }

  lemma LocalPasses(file: seq<byte>, cdOffset: nat, e: Entry, h: nat, at: nat)
    requires h + LFH_SIZE + |e.name| + e.padding + |e.content| <= cdOffset <= |file|
    requires |e.content| < 0xffff_ffff && at == h + LFH_SIZE && Lies(file, at, e.name)
    ensures CheckLocal(file, cdOffset, e.name, W.DirectoryRecord(FileOf(e, h)), Extent(|e.content|, |e.content|, h), h,
                       W.HeaderFor(FileOf(e, 0), false)) == Success(EntryFor(e, h))
  {
  }

  /** The name and the content of entry `i`, with its header at `h`, lie in the archive. */
  lemma NameLies(es: seq<Entry>, i: nat, h: nat, at: nat)
    requires i < |es| && h == HeaderOffset(es, i) && at == h + LFH_SIZE
    ensures Lies(Archive(es), at, es[i].name)
  {
    ArchiveLocal(es, i);
    NameOfImage(es[i]);
    LiesInside(Archive(es), h, LocalImage(es[i]), LFH_SIZE, es[i].name, at);
  }

  lemma ContentLies(es: seq<Entry>, i: nat, h: nat)
    requires i < |es| && h == HeaderOffset(es, i)
    ensures Lies(Archive(es), DataOffset(es[i], h), es[i].content)
  {
    var e := es[i];
    var d: nat := LFH_SIZE + |e.name| + e.padding;
    ArchiveLocal(es, i);
    ContentOfImage(e, d);
    LiesInside(Archive(es), h, LocalImage(e), d, e.content, DataOffset(e, h));
  }

  lemma FoundAt(es: seq<Entry>, i: nat, h: nat)
    requires EntriesOk(es) && SizeOk(es) && i < |es| && h == HeaderOffset(es, i) && es[i].name != []
    requires |Locals(es)| <= |Archive(es)|
    requires h + |LocalImage(es[i])| <= |Locals(es)| < 0xffff_ffff
    ensures AtLocal(Archive(es), |Locals(es)|, es[i].name, W.DirectoryRecord(FileOf(es[i], h)),
                    Extent(|es[i].content|, |es[i].content|, h)) == Success(EntryFor(es[i], h))
  {
    var e, file, n := es[i], Archive(es), |Locals(es)|;
    var r, x := W.DirectoryRecord(FileOf(e, h)), Extent(|e.content|, |e.content|, h);
    var l := W.HeaderFor(FileOf(e, 0), false);
    LocalReads(es, i, h);
    HeaderLeads(file, n, e.name, r, x, h, l);
    NameLies(es, i, h, h + LFH_SIZE);
    LocalPasses(file, n, e, h, h + LFH_SIZE);
  }

  lemma IndexedName(es: seq<Entry>, i: nat)
    requires EntriesOk(es) && SizeOk(es) && i < |es| && Distinct(FilesOf(es))
    ensures es[i].name in OpeningOf(es).index
    ensures OpeningOf(es).index[es[i].name] == NamePlace(FilesOf(es), i)
  {
    FilesAt(es, i);
    IndexedAt(FilesOf(es), |es|, i);
  }

  lemma FoundRecord(es: seq<Entry>, i: nat, h: nat, at: nat)
    requires EntriesOk(es) && SizeOk(es) && i < |es| && h == HeaderOffset(es, i) && es[i].name != []
    requires |Locals(es)| <= |Archive(es)| && at == NamePlace(FilesOf(es), i)
    requires EntryAt(OpeningOf(es).cd, es[i].name, at)
    ensures FindAt(Archive(es), OpeningOf(es).cd, |Locals(es)|, es[i].name, at) == Success(EntryFor(es[i], h))
  {
    FilesFit(es);
    RecordReads(FilesOf(es), |Locals(es)|, i, Place(FilesOf(es), i));
    FilesAt(es, i);
    LocalAt(es, i);
    RecordLeads(Archive(es), OpeningOf(es).cd, |Locals(es)|, es[i].name, at, Place(FilesOf(es), i), FileOf(es[i], h));
    FoundAt(es, i, h);
  }

  /** `FindEntry` on a finished archive finds each entry where the writer put it. */
  lemma FindWritten(es: seq<Entry>, i: nat, h: nat)
    requires EntriesOk(es) && SizeOk(es) && i < |es| && h == HeaderOffset(es, i) && es[i].name != []
    requires |Locals(es)| <= |Archive(es)| && Distinct(FilesOf(es))
    requires IndexOk(OpeningOf(es).cd, OpeningOf(es).index)
    ensures Find(Archive(es), OpeningOf(es), es[i].name) == Success(EntryFor(es[i], h))
  {
    var at := NamePlace(FilesOf(es), i);
    IndexedName(es, i);
    assert EntryOk(es[i], h);
    FindsAt(Archive(es), OpeningOf(es), es[i].name, at);
    FoundRecord(es, i, h, at);
  }

  /** The entry is found, its data starts where the writer put it, and it is the content. */
  ghost predicate ReadsBackAs(file: seq<byte>, o: Opening, e: Entry, h: nat) {
    && o.cdOffset <= |file| && IndexOk(o.cd, o.index)
    && Find(file, o, e.name) == Success(EntryFor(e, h))
    && Lies(file, DataOffset(e, h), e.content)
  }

  ghost predicate Named(es: seq<Entry>, name: Name) { exists i :: 0 <= i < |es| && es[i].name == name }

  ghost predicate NamesDistinct(es: seq<Entry>) { forall i, j :: 0 <= i < j < |es| ==> es[i].name != es[j].name }

  lemma SameNames(es: seq<Entry>)
    ensures Distinct(FilesOf(es)) <==> NamesDistinct(es)
  {
    var files := FilesOf(es);
    forall i | 0 <= i < |es|
      ensures files[i].path == es[i].name
    {
      FilesAt(es, i);
    }
    DistinctSame(files, es);
  }

  lemma DistinctSame(files: seq<W.FileEntry>, es: seq<Entry>)
    requires |files| == |es| && forall i :: 0 <= i < |es| ==> files[i].path == es[i].name
    ensures Distinct(files) <==> NamesDistinct(es)
  {
  }

  /**
   Every entry of a finished archive with distinct names is found under its name, with its time stamp,
   checksum, sizes and the place of its data, and its content is there.
   */
  lemma EntryReadsBack(es: seq<Entry>, i: nat)
    requires EntriesOk(es) && SizeOk(es) && |es| < UINT16_MAX && NamesDistinct(es) && i < |es| && es[i].name != []
    ensures Open(Archive(es)).Success?
    ensures ReadsBackAs(Archive(es), Open(Archive(es)).value, es[i], HeaderOffset(es, i))
  {
    SameNames(es);
    OpenWritten(es);
    FindWritten(es, i, HeaderOffset(es, i));
    ContentLies(es, i, HeaderOffset(es, i));
  }

  /** Nothing else is found. */
  lemma NothingElse(es: seq<Entry>, name: Name)
    requires EntriesOk(es) && SizeOk(es) && 0 < |es| < UINT16_MAX && NamesDistinct(es) && !Named(es, name)
    ensures Open(Archive(es)).Success?
    ensures Find(Archive(es), Open(Archive(es)).value, name).Failure?
  {
    SameNames(es);
    OpenWritten(es);
    NotIndexed(es, name);
  }

  lemma NotIndexed(es: seq<Entry>, name: Name)
    requires !Named(es, name)
    ensures name !in OpeningOf(es).index
  {
    var files, n := FilesOf(es), |es|;
    NamesIndexed(files, n, name);
    if name in NamesIndex(files, n) {
      var k :| 0 <= k < n && files[k].path == name;
      FilesAt(es, k);
    }
  }
}
