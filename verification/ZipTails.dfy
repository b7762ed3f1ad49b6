/**
 The records of a finished archive, field by field, and archives whose entries and directory the
 writer wrote, but which end otherwise: with a comment, or with a Zip64 end record. They open and read
 back like the writer's own.
 */
module ZipTails {
  import opened Common
  import opened ZipErrors
  import opened ZipRecords
  import opened ZipReading
  import opened ZipLookup
  import opened ZipEntries
  import opened ZipImage
  import opened ZipIndex
  import opened ZipLayout
  import opened ZipRoundTrip
  import opened ZipLocate
  import W = ZipWriting

  // ---------- what the writer leaves in its records ----------

  /** The header of entry `i`, field by field. */
  lemma {:induction false} HeaderWritten(es: seq<Entry>, i: nat, h: nat)
    requires EntriesOk(es) && i < |es| && h == HeaderOffset(es, i)
    ensures h + 30 <= |Archive(es)|
    ensures var e := es[i];
      ReadLocal(Archive(es)[h..h + 30])
      == LocalHeader(0x04034b50, 0, 0, 0, e.time, e.date, e.crc, |e.content|, |e.content|, |e.name|, e.padding)
  {
    LocalReads(es, i, h);
  }

  /** Its directory record, which says where the header is. */
  lemma {:induction false} RecordWritten(es: seq<Entry>, i: nat, h: nat, p: nat)
    requires EntriesOk(es) && SizeOk(es) && i < |es| && h == HeaderOffset(es, i) && p == Place(FilesOf(es), i)
    ensures p + 46 <= |W.Central(FilesOf(es))|
    ensures var e := es[i];
      ReadCd(W.Central(FilesOf(es))[p..p + 46])
      == CdRecord(0x02014b50, 0, 0, 0, 0, e.time, e.date, e.crc, |e.content|, |e.content|, |e.name|,
                  0, 0, 0, 0, 0, h)
  {
    FilesFit(es);
    FilesAt(es, i);
    RecordReads(FilesOf(es), |Locals(es)|, i, p);
  }

  /** The end record. */
  lemma {:induction false} EndWritten(es: seq<Entry>, at: nat)
    requires EntriesOk(es) && SizeOk(es) && at == |Locals(es)| + |W.Central(FilesOf(es))|
    ensures |Archive(es)| == at + 22
    ensures ReadEocd(Archive(es)[at..at + 22])
         == Eocd(0x06054b50, 0, 0, |es|, |es|, |W.Central(FilesOf(es))|, |Locals(es)|, 0)
  {
    ArchiveEnd(es, at);
    EndFits(es);
    EndReads(Archive(es), at, EndOf(es));
  }

  // ---------- what lies where ----------

  /** No signature of an end record stands in `b` behind its start. */
  ghost predicate Unmarked(b: seq<byte>) {
    |b| >= 22 && forall j :: 0 < j <= |b| - 22 ==> U32(b, j) != 0x06054b50
  }

  /** An end record with its comment behind `front`. */
  lemma EndBehind(file: seq<byte>, front: seq<byte>, e: Eocd, comment: seq<byte>, at: nat)
    requires file == front + (EocdBytes(e) + comment) && at == |front|
    requires e.signature == 0x06054b50 && EocdFits(e) && |comment| == e.commentLength && |file| <= 0x40_0000_0000
    requires Unmarked(EocdBytes(e) + comment)
    ensures LastEnd(file, at, e) && |file| == at + 22 + e.commentLength
  {
    var tail := EocdBytes(e) + comment;
    assert Lies(file, at, tail);
    assert Lies(tail, 0, EocdBytes(e));
    LiesInside(file, at, tail, 0, EocdBytes(e), at);
    forall j | at < j <= |file| - 22
      ensures U32(file, j) != 0x06054b50
    {
      U32Inside(file, at, tail, j - at, j);
    }
  }

  /**
   Any front, a directory `cd` at its end and an end record that says so, with any comment: the
   directory is found.
   */
  lemma CommentedDirectory(locals: seq<byte>, cd: seq<byte>, e: Eocd, comment: seq<byte>, file: seq<byte>)
    requires file == locals + cd + (EocdBytes(e) + comment) && |file| <= 0x40_0000_0000
    requires e.signature == 0x06054b50 && EocdFits(e) && !Full(e) && |comment| == e.commentLength
    requires e.records > 0 && e.cdSize == |cd| && e.cdOffset == |locals| && Unmarked(EocdBytes(e) + comment)
    ensures MapDirectory(file) == Success(Directory(e.records, |cd|, |locals|))
  {
    EndBehind(file, locals + cd, e, comment, |locals + cd|);
    PlainExact(file, |locals + cd|, e);
  }

  /** The same with a full end record, and the numbers in a Zip64 end record behind the directory. */
  lemma Zip64Directory(locals: seq<byte>, cd: seq<byte>, x: End64, gap: seq<byte>, disk: nat, disks: nat, e: Eocd,
                       comment: seq<byte>, file: seq<byte>)
    requires file == locals + cd + Zip64Tail(|locals + cd|, x, gap, disk, disks, e, comment)
    requires |file| <= 0x40_0000_0000 && End64Fits(x) && LocatorFits(disk, |locals + cd|, disks)
    requires e.signature == 0x06054b50 && EocdFits(e) && Full(e) && |comment| == e.commentLength
    requires x.records > 0 && x.cdSize == |cd| && x.cdOffset == |locals| > 0 && Unmarked(EocdBytes(e) + comment)
    ensures MapDirectory(file) == Success(Directory(x.records, |cd|, |locals|))
  {
    var end := |locals + cd|;
    var record, locator := End64Bytes(x), LocatorBytes(disk, end, disks);
    End64Reads(x);
    LocatorReads(disk, end, disks);
    var at := end + 56 + |gap| + 20;
    TailParts(locals + cd, record, gap, locator, EocdBytes(e) + comment, file);
    EndBehind(file, locals + cd + record + gap + locator, e, comment, at);
    Zip64Exact(file, at, e, disk, end, disks, x);
  }

  ghost function Zip64Tail(end: nat, x: End64, gap: seq<byte>, disk: nat, disks: nat, e: Eocd, comment: seq<byte>)
    : seq<byte>
  {
    End64Bytes(x) + gap + LocatorBytes(disk, end, disks) + (EocdBytes(e) + comment)
  }

  lemma TailParts(front: seq<byte>, a: seq<byte>, g: seq<byte>, l: seq<byte>, t: seq<byte>, file: seq<byte>)
    requires file == front + (a + g + l + t)
    ensures Lies(file, |front|, a) && Lies(file, |front| + |a| + |g|, l) && file == front + a + g + l + t
  {
    LiesBetween(front, a, g + l + t);
    assert front + a + (g + l + t) == file;
    LiesBetween(front + a + g, l, t);
    assert front + a + g + l + t == file;
  }

  // ---------- finding does not look behind the entries ----------

  lemma SamePart(file: seq<byte>, other: seq<byte>, n: nat, i: nat, j: nat)
    requires n <= |file| && n <= |other| && file[..n] == other[..n] && i <= j <= n
    ensures file[i..j] == other[i..j]
  {
    assert file[i..j] == file[..n][i..j] && other[i..j] == other[..n][i..j];
  }

  lemma CheckFrame(
    file: seq<byte>, other: seq<byte>, n: nat, name: Name, r: CdRecord, x: Extent, at: nat, l: LocalHeader)
    requires at + LFH_SIZE <= n <= |file| && n <= |other| && file[..n] == other[..n]
    ensures CheckLocal(file, n, name, r, x, at, l) == CheckLocal(other, n, name, r, x, at, l)
  {
    var from := at + LFH_SIZE;
    var to := from + |name|;
    if to <= n {
      SamePart(file, other, n, from, to);
      if to + l.extraLength <= n {
        SamePart(file, other, n, to, to + l.extraLength);
      }
    }
  }

  lemma LocalFrame(file: seq<byte>, other: seq<byte>, n: nat, name: Name, r: CdRecord, x: Extent)
    requires n <= |file| && n <= |other| && file[..n] == other[..n]
    ensures AtLocal(file, n, name, r, x) == AtLocal(other, n, name, r, x)
  {
    if 0 <= x.headerOffset && x.headerOffset + LFH_SIZE < n {
      var at: nat := x.headerOffset;
      SamePart(file, other, n, at, at + LFH_SIZE);
      CheckFrame(file, other, n, name, r, x, at, ReadLocal(file[at..at + LFH_SIZE]));
    }
  }

  lemma FindAtFrame(file: seq<byte>, other: seq<byte>, cd: seq<byte>, n: nat, name: Name, at: nat)
    requires n <= |file| && n <= |other| && file[..n] == other[..n] && EntryAt(cd, name, at)
    ensures FindAt(file, cd, n, name, at) == FindAt(other, cd, n, name, at)
  {
    var r := RecordAt(cd, at - CDR_SIZE);
    var extra := cd[at + r.nameLength..at + r.nameLength + r.extraLength];
    if ExtentOf(r, extra).Success? {
      LocalFrame(file, other, n, name, r, ExtentOf(r, extra).value);
    }
  }

  /** Two files that agree in front of the directory give the same answer to every name. */
  lemma FindFrame(file: seq<byte>, other: seq<byte>, o: Opening, name: Name)
    requires o.cdOffset <= |file| && o.cdOffset <= |other| && IndexOk(o.cd, o.index)
    requires file[..o.cdOffset] == other[..o.cdOffset]
    ensures Find(file, o, name) == Find(other, o, name)
  {
    if name in o.index {
      FindAtFrame(file, other, o.cd, o.cdOffset, name, o.index[name]);
    }
  }

  // ---------- reading back ----------

  /** The file begins with the entries and the directory of `es`, and the reader finds the directory. */
  ghost predicate Holds(file: seq<byte>, es: seq<Entry>) {
    && Lies(file, 0, Locals(es)) && Lies(file, |Locals(es)|, W.Central(FilesOf(es)))
    && MapDirectory(file) == Success(Directory(|es|, |W.Central(FilesOf(es))|, |Locals(es)|))
  }

  lemma {:induction false} SameStart(file: seq<byte>, es: seq<Entry>, n: nat)
    requires Lies(file, 0, Locals(es)) && n == |Locals(es)|
    ensures n <= |file| && n <= |Archive(es)| && file[..n] == Archive(es)[..n]
  {
    ArchiveLocals(es);
    assert file[..n] == file[0..n] && Archive(es)[..n] == Archive(es)[0..n];
  }

  lemma {:induction false} StartsWithHeader(file: seq<byte>, es: seq<Entry>)
    requires EntriesOk(es) && es != [] && Lies(file, 0, Locals(es)) && |Locals(es)| >= 4
    ensures |file| >= 4 && U32(file, 0) == LFH_SIGNATURE
  {
    FirstHeader(es);
    SameStart(file, es, |Locals(es)|);
    SamePart(file, Archive(es), |Locals(es)|, 0, 4);
  }

  lemma {:induction false} LocalsLong(es: seq<Entry>)
    requires es != []
    ensures |Locals(es)| >= 30
  {
    assert |LocalImage(es[|es| - 1])| >= LFH_SIZE;
  }

  lemma {:induction false} OpensAlike(file: seq<byte>, es: seq<Entry>)
    requires EntriesOk(es) && SizeOk(es) && es != [] && Holds(file, es)
    ensures Open(file) == if NamesDistinct(es) then Success(OpeningOf(es)) else Failure(DuplicateEntry)
  {
    var cd := W.Central(FilesOf(es));
    OpenParses(file, Directory(|es|, |cd|, |Locals(es)|), cd);
    LocalsLong(es);
    StartsWithHeader(file, es);
    ParseWritten(es, file);
    SameNames(es);
  }

  /** Such a file gives back every entry, as the writer's own archive does. */
  lemma {:induction false} ReadsAlike(file: seq<byte>, es: seq<Entry>, i: nat)
    requires EntriesOk(es) && SizeOk(es) && NamesDistinct(es) && i < |es| && es[i].name != [] && Holds(file, es)
    ensures Open(file).Success? && ReadsBackAs(file, Open(file).value, es[i], HeaderOffset(es, i))
  {
    var h, n := HeaderOffset(es, i), |Locals(es)|;
    OpensAlike(file, es);
    SameNames(es);
    SameStart(file, es, n);
    FindWritten(es, i, h);
    FindFrame(file, Archive(es), OpeningOf(es), es[i].name);
    ContentAlike(file, es, i, h);
  }

  lemma {:induction false} ContentAlike(file: seq<byte>, es: seq<Entry>, i: nat, h: nat)
    requires i < |es| && h == HeaderOffset(es, i) && Lies(file, 0, Locals(es))
    ensures Lies(file, DataOffset(es[i], h), es[i].content)
  {
    var e := es[i];
    var d: nat := LFH_SIZE + |e.name| + e.padding;
    LocalAt(es, i);
    LiesInside(file, 0, Locals(es), h, LocalImage(e), h);
    ContentOfImage(e, d);
    LiesInside(file, h, LocalImage(e), d, e.content, DataOffset(e, h));
  }

  /** A finished archive with a comment: opening and every entry are as without it. */
  lemma {:induction false} CommentReadsBack(es: seq<Entry>, i: nat, comment: seq<byte>, e: Eocd, file: seq<byte>)
    requires EntriesOk(es) && SizeOk(es) && |es| < 65535 && NamesDistinct(es) && i < |es| && es[i].name != []
    requires |comment| < 65535 && e == EndOf(es).(commentLength := |comment|) && Unmarked(EocdBytes(e) + comment)
    requires file == Locals(es) + W.Central(FilesOf(es)) + (EocdBytes(e) + comment)
    ensures Open(file) == Success(OpeningOf(es)) && ReadsBackAs(file, OpeningOf(es), es[i], HeaderOffset(es, i))
  {
    var locals, cd := Locals(es), W.Central(FilesOf(es));
    FilesFit(es);
    EndFits(es);
    EndPlain(|es|, |cd|, |locals|);
    CommentedDirectory(locals, cd, e, comment, file);
    FirstPart(locals, cd, EocdBytes(e) + comment);
    LiesBetween(locals, cd, EocdBytes(e) + comment);
    OpensAlike(file, es);
    ReadsAlike(file, es, i);
  }

  /**
   The entries and the directory with a Zip64 end record: up to 65535 entries read back, one more than
   without it.
   */
  lemma {:induction false} Zip64ReadsBack(
    es: seq<Entry>, i: nat, x: End64, tail: seq<byte>, disk: nat, disks: nat, e: Eocd, comment: seq<byte>,
    gap: seq<byte>, file: seq<byte>)
    requires EntriesOk(es) && SizeOk(es) && NamesDistinct(es) && i < |es| && es[i].name != []
    requires x.records == |es| && x.cdSize == |W.Central(FilesOf(es))| && x.cdOffset == |Locals(es)| && End64Fits(x)
    requires e.signature == 0x06054b50 && EocdFits(e) && Full(e) && |comment| == e.commentLength
    requires Unmarked(EocdBytes(e) + comment) && LocatorFits(disk, |Locals(es) + W.Central(FilesOf(es))|, disks)
    requires tail == Zip64Tail(|Locals(es) + W.Central(FilesOf(es))|, x, gap, disk, disks, e, comment)
    requires file == Locals(es) + W.Central(FilesOf(es)) + tail && |file| <= 0x40_0000_0000
    ensures Open(file) == Success(OpeningOf(es)) && ReadsBackAs(file, OpeningOf(es), es[i], HeaderOffset(es, i))
  {
    var locals, cd := Locals(es), W.Central(FilesOf(es));
    LocalsLong(es);
    Zip64Directory(locals, cd, x, gap, disk, disks, e, comment, file);
    FirstPart(locals, cd, tail);
    LiesBetween(locals, cd, tail);
    OpensAlike(file, es);
    ReadsAlike(file, es, i);
  }
}
