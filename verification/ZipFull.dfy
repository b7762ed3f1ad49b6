/**
 Which finished archives open. The writer takes up to 65535 entries, but in an end record 65535 means
 that the true number is in a Zip64 record, which the writer never writes: such an archive does not
 open.
 */
module ZipFull {
  import opened Common
  import opened EntryNames
  import opened ZipRecords
  import W = ZipWriting
  import opened ZipImage
  import opened ZipEntries
  import opened ZipLayout
  import opened Zip64Extra
  import opened ZipReading
  import opened ZipRoundTrip
  import LittleEndian

  // ---------- bytes ----------

  lemma {:induction false} NoZeros(name: seq<byte>, i: nat)
    requires WellFormed(name) && i < |name|
    ensures name[i] != 0
    decreases |name|
  {
    var step := if name[0] < 0x80 then 1 else 1 + Continuations(name[0]);
    if i >= step {
      NoZeros(name[step..], i - step);
    } else if i > 0 {
      assert IsContinuation(name[1..][i - 1]);
    }
  }

  lemma {:induction false} DecodeTop(b: seq<byte>)
    requires b != [] && b[|b| - 1] != 0
    ensures LittleEndian.Decode(b) >= LittleEndian.Pow256(|b| - 1)
  {
    if |b| > 1 {
      DecodeTop(b[1..]);
    }
  }

  lemma LocatorBytes(b: seq<byte>)
    requires |b| == 4 && LittleEndian.Decode(b) == LOCATOR_SIGNATURE
    ensures b == [0x50, 0x4b, 0x06, 0x07]
  {
    LittleEndian.EncodeDecode(b);
    assert LittleEndian.Encode(0x07064b50, 4) == [0x50, 0x4b, 0x06, 0x07];
  }

  lemma {:induction false} EncodeSplit(v: seq<nat>, v': seq<nat>, w: seq<nat>, w': seq<nat>)
    requires |v| == |w| && |v'| == |w'|
    ensures EncodeFields(v + v', w + w') == EncodeFields(v, w) + EncodeFields(v', w')
  {
    if v == [] {
      assert v + v' == v' && w + w' == w';
    } else {
      assert (v + v')[1..] == v[1..] + v' && (w + w')[1..] == w[1..] + w';
      EncodeSplit(v[1..], v', w[1..], w');
    }
  }

  // ---------- the middle of a directory record ----------

  const FRONT: seq<nat> := [4, 2, 2, 2, 2, 2, 2, 4, 4, 4]
  const MIDDLE: seq<nat> := [2, 2, 2, 2, 2]
  const BACK: seq<nat> := [4, 4]

  function FrontFields(r: CdRecord): seq<nat> {
    [r.signature, r.versionMadeBy, r.versionNeeded, r.flags, r.compression, r.time, r.date,
     r.crc, r.compressedSize, r.uncompressedSize]
  }

  function MiddleFields(r: CdRecord): seq<nat> {
    [r.nameLength, r.extraLength, r.commentLength, r.startDisk, r.internalAttributes]
  }

  function BackFields(r: CdRecord): seq<nat> { [r.externalAttributes, r.headerOffset] }

  lemma FrontSize()
    ensures Total(FRONT) == 28 && Total(MIDDLE) == 10 && Total(BACK) == 8
  {
    assert Total([4, 2, 2, 2, 2, 2, 2, 4, 4, 4]) == 28;
    assert Total([2, 2, 2, 2, 2]) == 10;
  }

  lemma RecordSplits(r: CdRecord)
    ensures CdBytes(r) == EncodeFields(FrontFields(r), FRONT)
                        + (EncodeFields(MiddleFields(r), MIDDLE) + EncodeFields(BackFields(r), BACK))
  {
    assert CdFields(r) == FrontFields(r) + (MiddleFields(r) + BackFields(r));
    assert CDR_WIDTHS == FRONT + (MIDDLE + BACK);
    EncodeSplit(FrontFields(r), MiddleFields(r) + BackFields(r), FRONT, MIDDLE + BACK);
    EncodeSplit(MiddleFields(r), BackFields(r), MIDDLE, BACK);
  }

  lemma SmallNumber(n: nat)
    requires n < 256
    ensures LittleEndian.Encode(n, 2) == [n, 0]
  {
    assert LittleEndian.Encode(n, 2) == [n % 256] + LittleEndian.Encode(n / 256, 1);
    assert LittleEndian.Encode(0, 1) == [0];
  }

  lemma MiddleBytes(n: nat)
    requires n < 256
    ensures EncodeFields([n, 0, 0, 0, 0], MIDDLE) == [n, 0] + [0, 0, 0, 0, 0, 0, 0, 0]
  {
    SmallNumber(n);
    assert [n, 0, 0, 0, 0] == [n] + [0, 0, 0, 0] && MIDDLE == [2] + [2, 2, 2, 2];
    EncodeSplit([n], [0, 0, 0, 0], [2], [2, 2, 2, 2]);
    assert EncodeFields([0, 0, 0, 0], [2, 2, 2, 2]) == [0, 0, 0, 0, 0, 0, 0, 0];
    assert EncodeFields([n], [2]) == LittleEndian.Encode(n, 2) + EncodeFields([], []);
  }

  lemma LiesSecond(a: seq<byte>, b: seq<byte>, c: seq<byte>, at: nat)
    requires |a| == at
    ensures Lies(a + (b + c), at, b)
  {
    LiesBetween(a, b, c);
    assert a + b + c == a + (b + c);
  }

  lemma MiddleLies(r: CdRecord)
    ensures Lies(CdBytes(r), 28, EncodeFields(MiddleFields(r), MIDDLE))
  {
    FrontSize();
    RecordSplits(r);
    LiesSecond(EncodeFields(FrontFields(r), FRONT), EncodeFields(MiddleFields(r), MIDDLE),
               EncodeFields(BackFields(r), BACK), 28);
  }

  /** The bytes 28 to 37 of a record with a short name: the length of the name, and zeros. */
  lemma MiddleOfRecord(f: W.FileEntry)
    requires |f.path| < 256
    ensures Lies(CdBytes(W.DirectoryRecord(f)), 28, [|f.path|, 0] + [0, 0, 0, 0, 0, 0, 0, 0])
  {
    MiddleLies(W.DirectoryRecord(f));
    MiddleBytes(|f.path|);
    assert MiddleFields(W.DirectoryRecord(f)) == [|f.path|, 0, 0, 0, 0];
  }

  // ---------- no Zip64 locator ends the directory ----------

  lemma ShortName(file: seq<byte>, middle: nat, n: nat, locator: nat)
    requires n < 12 && Lies(file, middle, [n, 0] + [0, 0, 0, 0, 0, 0, 0, 0])
    requires locator + 2 == middle + n && locator + 4 <= |file|
    ensures U32(file, locator) != LOCATOR_SIGNATURE
  {
    var row: seq<byte> := [n, 0] + [0, 0, 0, 0, 0, 0, 0, 0];
    var k := if n < 2 then 0 else n - 2;
    var j := if n < 2 then 2 - n else 0;
    var b := file[locator..locator + 4];
    assert b[j] == file[middle..middle + 10][k] == row[k];
    if U32(file, locator) == LOCATOR_SIGNATURE {
      LocatorBytes(b);
    }
  }

  lemma LongName(file: seq<byte>, p: nat, path: seq<byte>, at: nat)
    requires Lies(file, p, path) && WellFormed(path) && |path| >= 12 && at + 12 == p + |path|
    ensures U64(file, at) >= 0x100_0000_0000_0000
  {
    NoZeros(path, |path| - 5);
    var b := file[at..at + 8];
    assert b[7] == file[p..p + |path|][|path| - 5];
    DecodeTop(b);
    LittleEndian.Widths();
    assert LittleEndian.Pow256(8) == 256 * LittleEndian.Pow256(7);
  }

  lemma MiddleLiesInFile(file: seq<byte>, p: nat, middle: nat, f: W.FileEntry, row: seq<byte>)
    requires middle == p + 28 && |f.path| < 256 && Lies(file, p, CdBytes(W.DirectoryRecord(f)))
    requires row == [|f.path|, 0] + [0, 0, 0, 0, 0, 0, 0, 0]
    ensures Lies(file, middle, row)
  {
    MiddleOfRecord(f);
    LiesInside(file, p, CdBytes(W.DirectoryRecord(f)), 28, row, middle);
  }

  /** The directory ends with the record of `f` at `p`, so no usable Zip64 locator comes before `at`. */
  lemma NoLocator(file: seq<byte>, at: nat, p: nat, middle: nat, name: nat, f: W.FileEntry)
    requires middle == p + 28 && name == p + CDR_SIZE && at == name + |f.path| <= |file| <= MAX_FILE_LENGTH
    requires Lies(file, p, CdBytes(W.DirectoryRecord(f))) && Lies(file, name, f.path) && ValidName(f.path)
    ensures Directory64(file, at).Failure?
  {
    if |f.path| < 12 {
      MiddleLiesInFile(file, p, middle, f, [|f.path|, 0] + [0, 0, 0, 0, 0, 0, 0, 0]);
      ShortName(file, middle, |f.path|, at - LOCATOR_SIZE);
    } else {
      LongName(file, name, f.path, at - 12);
    }
  }

  lemma LastRecord(es: seq<Entry>, i: nat, p: nat)
    requires |es| == i + 1 && p == |Locals(es)| + Place(FilesOf(es), i)
    ensures Lies(Archive(es), p, CdBytes(W.DirectoryRecord(FilesOf(es)[i])))
  {
    var files := FilesOf(es);
    ArchiveDirectory(es);
    RecordHead(files, i);
    LiesInside(Archive(es), |Locals(es)|, W.Central(files), Place(files, i), CdBytes(W.DirectoryRecord(files[i])), p);
  }

  lemma LastName(es: seq<Entry>, i: nat, name: nat)
    requires |es| == i + 1 && name == |Locals(es)| + NamePlace(FilesOf(es), i)
    ensures Lies(Archive(es), name, FilesOf(es)[i].path)
  {
    var files := FilesOf(es);
    ArchiveDirectory(es);
    RecordName(files, i);
    LiesInside(Archive(es), |Locals(es)|, W.Central(files), NamePlace(files, i), files[i].path, name);
  }

  lemma LastEnds(files: seq<W.FileEntry>, i: nat)
    requires |files| == i + 1
    ensures NamePlace(files, i) + |files[i].path| == |W.Central(files)|
  {
    RecordPlaced(files, i);
    assert files[..i + 1] == files;
  }

  lemma FullDirectory(es: seq<Entry>, at: nat)
    requires EntriesOk(es) && SizeOk(es) && es != [] && at == |Locals(es)| + |W.Central(FilesOf(es))|
    ensures at <= |Archive(es)| && Directory64(Archive(es), at).Failure?
  {
    var files, i := FilesOf(es), |es| - 1;
    var p: nat := |Locals(es)| + Place(files, i);
    var name: nat := |Locals(es)| + NamePlace(files, i);
    ArchiveEnd(es, at);
    LastRecord(es, i, p);
    LastName(es, i, name);
    LastEnds(files, i);
    FilesAt(es, i);
    NoLocator(Archive(es), at, p, p + 28, name, files[i]);
  }

  // ---------- which archives open ----------

  lemma MapFromFails(file: seq<byte>, at: nat, e: Eocd)
    requires at <= |file| == at + EOCD_SIZE + e.commentLength
    requires if Overflowing(e) then Directory64(file, at).Failure? else e.records == 0
    ensures MapFrom(file, at, e).Failure?
  {
  }

  /** The count of a full archive stands for a Zip64 record; an archive without entries has a count of zero. */
  lemma EndMarks(count: nat, size: nat, offset: nat)
    requires (count == UINT16_MAX) || (count == 0 && size == 0 && offset == 0)
    ensures var e := W.EndRecord(count, size, offset);
      e.commentLength == 0 && (if count == 0 then !Overflowing(e) && e.records == 0 else Overflowing(e))
  {
  }

  /** The reader finds no directory in an archive without entries or with 65535 of them. */
  lemma NotMapped(es: seq<Entry>, at: nat)
    requires EntriesOk(es) && SizeOk(es) && (es == [] || |es| == UINT16_MAX)
    requires at == |Locals(es)| + |W.Central(FilesOf(es))|
    ensures MapDirectory(Archive(es)).Failure?
  {
    MapWritten(es, at);
    EndMarks(|es|, |W.Central(FilesOf(es))|, |Locals(es)|);
    if es != [] {
      FullDirectory(es, at);
    }
    MapFromFails(Archive(es), at, EndOf(es));
  }

  lemma DoesNotOpen(es: seq<Entry>)
    requires EntriesOk(es) && SizeOk(es) && (es == [] || |es| == UINT16_MAX)
    ensures Open(Archive(es)).Failure?
  {
    NotMapped(es, |Locals(es)| + |W.Central(FilesOf(es))|);
  }

  /** A finished archive opens if and only if it has between 1 and 65534 entries, with distinct names. */
  lemma OpensExactly(es: seq<Entry>)
    requires EntriesOk(es) && SizeOk(es)
    ensures Open(Archive(es)).Success? <==> 0 < |es| < UINT16_MAX && NamesDistinct(es)
  {
    if 0 < |es| < UINT16_MAX {
      SameNames(es);
      OpenWritten(es);
    } else {
      DoesNotOpen(es);
    }
  }
}
