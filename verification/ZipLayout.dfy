/** Where the parts of a finished archive lie. */
module ZipLayout {
  import opened Common
  import opened ZipRecords
  import opened ZipWriting
  import opened ZipImage
  import opened ZipEntries

  /** The bytes `part` stand at `at`. */
  ghost predicate Lies(file: seq<byte>, at: nat, part: seq<byte>) {
    at + |part| <= |file| && file[at..at + |part|] == part
  }

  lemma LiesInside(file: seq<byte>, at: nat, part: seq<byte>, d: nat, sub: seq<byte>, to: nat)
    requires Lies(file, at, part) && Lies(part, d, sub) && to == at + d
    ensures Lies(file, to, sub)
  {
    SliceOfSlice(file, at, at + |part|, d, d + |sub|);
  }

  lemma LiesBetween(a: seq<byte>, b: seq<byte>, c: seq<byte>)
    ensures Lies(a + b + c, |a|, b)
  {
  }

  lemma LiesAfter(file: seq<byte>, a: seq<byte>, b: seq<byte>)
    requires a + b <= file
    ensures Lies(file, |a|, b)
  {
    assert (a + b)[|a|..] == b;
  }

  // ---------- local entries ----------

  lemma {:induction false} LocalsPrefix(es: seq<Entry>, i: nat)
    requires i <= |es|
    ensures Locals(es[..i]) <= Locals(es)
    decreases |es|
  {
    if i == |es| {
      assert es[..i] == es;
    } else {
      var front := es[..|es| - 1];
      LocalsPrefix(front, i);
      assert front[..i] == es[..i];
    }
  }

  lemma LocalsNext(es: seq<Entry>, i: nat)
    requires i < |es|
    ensures Locals(es[..i + 1]) == Locals(es[..i]) + LocalImage(es[i])
  {
    assert es[..i + 1][..i] == es[..i];
  }

  lemma LocalAt(es: seq<Entry>, i: nat)
    requires i < |es|
    ensures Lies(Locals(es), HeaderOffset(es, i), LocalImage(es[i]))
  {
    LocalsPrefix(es, i + 1);
    LocalsNext(es, i);
    LiesAfter(Locals(es), Locals(es[..i]), LocalImage(es[i]));
  }

  lemma HeaderOf(e: Entry)
    ensures Lies(LocalImage(e), 0, LocalBytes(HeaderFor(FileOf(e, 0), false)))
  {
    var header := LocalBytes(HeaderFor(FileOf(e, 0), false));
    LiesBetween([], header, Body(e));
    assert [] + header == header;
  }

  lemma NameOfImage(e: Entry)
    ensures Lies(LocalImage(e), LFH_SIZE, e.name)
  {
    var header := LocalBytes(HeaderFor(FileOf(e, 0), false));
    NamePart(header, e.name, Zeros(e.padding), e.content);
  }

  lemma NamePart(h: seq<byte>, name: seq<byte>, z: seq<byte>, c: seq<byte>)
    ensures Lies(h + ((name + z) + c), |h|, name)
  {
    LiesBetween(h, name, z + c);
    assert h + name + (z + c) == h + ((name + z) + c);
  }

  lemma ContentPart(h: seq<byte>, name: seq<byte>, z: seq<byte>, c: seq<byte>, at: nat)
    requires at == |h| + |name| + |z|
    ensures Lies(h + ((name + z) + c), at, c)
  {
    LiesBetween(h + name + z, c, []);
    assert h + name + z + c + [] == h + ((name + z) + c);
  }

  lemma ContentOfImage(e: Entry, at: nat)
    requires at == LFH_SIZE + |e.name| + e.padding
    ensures Lies(LocalImage(e), at, e.content)
  {
    var header := LocalBytes(HeaderFor(FileOf(e, 0), false));
    ContentPart(header, e.name, Zeros(e.padding), e.content, at);
  }

  // ---------- the directory ----------

  lemma {:induction false} FilesAt(es: seq<Entry>, i: nat)
    requires i < |es|
    ensures FilesOf(es)[i] == FileOf(es[i], HeaderOffset(es, i))
    decreases |es|
  {
    if i < |es| - 1 {
      var front := es[..|es| - 1];
      FilesAt(front, i);
      assert front[..i] == es[..i];
    }
  }

  /** Where record `i` of the directory starts. */
  ghost function Place(files: seq<FileEntry>, i: nat): nat
    requires i <= |files|
  {
    |Central(files[..i])|
  }

  lemma {:induction false} CentralPrefix(files: seq<FileEntry>, i: nat)
    requires i <= |files|
    ensures Central(files[..i]) <= Central(files)
    decreases |files|
  {
    if i == |files| {
      assert files[..i] == files;
    } else {
      var front := files[..|files| - 1];
      CentralPrefix(front, i);
      assert front[..i] == files[..i];
    }
  }

  lemma RecordPlaced(files: seq<FileEntry>, i: nat)
    requires i < |files|
    ensures Lies(Central(files), Place(files, i), RecordBytes(files[i]))
    ensures Place(files, i + 1) == Place(files, i) + CDR_SIZE + |files[i].path|
  {
    CentralPrefix(files, i + 1);
    assert files[..i + 1][..i] == files[..i];
    LiesAfter(Central(files), Central(files[..i]), RecordBytes(files[i]));
  }

  lemma TwoParts(a: seq<byte>, b: seq<byte>)
    ensures Lies(a + b, 0, a) && Lies(a + b, |a|, b)
  {
  }

  /** The record of entry `i` in the directory, and behind it the name. */
  lemma RecordHead(files: seq<FileEntry>, i: nat)
    requires i < |files|
    ensures Lies(Central(files), Place(files, i), CdBytes(DirectoryRecord(files[i])))
  {
    RecordPlaced(files, i);
    var r, p := CdBytes(DirectoryRecord(files[i])), files[i].path;
    TwoParts(r, p);
    LiesInside(Central(files), Place(files, i), r + p, 0, r, Place(files, i));
  }

  ghost function NamePlace(files: seq<FileEntry>, i: nat): nat
    requires i <= |files|
  {
    Place(files, i) + CDR_SIZE
  }

  lemma RecordName(files: seq<FileEntry>, i: nat)
    requires i < |files|
    ensures Lies(Central(files), NamePlace(files, i), files[i].path)
  {
    RecordPlaced(files, i);
    var r, p := CdBytes(DirectoryRecord(files[i])), files[i].path;
    TwoParts(r, p);
    LiesInside(Central(files), Place(files, i), r + p, CDR_SIZE, p, NamePlace(files, i));
  }

  // ---------- the three parts of the archive ----------

  /** The end record of the archive. */
  function EndOf(es: seq<Entry>): Eocd { EndRecord(|es|, |Central(FilesOf(es))|, |Locals(es)|) }

  lemma ArchiveEnd(es: seq<Entry>, at: nat)
    requires at == |Locals(es)| + |Central(FilesOf(es))|
    ensures |Archive(es)| == at + EOCD_SIZE && Lies(Archive(es), at, EocdBytes(EndOf(es)))
  {
    LastPart(Locals(es), Central(FilesOf(es)), EocdBytes(EndOf(es)), at);
  }

  lemma LastPart(a: seq<byte>, b: seq<byte>, c: seq<byte>, at: nat)
    requires at == |a| + |b|
    ensures |a + b + c| == at + |c| && Lies(a + b + c, at, c)
  {
  }

  lemma ArchiveDirectory(es: seq<Entry>)
    ensures Lies(Archive(es), |Locals(es)|, Central(FilesOf(es)))
  {
    LiesBetween(Locals(es), Central(FilesOf(es)), EocdBytes(EndOf(es)));
  }

  lemma ArchiveLocals(es: seq<Entry>)
    ensures Lies(Archive(es), 0, Locals(es))
  {
    FirstPart(Locals(es), Central(FilesOf(es)), EocdBytes(EndOf(es)));
  }

  lemma FirstPart(a: seq<byte>, b: seq<byte>, c: seq<byte>)
    ensures Lies(a + b + c, 0, a)
  {
  }

  /** Entry `i` lies in the archive where its header offset says. */
  lemma ArchiveLocal(es: seq<Entry>, i: nat)
    requires i < |es|
    ensures Lies(Archive(es), HeaderOffset(es, i), LocalImage(es[i]))
  {
    ArchiveLocals(es);
    LocalAt(es, i);
    LiesInside(Archive(es), 0, Locals(es), HeaderOffset(es, i), LocalImage(es[i]), HeaderOffset(es, i));
  }
}
