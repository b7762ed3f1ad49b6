/** What the reader makes of a central directory that the writer wrote. */
module ZipIndex {
  import opened Common
  import opened EntryNames
  import opened ZipErrors
  import opened ZipRecords
  import W = ZipWriting
  import opened ZipLayout
  import opened ZipReading

  /** An entry whose fields fit their record, with its header in front of the directory. */
  ghost predicate FileOk(f: W.FileEntry, cdOffset: nat) {
    && ValidName(f.path) && f.headerOffset < cdOffset < 0x1_0000_0000 && f.time < 0x1_0000 && f.date < 0x1_0000
    && f.crc < 0x1_0000_0000 && f.compressedSize < 0x1_0000_0000 && f.uncompressedSize < 0x1_0000_0000
  }

  ghost predicate FilesOk(files: seq<W.FileEntry>, cdOffset: nat) {
    forall i :: 0 <= i < |files| ==> FileOk(files[i], cdOffset)
  }

  lemma RecordFits(f: W.FileEntry, cdOffset: nat)
    requires FileOk(f, cdOffset)
    ensures CdFits(W.DirectoryRecord(f))
  {
  }

  /** Reading at `p` yields the record `r`. */
  ghost predicate Reads(cd: seq<byte>, p: nat, r: CdRecord) { p + CDR_SIZE <= |cd| && RecordAt(cd, p) == r }

  lemma ReadsBack(cd: seq<byte>, p: nat, r: CdRecord)
    requires Lies(cd, p, CdBytes(r)) && CdFits(r)
    ensures Reads(cd, p, r)
  {
    CdRoundTrip(r);
  }

  lemma RecordReads(files: seq<W.FileEntry>, cdOffset: nat, i: nat, p: nat)
    requires FilesOk(files, cdOffset) && i < |files| && p == Place(files, i)
    ensures Reads(W.Central(files), p, W.DirectoryRecord(files[i]))
  {
    RecordHead(files, i);
    RecordFits(files[i], cdOffset);
    ReadsBack(W.Central(files), p, W.DirectoryRecord(files[i]));
  }

  /** A record of the writer passes all checks of the reader. */
  lemma FieldsPass(cd: seq<byte>, cdOffset: nat, p: nat, at: nat, f: W.FileEntry, next: nat)
    requires FileOk(f, cdOffset) && at == p + CDR_SIZE && Lies(cd, at, f.path) && next == at + |f.path|
    requires Reads(cd, p, W.DirectoryRecord(f))
    ensures CheckRecord(cd, cdOffset, p) == Success(next)
  {
  }

  lemma RecordPasses(files: seq<W.FileEntry>, cdOffset: nat, i: nat, p: nat)
    requires FilesOk(files, cdOffset) && i < |files| && p == Place(files, i)
    ensures CheckRecord(W.Central(files), cdOffset, p) == Success(Place(files, i + 1))
  {
    RecordReads(files, cdOffset, i, p);
    RecordName(files, i);
    RecordPlaced(files, i);
    FieldsPass(W.Central(files), cdOffset, p, NamePlace(files, i), files[i], Place(files, i + 1));
  }

  // ---------- the first pass ----------

  /** Where the records from `i` on start. */
  ghost function StartList(files: seq<W.FileEntry>, i: nat): (s: seq<nat>)
    requires i <= |files|
    decreases |files| - i
  {
    if i == |files| then [] else [Place(files, i)] + StartList(files, i + 1)
  }

  lemma {:induction false} StartsAll(files: seq<W.FileEntry>, cdOffset: nat, i: nat, n: nat, p: nat)
    requires FilesOk(files, cdOffset) && i + n == |files| && p == Place(files, i)
    ensures Starts(W.Central(files), cdOffset, p, n) == Success(StartList(files, i))
    decreases n
  {
    if n > 0 {
      RecordPasses(files, cdOffset, i, p);
      StartsAll(files, cdOffset, i + 1, n - 1, Place(files, i + 1));
    }
  }

  lemma NameReads(files: seq<W.FileEntry>, cdOffset: nat, i: nat, p: nat)
    requires FilesOk(files, cdOffset) && i < |files| && p == Place(files, i) && Checked(W.Central(files), p)
    ensures EntryName(W.Central(files), p) == files[i].path
  {
    RecordReads(files, cdOffset, i, p);
    RecordName(files, i);
    NamePlaced(W.Central(files), p, W.DirectoryRecord(files[i]), NamePlace(files, i), files[i].path);
  }

  lemma NamePlaced(cd: seq<byte>, p: nat, r: CdRecord, at: nat, path: seq<byte>)
    requires Checked(cd, p) && Reads(cd, p, r) && r.nameLength == |path| && at == p + CDR_SIZE && Lies(cd, at, path)
    ensures EntryName(cd, p) == path
  {
  }

  // ---------- the second pass ----------

  /** The index of the first `i` names. */
  ghost function NamesIndex(files: seq<W.FileEntry>, i: nat): map<Name, nat>
    requires i <= |files|
  {
    if i == 0 then map[] else NamesIndex(files, i - 1)[files[i - 1].path := NamePlace(files, i - 1)]
  }

  /** None of the names from `i` on repeats an earlier one. */
  ghost predicate FreshFrom(files: seq<W.FileEntry>, i: nat) {
    forall j :: i <= j < |files| ==> files[j].path !in NamesIndex(files, j)
  }

  lemma IndexStep(files: seq<W.FileEntry>, cdOffset: nat, i: nat)
    requires FilesOk(files, cdOffset) && i < |files| && AllChecked(W.Central(files), StartList(files, i))
    ensures AllChecked(W.Central(files), StartList(files, i + 1))
    ensures IndexFrom(W.Central(files), StartList(files, i), NamesIndex(files, i))
         == if files[i].path in NamesIndex(files, i) then Failure(DuplicateEntry)
            else IndexFrom(W.Central(files), StartList(files, i + 1), NamesIndex(files, i + 1))
  {
    var cd, starts, rest := W.Central(files), StartList(files, i), StartList(files, i + 1);
    assert starts[0] == Place(files, i) && starts[1..] == rest;
    assert Checked(cd, starts[0]);
    NameReads(files, cdOffset, i, Place(files, i));
    forall k | 0 <= k < |rest|
      ensures Checked(cd, rest[k])
    {
      assert Checked(cd, starts[k + 1]);
    }
  }

  lemma {:induction false} IndexAll(files: seq<W.FileEntry>, cdOffset: nat, i: nat)
    requires FilesOk(files, cdOffset) && i <= |files| && AllChecked(W.Central(files), StartList(files, i))
    ensures IndexFrom(W.Central(files), StartList(files, i), NamesIndex(files, i))
         == if FreshFrom(files, i) then Success(NamesIndex(files, |files|)) else Failure(DuplicateEntry)
    decreases |files| - i
  {
    if i < |files| {
      IndexStep(files, cdOffset, i);
      IndexAll(files, cdOffset, i + 1);
      FreshSplit(files, i);
    }
  }

  lemma FreshSplit(files: seq<W.FileEntry>, i: nat)
    requires i < |files|
    ensures FreshFrom(files, i) <==> files[i].path !in NamesIndex(files, i) && FreshFrom(files, i + 1)
  {
  }

  ghost predicate Distinct(files: seq<W.FileEntry>) {
    forall i, j :: 0 <= i < j < |files| ==> files[i].path != files[j].path
  }

  lemma {:induction false} NamesIndexed(files: seq<W.FileEntry>, i: nat, name: Name)
    requires i <= |files|
    ensures name in NamesIndex(files, i) <==> exists k :: 0 <= k < i && files[k].path == name
  {
    if i > 0 {
      NamesIndexed(files, i - 1, name);
    }
  }

  lemma FreshIsDistinct(files: seq<W.FileEntry>)
    ensures FreshFrom(files, 0) <==> Distinct(files)
  {
    forall j | 0 <= j < |files|
      ensures files[j].path in NamesIndex(files, j) <==> exists k :: 0 <= k < j && files[k].path == files[j].path
    {
      NamesIndexed(files, j, files[j].path);
    }
  }

  lemma {:induction false} IndexedAt(files: seq<W.FileEntry>, n: nat, i: nat)
    requires Distinct(files) && i < n <= |files|
    ensures files[i].path in NamesIndex(files, n) && NamesIndex(files, n)[files[i].path] == NamePlace(files, i)
    decreases n
  {
    if i < n - 1 {
      IndexedAt(files, n - 1, i);
    }
  }
}
