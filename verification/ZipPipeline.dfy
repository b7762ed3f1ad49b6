/**
 The objects at work together: a writer that executes a run of calls, a reader that opens the file it
 leaves behind, a lookup and an extraction.
 */
module ZipPipeline {
  import opened Common
  import opened ZipErrors
  import opened ZipWriting
  import opened ZipImage
  import opened ZipEntries
  import opened ZipTheorems
  import opened ZipWriterObject
  import opened ZipArchiveObject
  import opened ZipExtract
  import R = ZipReading
  import L = ZipLookup
  import T = ZipRoundTrip
  import F = ZipFull

  method ApplyOp(w: ZipWriter, op: Op) returns (code: Code)
    requires w.Valid()
    modifies w, w.file
    ensures w.Valid()
    ensures code != IoError ==> Outcome(code, w.Value()) == Apply(w.crc32, old(w.Value()), op)
    ensures code == IoError ==> w.state == Error
  {
    match op
    case Start(path, alignment, time, date) => code := w.StartAlignedEntryWithTime(path, alignment, time, date);
    case Write(bytes) => code := w.WriteBytes(bytes);
    case FinishEntry => code := w.FinishEntry();
    case Discard => code := w.DiscardLastEntry();
    case Finish => code := w.Finish();
  }

  /** A writer that failed stays failed. */
  lemma StaysFailed(crc: Crc, w: Writer, op: Op)
    requires Ready(w) && w.state == Error
    ensures Apply(crc, w, op).writer.state == Error
  {
  }

  lemma RunStep(crc: Crc, w: Writer, ops: seq<Op>, i: nat, j: nat, next: Writer)
    requires Ready(w) && j == i + 1 <= |ops| && next == Apply(crc, w, ops[i]).writer && Ready(next)
    ensures Run(crc, w, ops[i..]).1 == Run(crc, next, ops[j..]).1
  {
    assert ops[i..][1..] == ops[j..];
  }

  /**
   A run of calls on the object. File operations may fail at any point; a writer that reaches its end
   has done what the run says.
   */
  method ApplyAll(w: ZipWriter, ops: seq<Op>)
    requires w.Valid()
    modifies w, w.file
    ensures w.Valid()
    ensures w.state == Done ==> w.Value() == Run(w.crc32, old(w.Value()), ops).1
  {
    ghost var goal := Run(w.crc32, w.Value(), ops).1;
    assert ops[0..] == ops;
    for i := 0 to |ops|
      invariant w.Valid()
      invariant w.state == Error || Run(w.crc32, w.Value(), ops[i..]).1 == goal
    {
      ghost var before := w.Value();
      var code := ApplyOp(w, ops[i]);
      if before.state == Error {
        StaysFailed(w.crc32, before, ops[i]);
      }
      if code != IoError {
        RunStep(w.crc32, before, ops, i, i + 1, w.Value());
      }
    }
    assert ops[|ops|..] == [];
  }

  // ---------- reading it back ----------

  lemma PlainIndexable(es: seq<Entry>, file: seq<byte>, offset: nat, size: nat, end: nat)
    requires EntriesOk(es) && SizeOk(es) && file == Archive(es) && 0 < |es| < UINT16_MAX
    requires offset == |Locals(es)| && size == |Central(FilesOf(es))| && end == offset + size
    ensures IndexableFile(file)
  {
    T.DirectoryWritten(es);
    ShortIsIndexable(file[offset..end], offset, |es|);
  }

  /** The directory of a finished archive, if the reader accepts one, is below 4 GiB. */
  lemma WrittenIndexable(es: seq<Entry>, file: seq<byte>)
    requires EntriesOk(es) && SizeOk(es) && file == Archive(es)
    ensures IndexableFile(file)
  {
    var offset, size := |Locals(es)|, |Central(FilesOf(es))|;
    var end: nat := offset + size;
    if 0 < |es| < UINT16_MAX {
      PlainIndexable(es, file, offset, size, end);
    } else {
      F.NotMapped(es, end);
    }
  }

  /** The archive opens and has an entry with this name. */
  ghost predicate Readable(es: seq<Entry>, name: seq<byte>) {
    0 < |es| < UINT16_MAX && T.NamesDistinct(es) && name != [] && T.Named(es, name)
  }

  /** The entry that was found stands for `content`. */
  ghost predicate Yields(file: seq<byte>, entry: L.ZipEntry, content: seq<byte>) {
    && entry.uncompressedLength == |content| <= UINT32_MAX
    && entry.offset + entry.uncompressedLength <= |file| && L.Content(file, entry) == content
  }

  lemma YieldsContent(es: seq<Entry>, file: seq<byte>, i: nat, o: R.Opening)
    requires EntriesOk(es) && SizeOk(es) && file == Archive(es) && i < |es| && Readable(es, es[i].name)
    requires R.Open(file) == Success(o)
    ensures L.Find(file, o, es[i].name).Success? && Yields(file, L.Find(file, o, es[i].name).value, es[i].content)
  {
    var h := HeaderOffset(es, i);
    ContentFits(es, i, h);
    T.EntryReadsBack(es, i);
    ReadsBackYields(file, o, es[i], h);
  }

  lemma ContentFits(es: seq<Entry>, i: nat, h: nat)
    requires EntriesOk(es) && i < |es| && h == HeaderOffset(es, i)
    ensures |es[i].content| <= UINT32_MAX
  {
    assert EntryOk(es[i], h);
  }

  lemma ReadsBackYields(file: seq<byte>, o: R.Opening, e: Entry, h: nat)
    requires T.ReadsBackAs(file, o, e, h) && |e.content| <= UINT32_MAX
    ensures L.Find(file, o, e.name).Success? && Yields(file, L.Find(file, o, e.name).value, e.content)
  {
    var entry := T.EntryFor(e, h);
    assert entry.offset == DataOffset(e, h) && entry.uncompressedLength == |e.content|;
  }

  lemma YieldsNothing(es: seq<Entry>, file: seq<byte>, name: seq<byte>, o: R.Opening)
    requires EntriesOk(es) && SizeOk(es) && file == Archive(es) && !Readable(es, name)
    requires 0 < |es| < UINT16_MAX && T.NamesDistinct(es) && R.Open(file) == Success(o)
    ensures L.Find(file, o, name).Failure?
  {
    if name != [] {
      T.NothingElse(es, name);
    }
  }

  /** Open the archive and find an entry. */
  method Locate(file: seq<byte>, hash: seq<byte> -> nat, name: seq<byte>, ghost es: seq<Entry>)
    returns (found: Result<L.ZipEntry, ZipError>)
    requires EntriesOk(es) && SizeOk(es) && file == Archive(es)
    ensures found.Success? <==> Readable(es, name)
    ensures forall i :: found.Success? && 0 <= i < |es| && es[i].name == name ==>
      Yields(file, found.value, es[i].content)
  {
    var archive := new ZipArchive(file, hash);
    WrittenIndexable(es, file);
    F.OpensExactly(es);
    var error := archive.OpenArchive();
    if error.Some? {
      return Failure(error.value);
    }
    found := archive.FindEntry(name);
    ghost var o := R.Open(file).value;
    if Readable(es, name) {
      forall i | 0 <= i < |es| && es[i].name == name
        ensures found.Success? && Yields(file, found.value, es[i].content)
      {
        YieldsContent(es, file, i, o);
      }
    } else {
      YieldsNothing(es, file, name, o);
    }
  }

  /** The archive opens, and one of its entries has this name and fits a region of `limit` bytes. */
  ghost predicate Extractable(es: seq<Entry>, name: seq<byte>, limit: nat) {
    && 0 < |es| < UINT16_MAX && T.NamesDistinct(es) && name != []
    && exists i :: 0 <= i < |es| && es[i].name == name && |es[i].content| <= limit
  }

  /** Open, find and extract: what happens to a finished archive depends on its entries alone. */
  method ReadBack(file: seq<byte>, hash: seq<byte> -> nat, name: seq<byte>, mapped: bool, region: array<byte>,
                  ghost es: seq<Entry>)
    returns (error: Option<ZipError>)
    requires EntriesOk(es) && SizeOk(es) && file == Archive(es)
    modifies region
    ensures error.None? <==> Extractable(es, name, region.Length)
    ensures forall i :: error.None? && 0 <= i < |es| && es[i].name == name ==>
      region.Length >= |es[i].content| && region[..|es[i].content|] == es[i].content
  {
    var found := Locate(file, hash, name, es);
    if found.Failure? {
      return Some(found.error);
    }
    ghost var i :| 0 <= i < |es| && es[i].name == name;
    assert Yields(file, found.value, es[i].content);
    error := ExtractToMemory(file, mapped, found.value, region);
  }

  /**
   The whole way: any run of calls on a new writer, on a file with any contents, and then the reader.
   If the run finishes the archive, an extraction succeeds exactly when the entries left by the run
   say so, and it yields the content that was written.
   */
  method WriteThenRead(w: ZipWriter, ops: seq<Op>, hash: seq<byte> -> nat, name: seq<byte>, mapped: bool,
                       region: array<byte>)
    returns (finished: bool, error: Option<ZipError>)
    requires w.Valid() && Fresh(w.Value()) && OpsOk(ops)
    modifies w, w.file, region
    ensures finished <==> w.state == Done
    ensures finished ==> Written(w.crc32, ops).Finished?
    ensures finished ==> (error.None? <==> Extractable(Written(w.crc32, ops).entries, name, region.Length))
    ensures finished && error.None? ==>
      var es := Written(w.crc32, ops).entries;
      forall i :: 0 <= i < |es| && es[i].name == name ==>
        region.Length >= |es[i].content| && region[..|es[i].content|] == es[i].content
  {
    ApplyAll(w, ops);
    finished, error := w.state == Done, None;
    if finished {
      FinishedFile(w.crc32, old(w.Value()), ops);
      error := ReadBack(w.file.data, hash, name, mapped, region, Written(w.crc32, ops).entries);
    }
  }
}
