/**
 The ZipWriter class itself: an object that updates its fields and a file in place, where any file
 operation may fail at any time. A call that reports no I/O error did exactly what `ZipWriting` says;
 one that does leaves the writer in its error state.
 */
module ZipWriterObject {
  import opened Common
  import opened EntryNames
  import opened ZipRecords
  import opened ZipWriting

  lemma SpliceTwice(data: seq<byte>, pos: nat, a: seq<byte>, b: seq<byte>)
    requires pos <= |data|
    ensures Splice(Splice(data, pos, a), pos + |a|, b) == Splice(data, pos, a + b)
  {
    var once, twice := Splice(data, pos, a), Splice(Splice(data, pos, a), pos + |a|, b);
    var both := Splice(data, pos, a + b);
    assert once[..pos + |a|] == data[..pos] + a;
    assert data[..pos] + a + b == data[..pos] + (a + b);
    assert |twice| == |both|;
  }

  /** A seekable file. A failed write may have written a part. */
  class File {
    var data: seq<byte>
    var pos: nat

    ghost predicate Valid()
      reads this
    {
      pos <= |data|
    }

    method Write(bytes: seq<byte>) returns (ok: bool)
      requires Valid()
      modifies this
      ensures Valid()
      ensures ok ==> data == Splice(old(data), old(pos), bytes) && pos == old(pos) + |bytes|
    {
      var n: nat :| n <= |bytes|;
      ok := n == |bytes|;
      data := Splice(data, pos, bytes[..n]);
      pos := pos + n;
      assert ok ==> bytes[..n] == bytes;
    }

    method WriteBoth(a: seq<byte>, b: seq<byte>) returns (ok: bool)
      requires Valid()
      modifies this
      ensures Valid()
      ensures ok ==> data == Splice(old(data), old(pos), a + b) && pos == old(pos) + |a + b|
    {
      ok := Write(a);
      if ok {
        ok := Write(b);
        SpliceTwice(old(data), old(pos), a, b);
      }
    }

    /** Three parts in turn, the last one only if there is something to write. */
    method WriteThree(a: seq<byte>, b: seq<byte>, c: seq<byte>) returns (ok: bool)
      requires Valid()
      modifies this
      ensures Valid()
      ensures ok ==> data == Splice(old(data), old(pos), a + b + c) && pos == old(pos) + |a + b + c|
    {
      ok := WriteBoth(a, b);
      if ok && c != [] {
        ok := Write(c);
        SpliceTwice(old(data), old(pos), a + b, c);
      }
      assert c == [] ==> a + b + c == a + b;
    }

    method Seek(offset: nat) returns (ok: bool)
      requires Valid() && offset <= |data|
      modifies this`pos
      ensures Valid() && (ok ==> pos == offset)
    {
      ok := *;
      if ok {
        pos := offset;
      }
    }

    method Truncate(length: nat) returns (ok: bool)
      requires pos <= length <= |data|
      modifies this`data
      ensures Valid() && (ok ==> data == old(data)[..length])
    {
      ok := *;
      if ok {
        data := data[..length];
      }
    }
  }

  /** The headers of the entries follow one another, and none lies behind `end`. */
  ghost predicate Sorted(files: seq<FileEntry>, end: nat) {
    && (forall i, j :: 0 <= i < j < |files| ==> files[i].headerOffset <= files[j].headerOffset)
    && (forall i :: 0 <= i < |files| ==> files[i].headerOffset <= end)
  }

  lemma SortedPush(files: seq<FileEntry>, f: FileEntry, end: nat)
    requires Sorted(files, f.headerOffset) && f.headerOffset <= end
    ensures Sorted(files + [f], end)
  {
  }

  ghost predicate InOrder(w: Writer) {
    && (w.state == WritingZip ==> Sorted(w.files, w.offset))
    && (w.state == WritingEntry ==> Sorted(w.files, w.current.headerOffset) && w.current.headerOffset <= w.offset)
  }

  lemma EndIs(w: Writer, header: seq<byte>)
    requires w.state == WritingEntry && InPlace(w) && w.current.headerOffset <= |w.data|
    requires header == LocalBytes(HeaderFor(w.current, false))
    ensures EndEntry(w) == Outcome(NoError, Writer(Splice(w.data, w.current.headerOffset, header), w.offset, w.offset,
                                                   WritingZip, w.files + [w.current], w.current))
  {
  }

  lemma FinishIs(w: Writer, w1: Writer, w2: Writer, size: nat)
    requires w.state == WritingZip && InPlace(w) && w1 == Put(w, Central(w.files)) && w1.offset <= UINT32_MAX
    requires InPlace(w1) && w2 == Conclude(w1, EndRecord(|w.files|, size, w.offset)) && size == |Central(w.files)|
    ensures FinishArchive(w) == Outcome(NoError, w2)
  {
  }

  class ZipWriter {
    const file: File
    const crc32: Crc
    var offset: nat
    var state: State
    var files: seq<FileEntry>
    var current: FileEntry

    ghost function Value(): Writer
      reads this, file
    {
      Writer(file.data, file.pos, offset, state, files, current)
    }

    ghost predicate Valid()
      reads this, file
    {
      Ready(Value()) && InOrder(Value()) && file.Valid()
    }

    constructor (file: File, crc32: Crc)
      requires file.pos == 0
      ensures Valid() && state == WritingZip && files == [] && offset == 0
      ensures this.file == file && this.crc32 == crc32
    {
      this.file, this.crc32, offset, state, files := file, crc32, 0, WritingZip, [];
      current := FileEntry([], 0, 0, 0, 0, 0, 0, 0);
    }

    method HandleError(code: Code) returns (c: Code)
      requires file.Valid()
      modifies this`state
      ensures Valid() && state == Error && c == code
    {
      state := Error;
      c := code;
    }

    /** Header, name and padding of a new entry. */
    method BeginEntry(entry: FileEntry) returns (ok: bool)
      requires InPlace(Value())
      modifies this, file
      ensures file.Valid() && files == old(files)
      ensures ok ==> Value() == Begin(old(Value()), entry)
    {
      var header := LocalBytes(HeaderFor(entry, true));
      ok := file.WriteThree(header, entry.path, Zeros(entry.paddingLength));
      if ok {
        current := entry;
        offset := offset + LFH_SIZE + |entry.path| + entry.paddingLength;
        state := WritingEntry;
      }
    }

    method StartAlignedEntryWithTime(path: seq<byte>, alignment: nat, time: nat, date: nat) returns (code: Code)
      requires Valid()
      modifies this, file
      ensures Valid()
      ensures code != IoError ==> Outcome(code, Value()) == StartAlignedEntry(old(Value()), path, alignment, time, date)
      ensures code == IoError ==> state == Error
    {
      if state != WritingZip {
        return InvalidState;
      }
      if |files| == UINT16_MAX {
        code := HandleError(IoError);
        return;
      }
      if !PowerOfTwoOrZero(alignment) {
        return InvalidAlignment;
      }
      if alignment > UINT16_MAX {
        return InvalidAlignment;
      }
      if offset > UINT32_MAX {
        code := HandleError(IoError);
        return;
      }
      var valid := IsValidEntryName(path);
      if !valid {
        return InvalidEntryName;
      }
      var entry := FileEntry(path, 0, 0, 0, time, date, Padding(offset, |path|, alignment), offset);
      var ok := BeginEntry(entry);
      if !ok {
        code := HandleError(IoError);
        return;
      }
      code := NoError;
    }

    method WriteBytes(bytes: seq<byte>) returns (code: Code)
      requires Valid()
      modifies this, file
      ensures Valid()
      ensures code != IoError ==> Outcome(code, Value()) == ZipWriting.WriteBytes(crc32, old(Value()), bytes)
      ensures code == IoError ==> state == Error
    {
      if state != WritingEntry {
        code := HandleError(InvalidState);
        return;
      }
      if |bytes| + current.uncompressedSize > UINT32_MAX {
        code := HandleError(IoError);
        return;
      }
      var ok := file.Write(bytes);
      if !ok {
        code := HandleError(IoError);
        return;
      }
      offset := offset + |bytes|;
      current := current.(
        compressedSize := current.compressedSize + |bytes|,
        crc := crc32(current.crc, bytes) % 0x1_0000_0000,
        uncompressedSize := current.uncompressedSize + |bytes|);
      code := NoError;
    }

    /** Seek back to the header, rewrite it, and return to the end. */
    method RewriteHeader(header: seq<byte>) returns (ok: bool)
      requires file.Valid() && current.headerOffset <= |file.data| && offset <= |file.data|
      modifies file
      ensures file.Valid()
      ensures ok ==> file.data == Splice(old(file.data), current.headerOffset, header) && file.pos == offset
    {
      ok := file.Seek(current.headerOffset);
      if ok {
        ok := file.Write(header);
      }
      if ok {
        ok := file.Seek(offset);
      }
    }

    method FinishEntry() returns (code: Code)
      requires Valid()
      modifies this, file
      ensures Valid()
      ensures code != IoError ==> Outcome(code, Value()) == EndEntry(old(Value()))
      ensures code == IoError ==> state == Error
    {
      if state != WritingEntry {
        return InvalidState;
      }
      var header := LocalBytes(HeaderFor(current, false));
      EndIs(Value(), header);
      code := EndWith(header);
    }

    method EndWith(header: seq<byte>) returns (code: Code)
      requires Valid() && state == WritingEntry
      modifies this, file
      ensures Valid() && (code == NoError || code == IoError)
      ensures code == NoError ==>
        Value() == Writer(Splice(old(file.data), old(current.headerOffset), header), old(offset), old(offset),
                          WritingZip, old(files) + [old(current)], old(current))
      ensures code == IoError ==> state == Error
    {
      var ok := RewriteHeader(header);
      if !ok {
        code := HandleError(IoError);
        return;
      }
      SortedPush(files, current, offset);
      files := files + [current];
      state := WritingZip;
      code := NoError;
    }

    method DiscardLastEntry() returns (code: Code)
      requires Valid()
      modifies this, file
      ensures Valid()
      ensures code != IoError ==> Outcome(code, Value()) == ZipWriting.DiscardLastEntry(old(Value()))
      ensures code == IoError ==> state == Error
    {
      if state != WritingZip || files == [] {
        return InvalidState;
      }
      offset := files[|files| - 1].headerOffset;
      var ok := file.Seek(offset);
      if !ok {
        code := HandleError(IoError);
        return;
      }
      files := files[..|files| - 1];
      code := NoError;
    }

    method WriteRecord(f: FileEntry) returns (ok: bool)
      requires InPlace(Value())
      modifies this`offset, file
      ensures file.Valid()
      ensures ok ==> Value() == Put(old(Value()), RecordBytes(f))
    {
      ok := file.WriteBoth(CdBytes(DirectoryRecord(f)), f.path);
      if ok {
        offset := offset + CDR_SIZE + |f.path|;
      }
    }

    /** The records of the directory, one after the other. */
    method WriteDirectory() returns (ok: bool)
      requires InPlace(Value())
      modifies this`offset, file
      ensures file.Valid()
      ensures ok ==> Value() == Put(old(Value()), Central(files))
    {
      ghost var w := Value();
      var i: nat := 0;
      assert files[..0] == [];
      SpliceNothing(w.data, w.pos);
      while i < |files|
        invariant i <= |files| && InPlace(Value()) && Value() == Put(w, Central(files[..i]))
      {
        ok := WriteRecord(files[i]);
        if !ok {
          return;
        }
        CentralNext(files, i);
        PutTwice(w, Central(files[..i]), RecordBytes(files[i]));
        i := i + 1;
      }
      assert files[..i] == files;
      ok := true;
    }

    /** The end record, and nothing behind it. */
    method WriteEnd(end: Eocd) returns (ok: bool)
      requires InPlace(Value())
      modifies this, file
      ensures file.Valid() && files == old(files)
      ensures ok ==> Value() == Conclude(old(Value()), end)
    {
      ok := file.Write(EocdBytes(end));
      if ok {
        offset := offset + EOCD_SIZE;
        ok := file.Truncate(offset);
      }
      if ok {
        // Flushing may fail too.
        ok := *;
      }
      if ok {
        state := Done;
      }
    }

    method Finish() returns (code: Code)
      requires Valid()
      modifies this, file
      ensures Valid()
      ensures code != IoError ==> Outcome(code, Value()) == FinishArchive(old(Value()))
      ensures code == IoError ==> state == Error
    {
      if state != WritingZip {
        return InvalidState;
      }
      ghost var w := Value();
      var start := offset;
      var ok := WriteDirectory();
      if !ok {
        code := HandleError(IoError);
        return;
      }
      if offset > UINT32_MAX {
        code := HandleError(IoError);
        return;
      }
      ghost var w1 := Value();
      var size: nat := offset - start;
      ok := WriteEnd(EndRecord(|files|, size, start));
      if !ok {
        code := HandleError(IoError);
        return;
      }
      FinishIs(w, w1, Value(), size);
      code := NoError;
    }
  }

  lemma PutTwice(w: Writer, a: seq<byte>, b: seq<byte>)
    requires InPlace(w) && InPlace(Put(w, a))
    ensures Put(Put(w, a), b) == Put(w, a + b) && InPlace(Put(w, a + b))
  {
    SpliceTwice(w.data, w.pos, a, b);
  }

  lemma SpliceNothing(data: seq<byte>, pos: nat)
    requires pos <= |data|
    ensures Splice(data, pos, []) == data
  {
  }

  lemma CentralNext(files: seq<FileEntry>, i: nat)
    requires i < |files|
    ensures Central(files[..i + 1]) == Central(files[..i]) + RecordBytes(files[i])
  {
    assert files[..i + 1][..i] == files[..i];
  }
}
