/** Which starts the writer accepts, said without its checks, and what an accepted start does. */
module ZipAcceptance {
  import opened Common
  import opened Bits
  import opened EntryNames
  import opened ZipRecords
  import opened ZipWriting
  import opened ZipEntries

  /** No alignment, or a power of two that fits 16 bits. */
  ghost predicate Alignable(a: nat) { a == 0 || exists k :: 0 <= k <= 15 && a == Pow2(k) }

  lemma Pow2At16()
    ensures Pow2(15) == 0x8000 && Pow2(16) == 0x1_0000
  {
    assert Pow2(8) == 256;
  }

  lemma PowerIsLone(k: nat)
    ensures Pow2(k) > 0 && And(Pow2(k), Pow2(k) - 1) == 0
  {
    AndMask(Pow2(k), k);
    LowOfPower(k);
  }

  /** The two tests of an alignment accept exactly these values. */
  lemma AlignmentExact(a: nat)
    ensures PowerOfTwoOrZero(a) && a <= 0xffff <==> Alignable(a)
  {
    Pow2At16();
    if a > 0 && PowerOfTwoOrZero(a) && a <= 0xffff {
      var k := LoneBit(a);
      if k > 15 {
        Pow2Monotone(16, k);
      }
    }
    if a > 0 && Alignable(a) {
      var k :| 0 <= k <= 15 && a == Pow2(k);
      PowerIsLone(k);
      Pow2Monotone(k, 15);
    }
  }

  /** A writer between two entries has room for one more that starts in the first 4 GiB. */
  ghost predicate HasRoom(count: nat, offset: nat) { count < 65535 && offset <= 0xffff_ffff }

  lemma CodeExact(count: nat, offset: nat, path: seq<byte>, alignment: nat)
    requires count <= 65535
    ensures var code := StartCode(count, offset, path, alignment);
      && (code == NoError <==> HasRoom(count, offset) && ValidName(path) && Alignable(alignment))
      && (code == InvalidAlignment <==> count < 65535 && !Alignable(alignment))
      && (code == InvalidEntryName <==> HasRoom(count, offset) && Alignable(alignment) && !ValidName(path))
      && (code == IoError <==> count == 65535 || (Alignable(alignment) && offset > 0xffff_ffff))
  {
    AlignmentExact(alignment);
  }

  /**
   A start succeeds if and only if fewer than 65535 entries exist, the header begins in the first
   4 GiB, the name is valid and the alignment is 0 or a power of two up to 2^15. Each failure has its
   code; only an I/O error changes the writer.
   */
  lemma StartExact(w: Writer, path: seq<byte>, alignment: nat, time: nat, date: nat)
    requires Ready(w) && |w.files| <= 65535
    ensures var o := StartAlignedEntry(w, path, alignment, time, date);
      && (w.state != WritingZip ==> o == Outcome(InvalidState, w))
      && (w.state == WritingZip ==>
          && (o.code == NoError <==> HasRoom(|w.files|, w.offset) && ValidName(path) && Alignable(alignment))
          && (o.code == InvalidAlignment <==> |w.files| < 65535 && !Alignable(alignment))
          && (o.code == InvalidEntryName <==> HasRoom(|w.files|, w.offset) && Alignable(alignment) && !ValidName(path))
          && (o.code == IoError <==> |w.files| == 65535 || (Alignable(alignment) && w.offset > 0xffff_ffff))
          && (o.code == IoError ==> o.writer == w.(state := Error))
          && (o.code != IoError && o.code != NoError ==> o.writer == w))
  {
    CodeExact(|w.files|, w.offset, path, alignment);
  }

  /**
   An accepted start writes a 30-byte header, the name and zeros; the entry is empty, and nothing in
   front of it changes.
   */
  lemma StartWrites(w: Writer, path: seq<byte>, alignment: nat, time: nat, date: nat, w': Writer, gap: nat)
    requires Ready(w) && w.state == WritingZip
    requires StartAlignedEntry(w, path, alignment, time, date) == Outcome(NoError, w')
    requires gap == w'.current.paddingLength
    ensures w'.state == WritingEntry && w'.files == w.files
    ensures w'.current == FileEntry(path, 0, 0, 0, time, date, gap, w.offset)
    ensures w'.offset == w.offset + 30 + |path| + gap == w'.pos <= |w'.data|
    ensures InOrder(w'.data, w.data[..w.offset], w'.data[w.offset..w.offset + 30], path, Zeros(gap))
  {
    var entry := FileEntry(path, 0, 0, 0, time, date, Padding(w.offset, |path|, alignment), w.offset);
    StartIsBegin(w, path, alignment, time, date, entry);
    BeginWrites(w, entry, Zeros(entry.paddingLength), Begin(w, entry));
  }

  /** With an alignment, the zeros are as many as bring the data to its next multiple; without, none. */
  lemma StartAligns(w: Writer, path: seq<byte>, alignment: nat, time: nat, date: nat, w': Writer, data: nat)
    requires Ready(w) && w.state == WritingZip
    requires StartAlignedEntry(w, path, alignment, time, date) == Outcome(NoError, w')
    requires data == w.offset + 30 + |path| + w'.current.paddingLength
    ensures NextMultiple(data, w'.current.paddingLength, alignment)
  {
    var gap := Padding(w.offset, |path|, alignment);
    StartIsBegin(w, path, alignment, time, date, FileEntry(path, 0, 0, 0, time, date, gap, w.offset));
    GapAligns(w.offset, |path|, alignment, gap, data);
  }

  ghost predicate NextMultiple(at: nat, gap: nat, alignment: nat) {
    if alignment == 0 then gap == 0 else gap < alignment && at % alignment == 0
  }

  lemma GapAligns(offset: nat, length: nat, alignment: nat, gap: nat, at: nat)
    requires PowerOfTwoOrZero(alignment) && gap == Padding(offset, length, alignment)
    requires at == offset + 30 + length + gap
    ensures NextMultiple(at, gap, alignment)
  {
    if alignment != 0 {
      PaddingAligns(offset, length, alignment);
    }
  }

  /** The header says that sizes and checksum follow later. */
  lemma StartHeads(w: Writer, path: seq<byte>, alignment: nat, time: nat, date: nat, w': Writer, gap: nat)
    requires Ready(w) && w.state == WritingZip && time < 0x1_0000 && date < 0x1_0000
    requires StartAlignedEntry(w, path, alignment, time, date) == Outcome(NoError, w')
    requires gap == w'.current.paddingLength
    ensures w.offset + 30 <= |w'.data|
    ensures ReadLocal(w'.data[w.offset..w.offset + 30])
         == LocalHeader(0x04034b50, 0, 8, 0, time, date, 0, 0, 0, |path|, gap)
  {
    var entry := FileEntry(path, 0, 0, 0, time, date, Padding(w.offset, |path|, alignment), w.offset);
    StartIsBegin(w, path, alignment, time, date, entry);
    StartCodeFits(|w.files|, w.offset, path, alignment, entry.paddingLength);
    BeginHeads(w, entry, w');
  }

  lemma StartCodeFits(count: nat, offset: nat, path: seq<byte>, alignment: nat, gap: nat)
    requires StartCode(count, offset, path, alignment) == NoError && gap == Padding(offset, |path|, alignment)
    ensures |path| < 0x1_0000 && gap < 0x1_0000
  {
    if alignment != 0 {
      PaddingAligns(offset, |path|, alignment);
    }
  }

  lemma BeginHeads(w: Writer, entry: FileEntry, w': Writer)
    requires InPlace(w) && w' == Begin(w, entry) && entry.time < 0x1_0000 && entry.date < 0x1_0000
    requires |entry.path| < 0x1_0000 && entry.paddingLength < 0x1_0000
    ensures w.offset + 30 <= |w'.data|
    ensures ReadLocal(w'.data[w.offset..w.offset + 30])
         == LocalHeader(0x04034b50, 0, 8, 0, entry.time, entry.date, 0, 0, 0, |entry.path|, entry.paddingLength)
  {
    var h := HeaderFor(entry, true);
    var header := LocalBytes(h);
    var bytes := header + entry.path + Zeros(entry.paddingLength);
    assert w'.data == Splice(w.data, w.pos, bytes);
    assert w'.data[..w.pos + |bytes|] == w.data[..w.pos] + bytes;
    FourParts(w'.data, w.data[..w.pos], header, entry.path, Zeros(entry.paddingLength));
    LocalRoundTrip(h);
  }

  lemma StartIsBegin(w: Writer, path: seq<byte>, alignment: nat, time: nat, date: nat, entry: FileEntry)
    requires Ready(w) && w.state == WritingZip && StartAlignedEntry(w, path, alignment, time, date).code == NoError
    requires entry == FileEntry(path, 0, 0, 0, time, date, Padding(w.offset, |path|, alignment), w.offset)
    ensures StartAlignedEntry(w, path, alignment, time, date).writer == Begin(w, entry)
    ensures Begin(w, entry).current == entry && Begin(w, entry).state == WritingEntry
    ensures Begin(w, entry).files == w.files
    ensures PowerOfTwoOrZero(alignment)
  {
  }

  lemma BeginWrites(w: Writer, entry: FileEntry, zeros: seq<byte>, w': Writer)
    requires InPlace(w) && zeros == Zeros(entry.paddingLength) && w' == Begin(w, entry)
    ensures w'.offset == w.offset + 30 + |entry.path| + |zeros| == w'.pos <= |w'.data|
    ensures InOrder(w'.data, w.data[..w.offset], w'.data[w.offset..w.offset + 30], entry.path, zeros)
  {
    var header := LocalBytes(HeaderFor(entry, true));
    var bytes := header + entry.path + zeros;
    assert w'.data == Splice(w.data, w.pos, bytes);
    assert w'.data[..w.pos + |bytes|] == w.data[..w.pos] + bytes;
    FourParts(w'.data, w.data[..w.pos], header, entry.path, zeros);
  }

  /** The file begins with these parts. */
  ghost predicate InOrder(file: seq<byte>, a: seq<byte>, b: seq<byte>, c: seq<byte>, d: seq<byte>) {
    var i, j, k := |a| + |b|, |a| + |b| + |c|, |a| + |b| + |c| + |d|;
    k <= |file| && file[..|a|] == a && file[|a|..i] == b && file[i..j] == c && file[j..k] == d
  }

  lemma Part(file: seq<byte>, before: seq<byte>, part: seq<byte>, i: nat, j: nat)
    requires before + part <= file && i == |before| && j == i + |part|
    ensures j <= |file| && file[..i] == before && file[i..j] == part
  {
    assert file[..j] == before + part;
  }

  lemma FourParts(file: seq<byte>, a: seq<byte>, b: seq<byte>, c: seq<byte>, d: seq<byte>)
    requires a + (b + c + d) <= file
    ensures InOrder(file, a, b, c, d)
  {
    var ab := a + b;
    var abc := ab + c;
    assert abc + d == a + (b + c + d);
    Part(file, abc, d, |abc|, |abc| + |d|);
    Part(file, ab, c, |ab|, |ab| + |c|);
    Part(file, a, b, |a|, |a| + |b|);
  }

  // ---------- the other calls ----------

  /** A write succeeds if and only if an entry is open and stays below 4 GiB; otherwise the writer is spent. */
  lemma WriteExact(crc: Crc, w: Writer, bytes: seq<byte>)
    requires Ready(w)
    ensures var o := WriteBytes(crc, w, bytes);
      && (o.code == NoError <==> w.state == WritingEntry && |bytes| + w.current.uncompressedSize <= 0xffff_ffff)
      && (o.code == InvalidState <==> w.state != WritingEntry)
      && (o.code != NoError && o.code != InvalidState ==> o.code == IoError)
      && (o.code != NoError ==> o.writer == w.(state := Error))
      && (o.code == NoError ==>
          && o.writer.current.uncompressedSize == w.current.uncompressedSize + |bytes|
          && o.writer.current.compressedSize == w.current.compressedSize + |bytes|
          && o.writer.data[..w.offset + |bytes|] == w.data[..w.offset] + bytes)
  {
  }

  /** Ending an entry needs an open one, discarding one a finished one; a refusal changes nothing. */
  lemma EndExact(w: Writer)
    requires Ready(w)
    ensures var o := EndEntry(w);
      && (o.code == NoError <==> w.state == WritingEntry) && (o.code == NoError || o == Outcome(InvalidState, w))
      && (o.code == NoError ==> o.writer.state == WritingZip && o.writer.files == w.files + [w.current])
    ensures var o := DiscardLastEntry(w);
      && (o.code == NoError <==> w.state == WritingZip && |w.files| > 0)
      && (o.code == NoError || o == Outcome(InvalidState, w))
      && (o.code == NoError ==> o.writer.offset == w.files[|w.files| - 1].headerOffset)
  {
  }

  /** Finishing succeeds if and only if no entry is open and the directory ends in the first 4 GiB. */
  lemma FinishExact(w: Writer)
    requires Ready(w)
    ensures var o := FinishArchive(w);
      && (o.code == NoError <==> w.state == WritingZip && w.offset + |Central(w.files)| <= 0xffff_ffff)
      && (o.code == InvalidState <==> w.state != WritingZip) && (w.state != WritingZip ==> o.writer == w)
      && (o.code != NoError && o.code != InvalidState ==> o.code == IoError && o.writer.state == Error)
      && (o.code == NoError ==> o.writer.state == Done && |o.writer.data| == w.offset + |Central(w.files)| + 22)
  {
  }
}
