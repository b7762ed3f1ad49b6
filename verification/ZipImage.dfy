/**
 What a run of writer calls means: a list of finished entries and perhaps one being written. The
 bytes of the file and the result of every call are functions of that list alone, whatever stale
 bytes lie behind the current offset.
 */
module ZipImage {
  import opened Common
  import opened ZipRecords
  import opened ZipWriting

  datatype Entry = Entry(
    name: seq<byte>, alignment: nat, padding: nat, time: nat, date: nat, crc: nat, content: seq<byte>)

  datatype Spec =
    | Idle(entries: seq<Entry>)
    | Busy(entries: seq<Entry>, current: Entry)
    | Finished(entries: seq<Entry>)
    | Broken

  function FileOf(e: Entry, headerOffset: nat): FileEntry {
    FileEntry(e.name, e.crc, |e.content|, |e.content|, e.time, e.date, e.padding, headerOffset)
  }

  /** Everything of an entry after its header. */
  function Body(e: Entry): (b: seq<byte>)
    ensures |b| == |e.name| + e.padding + |e.content|
  {
    (e.name + Zeros(e.padding)) + e.content
  }

  /** A finished entry as it lies in the file. */
  function LocalImage(e: Entry): (b: seq<byte>)
    ensures |b| == LFH_SIZE + |e.name| + e.padding + |e.content|
  {
    LocalBytes(HeaderFor(FileOf(e, 0), false)) + Body(e)
  }

  /** An entry that is still being written: its header announces a data descriptor. */
  function OpenImage(e: Entry): (b: seq<byte>)
    ensures |b| == LFH_SIZE + |e.name| + e.padding + |e.content|
  {
    LocalBytes(HeaderFor(FileOf(e, 0), true)) + Body(e)
  }

  function Locals(es: seq<Entry>): seq<byte> {
    if es == [] then [] else Locals(es[..|es| - 1]) + LocalImage(es[|es| - 1])
  }

  function FilesOf(es: seq<Entry>): (fs: seq<FileEntry>)
    ensures |fs| == |es|
  {
    if es == [] then [] else FilesOf(es[..|es| - 1]) + [FileOf(es[|es| - 1], |Locals(es[..|es| - 1])|)]
  }

  function Archive(es: seq<Entry>): seq<byte> {
    var cd := Central(FilesOf(es));
    Locals(es) + cd + EocdBytes(EndRecord(|es|, |cd|, |Locals(es)|))
  }

  /** Adding an entry at the end. */
  lemma PushEntry(es: seq<Entry>, e: Entry)
    ensures Locals(es + [e]) == Locals(es) + LocalImage(e)
    ensures FilesOf(es + [e]) == FilesOf(es) + [FileOf(e, |Locals(es)|)]
  {
    assert (es + [e])[..|es|] == es;
  }

  // ---------- what each call means ----------

  /** The entry that a start with this alignment would add after `es`. */
  function NewEntry(es: seq<Entry>, path: seq<byte>, alignment: nat, time: nat, date: nat): Entry {
    Entry(path, alignment, Padding(|Locals(es)|, |path|, alignment), time, date, 0, [])
  }

  function SpecStart(es: seq<Entry>, code: Code, e: Entry): (Code, Spec) {
    if code == IoError then (IoError, Broken)
    else if code != NoError then (code, Idle(es))
    else (NoError, Busy(es, e))
  }

  function SpecWrite(crc: Crc, es: seq<Entry>, e: Entry, bytes: seq<byte>): (Code, Spec) {
    if |bytes| + |e.content| > UINT32_MAX then (IoError, Broken)
    else (NoError, Busy(es, e.(crc := crc(e.crc, bytes) % 0x1_0000_0000, content := e.content + bytes)))
  }

  function SpecFinish(es: seq<Entry>): (Code, Spec) {
    if |Locals(es)| + |Central(FilesOf(es))| > UINT32_MAX then (IoError, Broken) else (NoError, Finished(es))
  }

  function SpecBegin(spec: Spec, path: seq<byte>, alignment: nat, time: nat, date: nat): (Code, Spec) {
    if spec.Idle? then
      SpecStart(spec.entries, StartCode(|spec.entries|, |Locals(spec.entries)|, path, alignment),
                NewEntry(spec.entries, path, alignment, time, date))
    else (InvalidState, spec)
  }

  function SpecAppend(crc: Crc, spec: Spec, bytes: seq<byte>): (Code, Spec) {
    if spec.Busy? then SpecWrite(crc, spec.entries, spec.current, bytes) else (InvalidState, Broken)
  }

  function SpecEnd(spec: Spec): (Code, Spec) {
    if spec.Busy? then (NoError, Idle(spec.entries + [spec.current])) else (InvalidState, spec)
  }

  function SpecDiscard(spec: Spec): (Code, Spec) {
    if spec.Idle? && spec.entries != [] then (NoError, Idle(spec.entries[..|spec.entries| - 1]))
    else (InvalidState, spec)
  }

  function SpecClose(spec: Spec): (Code, Spec) {
    if spec.Idle? then SpecFinish(spec.entries) else (InvalidState, spec)
  }

  function SpecWritten(crc: Crc, spec: Spec, op: Op): (Code, Spec)
    requires op.Write?
  {
    SpecAppend(crc, spec, op.bytes)
  }

  function SpecStarted(spec: Spec, op: Op): (Code, Spec)
    requires op.Start?
  {
    SpecBegin(spec, op.path, op.alignment, op.time, op.date)
  }

  function SpecStep(crc: Crc, spec: Spec, op: Op): (Code, Spec) {
    match op
    case Start(_, _, _, _) => SpecStarted(spec, op)
    case Write(_) => SpecWritten(crc, spec, op)
    case FinishEntry => SpecEnd(spec)
    case Discard => SpecDiscard(spec)
    case Finish => SpecClose(spec)
  }

  lemma FinishIs(crc: Crc, spec: Spec, op: Op, closed: (Code, Spec))
    requires op == Finish && closed == SpecClose(spec)
    ensures SpecStep(crc, spec, op) == closed
  {
  }

  lemma FinishFits(es: seq<Entry>, offset: nat, size: nat)
    requires offset == |Locals(es)| && size == |Central(FilesOf(es))| && offset + size <= UINT32_MAX
    ensures SpecClose(Idle(es)) == (NoError, Finished(es))
  {
  }

  /** The file up to the current offset, where the next byte will go, is `image`. */
  ghost predicate At(w: Writer, image: seq<byte>) {
    InPlace(w) && w.offset == |image| && w.data[..w.offset] == image
  }

  lemma PutAt(w: Writer, image: seq<byte>, bytes: seq<byte>)
    requires At(w, image)
    ensures At(Put(w, bytes), image + bytes)
    ensures Put(w, bytes).state == w.state && Put(w, bytes).files == w.files && Put(w, bytes).current == w.current
  {
  }

  /** Replacing a header in the middle of the image, with the position back at the end. */
  lemma PatchAt(w: Writer, a: seq<byte>, h: seq<byte>, b: seq<byte>, h': seq<byte>)
    requires At(w, a + (h + b)) && |h'| == |h|
    ensures At(w.(data := Splice(w.data, |a|, h'), pos := w.offset), a + (h' + b))
  {
    var data := Splice(w.data, |a|, h');
    assert data[..|a| + |h'|] == w.data[..|a|] + h';
    assert w.data[..|a|] == w.data[..w.offset][..|a|] == a;
    assert data[|a| + |h|..w.offset] == w.data[..w.offset][|a| + |h|..] == b;
    assert data[..w.offset] == data[..|a| + |h|] + data[|a| + |h|..w.offset];
  }

  lemma RewindAt(w: Writer, a: seq<byte>, b: seq<byte>)
    requires At(w, a + b)
    ensures At(w.(offset := |a|, pos := |a|), a)
  {
    assert w.data[..|a|] == w.data[..w.offset][..|a|];
  }

  /** The writer and its file stand for `spec`. Nothing is said about bytes behind the offset. */
  ghost predicate Rep(w: Writer, spec: Spec) {
    match spec
    case Idle(es) => w.state == WritingZip && w.files == FilesOf(es) && At(w, Locals(es))
    case Busy(es, e) =>
      && w.state == WritingEntry && w.files == FilesOf(es) && w.current == FileOf(e, |Locals(es)|)
      && At(w, Locals(es) + OpenImage(e))
    case Finished(es) => w.state == Done && w.data == Archive(es)
    case Broken => w.state == Error
  }

  lemma RepReady(w: Writer, spec: Spec)
    requires Rep(w, spec)
    ensures Ready(w)
  {
  }

  lemma OpenFrom(header: seq<byte>, name: seq<byte>, zeros: seq<byte>)
    ensures header + name + zeros == header + (name + zeros + [])
  {
  }

  lemma BeginRep(w: Writer, es: seq<Entry>, e: Entry)
    requires Rep(w, Idle(es)) && e.content == []
    ensures Rep(Begin(w, FileOf(e, w.offset)), Busy(es, e))
  {
    var header := LocalBytes(HeaderFor(FileOf(e, w.offset), true));
    PutAt(w, Locals(es), header + e.name + Zeros(e.padding));
    OpenFrom(header, e.name, Zeros(e.padding));
  }

  lemma StartRep(w: Writer, es: seq<Entry>, code: Code, e: Entry)
    requires Rep(w, Idle(es)) && e.content == []
    ensures StartWith(w, code, FileOf(e, w.offset)).code == SpecStart(es, code, e).0
    ensures Rep(StartWith(w, code, FileOf(e, w.offset)).writer, SpecStart(es, code, e).1)
  {
    if code == NoError {
      BeginRep(w, es, e);
    }
  }

  lemma Longer(a: seq<byte>, h: seq<byte>, b: seq<byte>, c: seq<byte>, d: seq<byte>)
    ensures a + (h + (b + (c + d))) == (a + (h + (b + c))) + d
  {
  }

  lemma WriteRep(crc: Crc, w: Writer, es: seq<Entry>, e: Entry, bytes: seq<byte>)
    requires Rep(w, Busy(es, e))
    ensures var o := WriteBytes(crc, w, bytes);
      var (code, spec) := SpecWrite(crc, es, e, bytes);
      o.code == code && Rep(o.writer, spec)
  {
    var (code, spec) := SpecWrite(crc, es, e, bytes);
    if code == NoError {
      PutAt(w, Locals(es) + OpenImage(e), bytes);
      Longer(Locals(es), LocalBytes(HeaderFor(FileOf(e, 0), true)), e.name + Zeros(e.padding), e.content, bytes);
    }
  }

  /** Rewriting the header in place turns the open image into the finished one. */
  lemma EndRep(w: Writer, es: seq<Entry>, e: Entry)
    requires Rep(w, Busy(es, e))
    ensures EndEntry(w).code == NoError && Rep(EndEntry(w).writer, Idle(es + [e]))
  {
    PushEntry(es, e);
    PatchAt(w, Locals(es), LocalBytes(HeaderFor(FileOf(e, 0), true)), Body(e),
            LocalBytes(HeaderFor(FileOf(e, |Locals(es)|), false)));
  }

  lemma DiscardRep(w: Writer, es: seq<Entry>)
    requires Rep(w, Idle(es)) && es != []
    ensures DiscardLastEntry(w).code == NoError && Rep(DiscardLastEntry(w).writer, Idle(es[..|es| - 1]))
  {
    RewindAt(w, Locals(es[..|es| - 1]), LocalImage(es[|es| - 1]));
  }

  lemma ConcludeRep(w: Writer, image: seq<byte>, end: Eocd)
    requires At(w, image)
    ensures Conclude(w, end).state == Done && Conclude(w, end).data == image + EocdBytes(end)
  {
    PutAt(w, image, EocdBytes(end));
  }

  lemma FinishRep(w: Writer, es: seq<Entry>)
    requires Rep(w, Idle(es))
    ensures FinishArchive(w).code == SpecFinish(es).0 && Rep(FinishArchive(w).writer, SpecFinish(es).1)
  {
    var cd := Central(FilesOf(es));
    if |Locals(es)| + |cd| <= UINT32_MAX {
      PutAt(w, Locals(es), cd);
      ConcludeRep(Put(w, cd), Locals(es) + cd, EndRecord(|es|, |cd|, |Locals(es)|));
    }
  }

  /** The call answered what the meaning says, and the writer stands for the new meaning. */
  ghost predicate Agrees(o: Outcome, r: (Code, Spec)) { o.code == r.0 && Rep(o.writer, r.1) }

  lemma StartAgrees(w: Writer, spec: Spec, path: seq<byte>, alignment: nat, time: nat, date: nat)
    requires Rep(w, spec) && Ready(w)
    ensures Agrees(StartAlignedEntry(w, path, alignment, time, date), SpecBegin(spec, path, alignment, time, date))
  {
    if spec.Idle? {
      var es := spec.entries;
      StartRep(w, es, StartCode(|es|, |Locals(es)|, path, alignment), NewEntry(es, path, alignment, time, date));
    }
  }

  lemma WriteAgrees(crc: Crc, w: Writer, spec: Spec, bytes: seq<byte>)
    requires Rep(w, spec) && Ready(w)
    ensures Agrees(WriteBytes(crc, w, bytes), SpecAppend(crc, spec, bytes))
  {
    if spec.Busy? { WriteRep(crc, w, spec.entries, spec.current, bytes); }
  }

  lemma EndAgrees(w: Writer, spec: Spec)
    requires Rep(w, spec) && Ready(w)
    ensures Agrees(EndEntry(w), SpecEnd(spec))
  {
    if spec.Busy? { EndRep(w, spec.entries, spec.current); }
  }

  lemma DiscardAgrees(w: Writer, spec: Spec)
    requires Rep(w, spec)
    ensures Agrees(DiscardLastEntry(w), SpecDiscard(spec))
  {
    if spec.Idle? && spec.entries != [] { DiscardRep(w, spec.entries); }
  }

  lemma FinishAgrees(w: Writer, spec: Spec)
    requires Rep(w, spec) && Ready(w)
    ensures Agrees(FinishArchive(w), SpecClose(spec))
  {
    if spec.Idle? { FinishRep(w, spec.entries); }
  }

  lemma StepAgrees(crc: Crc, w: Writer, spec: Spec, op: Op)
    requires Rep(w, spec) && Ready(w)
    ensures Agrees(Apply(crc, w, op), SpecStep(crc, spec, op))
  {
    match op
    case Start(path, alignment, time, date) => StartAgrees(w, spec, path, alignment, time, date);
    case Write(bytes) => WriteAgrees(crc, w, spec, bytes);
    case FinishEntry => EndAgrees(w, spec);
    case Discard => DiscardAgrees(w, spec);
    case Finish => FinishAgrees(w, spec);
  }

  // ---------- runs ----------

  /** The codes of a run of calls, and the writer at its end. */
  function Run(crc: Crc, w: Writer, ops: seq<Op>): (seq<Code>, Writer)
    requires Ready(w)
    decreases |ops|
  {
    if ops == [] then ([], w)
    else
      var o := Apply(crc, w, ops[0]);
      if !Ready(o.writer) then ([o.code], o.writer)
      else
        var (codes, w') := Run(crc, o.writer, ops[1..]);
        ([o.code] + codes, w')
  }

  function SpecRun(crc: Crc, spec: Spec, ops: seq<Op>): (seq<Code>, Spec)
    decreases |ops|
  {
    if ops == [] then ([], spec)
    else
      var (code, spec') := SpecStep(crc, spec, ops[0]);
      var (codes, spec'') := SpecRun(crc, spec', ops[1..]);
      ([code] + codes, spec'')
  }

  lemma {:induction false} RunAgrees(crc: Crc, w: Writer, spec: Spec, ops: seq<Op>)
    requires Rep(w, spec) && Ready(w)
    ensures Run(crc, w, ops).0 == SpecRun(crc, spec, ops).0 && Rep(Run(crc, w, ops).1, SpecRun(crc, spec, ops).1)
    decreases |ops|
  {
    if ops != [] {
      StepAgrees(crc, w, spec, ops[0]);
      var o := Apply(crc, w, ops[0]);
      RepReady(o.writer, SpecStep(crc, spec, ops[0]).1);
      RunAgrees(crc, o.writer, SpecStep(crc, spec, ops[0]).1, ops[1..]);
    }
  }

  lemma {:induction false} SpecRunConcat(crc: Crc, spec: Spec, a: seq<Op>, b: seq<Op>)
    ensures SpecRun(crc, spec, a + b).1 == SpecRun(crc, SpecRun(crc, spec, a).1, b).1
    decreases |a|
  {
    if a == [] {
      assert a + b == b;
    } else {
      assert (a + b)[1..] == a[1..] + b;
      SpecRunConcat(crc, SpecStep(crc, spec, a[0]).1, a[1..], b);
    }
  }

  lemma {:induction false} CodesConcat(crc: Crc, spec: Spec, a: seq<Op>, b: seq<Op>)
    ensures SpecRun(crc, spec, a + b).0 == SpecRun(crc, spec, a).0 + SpecRun(crc, SpecRun(crc, spec, a).1, b).0
    decreases |a|
  {
    if a == [] {
      assert a + b == b;
    } else {
      assert (a + b)[1..] == a[1..] + b;
      var (code, next) := SpecStep(crc, spec, a[0]);
      CodesConcat(crc, next, a[1..], b);
      Prepend(code, SpecRun(crc, next, a[1..]).0, SpecRun(crc, SpecRun(crc, next, a[1..]).1, b).0);
    }
  }

  lemma Prepend(code: Code, a: seq<Code>, b: seq<Code>)
    ensures [code] + (a + b) == ([code] + a) + b
  {
  }
}
