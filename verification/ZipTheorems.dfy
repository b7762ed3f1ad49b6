/** The writer and the reader together, over whole runs of writer calls. */
module ZipTheorems {
  import opened Common
  import opened ZipWriting
  import opened ZipImage
  import opened ZipEntries
  import opened ZipAcceptance
  import opened EntryNames
  import R = ZipReading
  import L = ZipLookup
  import opened ZipRoundTrip
  import opened ZipFull

  /** A new writer, on a file with any contents. */
  ghost predicate Fresh(w: Writer) { w.state == WritingZip && w.files == [] && w.offset == 0 && w.pos == 0 }

  lemma FreshRep(w: Writer)
    requires Fresh(w)
    ensures Rep(w, Idle([])) && Ready(w) && SpecOk(Idle([]))
  {
  }

  /** The entries that a run of calls on a new writer leaves in the archive. */
  ghost function Written(crc: Crc, ops: seq<Op>): Spec { SpecRun(crc, Idle([]), ops).1 }

  /** Whatever was called before, discarded entries included, a finished file is the image of its entries. */
  lemma FinishedFile(crc: Crc, w: Writer, ops: seq<Op>)
    requires Fresh(w) && OpsOk(ops) && Ready(w) && Run(crc, w, ops).1.state == Done
    ensures Written(crc, ops).Finished? && Run(crc, w, ops).1.data == Archive(Written(crc, ops).entries)
    ensures EntriesOk(Written(crc, ops).entries) && SizeOk(Written(crc, ops).entries)
  {
    FreshRep(w);
    RunAgrees(crc, w, Idle([]), ops);
    SpecRunOk(crc, Idle([]), ops);
  }

  /** When the reader opens what the writer finished. */
  lemma OpensFinished(crc: Crc, w: Writer, ops: seq<Op>)
    requires Fresh(w) && OpsOk(ops) && Ready(w) && Run(crc, w, ops).1.state == Done
    ensures Written(crc, ops).Finished?
    ensures var es := Written(crc, ops).entries;
      R.Open(Run(crc, w, ops).1.data).Success? <==> 0 < |es| < UINT16_MAX && NamesDistinct(es)
  {
    FinishedFile(crc, w, ops);
    OpensExactly(Written(crc, ops).entries);
  }

  /** Every entry of an archive that opens reads back, at the place and with the alignment asked for. */
  lemma ReadsWhatWasWritten(crc: Crc, w: Writer, ops: seq<Op>, i: nat)
    requires Fresh(w) && OpsOk(ops) && Ready(w) && Run(crc, w, ops).1.state == Done
    requires R.Open(Run(crc, w, ops).1.data).Success?
    requires Written(crc, ops).Finished? && i < |Written(crc, ops).entries| && Written(crc, ops).entries[i].name != []
    ensures var es, file := Written(crc, ops).entries, Run(crc, w, ops).1.data;
      var e, h := es[i], HeaderOffset(es, i);
      && ReadsBackAs(file, R.Open(file).value, e, h)
      && (e.alignment != 0 ==> DataOffset(e, h) % e.alignment == 0)
  {
    var es := Written(crc, ops).entries;
    FinishedFile(crc, w, ops);
    OpensExactly(es);
    EntryReadsBack(es, i);
    assert EntryOk(es[i], HeaderOffset(es, i));
    if es[i].alignment != 0 {
      DataAligned(es[i], HeaderOffset(es, i));
    }
  }

  /** A name that was not written, or was discarded again, is not found. */
  lemma FindsNothingElse(crc: Crc, w: Writer, ops: seq<Op>, name: seq<byte>)
    requires Fresh(w) && OpsOk(ops) && Ready(w) && Run(crc, w, ops).1.state == Done
    requires R.Open(Run(crc, w, ops).1.data).Success?
    requires Written(crc, ops).Finished? && !Named(Written(crc, ops).entries, name)
    ensures var file := Run(crc, w, ops).1.data;
      L.Find(file, R.Open(file).value, name).Failure?
  {
    var es := Written(crc, ops).entries;
    FinishedFile(crc, w, ops);
    OpensExactly(es);
    NothingElse(es, name);
  }

  // ---------- one entry ----------

  /** A start that a new writer accepts. */
  ghost predicate Acceptable(start: Op) {
    && start.Start? && ValidName(start.path) && Alignable(start.alignment)
    && start.time < 0x1_0000 && start.date < 0x1_0000
  }

  /** The calls that write an archive with one stored entry. */
  function OneEntryCalls(start: Op, content: seq<byte>): seq<Op> { [start, Write(content), FinishEntry, Finish] }

  /** The entry after its start. */
  function Blank(start: Op): Entry
    requires start.Start?
  {
    Entry(start.path, start.alignment, Padding(0, |start.path|, start.alignment), start.time, start.date, 0, [])
  }

  lemma OneEntrySize(e: Entry)
    requires |e.name| <= UINT16_MAX && e.padding <= UINT16_MAX && |e.content| <= 0x7fff_ffff
    ensures SizeOk([e])
  {
    PushEntry([], e);
    assert [] + [e] == [e];
    var files := FilesOf([e]);
    assert files[..0] == [] && |files| == 1;
    assert Central(files) == Central([]) + RecordBytes(files[0]);
    assert files[0].path == e.name by { assert FilesOf([]) == []; }
  }

  lemma OneStep(crc: Crc, spec: Spec, op: Op, rest: seq<Op>, code: Code, next: Spec)
    requires SpecStep(crc, spec, op) == (code, next)
    ensures SpecRun(crc, spec, [op] + rest).1 == SpecRun(crc, next, rest).1
  {
    assert ([op] + rest)[1..] == rest;
  }

  /** The entry after its write. */
  function OneEntryOf(crc: Crc, start: Op, content: seq<byte>): Entry
    requires start.Start?
  {
    Blank(start).(crc := crc(0, content) % 0x1_0000_0000, content := content)
  }

  lemma OneStart(crc: Crc, start: Op)
    requires Acceptable(start)
    ensures SpecStep(crc, Idle([]), start) == (NoError, Busy([], Blank(start)))
  {
    CodeExact(0, 0, start.path, start.alignment);
    StartIs(crc, Idle([]), start, (NoError, Busy([], Blank(start))));
  }

  lemma StartIs(crc: Crc, spec: Spec, op: Op, started: (Code, Spec))
    requires op.Start? && started == SpecBegin(spec, op.path, op.alignment, op.time, op.date)
    ensures SpecStep(crc, spec, op) == started
  {
  }

  lemma BlankPadding(start: Op)
    requires Acceptable(start)
    ensures Blank(start).padding <= UINT16_MAX
  {
    AlignmentExact(start.alignment);
    if start.alignment != 0 {
      PaddingAligns(0, |start.path|, start.alignment);
    }
  }

  lemma OneWrite(crc: Crc, start: Op, content: seq<byte>)
    requires start.Start? && |content| <= 0x7fff_ffff
    ensures SpecStep(crc, Busy([], Blank(start)), Write(content))
         == (NoError, Busy([], OneEntryOf(crc, start, content)))
  {
    assert [] + content == content;
  }

  lemma OneEnd(crc: Crc, e: Entry)
    ensures SpecStep(crc, Busy([], e), FinishEntry) == (NoError, Idle([e]))
  {
    assert [] + [e] == [e];
  }

  lemma OneFinish(crc: Crc, es: seq<Entry>)
    requires SizeOk(es)
    ensures SpecStep(crc, Idle(es), Finish) == (NoError, Finished(es))
  {
    FinishFits(es, |Locals(es)|, |Central(FilesOf(es))|);
    FinishIs(crc, Idle(es), Finish, (NoError, Finished(es)));
  }

  /** The calls succeed, for every acceptable start and every content of less than 2 GiB. */
  lemma OneEntryMeaning(crc: Crc, start: Op, content: seq<byte>)
    requires Acceptable(start) && |content| <= 0x7fff_ffff
    ensures Written(crc, OneEntryCalls(start, content)) == Finished([OneEntryOf(crc, start, content)])
  {
    var e := OneEntryOf(crc, start, content);
    var front, back := OneHalves(crc, start, content, e);
    TwoParts(crc, Idle([]), front, Busy([], e), back, Finished([e]), OneEntryCalls(start, content));
  }

  lemma OneHalves(crc: Crc, start: Op, content: seq<byte>, e: Entry) returns (front: seq<Op>, back: seq<Op>)
    requires Acceptable(start) && |content| <= 0x7fff_ffff && e == OneEntryOf(crc, start, content)
    ensures OneEntryCalls(start, content) == front + back
    ensures SpecRun(crc, Idle([]), front).1 == Busy([], e) && SpecRun(crc, Busy([], e), back).1 == Finished([e])
  {
    front, back := [start] + [Write(content)], [FinishEntry] + [Finish];
    OneFront(crc, start, content, front);
    BlankPadding(start);
    OneEntrySize(e);
    OneBack(crc, e, back);
  }

  lemma OneFront(crc: Crc, start: Op, content: seq<byte>, front: seq<Op>)
    requires Acceptable(start) && |content| <= 0x7fff_ffff && front == [start] + [Write(content)]
    ensures SpecRun(crc, Idle([]), front).1 == Busy([], OneEntryOf(crc, start, content))
  {
    OneStart(crc, start);
    OneWrite(crc, start, content);
    TwoSteps(crc, Idle([]), start, Busy([], Blank(start)), Write(content),
             Busy([], OneEntryOf(crc, start, content)), front);
  }

  lemma OneBack(crc: Crc, e: Entry, back: seq<Op>)
    requires SizeOk([e]) && back == [FinishEntry] + [Finish]
    ensures SpecRun(crc, Busy([], e), back).1 == Finished([e])
  {
    OneEnd(crc, e);
    OneFinish(crc, [e]);
    TwoSteps(crc, Busy([], e), FinishEntry, Idle([e]), Finish, Finished([e]), back);
  }

  lemma TwoParts(crc: Crc, s0: Spec, x: seq<Op>, s1: Spec, y: seq<Op>, s2: Spec, all: seq<Op>)
    requires SpecRun(crc, s0, x).1 == s1 && SpecRun(crc, s1, y).1 == s2 && all == x + y
    ensures SpecRun(crc, s0, all).1 == s2
  {
    SpecRunConcat(crc, s0, x, y);
  }

  lemma TwoSteps(crc: Crc, s0: Spec, a: Op, s1: Spec, b: Op, s2: Spec, pair: seq<Op>)
    requires SpecStep(crc, s0, a) == (NoError, s1) && SpecStep(crc, s1, b) == (NoError, s2) && pair == [a] + [b]
    ensures SpecRun(crc, s0, pair).1 == s2
  {
    OneStep(crc, s0, a, [b], NoError, s1);
    OneStep(crc, s1, b, [], NoError, s2);
    assert [b] + [] == [b];
  }

  /**
   Such an archive opens and gives back its content: for every new writer, every start with a valid
   non-empty name, a 16-bit time stamp and an alignment of 0 or a power of two up to 2^15, and every
   content of less than 2 GiB. The data begins at a multiple of the alignment.
   */
  lemma OneEntryReadsBack(crc: Crc, w: Writer, start: Op, content: seq<byte>)
    requires Fresh(w) && Ready(w) && Acceptable(start) && start.path != [] && |content| <= 0x7fff_ffff
    ensures var file := Run(crc, w, OneEntryCalls(start, content)).1.data;
      var e := OneEntryOf(crc, start, content);
      && R.Open(file).Success?
      && ReadsBackAs(file, R.Open(file).value, e, 0)
      && (start.alignment != 0 ==> DataOffset(e, 0) % start.alignment == 0)
  {
    OneEntryDone(crc, w, start, content);
    OneReadsBack(OneEntryOf(crc, start, content));
    OneIsAligned(crc, start, content);
  }

  lemma OneIsAligned(crc: Crc, start: Op, content: seq<byte>)
    requires Acceptable(start)
    ensures start.alignment != 0 ==> DataOffset(OneEntryOf(crc, start, content), 0) % start.alignment == 0
  {
    AlignmentExact(start.alignment);
    if start.alignment != 0 {
      PaddingAligns(0, |start.path|, start.alignment);
    }
  }

  lemma OneEntryDone(crc: Crc, w: Writer, start: Op, content: seq<byte>)
    requires Fresh(w) && Ready(w) && Acceptable(start) && |content| <= 0x7fff_ffff
    ensures Run(crc, w, OneEntryCalls(start, content)).1.data == Archive([OneEntryOf(crc, start, content)])
    ensures EntriesOk([OneEntryOf(crc, start, content)]) && SizeOk([OneEntryOf(crc, start, content)])
  {
    OneEntryMeaning(crc, start, content);
    FinishedAs(crc, w, OneEntryCalls(start, content), [OneEntryOf(crc, start, content)]);
  }

  lemma FinishedAs(crc: Crc, w: Writer, ops: seq<Op>, es: seq<Entry>)
    requires Fresh(w) && Ready(w) && OpsOk(ops) && Written(crc, ops) == Finished(es)
    ensures Run(crc, w, ops).1.state == Done && Run(crc, w, ops).1.data == Archive(es) && EntriesOk(es) && SizeOk(es)
  {
    FreshRep(w);
    RunAgrees(crc, w, Idle([]), ops);
    SpecRunOk(crc, Idle([]), ops);
  }

  lemma OneReadsBack(e: Entry)
    requires EntriesOk([e]) && SizeOk([e]) && e.name != []
    ensures R.Open(Archive([e])).Success? && ReadsBackAs(Archive([e]), R.Open(Archive([e])).value, e, 0)
  {
    assert [e][..0] == [];
    EntryReadsBack([e], 0);
  }
}
