/** Discarding the last entry undoes it: the finished archive does not show that it was ever there. */
module ZipDiscard {
  import opened ZipWriting
  import opened ZipImage

  ghost predicate AllWrites(ops: seq<Op>) { forall i :: 0 <= i < |ops| ==> ops[i].Write? }

  ghost predicate NoErrors(codes: seq<Code>) { forall i :: 0 <= i < |codes| ==> codes[i] == NoError }

  /** Successful writes only change the entry being written. */
  lemma {:induction false} WritesStayBusy(crc: Crc, es: seq<Entry>, e: Entry, writes: seq<Op>)
    requires AllWrites(writes) && NoErrors(SpecRun(crc, Busy(es, e), writes).0)
    ensures SpecRun(crc, Busy(es, e), writes).1.Busy? && SpecRun(crc, Busy(es, e), writes).1.entries == es
    decreases |writes|
  {
    if writes != [] {
      var (code, spec) := SpecAppend(crc, Busy(es, e), writes[0].bytes);
      var codes := SpecRun(crc, Busy(es, e), writes).0;
      assert codes[0] == code && codes[1..] == SpecRun(crc, spec, writes[1..]).0;
      WritesStayBusy(crc, es, spec.current, writes[1..]);
    }
  }

  /** A started, written, finished and discarded entry leaves the meaning as it was. */
  lemma EntryComesAndGoes(crc: Crc, es: seq<Entry>, e: Entry, writes: seq<Op>)
    requires AllWrites(writes) && NoErrors(SpecRun(crc, Busy(es, e), writes).0)
    ensures SpecRun(crc, Busy(es, e), writes + [FinishEntry, Discard]).1 == Idle(es)
  {
    WritesStayBusy(crc, es, e, writes);
    SpecRunConcat(crc, Busy(es, e), writes, [FinishEntry, Discard]);
    var e' := SpecRun(crc, Busy(es, e), writes).1.current;
    assert [FinishEntry, Discard][1..] == [Discard] && [Discard][1..] == [];
    assert (es + [e'])[..|es|] == es;
    assert SpecRun(crc, Idle(es + [e']), [Discard]).1 == Idle(es);
  }

  /** If no call of the whole run fails, neither the start nor a write does. */
  lemma StartAndWrites(crc: Crc, es: seq<Entry>, start: Op, writes: seq<Op>)
    requires start.Start? && NoErrors(SpecRun(crc, Idle(es), [start] + (writes + [FinishEntry, Discard])).0)
    ensures SpecStep(crc, Idle(es), start).0 == NoError
    ensures NoErrors(SpecRun(crc, SpecStep(crc, Idle(es), start).1, writes).0)
  {
    var rest := writes + [FinishEntry, Discard];
    var (code, spec) := SpecStep(crc, Idle(es), start);
    SpecRunOne(crc, Idle(es), start);
    CodesConcat(crc, Idle(es), [start], rest);
    NoErrorParts([code], SpecRun(crc, spec, rest).0);
    CodesConcat(crc, spec, writes, [FinishEntry, Discard]);
    NoErrorParts(SpecRun(crc, spec, writes).0, SpecRun(crc, SpecRun(crc, spec, writes).1, [FinishEntry, Discard]).0);
  }

  lemma SpecRunOne(crc: Crc, spec: Spec, op: Op)
    ensures SpecRun(crc, spec, [op]) == ([SpecStep(crc, spec, op).0], SpecStep(crc, spec, op).1)
  {
    assert [op][1..] == [];
    var (code, next) := SpecStep(crc, spec, op);
    assert SpecRun(crc, next, []) == ([], next);
    assert [code] + [] == [code];
  }

  lemma NoErrorParts(a: seq<Code>, b: seq<Code>)
    requires NoErrors(a + b)
    ensures NoErrors(a) && NoErrors(b)
    ensures a != [] ==> a[0] == NoError
  {
    forall i | 0 <= i < |a| ensures a[i] == NoError { assert (a + b)[i] == a[i]; }
    forall i | 0 <= i < |b| ensures b[i] == NoError { assert (a + b)[|a| + i] == b[i]; }
  }

  /**
   From a writer between two entries: an entry that was started, written, finished and discarded
   makes no difference to any continuation. The calls return the same codes, and if the archive is
   finished it holds the same bytes.
   */
  lemma DiscardUndoesEntry(crc: Crc, w: Writer, es: seq<Entry>, start: Op, writes: seq<Op>, rest: seq<Op>)
    requires Rep(w, Idle(es)) && Ready(w) && start.Start? && AllWrites(writes)
    requires NoErrors(Run(crc, w, [start] + (writes + [FinishEntry, Discard])).0)
    ensures var w' := Run(crc, w, [start] + (writes + [FinishEntry, Discard])).1;
      && Ready(w')
      && Run(crc, w', rest).0 == Run(crc, w, rest).0
      && Run(crc, w', rest).1.state == Run(crc, w, rest).1.state
      && (Run(crc, w, rest).1.state == Done ==> Run(crc, w', rest).1.data == Run(crc, w, rest).1.data)
  {
    var ops := [start] + (writes + [FinishEntry, Discard]);
    var busy := SpecStep(crc, Idle(es), start).1;
    RunAgrees(crc, w, Idle(es), ops);
    StartAndWrites(crc, es, start, writes);
    EntryComesAndGoes(crc, es, busy.current, writes);
    assert ops[1..] == writes + [FinishEntry, Discard];
    assert SpecRun(crc, Idle(es), ops).1 == Idle(es);
    var w' := Run(crc, w, ops).1;
    RepReady(w', Idle(es));
    SameMeaningSameRun(crc, w, w', Idle(es), rest);
  }

  /** Two writers with the same meaning cannot be told apart by any run. */
  lemma SameMeaningSameRun(crc: Crc, w: Writer, w': Writer, spec: Spec, ops: seq<Op>)
    requires Rep(w, spec) && Rep(w', spec) && Ready(w) && Ready(w')
    ensures Run(crc, w', ops).0 == Run(crc, w, ops).0
    ensures Run(crc, w', ops).1.state == Run(crc, w, ops).1.state
    ensures Run(crc, w, ops).1.state == Done ==> Run(crc, w', ops).1.data == Run(crc, w, ops).1.data
  {
    RunAgrees(crc, w, spec, ops);
    RunAgrees(crc, w', spec, ops);
  }
}
