/** What every entry of a reachable writer satisfies: its name, its sizes and the place of its data. */
module ZipEntries {
  import opened Common
  import opened Bits
  import opened EntryNames
  import opened ZipRecords
  import opened ZipWriting
  import opened ZipImage

  /** The caller's time stamp is a pair of 16-bit numbers. */
  predicate OpOk(op: Op) { op.Start? ==> op.time < 0x1_0000 && op.date < 0x1_0000 }

  ghost predicate OpsOk(ops: seq<Op>) { forall i :: 0 <= i < |ops| ==> OpOk(ops[i]) }

  /** An entry whose header is at `offset`. */
  ghost predicate EntryOk(e: Entry, offset: nat) {
    && ValidName(e.name) && offset <= UINT32_MAX
    && PowerOfTwoOrZero(e.alignment) && e.alignment <= UINT16_MAX
    && e.padding == Padding(offset, |e.name|, e.alignment)
    && e.time < 0x1_0000 && e.date < 0x1_0000 && e.crc < 0x1_0000_0000 && |e.content| <= UINT32_MAX
  }

  /** The header of entry `i` comes right after the entries before it. */
  ghost function HeaderOffset(es: seq<Entry>, i: nat): nat
    requires i <= |es|
  {
    |Locals(es[..i])|
  }

  ghost predicate EntriesOk(es: seq<Entry>) {
    |es| <= UINT16_MAX && forall i :: 0 <= i < |es| ==> EntryOk(es[i], HeaderOffset(es, i))
  }

  /** The directory starts and ends within the first 4 GiB. */
  ghost predicate SizeOk(es: seq<Entry>) { |Locals(es)| + |Central(FilesOf(es))| <= UINT32_MAX }

  ghost predicate SpecOk(spec: Spec) {
    match spec
    case Idle(es) => EntriesOk(es)
    case Busy(es, e) => EntriesOk(es) && |es| < UINT16_MAX && EntryOk(e, |Locals(es)|)
    case Finished(es) => EntriesOk(es) && SizeOk(es)
    case Broken => true
  }

  lemma PushOk(es: seq<Entry>, e: Entry)
    requires EntriesOk(es) && |es| < UINT16_MAX && EntryOk(e, |Locals(es)|)
    ensures EntriesOk(es + [e])
  {
    forall i | 0 <= i < |es + [e]|
      ensures EntryOk((es + [e])[i], HeaderOffset(es + [e], i))
    {
      PushOffset(es, e, i);
      if i < |es| {
        assert EntryOk(es[i], HeaderOffset(es, i));
      }
    }
  }

  lemma PushOffset(es: seq<Entry>, e: Entry, i: nat)
    requires i <= |es|
    ensures HeaderOffset(es + [e], i) == if i < |es| then HeaderOffset(es, i) else |Locals(es)|
  {
    assert (es + [e])[..i] == es[..i];
    assert i == |es| ==> es[..i] == es;
  }

  lemma PopOk(es: seq<Entry>)
    requires EntriesOk(es) && es != []
    ensures EntriesOk(es[..|es| - 1])
  {
    var es' := es[..|es| - 1];
    forall i | 0 <= i < |es'|
      ensures EntryOk(es'[i], HeaderOffset(es', i))
    {
      assert es'[..i] == es[..i];
      assert EntryOk(es[i], HeaderOffset(es, i));
    }
  }

  lemma StartOk(spec: Spec, path: seq<byte>, alignment: nat, time: nat, date: nat)
    requires SpecOk(spec) && time < 0x1_0000 && date < 0x1_0000
    ensures SpecOk(SpecBegin(spec, path, alignment, time, date).1)
  {
    if spec.Idle? && StartCode(|spec.entries|, |Locals(spec.entries)|, path, alignment) == NoError {
      NewEntryOk(|spec.entries|, |Locals(spec.entries)|, path, alignment, time, date);
    }
  }

  /** The checks of a start are what an entry needs. */
  lemma NewEntryOk(count: nat, offset: nat, path: seq<byte>, alignment: nat, time: nat, date: nat)
    requires StartCode(count, offset, path, alignment) == NoError && time < 0x1_0000 && date < 0x1_0000
    ensures count != UINT16_MAX
    ensures EntryOk(Entry(path, alignment, Padding(offset, |path|, alignment), time, date, 0, []), offset)
  {
  }

  lemma WriteOk(crc: Crc, es: seq<Entry>, e: Entry, bytes: seq<byte>)
    requires SpecOk(Busy(es, e))
    ensures SpecOk(SpecWrite(crc, es, e, bytes).1)
  {
  }

  lemma EndOk(spec: Spec)
    requires SpecOk(spec)
    ensures SpecOk(SpecEnd(spec).1) && SpecOk(SpecDiscard(spec).1) && SpecOk(SpecClose(spec).1)
  {
    if spec.Busy? {
      PushOk(spec.entries, spec.current);
    } else if spec.Idle? && spec.entries != [] {
      PopOk(spec.entries);
    }
  }

  lemma SpecStepOk(crc: Crc, spec: Spec, op: Op)
    requires SpecOk(spec) && OpOk(op)
    ensures SpecOk(SpecStep(crc, spec, op).1)
  {
    match op
    case Start(path, alignment, time, date) => StartOk(spec, path, alignment, time, date);
    case Write(bytes) => if spec.Busy? { WriteOk(crc, spec.entries, spec.current, bytes); }
    case FinishEntry => EndOk(spec);
    case Discard => EndOk(spec);
    case Finish => EndOk(spec);
  }

  lemma {:induction false} SpecRunOk(crc: Crc, spec: Spec, ops: seq<Op>)
    requires SpecOk(spec) && OpsOk(ops)
    ensures SpecOk(SpecRun(crc, spec, ops).1)
    decreases |ops|
  {
    if ops != [] {
      SpecStepOk(crc, spec, ops[0]);
      SpecRunOk(crc, SpecStep(crc, spec, ops[0]).1, ops[1..]);
    }
  }

  // ---------- alignment ----------

  lemma MaskIsMod(start: nat, a: nat)
    requires a > 0 && PowerOfTwoOrZero(a)
    ensures And(start, a - 1) == start % a && Rem(start, a) == start % a
  {
    var k := LoneBit(a);
    AndMask(start, k);
    LowMod(start, k);
    RemIsMod(start, a);
  }

  lemma UpToMultiple(start: nat, a: nat)
    requires a > 0 && start % a != 0
    ensures (start + (a - start % a)) % a == 0
  {
    var q, r := start / a, start % a;
    assert start + (a - r) == a * (q + 1) + 0;
    DivModUnique(start + (a - r), a, q + 1, 0);
  }

  /** The padding is less than the alignment and brings the data to a multiple of it. */
  lemma PaddingAligns(offset: nat, nameLength: nat, alignment: nat)
    requires PowerOfTwoOrZero(alignment) && alignment != 0
    ensures Padding(offset, nameLength, alignment) < alignment
    ensures (offset + LFH_SIZE + nameLength + Padding(offset, nameLength, alignment)) % alignment == 0
  {
    var start: nat := offset + LFH_SIZE + nameLength;
    MaskIsMod(start, alignment);
    if start % alignment != 0 {
      UpToMultiple(start, alignment);
    }
  }

  /** Where the data of an entry with its header at `offset` starts. */
  function DataOffset(e: Entry, offset: nat): nat { offset + LFH_SIZE + |e.name| + e.padding }

  /** The data of every entry is aligned as its caller asked. */
  lemma DataAligned(e: Entry, offset: nat)
    requires EntryOk(e, offset) && e.alignment != 0
    ensures DataOffset(e, offset) % e.alignment == 0 && e.padding < e.alignment
  {
    PaddingAligns(offset, |e.name|, e.alignment);
  }
}
