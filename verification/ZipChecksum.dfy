/** The checksum that a run stores for an entry is that of its content, however it was cut into writes. */
module ZipChecksum {
  import opened Common
  import opened ZipWriting
  import opened ZipImage
  import opened ZipEntries
  import opened ZipErrors
  import opened ZipLayout
  import opened ZipTheorems
  import L = ZipLookup
  import R = ZipReading

  /** What `crc32` of zlib promises: it can be continued, and nothing changes for no bytes. */
  ghost predicate Chains(crc: Crc) {
    && (forall c: nat :: Sum(crc, c, []) == c % 0x1_0000_0000)
    && (forall c: nat, a: seq<byte>, b: seq<byte> :: Sum(crc, Sum(crc, c, a), b) == Sum(crc, c, a + b))
  }

  function Sum(crc: Crc, c: nat, bytes: seq<byte>): nat { crc(c, bytes) % 0x1_0000_0000 }

  ghost predicate Summed(crc: Crc, e: Entry) { e.crc == Sum(crc, 0, e.content) }

  ghost predicate AllSummed(crc: Crc, spec: Spec) {
    match spec
    case Idle(es) => forall i :: 0 <= i < |es| ==> Summed(crc, es[i])
    case Busy(es, e) => Summed(crc, e) && forall i :: 0 <= i < |es| ==> Summed(crc, es[i])
    case Finished(es) => forall i :: 0 <= i < |es| ==> Summed(crc, es[i])
    case Broken => true
  }

  lemma StartSummed(crc: Crc, spec: Spec, op: Op)
    requires Chains(crc) && AllSummed(crc, spec) && op.Start?
    ensures AllSummed(crc, SpecStarted(spec, op).1)
  {
    if spec.Idle? {
      var es := spec.entries;
      StartedSummed(crc, es, StartCode(|es|, |Locals(es)|, op.path, op.alignment),
                    NewEntry(es, op.path, op.alignment, op.time, op.date));
    }
  }

  lemma StartedSummed(crc: Crc, es: seq<Entry>, code: Code, e: Entry)
    requires Chains(crc) && AllSummed(crc, Idle(es)) && e.crc == 0 && e.content == []
    ensures AllSummed(crc, SpecStart(es, code, e).1)
  {
    assert Sum(crc, 0, []) == 0;
  }

  lemma WriteSummed(crc: Crc, es: seq<Entry>, e: Entry, bytes: seq<byte>)
    requires Chains(crc) && AllSummed(crc, Busy(es, e))
    ensures AllSummed(crc, SpecWrite(crc, es, e, bytes).1)
  {
    assert Sum(crc, Sum(crc, 0, e.content), bytes) == Sum(crc, 0, e.content + bytes);
  }

  lemma StepSummed(crc: Crc, spec: Spec, op: Op)
    requires Chains(crc) && AllSummed(crc, spec)
    ensures AllSummed(crc, SpecStep(crc, spec, op).1)
  {
    match op
    case Start(_, _, _, _) => StartSummed(crc, spec, op);
    case Write(bytes) => if spec.Busy? { WriteSummed(crc, spec.entries, spec.current, bytes); }
    case FinishEntry =>
    case Discard =>
    case Finish =>
  }

  lemma {:induction false} RunSummed(crc: Crc, spec: Spec, ops: seq<Op>)
    requires Chains(crc) && AllSummed(crc, spec)
    ensures AllSummed(crc, SpecRun(crc, spec, ops).1)
    decreases |ops|
  {
    if ops != [] {
      StepSummed(crc, spec, ops[0]);
      RunSummed(crc, SpecStep(crc, spec, ops[0]).1, ops[1..]);
    }
  }

  lemma FoundSummed(crc: Crc, file: seq<byte>, e: Entry, at: nat, found: Result<L.ZipEntry, ZipError>)
    requires Lies(file, at, e.content) && Summed(crc, e) && found.Success? && found.value.crc == e.crc
    requires found.value.offset == at && found.value.uncompressedLength == |e.content|
    ensures SumFound(crc, file, found)
  {
  }

  /** Something was found inside the file, with the checksum of its bytes. */
  ghost predicate SumFound(crc: Crc, file: seq<byte>, found: Result<L.ZipEntry, ZipError>) {
    && found.Success? && found.value.offset + found.value.uncompressedLength <= |file|
    && found.value.crc == Sum(crc, 0, L.Content(file, found.value))
  }

  lemma WrittenSummed(crc: Crc, ops: seq<Op>, i: nat)
    requires Chains(crc) && Written(crc, ops).Finished? && i < |Written(crc, ops).entries|
    ensures Summed(crc, Written(crc, ops).entries[i])
  {
    RunSummed(crc, Idle([]), ops);
  }

  /** What the reader finds as the checksum of an entry is that of the bytes it finds as its content. */
  lemma ChecksumReadsBack(crc: Crc, w: Writer, ops: seq<Op>, i: nat, e: Entry, file: seq<byte>)
    requires Chains(crc) && Fresh(w) && OpsOk(ops) && Ready(w) && Run(crc, w, ops).1.state == Done
    requires file == Run(crc, w, ops).1.data && R.Open(file).Success?
    requires Written(crc, ops).Finished? && i < |Written(crc, ops).entries|
    requires e == Written(crc, ops).entries[i] && e.name != []
    ensures R.IndexOk(R.Open(file).value.cd, R.Open(file).value.index) && R.Open(file).value.cdOffset <= |file|
    ensures SumFound(crc, file, L.Find(file, R.Open(file).value, e.name))
  {
    var h := HeaderOffset(Written(crc, ops).entries, i);
    ReadsWhatWasWritten(crc, w, ops, i);
    WrittenSummed(crc, ops, i);
    FoundSummed(crc, file, e, DataOffset(e, h), L.Find(file, R.Open(file).value, e.name));
  }
}
