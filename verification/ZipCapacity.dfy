/**
 How many entries an archive can hold. The writer accepts 65535 entries and finishes the archive; the
 reader opens neither that archive nor the empty one.
 */
module ZipCapacity {
  import opened Common
  import opened EntryNames
  import opened ZipWriting
  import opened ZipImage
  import opened ZipEntries
  import opened ZipRoundTrip
  import opened ZipDiscard
  import opened ZipTheorems
  import F = ZipFull
  import R = ZipReading

  // ---------- entries without content ----------

  /** Valid names of three bytes each, no more of them than the writer takes. */
  ghost predicate Short(names: seq<seq<byte>>) {
    |names| <= UINT16_MAX && forall i :: 0 <= i < |names| ==> |names[i]| == 3 && ValidName(names[i])
  }

  function Empty(name: seq<byte>): Entry { Entry(name, 0, 0, 0, 0, 0, []) }

  /** An entry for every name, and the calls that write them. */
  function Entries(names: seq<seq<byte>>): (es: seq<Entry>)
    ensures |es| == |names| && forall i :: 0 <= i < |names| ==> es[i] == Empty(names[i])
  {
    if names == [] then [] else Entries(names[..|names| - 1]) + [Empty(names[|names| - 1])]
  }

  function Calls(names: seq<seq<byte>>): seq<Op> {
    if names == [] then [] else Calls(names[..|names| - 1]) + [Start(names[|names| - 1], 0, 0, 0), FinishEntry]
  }

  lemma PushSize(es: seq<Entry>, e: Entry)
    requires |e.name| == 3 && e.padding == 0 && e.content == []
    ensures |Locals(es + [e])| == |Locals(es)| + 33
    ensures |Central(FilesOf(es + [e]))| == |Central(FilesOf(es))| + 49
  {
    PushEntry(es, e);
    var files := FilesOf(es + [e]);
    assert files[..|es|] == FilesOf(es) && files[|es|] == FileOf(e, |Locals(es)|);
    assert Central(files) == Central(files[..|files| - 1]) + RecordBytes(files[|files| - 1]);
  }

  /** Every entry takes 33 bytes, and 49 more in the directory. */
  lemma {:induction false} EntriesSize(names: seq<seq<byte>>, n: nat)
    requires Short(names) && n == |names|
    ensures |Locals(Entries(names))| == 33 * n && |Central(FilesOf(Entries(names)))| == 49 * n
  {
    if n > 0 {
      EntriesSize(names[..n - 1], n - 1);
      PushSize(Entries(names[..n - 1]), Empty(names[n - 1]));
    }
  }

  // ---------- writing them ----------

  lemma StartAccepted(count: nat, offset: nat, name: seq<byte>)
    requires count < UINT16_MAX && offset <= UINT32_MAX && ValidName(name)
    ensures StartCode(count, offset, name, 0) == NoError && Padding(offset, |name|, 0) == 0
  {
  }

  lemma OneMoreStarts(es: seq<Entry>, count: nat, offset: nat, name: seq<byte>)
    requires count == |es| < UINT16_MAX && offset == |Locals(es)| <= UINT32_MAX && ValidName(name)
    ensures SpecBegin(Idle(es), name, 0, 0, 0) == (NoError, Busy(es, Empty(name)))
  {
    StartAccepted(count, offset, name);
  }

  /** One more entry can be written. */
  lemma OneMore(crc: Crc, es: seq<Entry>, offset: nat, name: seq<byte>)
    requires |es| < UINT16_MAX && offset == |Locals(es)| <= UINT32_MAX && ValidName(name)
    ensures SpecRun(crc, Idle(es), [Start(name, 0, 0, 0)]).1 == Busy(es, Empty(name))
    ensures SpecRun(crc, Busy(es, Empty(name)), [FinishEntry]).1 == Idle(es + [Empty(name)])
  {
    OneMoreStarts(es, |es|, offset, name);
    SpecRunOne(crc, Idle(es), Start(name, 0, 0, 0));
    SpecRunOne(crc, Busy(es, Empty(name)), FinishEntry);
  }

  lemma OneMorePair(crc: Crc, es: seq<Entry>, offset: nat, name: seq<byte>, pair: seq<Op>)
    requires |es| < UINT16_MAX && offset == |Locals(es)| <= UINT32_MAX && ValidName(name)
    requires pair == [Start(name, 0, 0, 0), FinishEntry]
    ensures SpecRun(crc, Idle(es), pair).1 == Idle(es + [Empty(name)])
  {
    OneMore(crc, es, offset, name);
    TwoParts(crc, Idle(es), [Start(name, 0, 0, 0)], Busy(es, Empty(name)), [FinishEntry],
             Idle(es + [Empty(name)]), pair);
  }

  lemma PairWrites(crc: Crc, calls: seq<Op>, es: seq<Entry>, offset: nat, name: seq<byte>, pair: seq<Op>)
    requires |es| < UINT16_MAX && offset == |Locals(es)| <= UINT32_MAX && ValidName(name)
    requires pair == [Start(name, 0, 0, 0), FinishEntry] && SpecRun(crc, Idle([]), calls).1 == Idle(es)
    ensures SpecRun(crc, Idle([]), calls + pair).1 == Idle(es + [Empty(name)])
  {
    OneMorePair(crc, es, offset, name, pair);
    TwoParts(crc, Idle([]), calls, Idle(es), pair, Idle(es + [Empty(name)]), calls + pair);
  }

  lemma {:induction false} CallsWrite(crc: Crc, names: seq<seq<byte>>, n: nat)
    requires Short(names) && n == |names|
    ensures SpecRun(crc, Idle([]), Calls(names)).1 == Idle(Entries(names))
  {
    if n > 0 {
      var before, name := names[..n - 1], names[n - 1];
      CallsWrite(crc, before, n - 1);
      EntriesSize(before, n - 1);
      PairWrites(crc, Calls(before), Entries(before), 33 * (n - 1), name, [Start(name, 0, 0, 0), FinishEntry]);
    }
  }

  lemma CallsFinish(crc: Crc, names: seq<seq<byte>>)
    requires Short(names)
    ensures Written(crc, Calls(names) + [Finish]) == Finished(Entries(names))
  {
    CallsWrite(crc, names, |names|);
    EntriesSize(names, |names|);
    OneFinish(crc, Entries(names));
    SpecRunOne(crc, Idle(Entries(names)), Finish);
    SpecRunConcat(crc, Idle([]), Calls(names), [Finish]);
  }

  lemma {:induction false} CallsOk(names: seq<seq<byte>>, i: nat)
    requires i < |Calls(names)|
    ensures OpOk(Calls(names)[i])
    decreases |names|
  {
    var before := names[..|names| - 1];
    if i < |Calls(before)| {
      CallsOk(before, i);
    }
  }

  /** The writer finishes every archive of up to 65535 such entries; the reader does not open all of them. */
  lemma ShortArchives(crc: Crc, w: Writer, names: seq<seq<byte>>)
    requires Fresh(w) && Ready(w) && Short(names)
    ensures Run(crc, w, Calls(names) + [Finish]).1.state == Done
    ensures R.Open(Run(crc, w, Calls(names) + [Finish]).1.data).Success? <==>
      0 < |names| < UINT16_MAX && NamesDistinct(Entries(names))
  {
    var ops := Calls(names) + [Finish];
    CallsFinish(crc, names);
    forall i | 0 <= i < |ops|
      ensures OpOk(ops[i])
    {
      if i < |ops| - 1 {
        CallsOk(names, i);
      }
    }
    FinishedAs(crc, w, ops, Entries(names));
    F.OpensExactly(Entries(names));
  }

  // ---------- 65535 names ----------

  /** The digits of `i` to base 100, none of them zero. */
  function NameOf(i: nat): seq<byte>
    requires i < UINT16_MAX
  {
    [1 + i % 100, 1 + i / 100 % 100, 1 + i / 10000]
  }

  lemma {:induction false} PlainIsWellFormed(name: seq<byte>)
    requires forall k :: 0 <= k < |name| ==> 0 < name[k] < 0x80
    ensures WellFormed(name)
  {
    if name != [] {
      PlainIsWellFormed(name[1..]);
    }
  }

  lemma NameOfIsValid(i: nat)
    requires i < UINT16_MAX
    ensures |NameOf(i)| == 3 && ValidName(NameOf(i))
  {
    PlainIsWellFormed(NameOf(i));
  }

  lemma NameOfInjective(i: nat, j: nat)
    requires i < UINT16_MAX && j < UINT16_MAX && NameOf(i) == NameOf(j)
    ensures i == j
  {
    assert NameOf(i)[0] == NameOf(j)[0] && NameOf(i)[1] == NameOf(j)[1] && NameOf(i)[2] == NameOf(j)[2];
    assert i / 10000 == i / 100 / 100 && j / 10000 == j / 100 / 100;
  }

  lemma ManyNames(n: nat) returns (names: seq<seq<byte>>)
    requires n <= UINT16_MAX
    ensures |names| == n && Short(names) && NamesDistinct(Entries(names))
  {
    names := seq(n, i requires 0 <= i < n => NameOf(i));
    forall i | 0 <= i < n
      ensures |names[i]| == 3 && ValidName(names[i])
    {
      NameOfIsValid(i);
    }
    forall i, j | 0 <= i < j < n
      ensures Entries(names)[i].name != Entries(names)[j].name
    {
      if NameOf(i) == NameOf(j) {
        NameOfInjective(i, j);
      }
    }
  }

  /**
   A run that shows the gap, on any new writer: 65535 entries with valid and distinct names, every one
   accepted, the archive finished, and the reader does not open it. With one entry less it does.
   */
  lemma CapacityGap(crc: Crc, w: Writer, n: nat) returns (names: seq<seq<byte>>)
    requires Fresh(w) && Ready(w) && n <= UINT16_MAX
    ensures |names| == n && Short(names) && NamesDistinct(Entries(names))
    ensures Run(crc, w, Calls(names) + [Finish]).1.state == Done
    ensures R.Open(Run(crc, w, Calls(names) + [Finish]).1.data).Success? <==> 0 < n < UINT16_MAX
  {
    names := ManyNames(n);
    ShortArchives(crc, w, names);
  }
}
