/**
 The hash table and the ordered map are two implementations of one interface: driven with the same
 names they give the same verdicts and the same answers, those of the first entry with each name, if
 and only if every such entry fits a slot of the table.
 */
module CdEntryAgreement {
  import opened Common
  import opened CdEntryMap

  /** Where a name lies in the central directory. */
  datatype Span = Span(offset: nat, length: nat)

  ghost predicate Inside(cd: seq<byte>, span: Span) { 0 < span.offset && span.offset + span.length <= |cd| }

  ghost predicate AllInside(cd: seq<byte>, spans: seq<Span>) { forall i :: 0 <= i < |spans| ==> Inside(cd, spans[i]) }

  function Spelled(cd: seq<byte>, span: Span): Name
    requires Inside(cd, span)
  {
    cd[span.offset..span.offset + span.length]
  }

  /** No span in front of the `i`-th one spells the same name. */
  ghost predicate IsNew(cd: seq<byte>, spans: seq<Span>, i: nat)
    requires i < |spans| && AllInside(cd, spans)
  {
    forall j :: 0 <= j < i ==> Spelled(cd, spans[j]) != Spelled(cd, spans[i])
  }

  /** One of the first `n` spans spells `name`. */
  ghost predicate Occurs(cd: seq<byte>, spans: seq<Span>, n: nat, name: Name)
    requires n <= |spans| && AllInside(cd, spans)
  {
    exists i :: 0 <= i < n && Spelled(cd, spans[i]) == name
  }

  lemma OccursOneMore(cd: seq<byte>, spans: seq<Span>, n: nat, m: nat, name: Name)
    requires m == n + 1 <= |spans| && AllInside(cd, spans)
    ensures Occurs(cd, spans, m, name) <==> Occurs(cd, spans, n, name) || name == Spelled(cd, spans[n])
  {
    if Occurs(cd, spans, n, name) {
      var i :| 0 <= i < n && Spelled(cd, spans[i]) == name;
    }
    assert Spelled(cd, spans[n]) == name ==> Occurs(cd, spans, m, name);
  }

  lemma NewOrOccurs(cd: seq<byte>, spans: seq<Span>, n: nat)
    requires n < |spans| && AllInside(cd, spans)
    ensures IsNew(cd, spans, n) <==> !Occurs(cd, spans, n, Spelled(cd, spans[n]))
  {
  }

  /** A name that is already in the index is refused. */
  ghost function Grown(entries: map<Name, nat>, cd: seq<byte>, span: Span): map<Name, nat>
    requires Inside(cd, span)
  {
    if Spelled(cd, span) in entries then entries else entries[Spelled(cd, span) := span.offset]
  }

  /** The index after the first `n` spans. */
  ghost function Index(cd: seq<byte>, spans: seq<Span>, n: nat): map<Name, nat>
    requires n <= |spans| && AllInside(cd, spans)
  {
    if n == 0 then map[] else Grown(Index(cd, spans, n - 1), cd, spans[n - 1])
  }

  ghost predicate Accepted(cd: seq<byte>, spans: seq<Span>, i: nat)
    requires i < |spans| && AllInside(cd, spans)
  {
    Spelled(cd, spans[i]) !in Index(cd, spans, i)
  }

  lemma {:induction false} IndexHolds(cd: seq<byte>, spans: seq<Span>, n: nat, name: Name)
    requires n <= |spans| && AllInside(cd, spans)
    ensures name in Index(cd, spans, n) <==> Occurs(cd, spans, n, name)
  {
    if n > 0 {
      IndexHolds(cd, spans, n - 1, name);
      OccursOneMore(cd, spans, n - 1, n, name);
    }
  }

  lemma AcceptedIsNew(cd: seq<byte>, spans: seq<Span>, i: nat)
    requires i < |spans| && AllInside(cd, spans)
    ensures Accepted(cd, spans, i) <==> IsNew(cd, spans, i)
  {
    IndexHolds(cd, spans, i, Spelled(cd, spans[i]));
    NewOrOccurs(cd, spans, i);
  }

  lemma {:induction false} IndexIsFirst(cd: seq<byte>, spans: seq<Span>, n: nat, i: nat)
    requires i < n <= |spans| && AllInside(cd, spans) && IsNew(cd, spans, i)
    ensures Spelled(cd, spans[i]) in Index(cd, spans, n)
    ensures Index(cd, spans, n)[Spelled(cd, spans[i])] == spans[i].offset
  {
    if i + 1 < n {
      IndexIsFirst(cd, spans, n - 1, i);
    } else {
      AcceptedIsNew(cd, spans, i);
    }
  }

  /** A slot of the table can say where the span is. */
  predicate Fits(span: Span, width: Width) { FitsSlot(width, span.offset, span.length) }

  /** Each of the first `n` spans that is added to the index fits a slot. */
  ghost predicate AcceptedFit(cd: seq<byte>, spans: seq<Span>, n: nat, width: Width)
    requires n <= |spans| && AllInside(cd, spans)
  {
    forall i :: 0 <= i < n && Accepted(cd, spans, i) ==> Fits(spans[i], width)
  }

  /** The first span with each name fits a slot. */
  ghost predicate NewFit(cd: seq<byte>, spans: seq<Span>, width: Width)
    requires AllInside(cd, spans)
  {
    forall i :: 0 <= i < |spans| && IsNew(cd, spans, i) ==> Fits(spans[i], width)
  }

  lemma NewFitIsAcceptedFit(cd: seq<byte>, spans: seq<Span>, width: Width)
    requires AllInside(cd, spans)
    ensures NewFit(cd, spans, width) <==> AcceptedFit(cd, spans, |spans|, width)
  {
    forall i | 0 <= i < |spans|
      ensures Accepted(cd, spans, i) <==> IsNew(cd, spans, i)
    {
      AcceptedIsNew(cd, spans, i);
    }
  }

  /** Every name of the spans is asked for. */
  ghost predicate AsksAll(cd: seq<byte>, spans: seq<Span>, names: seq<Name>)
    requires AllInside(cd, spans)
  {
    forall i :: 0 <= i < |spans| ==> Spelled(cd, spans[i]) in names
  }

  /**
   Both indexes are filled with the same spans and asked for the same names. The ordered map accepts a
   name exactly when it is new, and finds exactly the first span with each name. The hash table does
   the same if the first span with each name fits a slot; a name that does not fit is not found where
   it is, so on all the names the answers agree if and only if every one fits.
   */
  method DriveBoth(cd: seq<byte>, spans: seq<Span>, names: seq<Name>, width: Width, hash: Name -> nat)
    returns (tableAdds: seq<bool>, mapAdds: seq<bool>, tableFinds: seq<Option<nat>>, mapFinds: seq<Option<nat>>)
    requires AllInside(cd, spans) && |spans| < 0x1_0000
    ensures |mapAdds| == |spans| && forall i :: 0 <= i < |spans| ==> (mapAdds[i] <==> IsNew(cd, spans, i))
    ensures |mapFinds| == |names| && forall k :: 0 <= k < |names| ==> Finds(cd, spans, names[k], mapFinds[k])
    ensures NewFit(cd, spans, width) ==> tableAdds == mapAdds && tableFinds == mapFinds
    ensures AsksAll(cd, spans, names) ==> (tableFinds == mapFinds <==> NewFit(cd, spans, width))
  {
    var table := new CdEntryMapZip32(|spans|, width, hash);
    var ordered := new CdEntryMapZip64();
    NewFitIsAcceptedFit(cd, spans, width);
    tableAdds, mapAdds := AddToBoth(table, ordered, cd, spans);
    forall i | 0 <= i < |spans|
      ensures mapAdds[i] <==> IsNew(cd, spans, i)
    {
      AcceptedIsNew(cd, spans, i);
    }
    tableFinds, mapFinds := AskBoth(table, ordered, cd, names);
    forall k | 0 <= k < |names|
      ensures Finds(cd, spans, names[k], mapFinds[k])
    {
      FindsFirst(cd, spans, names[k]);
    }
    if AsksAll(cd, spans, names) && tableFinds == mapFinds {
      AgreementFits(cd, spans, names, width, mapFinds);
    }
  }

  /** If the map finds nothing that does not fit a slot, every first span fits. */
  lemma AgreementFits(cd: seq<byte>, spans: seq<Span>, names: seq<Name>, width: Width, finds: seq<Option<nat>>)
    requires AllInside(cd, spans) && AsksAll(cd, spans, names) && |finds| == |names|
    requires forall k :: 0 <= k < |names| ==> finds[k] == Looked(Index(cd, spans, |spans|), names[k])
    requires AllNarrow(names, finds, width)
    ensures NewFit(cd, spans, width)
  {
    forall i | 0 <= i < |spans| && IsNew(cd, spans, i)
      ensures Fits(spans[i], width)
    {
      IndexIsFirst(cd, spans, |spans|, i);
      var k :| 0 <= k < |names| && names[k] == Spelled(cd, spans[i]);
      assert finds[k] == Some(spans[i].offset);
    }
  }

  /** Every answer is a value that a slot can hold. */
  ghost predicate AllNarrow(names: seq<Name>, finds: seq<Option<nat>>, width: Width) {
    |finds| == |names| && forall k :: 0 <= k < |names| && finds[k].Some? ==> FitsSlot(width, finds[k].value, |names[k]|)
  }

  method AddOne(table: CdEntryMapZip32, ordered: CdEntryMapZip64, cd: seq<byte>, span: Span)
    returns (added: bool, inserted: bool)
    requires table.Safe(cd) && table.Used() < table.capacity && Inside(cd, span)
    modifies table`entries, table.table, ordered
    ensures table.Safe(cd) && table.Used() <= old(table.Used()) + 1
    ensures ordered.entries == Grown(old(ordered.entries), cd, span)
    ensures inserted == (Spelled(cd, span) !in old(ordered.entries))
    ensures old(table.Valid(cd) && table.entries == ordered.entries) && (inserted ==> Fits(span, table.width)) ==>
      added == inserted && table.Valid(cd) && table.entries == ordered.entries
  {
    added := table.Add(span.offset, span.length, cd);
    inserted := ordered.Add(span.offset, span.length, cd);
  }

  lemma IndexStep(cd: seq<byte>, spans: seq<Span>, width: Width, i: nat, m: nat, entries: map<Name, nat>, span: Span)
    requires AllInside(cd, spans) && m == i + 1 <= |spans| && span == spans[i] && entries == Index(cd, spans, i)
    ensures Inside(cd, span) && Index(cd, spans, m) == Grown(entries, cd, span)
    ensures Spelled(cd, span) !in entries <==> Accepted(cd, spans, i)
    ensures AcceptedFit(cd, spans, m, width) <==>
      AcceptedFit(cd, spans, i, width) && (Spelled(cd, span) !in entries ==> Fits(span, width))
  {
  }

  /** A table that stands for the index holds only what fits. */
  lemma StandingFits(t: seq<Slot>, hash: Name -> nat, cd: seq<byte>, spans: seq<Span>, width: Width)
    requires AllInside(cd, spans) && TableOk(t, hash, cd, Index(cd, spans, |spans|)) && Narrow(t, width)
    ensures AcceptedFit(cd, spans, |spans|, width)
  {
    forall i | 0 <= i < |spans| && Accepted(cd, spans, i)
      ensures Fits(spans[i], width)
    {
      AcceptedIsNew(cd, spans, i);
      IndexIsFirst(cd, spans, |spans|, i);
      KnownFits(t, hash, cd, Index(cd, spans, |spans|), width, Spelled(cd, spans[i]));
    }
  }

  /** The table stands for the same entries as the ordered map if and only if everything added fits a slot. */
  method AddToBoth(table: CdEntryMapZip32, ordered: CdEntryMapZip64, cd: seq<byte>, spans: seq<Span>)
    returns (tableAdds: seq<bool>, mapAdds: seq<bool>)
    requires AllInside(cd, spans) && |spans| <= table.capacity
    requires table.Valid(cd) && table.Used() == 0 && table.entries == map[] == ordered.entries
    modifies table`entries, table.table, ordered
    ensures table.Safe(cd) && ordered.entries == Index(cd, spans, |spans|)
    ensures Verdicts(mapAdds, cd, spans, |spans|)
    ensures AcceptedFit(cd, spans, |spans|, table.width) ==> tableAdds == mapAdds
    ensures table.Valid(cd) && table.entries == ordered.entries <==> AcceptedFit(cd, spans, |spans|, table.width)
  {
    tableAdds, mapAdds := [], [];
    ghost var entries, fit := map[], true;
    for i := 0 to |spans|
      invariant table.Safe(cd) && table.Used() <= i && ordered.entries == entries
      invariant entries == Index(cd, spans, i) && fit == AcceptedFit(cd, spans, i, table.width)
      invariant fit ==> table.Valid(cd) && table.entries == entries && tableAdds == mapAdds
      invariant Verdicts(mapAdds, cd, spans, i)
    {
      IndexStep(cd, spans, table.width, i, i + 1, entries, spans[i]);
      var added, inserted := AddOne(table, ordered, cd, spans[i]);
      fit := fit && (inserted ==> Fits(spans[i], table.width));
      entries := Grown(entries, cd, spans[i]);
      VerdictsOneMore(mapAdds, inserted, cd, spans, i, i + 1);
      tableAdds, mapAdds := tableAdds + [added], mapAdds + [inserted];
    }
    if table.Valid(cd) && table.entries == ordered.entries {
      StandingFits(table.table[..], table.hash, cd, spans, table.width);
    }
  }

  ghost predicate Verdicts(adds: seq<bool>, cd: seq<byte>, spans: seq<Span>, n: nat)
    requires n <= |spans| && AllInside(cd, spans)
  {
    |adds| == n && forall i :: 0 <= i < n ==> adds[i] == Accepted(cd, spans, i)
  }

  lemma VerdictsOneMore(adds: seq<bool>, added: bool, cd: seq<byte>, spans: seq<Span>, i: nat, m: nat)
    requires m == i + 1 <= |spans| && AllInside(cd, spans)
    requires Verdicts(adds, cd, spans, i) && added == Accepted(cd, spans, i)
    ensures Verdicts(adds + [added], cd, spans, m)
  {
  }

  method AskBoth(table: CdEntryMapZip32, ordered: CdEntryMapZip64, cd: seq<byte>, names: seq<Name>)
    returns (tableFinds: seq<Option<nat>>, mapFinds: seq<Option<nat>>)
    requires table.Safe(cd)
    ensures |mapFinds| == |names|
    ensures forall k :: 0 <= k < |names| ==> mapFinds[k] == Looked(ordered.entries, names[k])
    ensures AllNarrow(names, tableFinds, table.width)
    ensures table.Valid(cd) && table.entries == ordered.entries ==> tableFinds == mapFinds
  {
    tableFinds, mapFinds := [], [];
    ghost var agree := table.Valid(cd) && table.entries == ordered.entries;
    for k := 0 to |names|
      invariant |mapFinds| == k && AllNarrow(names[..k], tableFinds, table.width)
      invariant forall j :: 0 <= j < k ==> mapFinds[j] == Looked(ordered.entries, names[j])
      invariant agree ==> tableFinds == mapFinds
    {
      var found := table.Get(names[k], cd);
      var looked := ordered.Get(names[k], cd);
      tableFinds, mapFinds := tableFinds + [found], mapFinds + [looked];
    }
    assert names[..|names|] == names;
  }

  ghost function Looked(entries: map<Name, nat>, name: Name): Option<nat> {
    if name in entries then Some(entries[name]) else None
  }

  /** `answer` is the place of the first span that spells `name`, or nothing when no span does. */
  ghost predicate Finds(cd: seq<byte>, spans: seq<Span>, name: Name, answer: Option<nat>)
    requires AllInside(cd, spans)
  {
    match answer
    case None => forall i :: 0 <= i < |spans| ==> Spelled(cd, spans[i]) != name
    case Some(offset) =>
      exists i :: 0 <= i < |spans| && IsNew(cd, spans, i) && Spelled(cd, spans[i]) == name && spans[i].offset == offset
  }

  lemma {:induction false} First(cd: seq<byte>, spans: seq<Span>, i: nat) returns (f: nat)
    requires i < |spans| && AllInside(cd, spans)
    ensures f <= i && IsNew(cd, spans, f) && Spelled(cd, spans[f]) == Spelled(cd, spans[i])
  {
    f := i;
    if !IsNew(cd, spans, i) {
      var j :| 0 <= j < i && Spelled(cd, spans[j]) == Spelled(cd, spans[i]);
      f := First(cd, spans, j);
    }
  }

  lemma FindsFirst(cd: seq<byte>, spans: seq<Span>, name: Name)
    requires AllInside(cd, spans)
    ensures Finds(cd, spans, name, Looked(Index(cd, spans, |spans|), name))
  {
    IndexHolds(cd, spans, |spans|, name);
    if name in Index(cd, spans, |spans|) {
      var i :| 0 <= i < |spans| && Spelled(cd, spans[i]) == name;
      var f := First(cd, spans, i);
      IndexIsFirst(cd, spans, |spans|, f);
    }
  }

  /**
   A directory with a name that begins exactly 4 GiB into it: the table takes the name, stores an
   empty slot and does not find it again; the ordered map does.
   */
  method FarNameIsLost(cd: seq<byte>, length: nat, hash: Name -> nat)
    returns (added: bool, found: Option<nat>, inserted: bool, looked: Option<nat>)
    requires 0x1_0000_0000 + length <= |cd| && length < 0x1_0000
    ensures added && found == None && inserted && looked == Some(0x1_0000_0000)
  {
    var table := new CdEntryMapZip32(1, WIDE, hash);
    assert table.Valid(cd);
    var ordered := new CdEntryMapZip64();
    var offset: nat := 0x1_0000_0000;
    var name := cd[offset..offset + length];
    ghost var before := table.table[..];
    NoneUsed(before);
    added := table.Add(offset, length, cd);
    assert Packed(WIDE, offset, length).offset == 0;
    found := table.Get(name, cd);
    inserted := ordered.Add(offset, length, cd);
    looked := ordered.Get(name, cd);
  }

  lemma NoneUsed(t: seq<Slot>)
    requires |UsedSlots(t)| == 0
    ensures forall e :: 0 <= e < |t| ==> t[e].offset == 0
  {
    forall e | 0 <= e < |t|
      ensures t[e].offset == 0
    {
      assert e !in UsedSlots(t);
    }
  }
}
