/** When an archive opens, said without the passes over the directory. */
module ZipOpening {
  import opened Common
  import opened EntryNames
  import opened ZipErrors
  import opened ZipRecords
  import opened Zip64Extra
  import opened ZipReading
  import opened ZipFinding

  // ---------- one record ----------

  /** Where a directory record says that its local header is. */
  ghost predicate OffsetIs(r: CdRecord, extra: seq<byte>, offset: int) {
    if r.headerOffset != 0xffff_ffff then offset == r.headerOffset
    else exists data :: Recorded(extra, data) && OffsetIn(r, data, offset)
  }

  /** The third of three numbers, or the last of those the record asks for. */
  ghost predicate OffsetIn(r: CdRecord, data: seq<byte>, offset: int)
    requires r.headerOffset == 0xffff_ffff
  {
    if |data| == 24 || |data| == 28 then offset == Signed64(Number(data, 2))
    else |data| == 8 * Ones(r) && offset == Signed64(Number(data, Ones(r) - 1))
  }

  lemma OffsetExact(r: CdRecord, extra: seq<byte>, offset: int)
    ensures RecordedOffset(r, extra) == Success(offset) <==> OffsetIs(r, extra, offset)
  {
    if r.headerOffset == 0xffff_ffff {
      OffsetSound(r, extra, offset);
      if data :| Recorded(extra, data) && OffsetIn(r, data, offset) {
        OffsetComplete(r, extra, offset, data);
      }
    }
  }

  lemma OffsetSound(r: CdRecord, extra: seq<byte>, offset: int)
    requires r.headerOffset == 0xffff_ffff
    ensures RecordedOffset(r, extra) == Success(offset) ==>
      exists data :: Recorded(extra, data) && OffsetIn(r, data, offset)
  {
    var want := WantOf(r.uncompressedSize, r.compressedSize, Some(r.headerOffset));
    if RecordedOffset(r, extra) == Success(offset) {
      var info := Walk(extra, 0, want).value;
      WalkExact(extra, want, info);
      CarriedIsRecorded(extra, want, info);
      var data :| Recorded(extra, data) && GoodData(data, want) && info == Fields(data, want);
      OffsetGood(r, data, want, offset);
    }
  }

  lemma OffsetGood(r: CdRecord, data: seq<byte>, want: Want, offset: int)
    requires r.headerOffset == 0xffff_ffff && want == WantOf(r.uncompressedSize, r.compressedSize, Some(r.headerOffset))
    ensures OffsetIn(r, data, offset)
       <==> GoodData(data, want) && Fields(data, want).headerOffset.Some?
            && offset == Signed64(Fields(data, want).headerOffset.value)
  {
  }

  lemma OffsetComplete(r: CdRecord, extra: seq<byte>, offset: int, data: seq<byte>)
    requires r.headerOffset == 0xffff_ffff && Recorded(extra, data) && OffsetIn(r, data, offset)
    ensures RecordedOffset(r, extra) == Success(offset)
  {
    var want := WantOf(r.uncompressedSize, r.compressedSize, Some(r.headerOffset));
    OffsetGood(r, data, want, offset);
    CarriedIsRecorded(extra, want, Fields(data, want));
    WalkExact(extra, want, Fields(data, want));
  }

  ghost predicate InFront(r: CdRecord, extra: seq<byte>, cdOffset: nat) {
    exists offset :: OffsetIs(r, extra, offset) && offset < cdOffset
  }

  lemma InFrontExact(r: CdRecord, extra: seq<byte>, cdOffset: nat)
    ensures RecordedOffset(r, extra).Success? && RecordedOffset(r, extra).value < cdOffset
       <==> InFront(r, extra, cdOffset)
  {
    if RecordedOffset(r, extra).Success? {
      OffsetExact(r, extra, RecordedOffset(r, extra).value);
    }
    if offset :| OffsetIs(r, extra, offset) && offset < cdOffset {
      OffsetExact(r, extra, offset);
    }
  }

  /** The record `r` at `pos`: its parts lie in the directory, its name is valid, its header in front. */
  ghost predicate Sound(cd: seq<byte>, cdOffset: nat, pos: nat, r: CdRecord) {
    var extra := pos + 46 + r.nameLength;
    && r.signature == 0x02014b50 && extra + r.extraLength + r.commentLength <= |cd|
    && ValidName(cd[pos + 46..extra]) && InFront(r, cd[extra..extra + r.extraLength], cdOffset)
  }

  lemma FieldsExact(cd: seq<byte>, cdOffset: nat, pos: nat, r: CdRecord, next: nat)
    requires pos + 46 <= |cd|
    ensures CheckFields(cd, cdOffset, pos, r) == Success(next)
       <==> Sound(cd, cdOffset, pos, r) && next == pos + 46 + r.nameLength + r.extraLength + r.commentLength
  {
    var extra := pos + 46 + r.nameLength;
    if extra + r.extraLength <= |cd| {
      InFrontExact(r, cd[extra..extra + r.extraLength], cdOffset);
    }
  }

  /** The code of a record that fails, by the first thing that is wrong with it. */
  lemma FieldsCodes(cd: seq<byte>, cdOffset: nat, pos: nat, r: CdRecord)
    requires pos + 46 <= |cd|
    ensures var result := CheckFields(cd, cdOffset, pos, r);
      var extra := pos + 46 + r.nameLength;
      && (r.signature != 0x02014b50 ==> result == Failure(InvalidFile))
      && (r.signature == 0x02014b50 && extra > |cd| ==> result == Failure(InvalidEntryName))
      && (r.signature == 0x02014b50 && extra <= |cd| < extra + r.extraLength ==> result == Failure(InvalidFile))
      && (r.signature == 0x02014b50 && extra + r.extraLength <= |cd| ==>
          var field := cd[extra..extra + r.extraLength];
          && ((exists h :: OffsetIs(r, field, h)) && !InFront(r, field, cdOffset) ==> result == Failure(InvalidFile))
          && (InFront(r, field, cdOffset) && !ValidName(cd[pos + 46..extra]) ==> result == Failure(InvalidEntryName))
          && (InFront(r, field, cdOffset) && ValidName(cd[pos + 46..extra]) && NextStart(pos, r) > |cd| ==>
              result == Failure(InvalidFile)))
  {
    var extra := pos + 46 + r.nameLength;
    if extra + r.extraLength <= |cd| {
      var field := cd[extra..extra + r.extraLength];
      InFrontExact(r, field, cdOffset);
      if h :| OffsetIs(r, field, h) {
        OffsetExact(r, field, h);
      }
    }
  }

  // ---------- all records ----------

  ghost predicate SoundAt(cd: seq<byte>, cdOffset: nat, pos: nat) {
    pos + 46 <= |cd| && Sound(cd, cdOffset, pos, RecordAt(cd, pos))
  }

  /** Sound records stand at `starts`, one right behind the other, the first at `pos`. */
  ghost predicate Chain(cd: seq<byte>, cdOffset: nat, pos: nat, starts: seq<nat>) {
    && (starts != [] ==> starts[0] == pos)
    && (forall i :: 0 <= i < |starts| ==> SoundAt(cd, cdOffset, starts[i]))
    && (forall i :: 0 < i < |starts| ==> starts[i] == NextStart(starts[i - 1], RecordAt(cd, starts[i - 1])))
  }

  lemma RecordExact(cd: seq<byte>, cdOffset: nat, pos: nat, next: nat)
    ensures CheckRecord(cd, cdOffset, pos) == Success(next)
       <==> SoundAt(cd, cdOffset, pos) && next == NextStart(pos, RecordAt(cd, pos))
  {
    if pos + 46 <= |cd| {
      FieldsExact(cd, cdOffset, pos, RecordAt(cd, pos), next);
    }
  }

  lemma {:induction false} StartsSound(cd: seq<byte>, cdOffset: nat, pos: nat, n: nat, starts: seq<nat>)
    requires Starts(cd, cdOffset, pos, n) == Success(starts)
    ensures |starts| == n && Chain(cd, cdOffset, pos, starts)
    decreases n
  {
    if n > 0 {
      var next := CheckRecord(cd, cdOffset, pos).value;
      RecordExact(cd, cdOffset, pos, next);
      var rest := Starts(cd, cdOffset, next, n - 1).value;
      assert starts == [pos] + rest && starts[1..] == rest;
      StartsSound(cd, cdOffset, next, n - 1, rest);
      ChainStep(cd, cdOffset, pos, starts, next);
    }
  }

  lemma {:induction false} StartsComplete(cd: seq<byte>, cdOffset: nat, pos: nat, n: nat, starts: seq<nat>)
    requires n == |starts| && Chain(cd, cdOffset, pos, starts)
    ensures Starts(cd, cdOffset, pos, n) == Success(starts)
    decreases n
  {
    if n > 0 {
      assert SoundAt(cd, cdOffset, starts[0]);
      var next := NextStart(pos, RecordAt(cd, pos));
      RecordExact(cd, cdOffset, pos, next);
      ChainStep(cd, cdOffset, pos, starts, next);
      StartsComplete(cd, cdOffset, next, n - 1, starts[1..]);
      assert starts == [pos] + starts[1..];
    }
  }

  /** The first pass yields exactly the chain of sound records. */
  lemma {:induction false} StartsExact(cd: seq<byte>, cdOffset: nat, pos: nat, n: nat, starts: seq<nat>)
    ensures Starts(cd, cdOffset, pos, n) == Success(starts) <==> |starts| == n && Chain(cd, cdOffset, pos, starts)
  {
    if Starts(cd, cdOffset, pos, n) == Success(starts) {
      StartsSound(cd, cdOffset, pos, n, starts);
    }
    if |starts| == n && Chain(cd, cdOffset, pos, starts) {
      StartsComplete(cd, cdOffset, pos, n, starts);
    }
  }

  lemma ChainStep(cd: seq<byte>, cdOffset: nat, pos: nat, starts: seq<nat>, next: nat)
    requires starts != [] && SoundAt(cd, cdOffset, pos) && next == NextStart(pos, RecordAt(cd, pos))
    ensures Chain(cd, cdOffset, pos, starts) <==> starts[0] == pos && Chain(cd, cdOffset, next, starts[1..])
  {
  }

  // ---------- the index ----------

  /** The names of the records differ from each other. */
  ghost predicate Apart(cd: seq<byte>, starts: seq<nat>)
    requires AllChecked(cd, starts)
  {
    forall i, j :: 0 <= i < j < |starts| ==> EntryName(cd, starts[i]) != EntryName(cd, starts[j])
  }

  ghost predicate NameOfOne(cd: seq<byte>, starts: seq<nat>, name: Name)
    requires AllChecked(cd, starts)
  {
    exists i :: 0 <= i < |starts| && EntryName(cd, starts[i]) == name
  }

  /** The index has exactly the names of the records, besides those of `have`, and says where they are. */
  ghost predicate Indexes(cd: seq<byte>, starts: seq<nat>, have: map<Name, nat>, index: map<Name, nat>)
    requires AllChecked(cd, starts)
  {
    && (forall name :: name in index <==> name in have || NameOfOne(cd, starts, name))
    && (forall i :: 0 <= i < |starts| ==>
          var name := EntryName(cd, starts[i]);
          name in index && index[name] == starts[i] + 46)
    && (forall name :: name in have && !NameOfOne(cd, starts, name) && name in index ==> index[name] == have[name])
  }

  ghost predicate Fresh(cd: seq<byte>, starts: seq<nat>, have: map<Name, nat>)
    requires AllChecked(cd, starts)
  {
    forall i :: 0 <= i < |starts| ==> EntryName(cd, starts[i]) !in have
  }

  /** The second pass yields the index, or reports a name that is there twice. */
  lemma {:induction false} IndexExact(cd: seq<byte>, starts: seq<nat>, have: map<Name, nat>)
    requires AllChecked(cd, starts)
    ensures var r := IndexFrom(cd, starts, have);
      && (r.Success? <==> Apart(cd, starts) && Fresh(cd, starts, have))
      && (r.Success? ==> Indexes(cd, starts, have, r.value))
      && (r.Failure? ==> r.error == DuplicateEntry)
    decreases |starts|
  {
    if starts != [] {
      var name, rest := EntryName(cd, starts[0]), starts[1..];
      var more := have[name := starts[0] + 46];
      if name !in have {
        IndexExact(cd, rest, more);
        ApartStep(cd, starts, have, name, more);
        if IndexFrom(cd, rest, more).Success? {
          IndexesStep(cd, starts, have, name, more, IndexFrom(cd, rest, more).value);
        }
      }
    }
  }

  lemma ApartStep(cd: seq<byte>, starts: seq<nat>, have: map<Name, nat>, name: Name, more: map<Name, nat>)
    requires AllChecked(cd, starts) && starts != [] && name == EntryName(cd, starts[0]) && name !in have
    requires more == have[name := starts[0] + 46]
    ensures Apart(cd, starts) && Fresh(cd, starts, have) <==> Apart(cd, starts[1..]) && Fresh(cd, starts[1..], more)
  {
    var rest := starts[1..];
    if Apart(cd, rest) && Fresh(cd, rest, more) {
      forall i, j | 0 <= i < j < |starts|
        ensures EntryName(cd, starts[i]) != EntryName(cd, starts[j])
      {
        assert EntryName(cd, rest[j - 1]) == EntryName(cd, starts[j]);
        if i > 0 {
          assert EntryName(cd, rest[i - 1]) == EntryName(cd, starts[i]);
        }
      }
      forall i | 0 <= i < |starts|
        ensures EntryName(cd, starts[i]) !in have
      {
        if i > 0 {
          assert EntryName(cd, rest[i - 1]) == EntryName(cd, starts[i]);
        }
      }
    }
  }

  lemma OneOfRest(cd: seq<byte>, starts: seq<nat>, name: Name)
    requires AllChecked(cd, starts) && starts != []
    ensures NameOfOne(cd, starts, name) <==> name == EntryName(cd, starts[0]) || NameOfOne(cd, starts[1..], name)
  {
    if i :| 0 <= i < |starts[1..]| && EntryName(cd, starts[1..][i]) == name {
      assert EntryName(cd, starts[i + 1]) == name;
    }
    if i :| 0 <= i < |starts| && EntryName(cd, starts[i]) == name {
      if i > 0 {
        assert EntryName(cd, starts[1..][i - 1]) == name;
      }
    }
  }

  lemma IndexesStep(cd: seq<byte>, starts: seq<nat>, have: map<Name, nat>, name: Name, more: map<Name, nat>,
                    index: map<Name, nat>)
    requires AllChecked(cd, starts) && starts != [] && name == EntryName(cd, starts[0]) && name !in have
    requires more == have[name := starts[0] + 46] && Apart(cd, starts) && Indexes(cd, starts[1..], more, index)
    ensures Indexes(cd, starts, have, index)
  {
    forall n: Name
      ensures NameOfOne(cd, starts, n) <==> n == name || NameOfOne(cd, starts[1..], n)
    {
      OneOfRest(cd, starts, n);
    }
    forall i | 0 <= i < |starts|
      ensures EntryName(cd, starts[i]) in index && index[EntryName(cd, starts[i])] == starts[i] + 46
    {
      if i > 0 {
        assert EntryName(cd, starts[1..][i - 1]) == EntryName(cd, starts[i]);
      } else {
        assert !NameOfOne(cd, starts[1..], name);
      }
    }
  }

  // ---------- the archive ----------

  lemma ChainChecked(cd: seq<byte>, cdOffset: nat, pos: nat, starts: seq<nat>)
    requires Chain(cd, cdOffset, pos, starts)
    ensures AllChecked(cd, starts)
  {
    forall i | 0 <= i < |starts|
      ensures Checked(cd, starts[i])
    {
      assert SoundAt(cd, cdOffset, starts[i]);
    }
  }

  /** The directory `cd` has `records` sound records with different names, and `index` says where they are. */
  ghost predicate Listed(cd: seq<byte>, cdOffset: nat, records: nat, starts: seq<nat>, index: map<Name, nat>) {
    && |starts| == records && Chain(cd, cdOffset, 0, starts)
    && AllChecked(cd, starts) && Apart(cd, starts) && Indexes(cd, starts, map[], index)
  }

  /**
   Any file whose directory is found at `d` opens as `o` if and only if the directory is a chain of
   sound records with different names, `o` indexes exactly these, and the file begins with a local
   header.
   */
  lemma OpenExact(file: seq<byte>, d: Directory, o: Opening, cd: seq<byte>)
    requires MapDirectory(file) == Success(d) && |file| >= 4
    requires d.offset + d.size <= |file| && cd == file[d.offset..d.offset + d.size]
    ensures Open(file) == Success(o)
       <==> && o.cd == cd && o.cdOffset == d.offset && U32(file, 0) == 0x04034b50
            && exists starts :: Listed(cd, d.offset, d.records, starts, o.index)
  {
    OpenIsParse(file, d);
    ParseExact(file, cd, d.offset, d.records, o);
  }

  lemma OpenIsParse(file: seq<byte>, d: Directory)
    requires MapDirectory(file) == Success(d)
    ensures |file| >= 4 && d.offset + d.size <= |file|
    ensures Open(file) == ParseDirectory(file, file[d.offset..d.offset + d.size], d.offset, d.records)
  {
  }

  lemma ParseExact(file: seq<byte>, cd: seq<byte>, cdOffset: nat, records: nat, o: Opening)
    requires |file| >= 4
    ensures ParseDirectory(file, cd, cdOffset, records) == Success(o)
       <==> && o.cd == cd && o.cdOffset == cdOffset && U32(file, 0) == 0x04034b50
            && exists starts :: Listed(cd, cdOffset, records, starts, o.index)
  {
    var first := Starts(cd, cdOffset, 0, records);
    if first.Success? {
      StartsExact(cd, cdOffset, 0, records, first.value);
      ChainChecked(cd, cdOffset, 0, first.value);
      IndexExact(cd, first.value, map[]);
      if ParseDirectory(file, cd, cdOffset, records) == Success(o) {
        assert Listed(cd, cdOffset, records, first.value, o.index);
      }
    }
    if starts :| Listed(cd, cdOffset, records, starts, o.index) {
      StartsExact(cd, cdOffset, 0, records, starts);
      SameIndex(cd, starts, IndexFrom(cd, starts, map[]).value, o.index);
    }
  }

  lemma SameIndex(cd: seq<byte>, starts: seq<nat>, a: map<Name, nat>, b: map<Name, nat>)
    requires AllChecked(cd, starts) && Indexes(cd, starts, map[], a) && Indexes(cd, starts, map[], b)
    ensures a == b
  {
    forall name | name in a
      ensures name in b && a[name] == b[name]
    {
      var i :| 0 <= i < |starts| && EntryName(cd, starts[i]) == name;
    }
    assert a.Keys == b.Keys;
  }
}
