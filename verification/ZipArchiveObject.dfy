/** The archive reader as it runs: the backward search, the two passes over the directory, the index. */
module ZipArchiveObject {
  import opened Common
  import opened EntryNames
  import opened ZipErrors
  import opened ZipRecords
  import opened ZipReading
  import opened ZipLookup
  import opened CdEntryMap
  import LittleEndian

  /** A signature can only stand where its first byte is. */
  lemma LowByte(data: seq<byte>, i: nat)
    requires i + 4 <= |data| && U32(data, i) == EOCD_SIGNATURE
    ensures data[i] == 0x50
  {
    var b := data[i..i + 4];
    assert LittleEndian.Decode(b) == b[0] + 256 * LittleEndian.Decode(b[1..]);
  }

  lemma SameBytes(file: seq<byte>, start: nat, i: nat)
    requires start + i + 4 <= |file|
    ensures U32(file[start..], i) == U32(file, start + i)
  {
    assert file[start..][i..i + 4] == file[start + i..start + i + 4];
  }

  /** The loop of `FindCentralDirectoryInfo`: look at a whole signature only where its first byte is. */
  method ScanBackward(file: seq<byte>, start: nat) returns (r: Option<nat>)
    requires start + EOCD_SIZE <= |file|
    ensures r == LastSignature(file, start, |file| - EOCD_SIZE + 1)
  {
    var data := file[start..];
    var i := |data| - EOCD_SIZE;
    while i >= 0
      invariant -1 <= i <= |data| - EOCD_SIZE
      invariant LastSignature(file, start, |file| - EOCD_SIZE + 1) == LastSignature(file, start, start + i + 1)
      decreases i + 1
    {
      SameBytes(file, start, i);
      if U32(data, i) == EOCD_SIGNATURE { LowByte(data, i); }
      if data[i] == 0x50 {
        if U32(data, i) == EOCD_SIGNATURE {
          return Some(start + i);
        }
      }
      i := i - 1;
    }
    r := None;
  }

  method MapCentralDirectory(file: seq<byte>) returns (r: Result<Directory, ZipError>)
    ensures r == MapDirectory(file)
  {
    if |file| > MAX_FILE_LENGTH {
      return Failure(InvalidFile);
    }
    if |file| < EOCD_SIZE {
      return Failure(InvalidFile);
    }
    var end := ScanBackward(file, SearchStart(|file|));
    if end.None? {
      return Failure(InvalidFile);
    }
    r := DirectoryFrom(file, end.value, ReadEocd(file[end.value..end.value + EOCD_SIZE]));
    if r.Success? && r.value.records == 0 {
      r := Failure(EmptyArchive);
    }
  }

  // ---------- the first pass ----------

  /** What was found before `r`, and then `r`. */
  ghost function After(done: seq<nat>, r: Result<seq<nat>, ZipError>): Result<seq<nat>, ZipError> {
    if r.Success? then Success(done + r.value) else r
  }

  lemma AfterNothing(r: Result<seq<nat>, ZipError>)
    ensures After([], r) == r
  {
    if r.Success? { assert [] + r.value == r.value; }
  }

  lemma StartsNext(cd: seq<byte>, cdOffset: nat, pos: nat, n: nat, done: seq<nat>)
    requires n > 0
    ensures CheckRecord(cd, cdOffset, pos).Failure? ==>
      After(done, Starts(cd, cdOffset, pos, n)) == Failure(CheckRecord(cd, cdOffset, pos).error)
    ensures CheckRecord(cd, cdOffset, pos).Success? ==>
      After(done, Starts(cd, cdOffset, pos, n))
        == After(done + [pos], Starts(cd, cdOffset, CheckRecord(cd, cdOffset, pos).value, n - 1))
  {
    if CheckRecord(cd, cdOffset, pos).Success? {
      var rest := Starts(cd, cdOffset, CheckRecord(cd, cdOffset, pos).value, n - 1);
      if rest.Success? {
        assert done + ([pos] + rest.value) == (done + [pos]) + rest.value;
      }
    }
  }

  /** No name of the records at `starts` is longer than `limit`. */
  ghost predicate NamesWithin(cd: seq<byte>, starts: seq<nat>, limit: nat) {
    forall i :: 0 <= i < |starts| ==>
      starts[i] + CDR_SIZE <= |cd| && RecordAt(cd, starts[i]).nameLength <= limit
  }

  lemma WithinPush(cd: seq<byte>, starts: seq<nat>, pos: nat, limit: nat)
    requires NamesWithin(cd, starts, limit) && pos + CDR_SIZE <= |cd| && RecordAt(cd, pos).nameLength <= limit
    ensures NamesWithin(cd, starts + [pos], limit)
  {
  }

  lemma WithinMore(cd: seq<byte>, starts: seq<nat>, limit: nat, more: nat)
    requires NamesWithin(cd, starts, limit) && limit <= more
    ensures NamesWithin(cd, starts, more)
  {
  }

  /** The first loop of `ParseZipArchive`: check every record and find the longest name. */
  method CheckRecords(cd: seq<byte>, cdOffset: nat, n: nat) returns (error: Option<ZipError>, longest: nat)
    ensures error.None? <==> Starts(cd, cdOffset, 0, n).Success?
    ensures error.Some? ==> Starts(cd, cdOffset, 0, n) == Failure(error.value)
    ensures error.None? ==> NamesWithin(cd, Starts(cd, cdOffset, 0, n).value, longest) && longest <= MAX_NAME
  {
    var pos: nat := 0;
    var i: nat := 0;
    longest := 0;
    ghost var done: seq<nat> := [];
    AfterNothing(Starts(cd, cdOffset, 0, n));
    while i < n
      invariant i <= n && longest <= MAX_NAME && NamesWithin(cd, done, longest)
      invariant Starts(cd, cdOffset, 0, n) == After(done, Starts(cd, cdOffset, pos, n - i))
    {
      var next := CheckRecord(cd, cdOffset, pos);
      StartsNext(cd, cdOffset, pos, n - i, done);
      if next.Failure? {
        return Some(next.error), longest;
      }
      var length := RecordAt(cd, pos).nameLength;
      if longest < length {
        WithinMore(cd, done, longest, length);
        longest := length;
      }
      WithinPush(cd, done, pos, longest);
      done := done + [pos];
      pos := next.value;
      i := i + 1;
    }
    error := None;
  }

  // ---------- the second pass ----------

  /** Each record starts where the one before it ends. */
  lemma {:induction false} StartsChain(cd: seq<byte>, cdOffset: nat, pos: nat, n: nat, i: nat)
    requires Starts(cd, cdOffset, pos, n).Success? && i < n
    ensures var s := Starts(cd, cdOffset, pos, n).value;
      && |s| == n && s[0] == pos
      && (i + 1 < n ==> s[i] + CDR_SIZE <= |cd| && s[i + 1] == NextStart(s[i], RecordAt(cd, s[i])))
    decreases n
  {
    var next := CheckRecord(cd, cdOffset, pos).value;
    if n > 1 {
      StartsChain(cd, cdOffset, next, n - 1, if i > 0 then i - 1 else 0);
    } else {
      assert Starts(cd, cdOffset, next, 0) == Success([]);
    }
  }

  /** What both loops below rely on: the first pass succeeded with these starts. */
  ghost predicate Passed1(cd: seq<byte>, cdOffset: nat, n: nat, starts: seq<nat>) {
    Starts(cd, cdOffset, 0, n) == Success(starts) && AllChecked(cd, starts) && |starts| == n
  }

  lemma NextPos(cd: seq<byte>, cdOffset: nat, n: nat, starts: seq<nat>, i: nat, pos: nat)
    requires Passed1(cd, cdOffset, n, starts) && i < n && pos == starts[i]
    ensures Checked(cd, pos)
    ensures i + 1 < n ==> starts[i + 1] == NextStart(pos, RecordAt(cd, pos))
  {
    StartsChain(cd, cdOffset, 0, n, i);
  }

  /** The first `i` names are in `index`; adding the others would yield `goal`. */
  ghost predicate Doing(cd: seq<byte>, starts: seq<nat>, i: nat, index: map<ZipReading.Name, nat>, goal: Indexed) {
    AllChecked(cd, starts) && i <= |starts| && IndexFrom(cd, starts[i..], index) == goal
  }

  type Indexed = Result<map<ZipReading.Name, nat>, ZipError>

  lemma DoingNext(cd: seq<byte>, starts: seq<nat>, i: nat, index: map<ZipReading.Name, nat>, goal: Indexed,
                  at: nat, end: nat)
    requires Doing(cd, starts, i, index, goal) && i < |starts| && at == starts[i] + CDR_SIZE
    requires Checked(cd, starts[i]) && end == at + RecordAt(cd, starts[i]).nameLength
    ensures end <= |cd|
    ensures cd[at..end] in index ==> goal == Failure(DuplicateEntry)
    ensures cd[at..end] !in index ==> Doing(cd, starts, i + 1, index[cd[at..end] := at], goal)
  {
    assert starts[i..][0] == starts[i] && starts[i..][1..] == starts[i + 1..];
    assert Checked(cd, starts[i]);
  }

  lemma DoingEnds(cd: seq<byte>, starts: seq<nat>, index: map<ZipReading.Name, nat>, goal: Indexed)
    requires Doing(cd, starts, |starts|, index, goal)
    ensures goal == Success(index)
  {
    assert starts[|starts|..] == [];
  }

  lemma DoingStarts(cd: seq<byte>, starts: seq<nat>)
    requires AllChecked(cd, starts)
    ensures Doing(cd, starts, 0, map[], IndexFrom(cd, starts, map[]))
  {
    assert starts[0..] == starts;
  }

  /** The name of the record at `pos` fits a slot. */
  ghost predicate RecordFits(cd: seq<byte>, pos: nat, w: Width) {
    pos + CDR_SIZE <= |cd| && FitsSlot(w, pos + CDR_SIZE, RecordAt(cd, pos).nameLength)
  }

  ghost predicate AllFit(cd: seq<byte>, starts: seq<nat>, w: Width) {
    forall i :: 0 <= i < |starts| ==> RecordFits(cd, starts[i], w)
  }

  /** `fits`: the index stands for its entries, and the name fits a slot. */
  method AddName(index: CdEntryMapZip32, cd: seq<byte>, at: nat, length: nat, ghost name: seq<byte>, ghost fits: bool)
    returns (ok: bool)
    requires index.Safe(cd) && index.Used() < index.capacity
    requires 0 < at && at + length <= |cd| && name == cd[at..at + length]
    requires fits ==> index.Valid(cd) && FitsSlot(index.width, at, length)
    modifies index`entries, index.table
    ensures index.Safe(cd) && index.Used() <= old(index.Used()) + 1
    ensures fits ==> index.Valid(cd) && (ok <==> name !in old(index.entries))
    ensures fits && ok ==> index.entries == old(index.entries)[name := at]
  {
    ok := index.Add(at, length, cd);
  }

  /** One turn of the second loop: add the name of the record at `pos`. */
  method AddRecord(index: CdEntryMapZip32, cd: seq<byte>, pos: nat, ghost i: nat,
                   ghost cdOffset: nat, ghost starts: seq<nat>, ghost goal: Indexed, ghost fit: bool)
    returns (ok: bool, next: nat)
    requires Passed1(cd, cdOffset, |starts|, starts) && i < |starts| && pos == starts[i]
    requires index.Safe(cd) && index.Used() < index.capacity
    requires fit ==> index.Valid(cd) && Doing(cd, starts, i, index.entries, goal) && RecordFits(cd, pos, index.width)
    modifies index`entries, index.table
    ensures index.Safe(cd) && index.Used() <= old(index.Used()) + 1
    ensures fit && !ok ==> goal == Failure(DuplicateEntry)
    ensures fit && ok ==> index.Valid(cd) && Doing(cd, starts, i + 1, index.entries, goal)
    ensures i + 1 < |starts| ==> next == starts[i + 1]
  {
    NextPos(cd, cdOffset, |starts|, starts, i, pos);
    var r := RecordAt(cd, pos);
    var at, length: nat := pos + CDR_SIZE, r.nameLength;
    ghost var end: nat := at + length;
    if fit { DoingNext(cd, starts, i, index.entries, goal, at, end); }
    ok := AddName(index, cd, at, length, cd[at..end], fit);
    next := NextStart(pos, r);
  }

  /** The second loop of `ParseZipArchive`, into the hash table; `fit` says that every name fits a slot. */
  method FillTable(index: CdEntryMapZip32, cd: seq<byte>, ghost cdOffset: nat, n: nat,
                   ghost starts: seq<nat>, ghost fit: bool)
    returns (added: bool)
    requires Passed1(cd, cdOffset, n, starts) && (fit ==> AllFit(cd, starts, index.width))
    requires index.Valid(cd) && index.Used() == 0 && index.entries == map[] && index.capacity == n
    modifies index`entries, index.table
    ensures index.Safe(cd)
    ensures fit && added ==> index.Valid(cd) && IndexFrom(cd, starts, map[]) == Success(index.entries)
    ensures fit && !added ==> IndexFrom(cd, starts, map[]) == Failure(DuplicateEntry)
  {
    var pos: nat := 0;
    var i: nat := 0;
    ghost var goal := IndexFrom(cd, starts, map[]);
    DoingStarts(cd, starts);
    FirstPos(cd, cdOffset, n, starts);
    while i < n
      invariant i <= n && index.Safe(cd) && index.Used() <= i && (i < n ==> pos == starts[i])
      invariant fit ==> index.Valid(cd) && Doing(cd, starts, i, index.entries, goal)
    {
      var ok;
      ok, pos := AddRecord(index, cd, pos, i, cdOffset, starts, goal, fit);
      if !ok {
        return false;
      }
      i := i + 1;
    }
    if fit { DoingEnds(cd, starts, index.entries, goal); }
    added := true;
  }

  lemma FirstPos(cd: seq<byte>, cdOffset: nat, n: nat, starts: seq<nat>)
    requires Passed1(cd, cdOffset, n, starts)
    ensures n > 0 ==> starts[0] == 0
  {
    if n > 0 { StartsChain(cd, cdOffset, 0, n, 0); }
  }

  /** The same into the ordered map. */
  method FillMap(index: CdEntryMapZip64, cd: seq<byte>, ghost cdOffset: nat, n: nat, ghost starts: seq<nat>)
    returns (added: bool)
    requires Passed1(cd, cdOffset, n, starts) && index.entries == map[]
    modifies index
    ensures IndexFrom(cd, starts, map[]) == if added then Success(index.entries) else Failure(DuplicateEntry)
  {
    var pos: nat := 0;
    var i: nat := 0;
    ghost var goal := IndexFrom(cd, starts, map[]);
    DoingStarts(cd, starts);
    FirstPos(cd, cdOffset, n, starts);
    while i < n
      invariant i <= n && (i < n ==> pos == starts[i])
      invariant Doing(cd, starts, i, index.entries, goal)
    {
      NextPos(cd, cdOffset, n, starts, i, pos);
      var r := RecordAt(cd, pos);
      var at, length: nat := pos + CDR_SIZE, r.nameLength;
      DoingNext(cd, starts, i, index.entries, goal, at, at + length);
      var ok := index.Add(at, length, cd);
      if !ok {
        return false;
      }
      pos := NextStart(pos, r);
      i := i + 1;
    }
    DoingEnds(cd, starts, index.entries, goal);
    added := true;
  }

  // ---------- the archive ----------

  /** Every name begins in the first 4 GiB of the directory. */
  ghost predicate Near(starts: seq<nat>) { forall i :: 0 <= i < |starts| ==> starts[i] + CDR_SIZE < 0x1_0000_0000 }

  /** The index that is chosen can say where every name is: an ordered map, or 32 bits for each. */
  ghost predicate Indexable(cd: seq<byte>, cdOffset: nat, n: nat) {
    n > UINT16_MAX || (Starts(cd, cdOffset, 0, n).Success? ==> Near(Starts(cd, cdOffset, 0, n).value))
  }

  ghost predicate IndexableFile(file: seq<byte>) {
    match MapDirectory(file)
    case Failure(_) => true
    case Success(d) => Indexable(file[d.offset..d.offset + d.size], d.offset, d.records)
  }

  /** Names in the first 4 GiB are exactly those that fit the slots of the table that is chosen. */
  lemma NearFits(cd: seq<byte>, starts: seq<nat>, longest: nat, w: Width)
    requires NamesWithin(cd, starts, longest) && longest <= MAX_NAME && w == ChosenWidth(|cd|, longest)
    ensures Near(starts) <==> AllFit(cd, starts, w)
  {
    forall i | 0 <= i < |starts|
      ensures RecordFits(cd, starts[i], w) <==> starts[i] + CDR_SIZE < 0x1_0000_0000
    {
      ChosenFits(|cd|, longest, starts[i] + CDR_SIZE, RecordAt(cd, starts[i]).nameLength);
    }
  }

  /** Every record is in the index, with the place of its name. */
  lemma {:induction false} IndexKeeps(cd: seq<byte>, starts: seq<nat>, index: map<ZipReading.Name, nat>,
                                     name: ZipReading.Name)
    requires AllChecked(cd, starts) && name in index && IndexFrom(cd, starts, index).Success?
    ensures name in IndexFrom(cd, starts, index).value && IndexFrom(cd, starts, index).value[name] == index[name]
    decreases |starts|
  {
    if starts != [] {
      IndexKeeps(cd, starts[1..], index[EntryName(cd, starts[0]) := starts[0] + CDR_SIZE], name);
    }
  }

  lemma {:induction false} IndexHas(cd: seq<byte>, starts: seq<nat>, index: map<ZipReading.Name, nat>, i: nat)
    requires AllChecked(cd, starts) && i < |starts| && IndexFrom(cd, starts, index).Success?
    ensures EntryName(cd, starts[i]) in IndexFrom(cd, starts, index).value
    ensures IndexFrom(cd, starts, index).value[EntryName(cd, starts[i])] == starts[i] + CDR_SIZE
    decreases |starts|
  {
    var name := EntryName(cd, starts[0]);
    var more := index[name := starts[0] + CDR_SIZE];
    if i == 0 {
      IndexKeeps(cd, starts[1..], more, name);
    } else {
      IndexHas(cd, starts[1..], more, i - 1);
    }
  }

  /** A table that stands for the whole index can say where every name is. */
  lemma StandingIsNear(t: seq<Slot>, hash: seq<byte> -> nat, cd: seq<byte>, starts: seq<nat>, w: Width)
    requires AllChecked(cd, starts) && IndexFrom(cd, starts, map[]).Success?
    requires TableOk(t, hash, cd, IndexFrom(cd, starts, map[]).value) && Narrow(t, w) && w.offsetLimit <= 0x1_0000_0000
    ensures Near(starts)
  {
    forall i | 0 <= i < |starts|
      ensures starts[i] + CDR_SIZE < 0x1_0000_0000
    {
      IndexHas(cd, starts, map[], i);
      KnownFits(t, hash, cd, IndexFrom(cd, starts, map[]).value, w, EntryName(cd, starts[i]));
    }
  }

  /** A directory of less than 4 GiB is always indexable. */
  lemma ShortIsIndexable(cd: seq<byte>, cdOffset: nat, n: nat)
    requires |cd| < 0x1_0000_0000
    ensures Indexable(cd, cdOffset, n)
  {
    if Starts(cd, cdOffset, 0, n).Success? {
      StartsChecked(cd, cdOffset, 0, n);
      var starts := Starts(cd, cdOffset, 0, n).value;
      forall i | 0 <= i < |starts|
        ensures starts[i] + CDR_SIZE < 0x1_0000_0000
      {
        assert Checked(cd, starts[i]);
      }
    }
  }

  lemma OpenParses(file: seq<byte>, d: Directory, end: nat)
    requires MapDirectory(file) == Success(d) && end == d.offset + d.size
    ensures end <= |file| && |file| >= 4
    ensures Open(file) == ParseDirectory(file, file[d.offset..end], d.offset, d.records)
    ensures IndexableFile(file) <==> Indexable(file[d.offset..end], d.offset, d.records)
  {
  }

  /** The hash table for a directory; it stands for the index if and only if every name is near. */
  method BuildTable(cd: seq<byte>, ghost cdOffset: nat, n: nat, longest: nat, hash: seq<byte> -> nat,
                    ghost starts: seq<nat>, ghost near: bool)
    returns (t: CdEntryMapZip32, added: bool)
    requires n <= UINT16_MAX && longest <= MAX_NAME && near == Near(starts)
    requires Passed1(cd, cdOffset, n, starts) && NamesWithin(cd, starts, longest)
    ensures fresh(t) && fresh(t.table) && t.Safe(cd)
    ensures near && added ==> t.Valid(cd) && IndexFrom(cd, starts, map[]) == Success(t.entries)
    ensures near && !added ==> IndexFrom(cd, starts, map[]) == Failure(DuplicateEntry)
    ensures t.Valid(cd) && IndexFrom(cd, starts, map[]) == Success(t.entries) ==> near
  {
    var w := ChosenWidth(|cd|, longest);
    NearFits(cd, starts, longest, w);
    t := new CdEntryMapZip32(n, w, hash);
    assert t.Valid(cd);
    added := FillTable(t, cd, cdOffset, n, starts, near);
    if t.Valid(cd) && IndexFrom(cd, starts, map[]) == Success(t.entries) {
      StandingIsNear(t.table[..], hash, cd, starts, w);
    }
  }

  class ZipArchive {
    const file: seq<byte>
    const hash: seq<byte> -> nat
    var cd: seq<byte>
    var cdOffset: nat
    var table: CdEntryMapZip32?
    var ordered: CdEntryMapZip64?

    constructor (file: seq<byte>, hash: seq<byte> -> nat)
      ensures this.file == file && this.hash == hash
    {
      this.file, this.hash, cd, cdOffset, table, ordered := file, hash, [], 0, null, null;
    }

    /** The index, whichever it is, stands for `entries`. */
    ghost predicate Indexes(entries: map<seq<byte>, nat>)
      reads this, table, if table == null then {} else {table.table}, ordered
    {
      if table != null then table.Valid(cd) && table.entries == entries
      else ordered != null && ordered.entries == entries
    }

    ghost predicate Represents(o: Opening)
      reads this, table, if table == null then {} else {table.table}, ordered
    {
      cd == o.cd && cdOffset == o.cdOffset && Indexes(o.index)
    }

    /** `CdEntryMapInterface::Create`, and the second pass. */
    method BuildIndex(n: nat, longest: nat, ghost starts: seq<nat>) returns (added: bool)
      requires longest <= MAX_NAME && Passed1(cd, cdOffset, n, starts) && NamesWithin(cd, starts, longest)
      modifies this`table, this`ordered
      ensures n > UINT16_MAX || Near(starts) ==>
        && (added ==> IndexFrom(cd, starts, map[]).Success? && Indexes(IndexFrom(cd, starts, map[]).value))
        && (!added ==> IndexFrom(cd, starts, map[]) == Failure(DuplicateEntry))
      ensures IndexFrom(cd, starts, map[]).Success? && Indexes(IndexFrom(cd, starts, map[]).value) ==>
        n > UINT16_MAX || Near(starts)
    {
      if n > UINT16_MAX {
        var m := new CdEntryMapZip64();
        added := FillMap(m, cd, cdOffset, n, starts);
        table, ordered := null, m;
      } else {
        var t;
        t, added := BuildTable(cd, cdOffset, n, longest, hash, starts, Near(starts));
        table, ordered := t, null;
      }
    }

    /** `ParseZipArchive`: it follows its specification if and only if the index can say where every name is. */
    method ParseZipArchive(n: nat, ghost spec: Result<Opening, ZipError>, ghost indexable: bool)
      returns (error: Option<ZipError>)
      requires |file| >= 4
      requires spec == ParseDirectory(file, cd, cdOffset, n) && indexable == Indexable(cd, cdOffset, n)
      modifies this`table, this`ordered
      ensures indexable ==> Follows(error, spec)
      ensures spec.Success? ==> (Follows(error, spec) <==> indexable)
    {
      var failed, longest := CheckRecords(cd, cdOffset, n);
      if failed.Some? {
        return failed;
      }
      StartsChecked(cd, cdOffset, 0, n);
      var added := BuildIndex(n, longest, Starts(cd, cdOffset, 0, n).value);
      if !added {
        return Some(DuplicateEntry);
      }
      if U32(file, 0) != LFH_SIGNATURE {
        return Some(InvalidFile);
      }
      error := None;
    }

    /** The error is that of the specification, and without one the archive stands for what it yields. */
    ghost predicate Follows(error: Option<ZipError>, spec: Result<Opening, ZipError>)
      reads this, table, if table == null then {} else {table.table}, ordered
    {
      match spec
      case Failure(e) => error == Some(e)
      case Success(o) => error == None && Represents(o)
    }

    /** `OpenArchiveInternal`, for any file. */
    method OpenArchive() returns (error: Option<ZipError>)
      modifies this
      ensures IndexableFile(file) ==> Follows(error, Open(file))
      ensures Open(file).Success? ==> (Follows(error, Open(file)) <==> IndexableFile(file))
    {
      var d := MapCentralDirectory(file);
      if d.Failure? {
        return Some(d.error);
      }
      error := OpenMapped(d.value, Open(file), IndexableFile(file));
    }

    /** The same once the directory is located. */
    method OpenMapped(d: Directory, ghost spec: Result<Opening, ZipError>, ghost indexable: bool)
      returns (error: Option<ZipError>)
      requires MapDirectory(file) == Success(d) && spec == Open(file) && indexable == IndexableFile(file)
      modifies this
      ensures indexable ==> Follows(error, spec)
      ensures spec.Success? ==> (Follows(error, spec) <==> indexable)
    {
      var end: nat := d.offset + d.size;
      OpenParses(file, d, end);
      cd, cdOffset := file[d.offset..end], d.offset;
      error := ParseZipArchive(d.records, spec, indexable);
    }

    /** `FindEntry`. */
    method FindEntry(name: seq<byte>) returns (r: Result<ZipEntry, ZipError>)
      requires Open(file).Success? && Represents(Open(file).value)
      ensures r == Find(file, Open(file).value, name)
    {
      r := FindIn(name, Open(file).value);
    }

    method FindIn(name: seq<byte>, ghost o: Opening) returns (r: Result<ZipEntry, ZipError>)
      requires Represents(o) && IndexOk(o.cd, o.index) && o.cdOffset <= |file|
      ensures r == Find(file, o, name)
    {
      if name == [] || |name| > UINT16_MAX {
        return Failure(InvalidEntryName);
      }
      var at := Lookup(name, o.index);
      if at.None? {
        return Failure(EntryNotFound);
      }
      FindsAt(file, o, name, at.value);
      r := FindAt(file, cd, cdOffset, name, at.value);
    }

    /** `GetCdEntryOffset` of whichever index there is. */
    method Lookup(name: seq<byte>, ghost index: map<Name, nat>) returns (at: Option<nat>)
      requires Indexes(index)
      ensures at == if name in index then Some(index[name]) else None
    {
      if table != null {
        at := table.Get(name, cd);
      } else {
        at := ordered.Get(name, cd);
      }
    }
  }
}
