/**
 The index from entry names to their place in the central directory: an open-addressing hash table
 (`CdEntryMapZip32`, in two slot widths) and an ordered map (`CdEntryMapZip64`). Both are proved
 against the same finite map from names to offsets.
 */
module CdEntryMap {
  import opened Common
  import opened Bits

  type Name = seq<byte>

  /** `ZipStringOffset20` or `ZipStringOffset32`; offset 0 marks an empty slot. */
  datatype Slot = Slot(offset: nat, length: nat)

  type pos = x: int | x > 0 witness 1

  /** The bit fields of a slot keep numbers below these limits. */
  datatype Width = Width(offsetLimit: pos, lengthLimit: pos)

  const NARROW: Width := Width(0x10_0000, 0x1000)
  const WIDE: Width := Width(0x1_0000_0000, 0x1_0000)

  /** What `ToStringView` makes of a slot. */
  function NameAt(cd: seq<byte>, s: Slot): Name
    requires s.offset + s.length <= |cd|
  {
    cd[s.offset..s.offset + s.length]
  }

  // ---------- the circle of slots ----------

  /** The slot `d` steps after `h` in a table of `n` slots. */
  function Ahead(n: nat, h: nat, d: nat): nat
    requires h < n && d <= n
  {
    if h + d < n then h + d else h + d - n
  }

  /** How many steps lead from `h` to `e`. */
  function Steps(n: nat, h: nat, e: nat): (d: nat)
    requires h < n && e < n
    ensures d < n && Ahead(n, h, d) == e
  {
    if h <= e then e - h else e + n - h
  }

  ghost function UsedSlots(t: seq<Slot>): set<nat> { set e: nat | e < |t| && t[e].offset != 0 }

  ghost function Upto(n: nat): set<nat> { if n == 0 then {} else Upto(n - 1) + {n - 1} }

  lemma {:induction false} UptoSize(n: nat)
    ensures |Upto(n)| == n && forall e :: e in Upto(n) <==> 0 <= e < n
  {
    if n > 0 {
      UptoSize(n - 1);
    }
  }

  /** A table with fewer entries than slots has an empty slot, so a walk of `n` used slots is impossible. */
  lemma NotAllUsed(t: seq<Slot>, h: nat)
    requires h < |t| && |UsedSlots(t)| < |t|
    ensures exists d :: 0 <= d < |t| && t[Ahead(|t|, h, d)].offset == 0
  {
    UptoSize(|t|);
    assert UsedSlots(t) <= Upto(|t|);
    assert UsedSlots(t) != Upto(|t|);
    var e :| e in Upto(|t|) && e !in UsedSlots(t);
    var d := Steps(|t|, h, e);
    assert t[Ahead(|t|, h, d)].offset == 0;
  }

  /** Every slot from `h` up to, but not including, `e` is used. */
  ghost predicate PathUsed(t: seq<Slot>, h: nat, e: nat)
    requires h < |t| && e < |t|
  {
    forall d :: 0 <= d < Steps(|t|, h, e) ==> t[Ahead(|t|, h, d)].offset != 0
  }

  // ---------- what a table stands for ----------

  /** Where the search for a name starts: `hash & (size - 1)`. */
  function Home(hash: Name -> nat, n: nat, name: Name): nat
    requires n > 0
  {
    And(hash(name), n - 1)
  }

  ghost predicate IsPower(n: nat) { exists k :: n == Pow2(k) }

  lemma HomeInside(hash: Name -> nat, n: nat, name: Name)
    requires n > 0 && IsPower(n)
    ensures Home(hash, n, name) < n
  {
    var k :| n == Pow2(k);
    AndMask(hash(name), k);
  }

  /** `(e + 1) & (size - 1)` is the next slot of the circle. */
  lemma NextSlot(n: nat, h: nat, d: nat)
    requires n > 0 && IsPower(n) && h < n && d < n
    ensures And(Ahead(n, h, d) + 1, n - 1) == Ahead(n, h, d + 1)
  {
    var k :| n == Pow2(k);
    var e := Ahead(n, h, d);
    AndMask(e + 1, k);
    if e + 1 < n {
      LowSmall(e + 1, k);
    } else {
      LowOfPower(k);
    }
  }

  /** Slot `e` holds a name of `m`, at the right offset, and is reached from the home of that name. */
  ghost predicate SlotOk(t: seq<Slot>, hash: Name -> nat, cd: seq<byte>, m: map<Name, nat>, e: nat)
    requires e < |t|
  {
    t[e].offset != 0 ==>
      && t[e].offset + t[e].length <= |cd|
      && NameAt(cd, t[e]) in m && m[NameAt(cd, t[e])] == t[e].offset
      && Home(hash, |t|, NameAt(cd, t[e])) < |t|
      && PathUsed(t, Home(hash, |t|, NameAt(cd, t[e])), e)
  }

  ghost predicate Holds(t: seq<Slot>, cd: seq<byte>, e: nat, name: Name) {
    e < |t| && t[e].offset != 0 && t[e].offset + t[e].length <= |cd| && NameAt(cd, t[e]) == name
  }

  /** The table `t` stands for the map `m`. */
  ghost predicate TableOk(t: seq<Slot>, hash: Name -> nat, cd: seq<byte>, m: map<Name, nat>) {
    && |t| > 0 && IsPower(|t|)
    && (forall e :: 0 <= e < |t| ==> SlotOk(t, hash, cd, m, e))
    && (forall name :: name in m ==> exists e :: Holds(t, cd, e, name))
    && (forall e, e', name :: Holds(t, cd, e, name) && Holds(t, cd, e', name) ==> e == e')
    && |UsedSlots(t)| == |m|
  }

  /** The first `d` slots from `h` on are used, and none holds the name. */
  ghost predicate Passed(t: seq<Slot>, cd: seq<byte>, h: nat, d: nat, name: Name)
    requires h < |t| && d <= |t|
  {
    forall k :: 0 <= k < d ==> t[Ahead(|t|, h, k)].offset != 0 && !Holds(t, cd, Ahead(|t|, h, k), name)
  }

  lemma WalkEnds(t: seq<Slot>, cd: seq<byte>, h: nat, d: nat, name: Name)
    requires h < |t| && d < |t| && |UsedSlots(t)| < |t|
    requires Passed(t, cd, h, d, name) && t[Ahead(|t|, h, d)].offset != 0 && !Holds(t, cd, Ahead(|t|, h, d), name)
    ensures d + 1 < |t| && Passed(t, cd, h, d + 1, name)
  {
    NotAllUsed(t, h);
    var k :| 0 <= k < |t| && t[Ahead(|t|, h, k)].offset == 0;
  }

  lemma PathIsUsed(t: seq<Slot>, cd: seq<byte>, h: nat, d: nat, name: Name)
    requires h < |t| && d < |t| && Passed(t, cd, h, d, name)
    ensures PathUsed(t, h, Ahead(|t|, h, d))
  {
    assert Steps(|t|, h, Ahead(|t|, h, d)) == d;
  }

  lemma HeldIsKnown(t: seq<Slot>, hash: Name -> nat, cd: seq<byte>, m: map<Name, nat>, e: nat, name: Name)
    requires TableOk(t, hash, cd, m) && Holds(t, cd, e, name)
    ensures name in m && m[name] == t[e].offset
  {
    assert SlotOk(t, hash, cd, m, e);
  }

  /** A search that reaches an empty slot without meeting the name proves that the name is absent. */
  lemma SearchMisses(t: seq<Slot>, hash: Name -> nat, cd: seq<byte>, m: map<Name, nat>, name: Name, d: nat)
    requires TableOk(t, hash, cd, m) && Home(hash, |t|, name) < |t| && d < |t|
    requires Passed(t, cd, Home(hash, |t|, name), d, name)
    requires t[Ahead(|t|, Home(hash, |t|, name), d)].offset == 0
    ensures name !in m
    ensures PathUsed(t, Home(hash, |t|, name), Ahead(|t|, Home(hash, |t|, name), d))
  {
    var h := Home(hash, |t|, name);
    assert Steps(|t|, h, Ahead(|t|, h, d)) == d;
    if name in m {
      var e :| Holds(t, cd, e, name);
      assert SlotOk(t, hash, cd, m, e);
      var _ := Steps(|t|, h, e);
    }
  }

  /** Storing a new name in an empty slot that the search reached adds it to the map. */
  lemma InsertOk(t: seq<Slot>, hash: Name -> nat, cd: seq<byte>, m: map<Name, nat>, ent: nat, s: Slot)
    requires TableOk(t, hash, cd, m) && ent < |t| && t[ent].offset == 0
    requires s.offset != 0 && s.offset + s.length <= |cd| && NameAt(cd, s) !in m
    requires Home(hash, |t|, NameAt(cd, s)) < |t| && PathUsed(t, Home(hash, |t|, NameAt(cd, s)), ent)
    ensures TableOk(t[ent := s], hash, cd, m[NameAt(cd, s) := s.offset])
  {
    var t', name := t[ent := s], NameAt(cd, s);
    var m' := m[name := s.offset];
    forall e | 0 <= e < |t'|
      ensures SlotOk(t', hash, cd, m', e)
    {
      assert SlotOk(t, hash, cd, m, e);
    }
    assert UsedSlots(t') == UsedSlots(t) + {ent};
    InsertNames(t, hash, cd, m, ent, s);
  }

  lemma InsertNames(t: seq<Slot>, hash: Name -> nat, cd: seq<byte>, m: map<Name, nat>, ent: nat, s: Slot)
    requires TableOk(t, hash, cd, m) && ent < |t| && t[ent].offset == 0
    requires s.offset != 0 && s.offset + s.length <= |cd| && NameAt(cd, s) !in m
    ensures var t', m' := t[ent := s], m[NameAt(cd, s) := s.offset];
      && (forall name :: name in m' ==> exists e :: Holds(t', cd, e, name))
      && (forall e, e', name :: Holds(t', cd, e, name) && Holds(t', cd, e', name) ==> e == e')
  {
    var t', m' := t[ent := s], m[NameAt(cd, s) := s.offset];
    forall name | name in m'
      ensures exists e :: Holds(t', cd, e, name)
    {
      if name in m {
        var e :| Holds(t, cd, e, name);
        assert Holds(t', cd, e, name);
      } else {
        assert Holds(t', cd, ent, name);
      }
    }
    forall e, e', name | Holds(t', cd, e, name) && Holds(t', cd, e', name)
      ensures e == e'
    {
      if e != ent { assert Holds(t, cd, e, name) && SlotOk(t, hash, cd, m, e); }
      if e' != ent { assert Holds(t, cd, e', name) && SlotOk(t, hash, cd, m, e'); }
    }
  }

  /** What iteration still has to yield from slot `p` on, in slot order. */
  ghost function Remaining(t: seq<Slot>, cd: seq<byte>, p: nat): seq<(Name, nat)>
    requires p <= |t| && SlotsInside(t, cd)
    decreases |t| - p
  {
    if p == |t| then []
    else (if t[p].offset != 0 then [(NameAt(cd, t[p]), t[p].offset)] else []) + Remaining(t, cd, p + 1)
  }

  lemma TableInside(t: seq<Slot>, hash: Name -> nat, cd: seq<byte>, m: map<Name, nat>)
    requires TableOk(t, hash, cd, m)
    ensures SlotsInside(t, cd)
  {
    forall e | 0 <= e < |t| && t[e].offset != 0
      ensures t[e].offset + t[e].length <= |cd|
    {
      assert SlotOk(t, hash, cd, m, e);
    }
  }

  /** A full iteration yields every entry of the map, each exactly once. */
  lemma IterationIsComplete(t: seq<Slot>, hash: Name -> nat, cd: seq<byte>, m: map<Name, nat>)
    requires TableOk(t, hash, cd, m)
    ensures SlotsInside(t, cd)
    ensures var all := Remaining(t, cd, 0);
      && (forall i :: 0 <= i < |all| ==> all[i].0 in m && m[all[i].0] == all[i].1)
      && (forall name :: name in m ==> exists i :: 0 <= i < |all| && all[i].0 == name)
      && (forall i, j :: 0 <= i < j < |all| ==> all[i].0 != all[j].0)
  {
    TableInside(t, hash, cd, m);
    var all := Remaining(t, cd, 0);
    forall i | 0 <= i < |all|
      ensures all[i].0 in m && m[all[i].0] == all[i].1
    {
      var e := Yielded(t, cd, 0, i);
      assert SlotOk(t, hash, cd, m, e);
    }
    forall name | name in m
      ensures exists i :: 0 <= i < |all| && all[i].0 == name
    {
      var e :| Holds(t, cd, e, name);
      var i := YieldsSlot(t, cd, 0, e);
    }
    forall i, j | 0 <= i < j < |all|
      ensures all[i].0 != all[j].0
    {
      YieldsDistinct(t, hash, cd, m, 0, i, j);
    }
  }

  ghost predicate SlotsInside(t: seq<Slot>, cd: seq<byte>) {
    forall e :: 0 <= e < |t| && t[e].offset != 0 ==> t[e].offset + t[e].length <= |cd|
  }

  /** The slot from which the `i`-th yielded entry comes. */
  lemma {:induction false} Yielded(t: seq<Slot>, cd: seq<byte>, p: nat, i: nat) returns (e: nat)
    requires p <= |t| && SlotsInside(t, cd) && i < |Remaining(t, cd, p)|
    ensures p <= e < |t| && t[e].offset != 0
    ensures Holds(t, cd, e, Remaining(t, cd, p)[i].0) && t[e].offset == Remaining(t, cd, p)[i].1
    ensures t[p].offset != 0 ==> (i == 0 <==> e == p)
    decreases |t| - p
  {
    if t[p].offset != 0 {
      if i == 0 {
        e := p;
      } else {
        e := Yielded(t, cd, p + 1, i - 1);
      }
    } else {
      e := Yielded(t, cd, p + 1, i);
    }
  }

  lemma {:induction false} YieldsSlot(t: seq<Slot>, cd: seq<byte>, p: nat, e: nat) returns (i: nat)
    requires p <= e < |t| && SlotsInside(t, cd) && t[e].offset != 0
    ensures i < |Remaining(t, cd, p)| && Remaining(t, cd, p)[i] == (NameAt(cd, t[e]), t[e].offset)
    decreases |t| - p
  {
    if e == p {
      i := 0;
    } else {
      i := YieldsSlot(t, cd, p + 1, e);
      if t[p].offset != 0 {
        i := i + 1;
      }
    }
  }

  lemma {:induction false} YieldsDistinct(t: seq<Slot>, hash: Name -> nat, cd: seq<byte>, m: map<Name, nat>,
                                         p: nat, i: nat, j: nat)
    requires TableOk(t, hash, cd, m) && SlotsInside(t, cd) && p <= |t| && i < j < |Remaining(t, cd, p)|
    ensures Remaining(t, cd, p)[i].0 != Remaining(t, cd, p)[j].0
    decreases |t| - p
  {
    if t[p].offset == 0 {
      YieldsDistinct(t, hash, cd, m, p + 1, i, j);
    } else if i == 0 {
      var e := Yielded(t, cd, p, 0);
      var e' := Yielded(t, cd, p, j);
    } else {
      YieldsDistinct(t, hash, cd, m, p + 1, i - 1, j - 1);
    }
  }

  // ---------- the two implementations ----------

  /** `RoundUpPower2(1 + (num_entries * 4) / 3)`. */
  function TableSize(numEntries: nat): nat
    requires numEntries < 0x1_0000
  {
    RoundUpPower2(1 + numEntries * 4 / 3)
  }

  /** The table is the least power of two that is a third larger than its contents, so that a slot stays free. */
  lemma TableSizeOk(numEntries: nat)
    requires numEntries < 0x1_0000
    ensures IsPower(TableSize(numEntries)) && numEntries < TableSize(numEntries)
    ensures 1 + numEntries * 4 / 3 <= TableSize(numEntries) < 2 * (1 + numEntries * 4 / 3)
  {
    RoundUpIsLeast(1 + numEntries * 4 / 3);
  }

  lemma EmptyTableOk(t: seq<Slot>, hash: Name -> nat, cd: seq<byte>)
    requires |t| > 0 && IsPower(|t|) && forall e :: 0 <= e < |t| ==> t[e].offset == 0
    ensures TableOk(t, hash, cd, map[])
  {
    assert UsedSlots(t) == {};
  }

  // ---------- bit fields ----------

  predicate FitsSlot(w: Width, offset: nat, length: nat) { offset < w.offsetLimit && length < w.lengthLimit }

  /** A slot keeps only as many bits as it is wide. */
  function Packed(w: Width, offset: nat, length: nat): (s: Slot)
    ensures FitsSlot(w, s.offset, s.length) && s.offset <= offset && s.length <= length
  {
    Modulo(offset, w.offsetLimit);
    Modulo(length, w.lengthLimit);
    Slot(offset % w.offsetLimit, length % w.lengthLimit)
  }

  lemma Modulo(x: nat, n: pos)
    ensures 0 <= x % n < n && x % n <= x && (x < n ==> x % n == x)
  {
    if x >= n {
      assert x % n < n;
    }
  }

  /** A slot keeps an offset and a length if and only if they fit its bit fields. */
  lemma PackedExact(w: Width, offset: nat, length: nat)
    ensures Packed(w, offset, length) == Slot(offset, length) <==> FitsSlot(w, offset, length)
  {
    Modulo(offset, w.offsetLimit);
    Modulo(length, w.lengthLimit);
  }

  /**
   Storing a new name in the empty slot that the search reached adds it to the map if and only if the
   slot can say where the name is.
   */
  lemma InsertExact(t: seq<Slot>, hash: Name -> nat, cd: seq<byte>, m: map<Name, nat>, ent: nat,
                    w: Width, offset: nat, length: nat, name: Name)
    requires TableOk(t, hash, cd, m) && ent < |t| && t[ent].offset == 0
    requires 0 < offset && offset + length <= |cd| && name == cd[offset..offset + length] && name !in m
    requires Home(hash, |t|, name) < |t| && PathUsed(t, Home(hash, |t|, name), ent)
    ensures TableOk(t[ent := Packed(w, offset, length)], hash, cd, m[name := offset]) <==> FitsSlot(w, offset, length)
  {
    PackedExact(w, offset, length);
    var slot := Packed(w, offset, length);
    if FitsSlot(w, offset, length) {
      InsertOk(t, hash, cd, m, ent, slot);
    } else if TableOk(t[ent := slot], hash, cd, m[name := offset]) {
      StoredIsFound(t, hash, cd, m, ent, slot, name, offset);
    }
  }

  lemma StoredIsFound(t: seq<Slot>, hash: Name -> nat, cd: seq<byte>, m: map<Name, nat>, ent: nat,
                      slot: Slot, name: Name, offset: nat)
    requires TableOk(t, hash, cd, m) && ent < |t| && name !in m
    requires TableOk(t[ent := slot], hash, cd, m[name := offset])
    ensures slot == Slot(offset, |name|)
  {
    var t', m' := t[ent := slot], m[name := offset];
    assert name in m';
    var e :| Holds(t', cd, e, name);
    assert SlotOk(t', hash, cd, m', e);
    AbsentIsNotHeld(t, hash, cd, m, e, name);
  }

  lemma AbsentIsNotHeld(t: seq<Slot>, hash: Name -> nat, cd: seq<byte>, m: map<Name, nat>, e: nat, name: Name)
    requires TableOk(t, hash, cd, m) && name !in m && e < |t|
    ensures !Holds(t, cd, e, name)
  {
    assert SlotOk(t, hash, cd, m, e);
  }

  /** Every slot is a value that its bit fields can hold. */
  ghost predicate Narrow(t: seq<Slot>, w: Width) { forall e :: 0 <= e < |t| ==> FitsSlot(w, t[e].offset, t[e].length) }

  lemma StoreIsSafe(t: seq<Slot>, cd: seq<byte>, w: Width, ent: nat, s: Slot)
    requires SlotsInside(t, cd) && Narrow(t, w) && ent < |t|
    requires s.offset + s.length <= |cd| && FitsSlot(w, s.offset, s.length)
    ensures SlotsInside(t[ent := s], cd) && Narrow(t[ent := s], w)
    ensures |UsedSlots(t[ent := s])| <= |UsedSlots(t)| + 1
  {
    var more := UsedSlots(t) + {ent};
    assert UsedSlots(t[ent := s]) <= more;
    SubsetSize(UsedSlots(t[ent := s]), more);
  }

  lemma {:induction false} SubsetSize(a: set<nat>, b: set<nat>)
    requires a <= b
    ensures |a| <= |b|
  {
    assert b == a + (b - a);
  }

  /** What a table of narrow slots says about a name of its map. */
  lemma KnownFits(t: seq<Slot>, hash: Name -> nat, cd: seq<byte>, m: map<Name, nat>, w: Width, name: Name)
    requires TableOk(t, hash, cd, m) && Narrow(t, w) && name in m
    ensures FitsSlot(w, m[name], |name|)
  {
    var e :| Holds(t, cd, e, name);
    assert SlotOk(t, hash, cd, m, e);
  }

  class CdEntryMapZip32 {
    const hash: Name -> nat
    const width: Width
    const capacity: nat
    const table: array<Slot>
    var position: nat
    ghost var entries: map<Name, nat>

    /** The table can be searched, whatever was stored in it. */
    ghost predicate Safe(cd: seq<byte>)
      reads this, table
    {
      && table.Length > 0 && IsPower(table.Length)
      && SlotsInside(table[..], cd) && Narrow(table[..], width)
      && |UsedSlots(table[..])| <= capacity < table.Length
      && position <= table.Length
    }

    /** The table stands for `entries`. */
    ghost predicate Valid(cd: seq<byte>)
      reads this, table
    {
      Safe(cd) && TableOk(table[..], hash, cd, entries)
    }

    /** How many slots are used. */
    ghost function Used(): nat
      reads table
    {
      |UsedSlots(table[..])|
    }

    constructor (numEntries: nat, width: Width, hash: Name -> nat)
      requires numEntries < 0x1_0000
      ensures entries == map[] && position == 0 && capacity == numEntries && this.width == width && this.hash == hash
      ensures fresh(table) && Used() == 0 && forall cd :: Valid(cd)
    {
      this.hash, this.width, capacity, position, entries := hash, width, numEntries, 0, map[];
      TableSizeOk(numEntries);
      table := new Slot[TableSize(numEntries)](_ => Slot(0, 0));
      new;
      assert UsedSlots(table[..]) == {};
      forall cd: seq<byte>
        ensures TableOk(table[..], hash, cd, map[])
      {
        EmptyTableOk(table[..], hash, cd);
      }
    }

    /** The probing loop shared by the two operations below. It ends because a slot is always free. */
    method Probe(name: Name, cd: seq<byte>) returns (ent: nat, found: bool)
      requires Safe(cd)
      ensures ent < table.Length
      ensures found ==> Holds(table[..], cd, ent, name)
      ensures !found ==>
        && table[ent].offset == 0 && Home(hash, table.Length, name) < table.Length
        && PathUsed(table[..], Home(hash, table.Length, name), ent)
      ensures Valid(cd) ==> (found <==> name in entries) && (found ==> entries[name] == table[ent].offset)
    {
      var n := table.Length;
      ghost var t := table[..];
      var h := Home(hash, n, name);
      HomeInside(hash, n, name);
      ent := h;
      ghost var d := 0;
      while table[ent].offset != 0
        invariant 0 <= d < n && ent == Ahead(n, h, d) && Passed(t, cd, h, d, name)
        decreases n - d
      {
        if NameAt(cd, table[ent]) == name {
          if Valid(cd) { HeldIsKnown(t, hash, cd, entries, ent, name); }
          return ent, true;
        }
        NextSlot(n, h, d);
        WalkEnds(t, cd, h, d, name);
        ent := And(ent + 1, n - 1);
        d := d + 1;
      }
      PathIsUsed(t, cd, h, d, name);
      if Valid(cd) { SearchMisses(t, hash, cd, entries, name, d); }
      found := false;
    }

    /** `GetCdEntryOffset`. Whatever the table holds, what is found spells the name and fits a slot. */
    method Get(name: Name, cd: seq<byte>) returns (r: Option<nat>)
      requires Safe(cd)
      ensures r.Some? ==> exists e: nat :: Holds(table[..], cd, e, name) && table[..][e].offset == r.value
      ensures r.Some? ==> FitsSlot(width, r.value, |name|)
      ensures Valid(cd) ==> r == if name in entries then Some(entries[name]) else None
    {
      var ent, found := Probe(name, cd);
      if found {
        r := Some(table[ent].offset);
        assert Holds(table[..], cd, ent, name);
      } else {
        r := None;
      }
    }

    /**
     `AddToMap`: the name is the `length` bytes of the directory at `offset`. The table stands for the
     larger map afterwards if and only if the name is not new or fits a slot.
     */
    method Add(offset: nat, length: nat, cd: seq<byte>) returns (added: bool)
      requires Safe(cd) && 0 < offset && offset + length <= |cd|
      requires Used() < capacity || (Valid(cd) && cd[offset..offset + length] in entries)
      modifies this`entries, table
      ensures Safe(cd) && Used() <= old(Used()) + 1
      ensures entries == if added then old(entries)[cd[offset..offset + length] := offset] else old(entries)
      ensures old(Valid(cd)) ==> (added <==> cd[offset..offset + length] !in old(entries))
      ensures old(Valid(cd)) ==> (Valid(cd) <==> !added || FitsSlot(width, offset, length))
      ensures !added ==> table[..] == old(table[..])
      ensures added ==> exists ent: nat ::
        ent < table.Length && old(table[..])[ent].offset == 0
        && table[..] == old(table[..])[ent := Packed(width, offset, length)]
    {
      var name := cd[offset..offset + length];
      var ent, found := Probe(name, cd);
      if found {
        return false;
      }
      var slot := Packed(width, offset, length);
      StoreIsSafe(table[..], cd, width, ent, slot);
      if Valid(cd) { InsertExact(table[..], hash, cd, entries, ent, width, offset, length, name); }
      ghost var t := table[..];
      table[ent] := slot;
      assert table[..] == t[ent := slot];
      entries := entries[name := offset];
      added := true;
    }

    method ResetIteration()
      modifies this`position
      ensures position == 0
      ensures forall cd {:trigger Safe(cd)} :: old(Safe(cd)) ==> Safe(cd)
    {
      position := 0;
    }

    /** `Next`: the entry in the next used slot, or nothing at the end of the table. */
    method Next(cd: seq<byte>) returns (r: Option<(Name, nat)>)
      requires Safe(cd)
      modifies this`position
      ensures Safe(cd)
      ensures var todo := Remaining(table[..], cd, old(position));
        if todo == [] then r == None && position == table.Length
        else r == Some(todo[0]) && Remaining(table[..], cd, position) == todo[1..]
    {
      while position < table.Length
        invariant position <= table.Length
        invariant Remaining(table[..], cd, position) == Remaining(table[..], cd, old(position))
      {
        var entry := table[position];
        position := position + 1;
        if entry.offset != 0 {
          return Some((NameAt(cd, entry), entry.offset));
        }
      }
      r := None;
    }
  }

  // ---------- iteration ----------

  lemma OneYielded(all: seq<(Name, nat)>, todo: seq<(Name, nat)>, entry: (Name, nat), whole: seq<(Name, nat)>)
    requires all + todo == whole && todo != [] && entry == todo[0]
    ensures (all + [entry]) + todo[1..] == whole
  {
    assert todo == [todo[0]] + todo[1..];
  }

  /** `Next` until it yields nothing. */
  method Drain(index: CdEntryMapZip32, cd: seq<byte>) returns (all: seq<(Name, nat)>)
    requires index.Safe(cd)
    modifies index`position
    ensures index.Safe(cd) && index.position == index.table.Length
    ensures all == Remaining(index.table[..], cd, old(index.position))
  {
    all := [];
    ghost var t := index.table[..];
    ghost var todo := Remaining(t, cd, index.position);
    ghost var whole := todo;
    while true
      invariant index.Safe(cd) && todo == Remaining(t, cd, index.position) && all + todo == whole
      decreases |todo|
    {
      var entry := index.Next(cd);
      if entry.None? {
        break;
      }
      OneYielded(all, todo, entry.value, whole);
      all, todo := all + [entry.value], todo[1..];
    }
  }

  /** `ResetIteration`, and then `Next` until it yields nothing: all of the map, each name once. */
  method ListAll(index: CdEntryMapZip32, cd: seq<byte>) returns (all: seq<(Name, nat)>)
    requires index.Valid(cd)
    modifies index`position
    ensures index.Valid(cd) && index.position == index.table.Length
    ensures forall i :: 0 <= i < |all| ==> all[i].0 in index.entries && index.entries[all[i].0] == all[i].1
    ensures forall name :: name in index.entries ==> exists i :: 0 <= i < |all| && all[i].0 == name
    ensures forall i, j :: 0 <= i < j < |all| ==> all[i].0 != all[j].0
  {
    index.ResetIteration();
    all := Drain(index, cd);
    IterationIsComplete(index.table[..], index.hash, cd, index.entries);
  }

  /** The map-based index for directories with more than 65535 entries. */
  class CdEntryMapZip64 {
    var entries: map<Name, nat>

    constructor ()
      ensures entries == map[]
    {
      entries := map[];
    }

    method Get(name: Name, cd: seq<byte>) returns (r: Option<nat>)
      ensures r == if name in entries then Some(entries[name]) else None
    {
      r := if name in entries then Some(entries[name]) else None;
    }

    method Add(offset: nat, length: nat, cd: seq<byte>) returns (added: bool)
      requires offset + length <= |cd|
      modifies this
      ensures added <==> cd[offset..offset + length] !in old(entries)
      ensures entries == if added then old(entries)[cd[offset..offset + length] := offset] else old(entries)
    {
      var name := cd[offset..offset + length];
      if name in entries {
        return false;
      }
      entries := entries[name := offset];
      added := true;
    }
  }

  /** Which slot width `Create` chooses for a table. */
  function ChosenWidth(cdLength: nat, maxNameLength: nat): Width {
    if cdLength > NARROW.offsetLimit - 1 || maxNameLength > NARROW.lengthLimit - 1 then WIDE else NARROW
  }

  /** Narrow slots, of 20 and 12 bits, are chosen exactly if every place and length in the directory fits them. */
  lemma ChosenExact(cdLength: nat, maxNameLength: nat)
    ensures var w := ChosenWidth(cdLength, maxNameLength);
      if cdLength <= 0xf_ffff && maxNameLength <= 0xfff then w == Width(0x10_0000, 0x1000)
      else w == Width(0x1_0000_0000, 0x1_0000)
  {
  }

  /** A name of the directory fits the slots that are chosen if and only if it begins in the first 4 GiB. */
  lemma ChosenFits(cdLength: nat, maxNameLength: nat, offset: nat, length: nat)
    requires offset <= cdLength && length <= maxNameLength < 0x1_0000
    ensures FitsSlot(ChosenWidth(cdLength, maxNameLength), offset, length) <==> offset < 0x1_0000_0000
  {
  }
}
