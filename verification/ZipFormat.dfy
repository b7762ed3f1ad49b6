/** Where each field lies in the bytes of a record, as byte offsets. */
module ZipFormat {
  import opened Common
  import opened Digits
  import opened ZipRecords
  import opened Zip64Extra
  import opened ZipReading
  import LittleEndian

  /** Two, four and eight bytes as numbers. */
  lemma WordsRead(b: seq<byte>, at: nat)
    ensures at + 2 <= |b| ==> U16(b, at) == b[at] as int + 0x100 * b[at + 1] as int
    ensures at + 4 <= |b| ==> U32(b, at) == U16(b, at) + 0x1_0000 * U16(b, at + 2)
    ensures at + 8 <= |b| ==> U64(b, at) == U32(b, at) + 0x1_0000_0000 * U32(b, at + 4)
  {
    if at + 2 <= |b| {
      TwoBytes(b[at..at + 2]);
    }
    if at + 4 <= |b| {
      FourBytes(b[at..at + 4]);
      SliceOfSlice(b, at, at + 4, 0, 2);
      SliceOfSlice(b, at, at + 4, 2, 4);
    }
    if at + 8 <= |b| {
      EightBytes(b[at..at + 8]);
      SliceOfSlice(b, at, at + 8, 0, 4);
      SliceOfSlice(b, at, at + 8, 4, 8);
    }
  }

  // ---------- fields ----------

  /** The first `i` fields take `at` bytes. */
  ghost predicate Reaches(widths: seq<nat>, i: nat, at: nat) { i <= |widths| && Total(widths[..i]) == at }

  /** Field `i`, which starts at `at`, and where the next one starts. */
  lemma Field(b: seq<byte>, widths: seq<nat>, v: seq<nat>, i: nat, at: nat, next: nat)
    requires |b| == Total(widths) && v == DecodeFields(b, widths)
    requires i < |widths| && Reaches(widths, i, at) && next == at + widths[i]
    ensures Reaches(widths, i + 1, next)
    ensures next <= |b| && v[i] == LittleEndian.Decode(b[at..next])
  {
    FieldIn(b, widths, i);
    ReachesNext(widths, i, at, next);
  }

  lemma ReachesNext(widths: seq<nat>, i: nat, at: nat, next: nat)
    requires i < |widths| && Reaches(widths, i, at) && next == at + widths[i]
    ensures Reaches(widths, i + 1, next)
  {
    TotalConcat(widths[..i], [widths[i]]);
    assert widths[..i + 1] == widths[..i] + [widths[i]];
  }

  lemma {:induction false} FieldIn(b: seq<byte>, widths: seq<nat>, i: nat)
    requires |b| == Total(widths) && i < |widths|
    ensures Stands(b, DecodeFields(b, widths)[i], Total(widths[..i]), widths[i])
    decreases i
  {
    if i == 0 {
      assert b[0..widths[0]] == b[..widths[0]];
    } else {
      var w, rest := widths[0], widths[1..];
      FieldIn(b[w..], rest, i - 1);
      assert widths[..i][1..] == rest[..i - 1];
      Shifted(b, w, DecodeFields(b[w..], rest)[i - 1], Total(rest[..i - 1]), Total(widths[..i]), rest[i - 1]);
    }
  }

  /** The number `v` stands at `at`, in `w` bytes. */
  ghost predicate Stands(b: seq<byte>, v: nat, at: nat, w: nat) {
    at + w <= |b| && v == LittleEndian.Decode(b[at..at + w])
  }

  lemma Shifted(b: seq<byte>, k: nat, v: nat, at: nat, to: nat, w: nat)
    requires k <= |b| && Stands(b[k..], v, at, w) && to == k + at
    ensures Stands(b, v, to, w)
  {
    SliceOfSlice(b, k, |b|, at, at + w);
    assert b[k..] == b[k..|b|];
  }

  // ---------- the local file header ----------

  lemma LocalParts(b: seq<byte>) returns (w: seq<nat>, v: seq<nat>)
    requires |b| == 30
    ensures |w| == 11 && Total(w) == 30 && v == DecodeFields(b, w)
    ensures w[0] == 4 && w[1] == w[2] == w[3] == w[4] == w[5] == 2 && w[6] == w[7] == w[8] == 4 && w[9] == w[10] == 2
    ensures ReadLocal(b) == LocalHeader(v[0], v[1], v[2], v[3], v[4], v[5], v[6], v[7], v[8], v[9], v[10])
  {
    LocalSize();
    w, v := LFH_WIDTHS, DecodeFields(b, LFH_WIDTHS);
  }

  lemma LocalValues(b: seq<byte>, w: seq<nat>, v: seq<nat>)
    requires |w| == 11 && |b| == Total(w) == 30 && v == DecodeFields(b, w)
    requires w[0] == 4 && w[1] == w[2] == w[3] == w[4] == w[5] == 2 && w[6] == w[7] == w[8] == 4 && w[9] == w[10] == 2
    ensures v[0] == U32(b, 0) && v[1] == U16(b, 4) && v[2] == U16(b, 6) && v[3] == U16(b, 8) && v[4] == U16(b, 10)
    ensures v[5] == U16(b, 12) && v[6] == U32(b, 14) && v[7] == U32(b, 18) && v[8] == U32(b, 22)
    ensures v[9] == U16(b, 26) && v[10] == U16(b, 28)
  {
    Field(b, w, v, 0, 0, 4);
    Field(b, w, v, 1, 4, 6);
    Field(b, w, v, 2, 6, 8);
    Field(b, w, v, 3, 8, 10);
    Field(b, w, v, 4, 10, 12);
    Field(b, w, v, 5, 12, 14);
    Field(b, w, v, 6, 14, 18);
    Field(b, w, v, 7, 18, 22);
    Field(b, w, v, 8, 22, 26);
    Field(b, w, v, 9, 26, 28);
    Field(b, w, v, 10, 28, 30);
  }

  /** Where the fields of a local file header lie. */
  lemma LocalLayout(b: seq<byte>)
    requires |b| == 30
    ensures ReadLocal(b) == LocalHeader(
      U32(b, 0), U16(b, 4), U16(b, 6), U16(b, 8), U16(b, 10), U16(b, 12),
      U32(b, 14), U32(b, 18), U32(b, 22), U16(b, 26), U16(b, 28))
  {
    var w, v := LocalParts(b);
    LocalValues(b, w, v);
  }

  // ---------- the central directory record ----------

  lemma RecordParts(b: seq<byte>) returns (w: seq<nat>, v: seq<nat>)
    requires |b| == 46
    ensures |w| == 17 && Total(w) == 46 && v == DecodeFields(b, w)
    ensures w[0] == 4 && w[1] == w[2] == w[3] == w[4] == w[5] == w[6] == 2 && w[7] == w[8] == w[9] == 4
    ensures w[10] == w[11] == w[12] == w[13] == w[14] == 2 && w[15] == w[16] == 4
    ensures ReadCd(b) == CdRecord(v[0], v[1], v[2], v[3], v[4], v[5], v[6], v[7], v[8], v[9],
                                  v[10], v[11], v[12], v[13], v[14], v[15], v[16])
  {
    CdSize();
    w, v := CDR_WIDTHS, DecodeFields(b, CDR_WIDTHS);
  }

  lemma RecordHead(b: seq<byte>, w: seq<nat>, v: seq<nat>)
    requires |w| == 17 && |b| == Total(w) == 46 && v == DecodeFields(b, w)
    requires w[0] == 4 && w[1] == w[2] == w[3] == w[4] == w[5] == w[6] == 2 && w[7] == 4
    ensures v[0] == U32(b, 0) && v[1] == U16(b, 4) && v[2] == U16(b, 6) && v[3] == U16(b, 8) && v[4] == U16(b, 10)
    ensures v[5] == U16(b, 12) && v[6] == U16(b, 14) && v[7] == U32(b, 16) && Reaches(w, 8, 20)
  {
    Field(b, w, v, 0, 0, 4);
    Field(b, w, v, 1, 4, 6);
    Field(b, w, v, 2, 6, 8);
    Field(b, w, v, 3, 8, 10);
    Field(b, w, v, 4, 10, 12);
    Field(b, w, v, 5, 12, 14);
    Field(b, w, v, 6, 14, 16);
    Field(b, w, v, 7, 16, 20);
  }

  lemma RecordTail(b: seq<byte>, w: seq<nat>, v: seq<nat>)
    requires |w| == 17 && |b| == Total(w) == 46 && v == DecodeFields(b, w) && Reaches(w, 8, 20)
    requires w[8] == w[9] == 4 && w[10] == w[11] == w[12] == w[13] == w[14] == 2 && w[15] == w[16] == 4
    ensures v[8] == U32(b, 20) && v[9] == U32(b, 24) && v[10] == U16(b, 28) && v[11] == U16(b, 30)
    ensures v[12] == U16(b, 32) && v[13] == U16(b, 34) && v[14] == U16(b, 36) && v[15] == U32(b, 38)
    ensures v[16] == U32(b, 42)
  {
    Field(b, w, v, 8, 20, 24);
    Field(b, w, v, 9, 24, 28);
    Field(b, w, v, 10, 28, 30);
    Field(b, w, v, 11, 30, 32);
    Field(b, w, v, 12, 32, 34);
    Field(b, w, v, 13, 34, 36);
    Field(b, w, v, 14, 36, 38);
    Field(b, w, v, 15, 38, 42);
    Field(b, w, v, 16, 42, 46);
  }

  /** Where the fields of a central directory record lie. */
  lemma RecordLayout(b: seq<byte>)
    requires |b| == 46
    ensures ReadCd(b) == CdRecord(
      U32(b, 0), U16(b, 4), U16(b, 6), U16(b, 8), U16(b, 10), U16(b, 12), U16(b, 14),
      U32(b, 16), U32(b, 20), U32(b, 24), U16(b, 28), U16(b, 30), U16(b, 32),
      U16(b, 34), U16(b, 36), U32(b, 38), U32(b, 42))
  {
    var w, v := RecordParts(b);
    RecordHead(b, w, v);
    RecordTail(b, w, v);
  }

  // ---------- the end of central directory record ----------

  lemma EndParts(b: seq<byte>) returns (w: seq<nat>, v: seq<nat>)
    requires |b| == 22
    ensures |w| == 8 && Total(w) == 22 && v == DecodeFields(b, w)
    ensures w[0] == 4 && w[1] == w[2] == w[3] == w[4] == 2 && w[5] == w[6] == 4 && w[7] == 2
    ensures ReadEocd(b) == Eocd(v[0], v[1], v[2], v[3], v[4], v[5], v[6], v[7])
  {
    EocdTotal();
    w, v := EOCD_WIDTHS, DecodeFields(b, EOCD_WIDTHS);
  }

  lemma EndValues(b: seq<byte>, w: seq<nat>, v: seq<nat>)
    requires |w| == 8 && |b| == Total(w) == 22 && v == DecodeFields(b, w)
    requires w[0] == 4 && w[1] == w[2] == w[3] == w[4] == 2 && w[5] == w[6] == 4 && w[7] == 2
    ensures v[0] == U32(b, 0) && v[1] == U16(b, 4) && v[2] == U16(b, 6) && v[3] == U16(b, 8) && v[4] == U16(b, 10)
    ensures v[5] == U32(b, 12) && v[6] == U32(b, 16) && v[7] == U16(b, 20)
  {
    Field(b, w, v, 0, 0, 4);
    Field(b, w, v, 1, 4, 6);
    Field(b, w, v, 2, 6, 8);
    Field(b, w, v, 3, 8, 10);
    Field(b, w, v, 4, 10, 12);
    Field(b, w, v, 5, 12, 16);
    Field(b, w, v, 6, 16, 20);
    Field(b, w, v, 7, 20, 22);
  }

  /** Where the fields of an end of central directory record lie. */
  lemma EndLayout(b: seq<byte>)
    requires |b| == 22
    ensures ReadEocd(b) == Eocd(
      U32(b, 0), U16(b, 4), U16(b, 6), U16(b, 8), U16(b, 10), U32(b, 12), U32(b, 16), U16(b, 20))
  {
    var w, v := EndParts(b);
    EndValues(b, w, v);
  }
}
