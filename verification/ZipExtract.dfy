/** Extraction of a stored entry into a memory region. */
module ZipExtract {
  import opened Common
  import opened ZipErrors
  import opened ZipLookup

  const UINT32_RANGE: nat := 0x1_0000_0000

  /** How much one turn of the copy loop reads: the source narrows it to 32 bits. */
  function BlockSize(remaining: nat, maxRead: nat): nat { Min(remaining, maxRead) % UINT32_RANGE }

  /** How much has been copied after a number of turns. */
  function Copied(turns: nat, length: nat, maxRead: nat): nat {
    if turns == 0 then 0
    else
      var count := Copied(turns - 1, length, maxRead);
      if count < length then count + BlockSize(length - count, maxRead) else count
  }

  /** A loop that asks for everything at once finishes exactly when the length fits 32 bits. */
  lemma WholeReadFinishes(length: nat)
    ensures (exists turns :: Copied(turns, length, length) == length) <==> length < UINT32_RANGE
  {
    if length < UINT32_RANGE {
      assert Copied(1, length, length) == length;
    } else {
      forall turns: nat
        ensures Copied(turns, length, length) < length
      {
        Stalls(turns, length);
      }
    }
  }

  lemma {:induction false} Stalls(turns: nat, length: nat)
    requires length >= UINT32_RANGE
    ensures Copied(turns, length, length) == if turns == 0 then 0 else length % UINT32_RANGE
  {
    if turns > 1 {
      Stalls(turns - 1, length);
      assert (length - length % UINT32_RANGE) % UINT32_RANGE == 0;
    }
  }

  /** A loop that reads in blocks makes progress in every turn. */
  lemma {:induction false} BlocksProgress(turns: nat, length: nat, maxRead: nat)
    requires 0 < maxRead < UINT32_RANGE
    ensures Min(turns, length) <= Copied(turns, length, maxRead) <= length
  {
    if turns > 0 {
      BlocksProgress(turns - 1, length, maxRead);
    }
  }

  class MemoryWriter {
    const region: array<byte>
    var written: nat

    ghost predicate Valid()
      reads this
    {
      written <= region.Length
    }

    constructor (region: array<byte>)
      ensures Valid() && this.region == region && written == 0
    {
      this.region, written := region, 0;
    }

    /** A block that does not fit is refused, and nothing changes. */
    method Append(block: seq<byte>) returns (ok: bool)
      requires Valid()
      modifies this, region
      ensures Valid()
      ensures ok <==> block == [] || old(written) + |block| <= region.Length
      ensures written == if ok then old(written) + |block| else old(written)
      ensures !ok ==> region[..] == old(region[..])
      ensures ok ==> region[old(written)..written] == block
      ensures forall i :: 0 <= i < region.Length && !(old(written) <= i < written) ==> region[i] == old(region[i])
    {
      if |block| == 0 {
        return true;
      }
      if region.Length < |block| || written > region.Length - |block| {
        return false;
      }
      Store(region, written, block);
      written := written + |block|;
      ok := true;
    }
  }

  method Store(region: array<byte>, at: nat, block: seq<byte>)
    requires at + |block| <= region.Length
    modifies region
    ensures region[at..at + |block|] == block
    ensures forall i :: 0 <= i < region.Length && !(at <= i < at + |block|) ==> region[i] == old(region[i])
  {
    forall k | 0 <= k < |block| {
      region[at + k] := block[k];
    }
  }

  /**
   `CopyEntryToWriter` into a memory region that is large enough. From a mapped file each block is
   appended; otherwise it is read directly into its place in the region.
   */
  method CopyEntry(file: seq<byte>, mapped: bool, e: ZipEntry, w: MemoryWriter) returns (error: Option<ZipError>)
    requires w.Valid() && w.written == 0 && e.uncompressedLength <= w.region.Length
    requires e.uncompressedLength < UINT32_RANGE
    modifies w, w.region
    ensures error.None? <==> e.uncompressedLength == 0 || e.offset + e.uncompressedLength <= |file|
    ensures error.None? && e.uncompressedLength > 0 ==> w.region[..e.uncompressedLength] == Content(file, e)
    ensures forall i :: e.uncompressedLength <= i < w.region.Length ==> w.region[i] == old(w.region[i])
  {
    var length := e.uncompressedLength;
    var count: nat := 0;
    while count < length
      invariant w.Valid() && (count == 0 || count == length) && (mapped ==> w.written == count)
      invariant count > 0 ==> e.offset + length <= |file| && w.region[..length] == file[e.offset..e.offset + length]
      invariant forall i :: length <= i < w.region.Length ==> w.region[i] == old(w.region[i])
      decreases length - count
    {
      var block := BlockSize(length - count, length);
      var offset := e.offset + count;
      if offset + block > |file| {
        return Some(ReadFailed);
      }
      var bytes := file[offset..offset + block];
      if mapped {
        var ok := w.Append(bytes);
        if !ok {
          return Some(ReadFailed);
        }
      } else {
        Store(w.region, count, bytes);
      }
      count := count + block;
    }
    error := None;
  }

  /** `ExtractToMemory` for a stored entry: refused if the region is too small for it. */
  method ExtractToMemory(file: seq<byte>, mapped: bool, e: ZipEntry, region: array<byte>)
    returns (error: Option<ZipError>)
    requires e.uncompressedLength < UINT32_RANGE && e.offset + e.uncompressedLength <= |file|
    modifies region
    ensures error.None? <==> e.uncompressedLength <= region.Length
    ensures error.None? ==> region[..e.uncompressedLength] == Content(file, e)
    ensures forall i :: e.uncompressedLength <= i < region.Length ==> region[i] == old(region[i])
  {
    if e.uncompressedLength > region.Length {
      return Some(ReadFailed);
    }
    var w := new MemoryWriter(region);
    error := CopyEntry(file, mapped, e, w);
  }
}
