/**
 IOVector: a chain of blocks with a start index, a begin offset and a cached length, used as a byte
 queue. Every operation is proved against the plain byte queue `Content()`.
 */
module IOVectors {
  import opened Common

  /** `store` is what was allocated (the capacity), of which the first `size` bytes are in use. */
  datatype Block = Block(store: seq<byte>, size: nat) {
    predicate Ok() { size <= |store| }

    function Bytes(): seq<byte>
      requires Ok()
    {
      store[..size]
    }

    /** `resize` of a block that has storage. */
    function Resize(n: nat): Block
      requires n <= |store|
    {
      this.(size := n)
    }

    /** Overwrite the storage from `offset` on, as memcpy and memmove do. */
    function Patch(offset: nat, bytes: seq<byte>): Block
      requires offset + |bytes| <= |store|
    {
      this.(store := store[..offset] + bytes + store[offset + |bytes|..])
    }
  }

  /** A default-constructed, cleared or moved-from block. */
  const EmptyBlock: Block := Block([], 0)

  function BlockOf(bytes: seq<byte>): Block { Block(bytes, |bytes|) }

  ghost predicate AllOk(blocks: seq<Block>) { forall i :: 0 <= i < |blocks| ==> blocks[i].Ok() }

  /** The bytes of a chain, in order. */
  ghost function Flat(blocks: seq<Block>): seq<byte>
    requires AllOk(blocks)
  {
    if blocks == [] then [] else blocks[0].Bytes() + Flat(blocks[1..])
  }

  lemma {:induction false} FlatConcat(a: seq<Block>, b: seq<Block>)
    requires AllOk(a) && AllOk(b)
    ensures AllOk(a + b) && Flat(a + b) == Flat(a) + Flat(b)
  {
    if a == [] {
      assert a + b == b;
    } else {
      assert (a + b)[1..] == a[1..] + b;
      FlatConcat(a[1..], b);
    }
  }

  /** The first live block and the others. */
  lemma FlatFirst(blocks: seq<Block>, i: nat)
    requires AllOk(blocks) && i < |blocks|
    ensures Flat(blocks[i..]) == blocks[i].Bytes() + Flat(blocks[i + 1..])
  {
    assert blocks[i..][1..] == blocks[i + 1..];
  }

  lemma FlatPush(blocks: seq<Block>, i: nat, offset: nat, block: Block)
    requires AllOk(blocks) && block.Ok() && i <= |blocks| && offset <= |Flat(blocks[i..])|
    ensures Flat((blocks + [block])[i..]) == Flat(blocks[i..]) + block.Bytes()
    ensures Flat((blocks + [block])[i..])[offset..] == Flat(blocks[i..])[offset..] + block.Bytes()
  {
    assert (blocks + [block])[i..] == blocks[i..] + [block];
    FlatConcat(blocks[i..], [block]);
    assert [block][1..] == [] && block.Bytes() + [] == block.Bytes();
  }

  // ---------- the 32-bit counter of drop_front ----------

  const UINT32_LIMIT: nat := 0x1_0000_0000

  /** 32-bit addition. */
  function WrappingAdd(a: nat, b: nat): (r: nat)
    ensures r <= a + b && (a + b < UINT32_LIMIT <==> r == a + b)
  {
    (a + b) % UINT32_LIMIT
  }

  function Sum(runs: seq<nat>): nat { if runs == [] then 0 else runs[0] + Sum(runs[1..]) }

  /**
   The loop of `drop_front` over the lengths of the live blocks: how many blocks it pops and how
   far it advances into the next one; `None` if it runs off the chain. `dropped` wraps at 32 bits.
   */
  function DropLoop(runs: seq<nat>, dropped: nat, len: nat): Option<(nat, nat)> {
    if dropped >= len then Some((0, 0))
    else if runs == [] then None
    else if dropped + runs[0] <= len then
      match DropLoop(runs[1..], WrappingAdd(dropped, runs[0]), len)
      case Some((popped, offset)) => Some((popped + 1, offset))
      case None => None
    else Some((0, len - dropped))
  }

  /** No whole block is popped at or beyond the 32-bit limit. */
  predicate Fits(runs: seq<nat>, dropped: nat, len: nat) {
    dropped < len && runs != [] && dropped + runs[0] <= len ==>
      dropped + runs[0] < UINT32_LIMIT && Fits(runs[1..], dropped + runs[0], len)
  }

  /** A loop that has `dropped` counted skips the `len - dropped` bytes that are left. */
  predicate Skips(runs: seq<nat>, r: Option<(nat, nat)>, amount: int) {
    r.Some? && r.value.0 <= |runs| && Sum(runs[..r.value.0]) + r.value.1 == amount
  }

  /** Once the counter has wrapped the loop skips too much or runs off the chain. */
  lemma {:induction false} DropLoopSkips(runs: seq<nat>, dropped: nat, len: nat)
    requires dropped <= len
    ensures var r := DropLoop(runs, dropped, len);
      r.Some? ==> r.value.0 <= |runs| && Sum(runs[..r.value.0]) + r.value.1 >= len - dropped
  {
    if dropped < len && runs != [] && dropped + runs[0] <= len {
      var r := DropLoop(runs[1..], WrappingAdd(dropped, runs[0]), len);
      DropLoopSkips(runs[1..], WrappingAdd(dropped, runs[0]), len);
      if r.Some? {
        assert runs[..r.value.0 + 1][1..] == runs[1..][..r.value.0];
      }
    }
  }

  /** `drop_front` drops exactly `len` bytes if and only if its counter does not wrap. */
  lemma {:induction false} DropLoopExact(runs: seq<nat>, dropped: nat, len: nat)
    requires dropped <= len < dropped + Sum(runs)
    ensures Skips(runs, DropLoop(runs, dropped, len), len - dropped) <==> Fits(runs, dropped, len)
  {
    if dropped < len && dropped + runs[0] <= len {
      var next: nat := dropped + runs[0];
      var wrapped := WrappingAdd(dropped, runs[0]);
      var r := DropLoop(runs[1..], wrapped, len);
      DropLoopSkips(runs[1..], wrapped, len);
      if r.Some? {
        SumStep(runs, r.value.0);
      }
      if next < UINT32_LIMIT {
        DropLoopExact(runs[1..], next, len);
      }
    }
  }

  lemma SumStep(runs: seq<nat>, k: nat)
    requires k < |runs|
    ensures Sum(runs[..k + 1]) == runs[0] + Sum(runs[1..][..k])
  {
    assert runs[..k + 1][1..] == runs[1..][..k];
  }

  /** A drop below the limit cannot wrap, whatever the blocks are. */
  lemma {:induction false} ShortDropFits(runs: seq<nat>, dropped: nat, len: nat)
    requires len < UINT32_LIMIT
    ensures Fits(runs, dropped, len)
  {
    if dropped < len && runs != [] && dropped + runs[0] <= len {
      ShortDropFits(runs[1..], dropped + runs[0], len);
    }
  }

  /** Two blocks of 2 GiB: dropping 4 GiB and one byte runs off the chain. */
  lemma DropFrontWraps()
    ensures var runs := [0x8000_0000, 0x8000_0000, 2];
      Sum(runs) > 0x1_0000_0001 && DropLoop(runs, 0, 0x1_0000_0001) == None
  {
    var runs: seq<nat> := [0x8000_0000, 0x8000_0000, 2];
    assert runs[1..] == [0x8000_0000, 2] && runs[1..][1..] == [2] && runs[1..][1..][1..] == [];
    assert DropLoop([2], 0, 0x1_0000_0001) == None by {
      assert [2][1..] == [];
      assert DropLoop([], 2, 0x1_0000_0001) == None;
    }
    assert DropLoop([0x8000_0000, 2], 0x8000_0000, 0x1_0000_0001) == None;
    assert Sum([2]) == 2 && Sum([0x8000_0000, 2]) == 0x8000_0002;
  }

  /** The lengths of the live blocks, the first without the bytes already consumed. */
  ghost function RunsOf(blocks: seq<Block>, offset: nat): seq<nat>
    requires blocks != [] ==> offset <= blocks[0].size
  {
    if blocks == [] then [] else [blocks[0].size - offset] + RunsOf(blocks[1..], 0)
  }

  class IOVector {
    var chain: seq<Block>
    var chainLength: nat
    var beginOffset: nat
    var startIndex: nat

    /** The cached length is right, every live block holds bytes, and the offset lies in the first of them. */
    ghost predicate Valid()
      reads this
    {
      && AllOk(chain)
      && startIndex <= |chain|
      && (forall i :: startIndex <= i < |chain| ==> chain[i].size > 0)
      && chainLength == |Flat(chain[startIndex..])|
      && (if startIndex < |chain| then beginOffset < chain[startIndex].size else beginOffset == 0)
    }

    /** There is a front block unless the chain is empty: what every operation but a destructive coalesce leaves. */
    ghost predicate HasFront()
      reads this
    {
      chain == [] || startIndex < |chain|
    }

    /** The byte queue this chain stands for. */
    ghost function Content(): seq<byte>
      requires Valid()
      reads this
    {
      LiveOffset();
      Flat(chain[startIndex..])[beginOffset..]
    }

    lemma LiveOffset()
      requires Valid()
      ensures beginOffset <= |Flat(chain[startIndex..])|
    {
      if startIndex < |chain| {
        FlatFirst(chain, startIndex);
      }
    }

    constructor ()
      ensures Valid() && HasFront() && Content() == [] && chain == []
    {
      chain, chainLength, beginOffset, startIndex := [], 0, 0, 0;
    }

    function Size(): (n: nat)
      requires Valid()
      reads this
      ensures n == |Content()|
    {
      LiveOffset();
      chainLength - beginOffset
    }

    function FrontSize(): (n: nat)
      requires Valid() && HasFront()
      reads this
      ensures n <= |Content()| && (chain == [] ==> n == 0)
      ensures chain != [] ==> Content()[..n] == chain[startIndex].Bytes()[beginOffset..]
    {
      if chain == [] then 0
      else
        FlatFirst(chain, startIndex);
        chain[startIndex].size - beginOffset
    }

    method Append(block: Block)
      requires Valid() && block.Ok()
      modifies this
      ensures Valid() && Content() == old(Content()) + block.Bytes()
      ensures old(HasFront()) ==> HasFront()
      ensures startIndex == old(startIndex) && beginOffset == old(beginOffset)
      ensures chain == old(chain) + if block.size == 0 then [] else [block]
    {
      if block.size == 0 {
        return;
      }
      LiveOffset();
      FlatPush(chain, startIndex, beginOffset, block);
      chainLength := chainLength + block.size;
      chain := chain + [block];
    }

    /** The last block is handed out so that its storage can be reused. */
    method Clear() returns (res: Block)
      requires AllOk(chain)
      modifies this
      ensures Valid() && HasFront() && Content() == [] && res.Ok()
    {
      chainLength, beginOffset, startIndex := 0, 0, 0;
      res := EmptyBlock;
      if chain != [] {
        res := chain[|chain| - 1];
      }
      chain := [];
    }

    /** `operator=(IOVector&&)`. */
    method MoveFrom(other: IOVector)
      requires other.Valid() && other != this
      modifies this, other
      ensures Valid() && Content() == old(other.Content()) && (old(other.HasFront()) ==> HasFront())
      ensures other.Valid() && other.HasFront() && other.Content() == []
    {
      chain := other.chain;
      chainLength := other.chainLength;
      beginOffset := other.beginOffset;
      startIndex := other.startIndex;
      other.chain := [];
      var _ := other.Clear();
    }

    /** `trim_chain_front`: forget the blocks before the start index. */
    method TrimChainFront()
      requires Valid()
      modifies this`chain, this`startIndex
      ensures Valid() && Content() == old(Content()) && startIndex == 0
      ensures chain == old(chain[startIndex..])
      ensures old(startIndex < |chain|) ==> HasFront()
    {
      LiveOffset();
      if startIndex != 0 {
        chain := chain[startIndex..];
        startIndex := 0;
      }
      assert chain[0..] == chain;
    }

    /** `pop_front_block`. */
    method PopFrontBlock(ghost n: nat)
      requires Valid() && startIndex < |chain| && n == chain[startIndex].size - beginOffset
      modifies this
      ensures Valid() && beginOffset == 0
      ensures n <= |old(Content())| && Content() == old(Content())[n..]
      ensures chain[startIndex..] == old(chain[startIndex + 1..])
      ensures Runs() == old(Runs()[1..])
    {
      AfterFront(n);
      Release();
      if startIndex > (if 4 > |chain| / 2 then 4 else |chain| / 2) {
        TrimChainFront();
      }
    }

    /** What lies behind the unread part of the front block. */
    lemma AfterFront(n: nat)
      requires Valid() && startIndex < |chain| && n == chain[startIndex].size - beginOffset
      ensures n <= |Content()| && Content()[n..] == Flat(chain[startIndex + 1..])
      ensures Runs()[1..] == RunsOf(chain[startIndex + 1..], 0)
    {
      FlatFirst(chain, startIndex);
      assert chain[startIndex..][1..] == chain[startIndex + 1..];
    }

    ghost function Runs(): seq<nat>
      requires Valid()
      reads this
    {
      RunsOf(chain[startIndex..], beginOffset)
    }

    /** Drop whole blocks and then part of one; the counter may not wrap while blocks are popped. */
    method DropFront(len: nat)
      requires Valid() && HasFront() && len <= |Content()|
      requires len < |Content()| ==> Fits(Runs(), 0, len)
      modifies this
      ensures Valid() && HasFront()
      ensures Content() == old(Content())[len..]
    {
      if len == 0 {
        return;
      }
      if len == Size() {
        var _ := Clear();
        return;
      }
      ghost var whole := Content();
      var dropped: nat := 0;
      while dropped < len
        invariant Valid() && HasFront() && dropped <= len < |whole| && Content() == whole[dropped..]
        invariant dropped < len ==> Fits(Runs(), dropped, len)
        decreases len - dropped, |chain| - startIndex
      {
        dropped := DropNext(dropped, len, whole);
      }
    }

    /** One turn of the loop: pop a whole block, or step over the rest. */
    method DropNext(dropped: nat, len: nat, ghost whole: seq<byte>) returns (now: nat)
      requires Valid() && HasFront() && dropped < len < |whole| && Content() == whole[dropped..]
      requires Fits(Runs(), dropped, len)
      modifies this
      ensures Valid() && HasFront() && dropped < now <= len && Content() == whole[now..]
      ensures now < len ==> Fits(Runs(), now, len)
    {
      FrontIsPrefix();
      var next: nat := chain[startIndex].size - beginOffset;
      if dropped + next <= len {
        assert Runs()[0] == next && dropped + next < UINT32_LIMIT;
        TakeMore(whole, dropped, next, dropped + next);
        PopFrontBlock(next);
        now := WrappingAdd(dropped, next);
        FrontIsPrefix();
      } else {
        var rest: nat := len - dropped;
        TakeMore(whole, dropped, rest, len);
        AdvanceFront(rest);
        now := len;
      }
    }

    /** Step over part of the front block. */
    method AdvanceFront(n: nat)
      requires Valid() && startIndex < |chain| && beginOffset + n < chain[startIndex].size
      modifies this`beginOffset
      ensures Valid() && HasFront() && n <= |old(Content())| && Content() == old(Content())[n..]
    {
      FlatFirst(chain, startIndex);
      beginOffset := beginOffset + n;
    }

    /** A non-empty queue has a live block, and its unread bytes come first. */
    lemma FrontIsPrefix()
      requires Valid() && Content() != []
      ensures startIndex < |chain|
      ensures Content() == chain[startIndex].Bytes()[beginOffset..] + Flat(chain[startIndex + 1..])
    {
      FlatFirst(chain, startIndex);
    }

    // ---------- take_front ----------

    /** Append a block of which the first `offset` bytes are already consumed. */
    method Receive(block: Block, offset: nat)
      requires Valid() && startIndex == 0 && block.Ok() && offset < block.size && (offset != 0 ==> chain == [])
      modifies this
      ensures Valid() && HasFront() && startIndex == 0 && Content() == old(Content()) + block.Bytes()[offset..]
      ensures chain == old(chain) + [block]
    {
      Append(block);
      if offset != 0 {
        assert chain[0..] == [block];
        FlatFirst(chain, 0);
        beginOffset := offset;
      }
    }

    /** Step past the front block, whose bytes have been moved out. */
    method Release()
      requires Valid() && startIndex < |chain|
      modifies this
      ensures Valid() && beginOffset == 0 && startIndex == old(startIndex) + 1 && |chain| == old(|chain|)
      ensures Content() == old(Flat(chain[startIndex + 1..]))
      ensures chain[startIndex..] == old(chain[startIndex + 1..])
    {
      FlatFirst(chain, startIndex);
      chainLength := chainLength - chain[startIndex].size;
      chain := chain[startIndex := EmptyBlock];
      beginOffset := 0;
      startIndex := startIndex + 1;
      assert chain[startIndex..] == old(chain[startIndex + 1..]);
    }

    /** Move the whole front block, with its offset, to the end of `res`. */
    method MoveFrontBlock(res: IOVector)
      requires Valid() && startIndex < |chain|
      requires res != this && res.Valid() && res.startIndex == 0 && (beginOffset != 0 ==> res.chain == [])
      modifies this, res
      ensures Valid() && beginOffset == 0 && res.Valid() && res.startIndex == 0
      ensures |chain| - startIndex == old(|chain| - startIndex) - 1
      ensures var n := old(chain[startIndex].size - beginOffset);
        && n <= |old(Content())|
        && res.Content() == old(res.Content()) + old(Content())[..n] && Content() == old(Content())[n..]
    {
      FlatFirst(chain, startIndex);
      var block := chain[startIndex];
      assert Content()[..block.size - beginOffset] == block.Bytes()[beginOffset..];
      assert Content()[block.size - beginOffset..] == Flat(chain[startIndex + 1..]);
      if block.size > beginOffset {
        res.Receive(block, beginOffset);
        Release();
      } else {
        // A front block is never used up: it is popped with its last byte.
        assert false;
      }
    }

    /** Split the front block; the bytes before the cut go to `res`, by copy or by move. */
    method SplitFrontBlock(len: nat, res: IOVector)
      requires Valid() && startIndex < |chain| && 0 < len < chain[startIndex].size - beginOffset
      requires res != this && res.Valid() && res.startIndex == 0
      modifies this, res
      ensures Valid() && HasFront() && res.Valid() && res.HasFront()
      ensures len <= |old(Content())|
      ensures res.Content() == old(res.Content()) + old(Content())[..len] && Content() == old(Content())[len..]
    {
      FlatFirst(chain, startIndex);
      var first := chain[startIndex];
      assert Content()[..len] == first.Bytes()[beginOffset..beginOffset + len];
      if beginOffset != 0 || len < first.size / 2 {
        res.Receive(BlockOf(first.Bytes()[beginOffset..beginOffset + len]), 0);
        AdvanceFront(len);
      } else {
        res.Receive(first.Resize(len), 0);
        KeepTail(len);
      }
    }

    /** Copy the tail of the front block back in, after its storage was moved out. */
    method KeepTail(len: nat)
      requires Valid() && startIndex < |chain| && beginOffset == 0 && 0 < len < chain[startIndex].size
      modifies this
      ensures Valid() && HasFront() && len <= |old(Content())| && Content() == old(Content())[len..]
    {
      FlatFirst(chain, startIndex);
      var tail := BlockOf(chain[startIndex].Bytes()[len..]);
      ReplaceFront(tail);
      assert old(Content())[len..] == tail.Bytes() + Flat(old(chain[startIndex + 1..]));
    }

    method ReplaceFront(tail: Block)
      requires Valid() && startIndex < |chain| && beginOffset == 0 && tail.Ok() && tail.size > 0
      modifies this
      ensures Valid() && HasFront() && beginOffset == 0
      ensures Content() == tail.Bytes() + Flat(old(chain[startIndex + 1..]))
    {
      FlatFirst(chain, startIndex);
      chainLength := chainLength - chain[startIndex].size + tail.size;
      chain := chain[startIndex := tail];
      assert chain[startIndex + 1..] == old(chain[startIndex + 1..]);
      FlatFirst(chain, startIndex);
    }

    static lemma TakeMore(whole: seq<byte>, k: nat, n: nat, m: nat)
      requires m == k + n <= |whole|
      ensures whole[..k] + whole[k..][..n] == whole[..m]
      ensures whole[k..][n..] == whole[m..]
    {
    }

    /** Split the first `len` bytes out of this chain into its own. */
    method TakeFront(len: nat) returns (res: IOVector)
      requires Valid() && HasFront() && len <= |Content()|
      modifies this
      ensures Valid() && HasFront() && fresh(res) && res.Valid() && res.HasFront()
      ensures res.Content() == old(Content())[..len] && Content() == old(Content())[len..]
    {
      res := new IOVector();
      if len == 0 {
        return;
      }
      if len == Size() {
        res.MoveFrom(this);
        return;
      }
      ghost var whole := Content();
      FrontIsPrefix();
      var left, taken := TakeBlocks(len, res);
      TakeMore(whole, taken, left, len);
      if left > 0 {
        SplitFrontBlock(left, res);
      }
    }

    /** Move whole blocks to the empty chain `res`, as long as they are wanted completely. */
    method TakeBlocks(len: nat, res: IOVector) returns (left: nat, ghost taken: nat)
      requires Valid() && startIndex < |chain| && len < |Content()|
      requires res != this && res.Valid() && res.startIndex == 0 && res.chain == [] && res.Content() == []
      modifies this, res
      ensures Valid() && startIndex < |chain| && res.Valid() && res.startIndex == 0
      ensures taken + left == len && left < chain[startIndex].size - beginOffset
      ensures res.Content() == old(Content())[..taken] && Content() == old(Content())[taken..]
    {
      left, taken := len, 0;
      ghost var whole := Content();
      while chain[startIndex].size - beginOffset <= left
        invariant Valid() && startIndex < |chain| && res.Valid() && res.startIndex == 0
        invariant beginOffset != 0 ==> res.chain == []
        invariant taken + left == len < |whole|
        invariant res.Content() == whole[..taken] && Content() == whole[taken..]
        decreases |chain| - startIndex
      {
        var n: nat := chain[startIndex].size - beginOffset;
        TakeMore(whole, taken, n, taken + n);
        left := left - n;
        MoveFrontBlock(res);
        taken := taken + n;
        FrontIsPrefix();
      }
    }

    // ---------- trim_front ----------

    /** Give back the consumed bytes at the front; the queue does not change. */
    method TrimFront()
      requires Valid() && HasFront()
      modifies this
      ensures Valid() && HasFront() && Content() == old(Content())
      ensures beginOffset == 0 && startIndex == 0
    {
      if (beginOffset == 0 && startIndex == 0) || chain == [] {
        return;
      }
      FlatFirst(chain, startIndex);
      var first := chain[startIndex];
      if beginOffset == first.size {
        assert false;
      } else {
        var trimmed := Compact(first, beginOffset);
        beginOffset := 0;
        ReplaceFront(trimmed);
      }
      TrimChainFront();
    }

    // ---------- coalesce and iovecs ----------

    /** The unread bytes of live block `i`. */
    function Piece(i: nat): seq<byte>
      requires Valid() && startIndex <= i < |chain|
      reads this
    {
      if i == startIndex then chain[i].Bytes()[beginOffset..] else chain[i].Bytes()
    }

    /** The pieces the blocks of a chain contribute to the queue. */
    ghost function Pieces(): (pieces: seq<seq<byte>>)
      requires Valid()
      reads this
    {
      PiecesOf(chain[startIndex..], beginOffset)
    }

    lemma PiecesJoin()
      requires Valid()
      ensures Joined(Pieces()) == Content() && |Pieces()| == |chain| - startIndex
    {
      JoinedPieces(chain[startIndex..], beginOffset);
    }

    lemma PieceIs(i: nat, k: nat)
      requires Valid() && startIndex <= i < |chain| && k == i - startIndex
      ensures k < |Pieces()| && Piece(i) == Pieces()[k]
    {
      PieceAt(chain[startIndex..], beginOffset, k);
    }

    lemma PiecesMeanContent()
      requires Valid()
      ensures Joined(Pieces()) == Content() && |Pieces()| == |chain| - startIndex
      ensures forall i {:trigger Piece(i)} :: startIndex <= i < |chain| ==> Piece(i) == Pieces()[i - startIndex]
    {
      PiecesJoin();
      forall i {:trigger Piece(i)} | startIndex <= i < |chain|
        ensures Piece(i) == Pieces()[i - startIndex]
      {
        PieceIs(i, i - startIndex);
      }
    }

    /** `iovecs`: one buffer for each live block. */
    method Iovecs() returns (result: seq<seq<byte>>)
      requires Valid()
      ensures Joined(result) == Content()
      ensures forall i :: 0 <= i < |result| ==> result[i] != []
    {
      result := [];
      if Size() == 0 {
        return;
      }
      PiecesMeanContent();
      var i := startIndex;
      while i < |chain|
        invariant startIndex <= i <= |chain|
        invariant result == Pieces()[..i - startIndex]
        invariant forall j :: 0 <= j < |result| ==> result[j] != []
      {
        result := result + [Piece(i)];
        i := i + 1;
      }
      assert Pieces()[..|Pieces()|] == Pieces();
    }

    /** The copying `coalesce() const&`. */
    method CoalesceCopy() returns (result: Block)
      requires Valid()
      ensures result.Ok() && result.Bytes() == Content()
    {
      if Size() == 0 {
        return EmptyBlock;
      }
      PiecesMeanContent();
      ghost var pieces := Pieces();
      result := BlockOf(seq(Size(), _ => 0));
      var offset: nat := 0;
      var i := startIndex;
      while i < |chain|
        invariant startIndex <= i <= |chain|
        invariant result.size == |result.store| == |Joined(pieces)|
        invariant offset <= |result.store| && result.store[..offset] == Joined(pieces[..i - startIndex])
      {
        var piece := Piece(i);
        JoinedUpTo(pieces, i - startIndex);
        PatchAppends(result, offset, piece);
        result := result.Patch(offset, piece);
        offset := offset + |piece|;
        i := i + 1;
      }
      assert pieces[..|pieces|] == pieces;
    }

    /** Hand out the last block of the chain. */
    method PopBack() returns (block: Block)
      requires Valid() && startIndex < |chain|
      requires startIndex + 1 == |chain| ==> beginOffset == 0
      modifies this
      ensures Valid() && block == old(chain[|chain| - 1])
    {
      var last := |chain| - 1;
      assert chain[startIndex..] == chain[startIndex..last] + [chain[last]];
      FlatConcat(chain[startIndex..last], [chain[last]]);
      chainLength := chainLength - chain[last].size;
      block := chain[last];
      chain := chain[..last];
      assert chain[startIndex..] == old(chain[startIndex..last]);
    }

    /** Move the bytes from `offset` on to the front of the block. */
    static function Compact(block: Block, offset: nat): (r: Block)
      requires block.Ok() && offset <= block.size
      ensures r.Ok() && r.size == block.size - offset && |r.store| == |block.store|
      ensures r.Bytes() == block.Bytes()[offset..]
    {
      var rest := block.Bytes()[offset..];
      var r := block.Patch(0, rest).Resize(block.size - offset);
      assert r.Bytes() == rest;
      r
    }

    /** Copy all later blocks behind the bytes of the first one, whose storage is large enough. */
    method Gather(first: Block, ghost pieces: seq<seq<byte>>) returns (res: Block)
      requires Valid() && startIndex < |chain| && pieces == Pieces() && first.Ok()
      requires first.Bytes() == pieces[0] && |Joined(pieces)| <= |first.store|
      ensures res.Ok() && res.Bytes() == Joined(pieces)
    {
      PiecesMeanContent();
      res := first;
      var size: nat := first.size;
      var i := startIndex + 1;
      assert pieces[..1] == [pieces[0]];
      JoinedUpTo(pieces, 0);
      while i < |chain|
        invariant startIndex < i <= |chain|
        invariant |res.store| == |first.store| && size <= |res.store|
        invariant res.store[..size] == Joined(pieces[..i - startIndex])
      {
        var piece := Piece(i);
        JoinedUpTo(pieces, i - startIndex);
        PatchAppends(res, size, piece);
        res := res.Patch(size, piece);
        size := size + |piece|;
        i := i + 1;
      }
      assert pieces[..|pieces|] == pieces;
      res := res.Resize(size);
    }

    /**
     The destructive `coalesce() &&`: whichever block or copy it returns holds exactly the queue, and
     the chain is left valid, although not necessarily empty.
     */
    method Coalesce() returns (res: Block)
      requires Valid() && HasFront()
      modifies this
      ensures res.Ok() && res.Bytes() == old(Content())
      ensures Valid()
    {
      if Size() == 0 {
        return EmptyBlock;
      }
      FrontIsPrefix();
      if beginOffset == chain[startIndex].size && |chain| == startIndex + 2 {
        assert false;
      }
      if |chain| == startIndex + 1 {
        var offset := beginOffset;
        beginOffset := 0;
        res := PopBack();
        res := Compact(res, offset);
        return;
      }
      if |chain[startIndex].store| >= Size() {
        PiecesMeanContent();
        var first := Compact(chain[startIndex], beginOffset);
        res := Gather(first, Pieces());
        Release();
        return;
      }
      res := CoalesceCopy();
    }
  }

  lemma PatchAppends(block: Block, offset: nat, bytes: seq<byte>)
    requires offset + |bytes| <= |block.store|
    ensures block.Patch(offset, bytes).store[..offset + |bytes|] == block.store[..offset] + bytes
    ensures |block.Patch(offset, bytes).store| == |block.store|
  {
  }

  ghost function Joined(pieces: seq<seq<byte>>): seq<byte> {
    if pieces == [] then [] else pieces[0] + Joined(pieces[1..])
  }

  /** Joining one piece more. */
  lemma {:induction false} JoinedUpTo(pieces: seq<seq<byte>>, k: nat)
    requires k < |pieces|
    ensures Joined(pieces[..k + 1]) == Joined(pieces[..k]) + pieces[k]
    ensures |Joined(pieces[..k + 1])| <= |Joined(pieces)|
  {
    assert pieces[..k + 1][1..] == pieces[1..][..k];
    if k > 0 {
      assert pieces[..k][1..] == pieces[1..][..k - 1];
      JoinedUpTo(pieces[1..], k - 1);
    }
  }

  ghost function PiecesOf(blocks: seq<Block>, offset: nat): (pieces: seq<seq<byte>>)
    requires AllOk(blocks) && (blocks != [] ==> offset <= blocks[0].size)
    ensures |pieces| == |blocks|
  {
    if blocks == [] then [] else [blocks[0].Bytes()[offset..]] + PiecesOf(blocks[1..], 0)
  }

  lemma {:induction false} PieceAt(blocks: seq<Block>, offset: nat, k: nat)
    requires AllOk(blocks) && k < |blocks| && offset <= blocks[0].size
    ensures PiecesOf(blocks, offset)[k] == if k == 0 then blocks[0].Bytes()[offset..] else blocks[k].Bytes()
  {
    if k > 0 {
      PieceAt(blocks[1..], 0, k - 1);
    }
  }

  /** `n` pieces of at most `limit` bytes: what a writev that takes no more than `n` blocks can write. */
  lemma {:induction false} CutIsShort(pieces: seq<seq<byte>>, n: nat, limit: nat)
    requires |pieces| <= n && forall i :: 0 <= i < |pieces| ==> |pieces[i]| <= limit
    ensures |Joined(pieces)| <= n * limit
  {
    if pieces != [] {
      CutIsShort(pieces[1..], n - 1, limit);
      assert n * limit == (n - 1) * limit + limit;
    }
  }

  lemma {:induction false} JoinedPieces(blocks: seq<Block>, offset: nat)
    requires AllOk(blocks) && offset <= (if blocks == [] then 0 else blocks[0].size)
    ensures offset <= |Flat(blocks)| && Joined(PiecesOf(blocks, offset)) == Flat(blocks)[offset..]
  {
    if blocks != [] {
      JoinedPieces(blocks[1..], 0);
      assert PiecesOf(blocks, offset)[1..] == PiecesOf(blocks[1..], 0);
    }
  }
}
