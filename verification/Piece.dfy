/** One piece of the torrent: its blocks, their bookkeeping and the bytes collected so far. */
module Pieces {
  import opened Bytes
  import opened Bitfields

  const BLOCK_SIZE: nat := 16384

  datatype PieceError = BadOffset | BlockTooBig | BlockOverflows | OutOfRange

  function BlockCountOf(size: nat): nat {
    size / BLOCK_SIZE + (if size % BLOCK_SIZE != 0 then 1 else 0)
  }

  /** The length that a REQUEST names for block `b` of a piece of `size` bytes. */
  function RequestLength(size: nat, b: nat): nat {
    if b * BLOCK_SIZE + BLOCK_SIZE > size then size % BLOCK_SIZE else BLOCK_SIZE
  }

  /** The blocks tile the piece. */
  lemma BlocksTile(size: nat, b: nat)
    requires b < BlockCountOf(size)
    ensures 0 < RequestLength(size, b) <= BLOCK_SIZE
    ensures b * BLOCK_SIZE + RequestLength(size, b)
         == if b + 1 < BlockCountOf(size) then (b + 1) * BLOCK_SIZE else size
  {}

  /** The value of a `Piece` object. */
  datatype PieceState = PieceState(id: nat, size: nat, requested: Bits, done: Bits, data: Bytes, written: bool)
  {
    function BlockCount(): nat {
      BlockCountOf(size)
    }

    /** The test at the end of `set_block`: is every block here? */
    predicate Complete() {
      var next := FirstAt(done, false, 0);
      next.None? || next.value >= BlockCount()
    }

    ghost predicate Ok() {
      && size > 0
      && |requested| == |done| == 8 * ByteCount(BlockCount())
      && (if written then data == [] && Complete() else |data| == size)
    }

    /** The block that `next_offset` names: the first one neither requested nor done. */
    function NextBlock(): Option<nat>
      requires size > 0
    {
      var next := FirstAt(Union(requested, done), false, 0);
      if next.None? || next.value > BlockCount() - 1 then None else next
    }

    function MarkNext(): PieceState
      requires Ok()
    {
      var next := NextBlock();
      if next.None? then this else this.(requested := WithBit(requested, next.value, true))
    }

    /** What `set_block` throws, in the order of its tests. */
    function BlockError(offset: nat, length: nat): Option<PieceError> {
      if offset % BLOCK_SIZE != 0 then Some(BadOffset)
      else if length > BLOCK_SIZE then Some(BlockTooBig)
      else if length + offset > size then Some(BlockOverflows)
      else if offset / BLOCK_SIZE >= |done| then Some(OutOfRange)
      else None
    }

    /** A block is stored the first time it arrives; a copy of no bytes changes no data. */
    function StoreBlock(offset: nat, d: Bytes): PieceState
      requires Ok() && BlockError(offset, |d|).None?
    {
      var b := offset / BLOCK_SIZE;
      if done[b] then this
      else if d == [] then this.(done := WithBit(done, b, true))
      else
        AnUndoneBlockIsInMemory(this, offset, |d|);
        this.(data := Overwrite(data, offset, d), done := WithBit(done, b, true))
    }

    function SetWritten(): PieceState {
      this.(written := true, done := Filled(done, 0, BlockCount(), true), data := [])
    }

    /** `retry_blocks`; `timedOut` stands for the 30 second test. */
    function Retry(timedOut: bool): PieceState {
      if RetryApplies(timedOut) then this.(requested := NoBits(BlockCount())) else this
    }

    predicate RetryApplies(timedOut: bool) {
      !written && timedOut && FirstAt(requested, true, 0).Some?
    }

    function RetryCount(timedOut: bool): nat {
      if RetryApplies(timedOut) then CountTrue(Difference(requested, done)) else 0
    }

    function Reset(): PieceState {
      PieceState(id, size, NoBits(BlockCount()), NoBits(BlockCount()), Zeros(size), false)
    }
  }

  function NewPiece(id: nat, size: nat): PieceState {
    PieceState(id, size, NoBits(BlockCountOf(size)), NoBits(BlockCountOf(size)), Zeros(size), false)
  }

  lemma AnUndoneBlockIsInMemory(p: PieceState, offset: nat, length: nat)
    requires p.Ok() && p.BlockError(offset, length).None? && length > 0 && !p.done[offset / BLOCK_SIZE]
    ensures !p.written && offset + length <= |p.data|
  {
    assert offset / BLOCK_SIZE < p.BlockCount();
    CompleteIff(p);
  }

  lemma CompleteIff(p: PieceState)
    requires |p.done| == 8 * ByteCount(p.BlockCount())
    ensures p.Complete() <==> forall k :: 0 <= k < p.BlockCount() ==> p.done[k]
  {
    var next := FirstAt(p.done, false, 0);
  }

  lemma MarkOk(p: PieceState)
    requires p.Ok()
    ensures p.MarkNext().Ok() && p.MarkNext().Complete() == p.Complete()
    ensures p.MarkNext() == p.(requested := p.MarkNext().requested)
  {}

  lemma RetryOk(p: PieceState, timedOut: bool)
    requires p.Ok()
    ensures p.Retry(timedOut).Ok() && p.Retry(timedOut).Complete() == p.Complete()
    ensures p.Retry(timedOut) == p.(requested := p.Retry(timedOut).requested)
  {}

  lemma StoreOk(p: PieceState, offset: nat, d: Bytes)
    requires p.Ok() && p.BlockError(offset, |d|).None?
    ensures p.StoreBlock(offset, d).Ok()
  {
    StoreKeepsComplete(p, offset, d);
  }

  lemma SetWrittenOk(p: PieceState)
    requires p.Ok()
    ensures p.SetWritten().Ok() && p.SetWritten().Complete()
  {
    CompleteIff(p.SetWritten());
  }

  lemma ResetOk(p: PieceState)
    requires p.Ok()
    ensures p.Reset().Ok() && !p.Reset().Complete()
  {
    CompleteIff(p.Reset());
  }

  /** A stored block never takes a piece's completeness away. */
  lemma StoreKeepsComplete(p: PieceState, offset: nat, d: Bytes)
    requires p.Ok() && p.BlockError(offset, |d|).None?
    ensures p.Complete() ==> p.StoreBlock(offset, d).Complete()
  {
    CompleteIff(p);
    CompleteIff(p.StoreBlock(offset, d));
  }

  lemma NewPieceOk(id: nat, size: nat)
    requires size > 0
    ensures NewPiece(id, size).Ok() && !NewPiece(id, size).Complete()
  {
    CompleteIff(NewPiece(id, size));
  }

  /** `next_offset` names a block exactly when one is neither requested nor done, and then the first such block. */
  lemma NextBlockIsFirstOpen(p: PieceState)
    requires p.Ok()
    ensures var next := p.NextBlock();
            && (next.Some? <==> exists b :: 0 <= b < p.BlockCount() && !p.requested[b] && !p.done[b])
            && (next.Some? ==>
                  && next.value < p.BlockCount() && !p.requested[next.value] && !p.done[next.value]
                  && forall b :: 0 <= b < next.value ==> p.requested[b] || p.done[b])
  {
    var u := Union(p.requested, p.done);
    var next := FirstAt(u, false, 0);
    forall b | 0 <= b < |u|
      ensures u[b] == (p.requested[b] || p.done[b])
    {}
  }

  /** A fresh piece has a block to request. */
  lemma NewPieceIsOpen(id: nat, size: nat)
    requires size > 0
    ensures NewPiece(id, size).NextBlock().Some?
  {
    NewPieceOk(id, size);
    NextBlockIsFirstOpen(NewPiece(id, size));
    assert !NewPiece(id, size).requested[0];
  }

  /** After a retry the requestable blocks are exactly those not done. */
  lemma RetryReopensUndone(p: PieceState)
    requires p.Ok() && p.RetryApplies(true)
    ensures var q := p.Retry(true);
            && q.done == p.done && q.data == p.data
            && forall b :: 0 <= b < p.BlockCount() ==> (!q.requested[b] && !q.done[b] <==> !p.done[b])
  {}

  /** Marking requests the next block, if there is one, and nothing else. */
  lemma MarkNextMarksOne(p: PieceState)
    requires p.Ok()
    ensures p.MarkNext() == p.(requested := p.MarkNext().requested) && |p.MarkNext().requested| == |p.requested|
    ensures forall b: nat :: BitAt(p.MarkNext().requested, b) <==> BitAt(p.requested, b) || p.NextBlock() == Some(b)
  {}

  /** A block is accepted exactly if it starts like a block and fits into it, or is empty and starts behind the last one. */
  lemma AcceptedIff(p: PieceState, offset: nat, length: nat)
    requires p.Ok()
    ensures p.BlockError(offset, length).None? <==>
              && offset % 16384 == 0
              && (if offset < p.size then length <= RequestLength(p.size, offset / 16384)
                  else length == 0 && offset == p.size && p.BlockCount() % 8 != 0)
  {}

  /** An accepted block makes its block done and no other; bytes outside it stay, and a done block is not stored again. */
  lemma StoreMarksOne(p: PieceState, offset: nat, d: Bytes)
    requires p.Ok() && p.BlockError(offset, |d|).None?
    ensures var q := p.StoreBlock(offset, d);
            && q == p.(done := q.done, data := q.data) && |q.done| == |p.done| && |q.data| == |p.data|
            && (forall b: nat :: BitAt(q.done, b) <==> BitAt(p.done, b) || b == offset / 16384)
            && (forall i :: 0 <= i < |q.data| && !(offset <= i < offset + |d|) ==> q.data[i] == p.data[i])
            && (BitAt(p.done, offset / 16384) ==> q == p)
            && (!BitAt(p.done, offset / 16384) && d != [] ==> offset + |d| <= |q.data| && q.data[offset..offset + |d|] == d)
  {
    if !p.done[offset / BLOCK_SIZE] && d != [] {
      AnUndoneBlockIsInMemory(p, offset, |d|);
      OverwriteSlices(p.data, offset, d, 0, 0);
    }
  }

  /** A new piece and one that was reset: nothing is requested or done. */
  lemma NewPieceIs(p: PieceState)
    ensures p.Reset() == NewPiece(p.id, p.size)
    ensures var q := NewPiece(p.id, p.size);
            && q.id == p.id && q.size == p.size && |q.data| == q.size && !q.written
            && forall b: nat :: !BitAt(q.requested, b) && !BitAt(q.done, b)
  {}

  /** Exactly when a retry has an effect: the piece is not written, it timed out, and something is requested. */
  lemma RetryAppliesIff(p: PieceState, timedOut: bool)
    ensures p.RetryApplies(timedOut) <==> !p.written && timedOut && exists b: nat :: BitAt(p.requested, b)
    ensures !p.RetryApplies(timedOut) ==> p.Retry(timedOut) == p
    ensures p.RetryApplies(timedOut) ==>
              p.Retry(timedOut) == p.(requested := p.Retry(timedOut).requested)
              && forall b: nat :: !BitAt(p.Retry(timedOut).requested, b)
  {
    if b: nat :| BitAt(p.requested, b) {
      assert FirstAt(p.requested, true, 0).Some?;
    }
    if FirstAt(p.requested, true, 0).Some? {
      assert BitAt(p.requested, FirstAt(p.requested, true, 0).value);
    }
  }

  /** What a retry counts: the blocks that were requested and are not done. */
  lemma RetryCountIs(p: PieceState, timedOut: bool)
    requires p.Ok()
    ensures var lost := set b | 0 <= b < |p.requested| && p.requested[b] && !p.done[b];
            p.RetryCount(timedOut) == if p.RetryApplies(timedOut) then |lost| else 0
  {
    CountTrueIsSize(Difference(p.requested, p.done));
    assert TrueBits(Difference(p.requested, p.done)) == set b | 0 <= b < |p.requested| && p.requested[b] && !p.done[b];
  }

  /** A written piece has all its blocks, keeps its requests, and holds no bytes. */
  lemma SetWrittenIs(p: PieceState)
    requires p.Ok()
    ensures var q := p.SetWritten();
            && q == p.(written := true, done := q.done, data := []) && |q.done| == |p.done|
            && forall b: nat :: BitAt(q.done, b) <==> BitAt(p.done, b) || b < p.BlockCount()
  {}

  class Piece {
    const id: nat
    const size: nat
    var requested: Bits
    var done: Bits
    var data: Bytes
    var written: bool

    ghost function State(): PieceState
      reads this
    {
      PieceState(id, size, requested, done, data, written)
    }

    constructor (id: nat, size: nat)
      ensures State() == NewPiece(id, size)
    {
      this.id := id;
      this.size := size;
      requested := NoBits(BlockCountOf(size));
      done := NoBits(BlockCountOf(size));
      data := Zeros(size);
      written := false;
    }

    function BlockCount(): nat {
      BlockCountOf(size)
    }

    method NextOffset(mark: bool) returns (offset: Option<nat>)
      requires State().Ok()
      modifies if mark then {this} else {}
      ensures var next := old(State().NextBlock());
              offset == if next.None? then None else Some(next.value * BLOCK_SIZE)
      ensures State() == if mark then old(State().MarkNext()) else old(State())
    {
      var next := FirstAt(Union(requested, done), false, 0);
      if next.None? || next.value > BlockCount() - 1 {
        return None;
      }
      if mark {
        requested := WithBit(requested, next.value, true);
      }
      return Some(next.value * BLOCK_SIZE);
    }

    method SetBlock(offset: nat, block: Bytes) returns (r: Result<bool, PieceError>)
      requires State().Ok()
      modifies this
      ensures var error := old(State().BlockError(offset, |block|));
              if error.Some? then r == Err(error.value) && State() == old(State())
              else State() == old(State().StoreBlock(offset, block)) && r == Ok(State().Complete())
    {
      if offset % BLOCK_SIZE != 0 {
        return Err(BadOffset);
      }
      if |block| > BLOCK_SIZE {
        return Err(BlockTooBig);
      }
      if |block| + offset > size {
        return Err(BlockOverflows);
      }
      var blockId := offset / BLOCK_SIZE;
      if blockId >= |done| {
        return Err(OutOfRange);
      }
      if !done[blockId] {
        if block != [] {
          AnUndoneBlockIsInMemory(State(), offset, |block|);
          data := Overwrite(data, offset, block);
        }
        done := WithBit(done, blockId, true);
      }
      var next := FirstAt(done, false, 0);
      return Ok(next.None? || next.value >= BlockCount());
    }

    method SetPieceWritten()
      requires State().Ok()
      modifies this
      ensures State() == old(State().SetWritten())
    {
      written := true;
      var i := 0;
      while i < BlockCount()
        invariant i <= BlockCount() <= |done|
        invariant done == Filled(old(done), 0, i, true)
        invariant requested == old(requested) && data == old(data) && written
      {
        FilledStep(old(done), 0, i, true);
        done := WithBit(done, i, true);
        i := i + 1;
      }
      data := [];
    }

    method RetryBlocks(timedOut: bool) returns (retry: nat)
      modifies this
      ensures State() == old(State().Retry(timedOut)) && retry == old(State().RetryCount(timedOut))
    {
      if written {
        return 0;
      }
      if timedOut && FirstAt(requested, true, 0).Some? {
        retry := CountTrue(Difference(requested, done));
        requested := NoBits(BlockCount());
        return;
      }
      return 0;
    }

    method ResetPiece()
      modifies this
      ensures State() == old(State().Reset())
    {
      requested := NoBits(BlockCount());
      done := NoBits(BlockCount());
      data := Zeros(size);
      written := false;
    }
  }
}
