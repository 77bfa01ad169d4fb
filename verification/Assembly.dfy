/** Assembling a piece from blocks that arrive in any order, any number of times. */
module Assembly {
  import opened Bytes
  import opened Pieces

  /** Block `b` of the byte string `t`. */
  function BlockOf(t: Bytes, b: nat): Bytes
    requires b < BlockCountOf(|t|)
  {
    BlocksTile(|t|, b);
    t[b * BLOCK_SIZE..b * BLOCK_SIZE + RequestLength(|t|, b)]
  }

  /** Every arrival is a block of `t`. */
  predicate BlocksIn(t: Bytes, arrivals: seq<nat>) {
    forall k :: 0 <= k < |arrivals| ==> arrivals[k] < BlockCountOf(|t|)
  }

  /** A fresh piece after the blocks `arrivals` of `t` were given to `set_block`, one after the other. */
  function Assembled(id: nat, t: Bytes, arrivals: seq<nat>): (p: PieceState)
    requires t != [] && BlocksIn(t, arrivals)
    ensures p.Ok() && p.size == |t| && !p.written
  {
    if arrivals == [] then
      NewPieceOk(id, |t|);
      NewPiece(id, |t|)
    else
      var n := |arrivals| - 1;
      var p := Assembled(id, t, arrivals[..n]);
      var b := arrivals[n];
      BlocksTile(|t|, b);
      StoreOk(p, b * BLOCK_SIZE, BlockOf(t, b));
      p.StoreBlock(b * BLOCK_SIZE, BlockOf(t, b))
  }

  /** Block `b` is done in `p` exactly if `arrived`, and then holds the bytes of `t`. */
  ghost predicate HoldsBlock(p: PieceState, t: Bytes, b: nat, arrived: bool)
    requires p.Ok() && p.size == |t| && !p.written && b < BlockCountOf(|t|)
  {
    && (p.done[b] <==> arrived)
    && (arrived ==> BlockOf(p.data, b) == BlockOf(t, b))
  }

  /** One call of `set_block` adds the block it brings and touches no other. */
  lemma StoreHoldsBlock(p: PieceState, t: Bytes, a: nat, b: nat, arrived: bool)
    requires p.Ok() && p.size == |t| && !p.written && a < BlockCountOf(|t|) && b < BlockCountOf(|t|)
    requires HoldsBlock(p, t, b, arrived)
    ensures p.BlockError(a * BLOCK_SIZE, |BlockOf(t, a)|).None?
    ensures var q := p.StoreBlock(a * BLOCK_SIZE, BlockOf(t, a));
            q.Ok() && q.size == |t| && !q.written && HoldsBlock(q, t, b, arrived || a == b)
  {
    BlocksTile(|t|, a);
    StoreOk(p, a * BLOCK_SIZE, BlockOf(t, a));
    BlocksTile(|t|, b);
    if a != b {
      BlocksApart(|t|, a, b);
    }
    OverwriteSlices(p.data, a * BLOCK_SIZE, BlockOf(t, a), b * BLOCK_SIZE, b * BLOCK_SIZE + RequestLength(|t|, b));
  }

  /** Exactly the arrived blocks are done, and their bytes are those of `t`. */
  lemma {:induction false} ArrivedIsDone(id: nat, t: Bytes, arrivals: seq<nat>, b: nat)
    requires t != [] && BlocksIn(t, arrivals) && b < BlockCountOf(|t|)
    ensures HoldsBlock(Assembled(id, t, arrivals), t, b, b in arrivals)
  {
    if arrivals != [] {
      var n := |arrivals| - 1;
      ArrivedIsDone(id, t, arrivals[..n], b);
      StoreHoldsBlock(Assembled(id, t, arrivals[..n]), t, arrivals[n], b, b in arrivals[..n]);
      assert arrivals == arrivals[..n] + [arrivals[n]];
    }
  }

  lemma BlocksApart(size: nat, a: nat, b: nat)
    requires a < BlockCountOf(size) && b < BlockCountOf(size) && a != b
    ensures a * BLOCK_SIZE + RequestLength(size, a) <= b * BLOCK_SIZE
         || b * BLOCK_SIZE + RequestLength(size, b) <= a * BLOCK_SIZE
  {
    BlocksTile(size, a);
    BlocksTile(size, b);
  }

  /** The bytes of a complete piece are `t`, whatever the order and the duplicates. */
  lemma CompleteIsWhole(id: nat, t: Bytes, arrivals: seq<nat>)
    requires t != [] && BlocksIn(t, arrivals)
    ensures var p := Assembled(id, t, arrivals);
            && (p.Complete() <==> forall b :: 0 <= b < BlockCountOf(|t|) ==> b in arrivals)
            && (p.Complete() ==> p.data == t)
  {
    var p := Assembled(id, t, arrivals);
    CompleteIff(p);
    forall b | 0 <= b < BlockCountOf(|t|)
      ensures p.done[b] <==> b in arrivals
    {
      ArrivedIsDone(id, t, arrivals, b);
    }
    if p.Complete() {
      forall j | 0 <= j < |t|
        ensures p.data[j] == t[j]
      {
        var b := j / BLOCK_SIZE;
        BlocksTile(|t|, b);
        ArrivedIsDone(id, t, arrivals, b);
        assert p.data[j] == BlockOf(p.data, b)[j - b * BLOCK_SIZE];
      }
    }
  }

  /** Once complete, a piece keeps its value, so every later call of `set_block` returns true again. */
  lemma {:induction false} CompleteStays(id: nat, t: Bytes, arrivals: seq<nat>, more: seq<nat>)
    requires t != [] && BlocksIn(t, arrivals) && BlocksIn(t, more)
    requires Assembled(id, t, arrivals).Complete()
    ensures BlocksIn(t, arrivals + more)
    ensures Assembled(id, t, arrivals + more) == Assembled(id, t, arrivals)
  {
    if more == [] {
      assert arrivals + more == arrivals;
    } else {
      var n := |more| - 1;
      CompleteStays(id, t, arrivals, more[..n]);
      assert (arrivals + more)[..|arrivals| + n] == arrivals + more[..n];
      CompleteIff(Assembled(id, t, arrivals));
    }
  }
}
