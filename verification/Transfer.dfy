/**
 * The whole transfer as a transition system: piece objects with identity, the active pieces, the client
 * bitfield, the write queue and the disk image. Each step is one call that the program makes under its locks.
 */
module Transfer {
  import opened Bytes
  import opened Bitfields
  import opened Files
  import opened Pieces

  /** `Id` is the identity of piece objects; a stale object stays in `heap` and may stay in `queue`. */
  datatype Sys<Id> = Sys(
    heap: map<Id, PieceState>, active: map<nat, Id>, client: Bits, queue: seq<Id>, disk: Bytes)

  // ----- the invariant -----

  ghost predicate SliceGood(meta: Meta, disk: Bytes, id: nat) {
    && meta.WellFormed() && |disk| == meta.Length() && id < meta.PieceCount()
    && meta.sha1(PieceSlice(meta, disk, id)) == meta.digests[id]
  }

  /** Every piece object, active or stale, is consistent, and an active one carries the id it is filed under. */
  ghost predicate ObjectsOk<Id>(meta: Meta, s: Sys<Id>) {
    && meta.WellFormed() && |s.disk| == meta.Length()
    && (forall o :: o in s.heap ==> s.heap[o].Ok() && s.heap[o].size == meta.PieceLengthOf(s.heap[o].id))
    && (forall id :: id in s.active ==> s.active[id] in s.heap && s.heap[s.active[id]].id == id)
    && (forall k :: 0 <= k < |s.queue| ==> s.queue[k] in s.heap)
  }

  /** The active piece `id` has all its blocks. */
  ghost predicate Has<Id>(s: Sys<Id>, id: nat) {
    id in s.active && s.active[id] in s.heap && s.heap[s.active[id]].Complete()
  }

  ghost predicate Written<Id>(s: Sys<Id>, id: nat) {
    id in s.active && s.active[id] in s.heap && s.heap[s.active[id]].written
  }

  ghost predicate Queued<Id>(s: Sys<Id>, id: nat) {
    id in s.active && s.active[id] in s.queue
  }

  /**
   * Conservation between bitfield, queue and disk, for one id: the client bit is set exactly when the piece is
   * active with every block done; such a piece is written or its object is in the queue, unless its id is past
   * the listed digests; conversely an active piece that is written or queued has every block; and a written
   * piece has its right bytes on disk.
   */
  ghost predicate ConservedAt<Id>(meta: Meta, s: Sys<Id>, id: nat) {
    && (BitAt(s.client, id) <==> Has(s, id))
    && (Has(s, id) && id < meta.PieceCount() ==> Written(s, id) || Queued(s, id))
    && (Written(s, id) || Queued(s, id) ==> Has(s, id))
    && (Written(s, id) ==> SliceGood(meta, s.disk, id))
  }

  ghost predicate Conserved<Id>(meta: Meta, s: Sys<Id>) {
    forall id: nat :: ConservedAt(meta, s, id)
  }

  ghost predicate Inv<Id>(meta: Meta, s: Sys<Id>) {
    ObjectsOk(meta, s) && Conserved(meta, s)
  }

  lemma InvObjectsOk<Id>(meta: Meta, s: Sys<Id>)
    requires Inv(meta, s)
    ensures ObjectsOk(meta, s)
  {}

  // ----- the steps -----

  /** `active_piece(id, true)`; `o` is the identity of the object that it makes when there is none. */
  function Activate<Id>(meta: Meta, s: Sys<Id>, id: nat, o: Id): Sys<Id>
    requires meta.pieceLength > 0
  {
    if id in s.active then s
    else s.(heap := s.heap[o := NewPiece(id, meta.PieceLengthOf(id))], active := s.active[id := o])
  }

  /** `next_offset(true)` on an active piece. */
  ghost function Mark<Id>(meta: Meta, s: Sys<Id>, id: nat): Sys<Id>
    requires ObjectsOk(meta, s) && id in s.active
  {
    s.(heap := s.heap[s.active[id] := s.heap[s.active[id]].MarkNext()])
  }

  /** `Torrent::set_block`: when it throws, nothing changes. */
  ghost function PutBlock<Id>(meta: Meta, s: Sys<Id>, id: nat, offset: nat, data: Bytes): Sys<Id>
    requires ObjectsOk(meta, s)
  {
    if id !in s.active then s
    else
      var o := s.active[id];
      if s.heap[o].BlockError(offset, |data|).Some? then s
      else
        var p := s.heap[o].StoreBlock(offset, data);
        var s' := s.(heap := s.heap[o := p]);
        if p.Complete() then s'.(client := WithBit(s.client, id, true), queue := s.queue + [o]) else s'
  }

  /** What `Torrent::set_block` throws; a block for a piece that is not active is ignored. */
  ghost function Refusal<Id>(meta: Meta, s: Sys<Id>, id: nat, offset: nat, length: nat): Option<PieceError>
    requires ObjectsOk(meta, s)
  {
    if id in s.active then s.heap[s.active[id]].BlockError(offset, length) else None
  }

  /** `retry_blocks` on an active piece. */
  ghost function RetryPiece<Id>(meta: Meta, s: Sys<Id>, id: nat, timedOut: bool): Sys<Id>
    requires ObjectsOk(meta, s) && id in s.active
  {
    s.(heap := s.heap[s.active[id] := s.heap[s.active[id]].Retry(timedOut)])
  }

  function InitClient<Id>(s: Sys<Id>, count: nat): Sys<Id> {
    if s.client == [] then s.(client := NoBits(count)) else s
  }

  /** `reset_piece`: whatever object is active for `id` now, not the one that was dequeued. */
  ghost function ResetPiece<Id>(meta: Meta, s: Sys<Id>, id: nat): Sys<Id>
    requires ObjectsOk(meta, s)
  {
    if id !in s.active then s
    else
      var o := s.active[id];
      s.(heap := s.heap[o := s.heap[o].Reset()], client := WithBit(s.client, id, false), active := s.active - {id})
  }

  /** A reset piece is a new one that is filed nowhere: its bit is gone, and every other object, id and bit stays. */
  lemma ResetPieceIs<Id>(meta: Meta, s: Sys<Id>, id: nat)
    requires ObjectsOk(meta, s) && id in s.active
    ensures var t, o := ResetPiece(meta, s, id), s.active[id];
            && t.heap.Keys == s.heap.Keys && t.heap[o] == NewPiece(id, meta.PieceLengthOf(id))
            && (forall x :: x in s.heap && x != o ==> t.heap[x] == s.heap[x])
            && t.active.Keys == s.active.Keys - {id} && (forall i :: i in t.active ==> t.active[i] == s.active[i])
            && !BitAt(t.client, id) && (forall i: nat :: i != id ==> BitAt(t.client, i) == BitAt(s.client, i))
            && t.queue == s.queue && t.disk == s.disk
  {}

  /** The dequeued object's bytes have the listed digest: they go to disk and leave memory. */
  ghost function WriteBack<Id>(meta: Meta, s: Sys<Id>, o: Id): Sys<Id>
    requires ObjectsOk(meta, s) && o in s.heap
    requires s.heap[o].id < meta.PieceCount() && |s.heap[o].data| == s.heap[o].size
  {
    var p := s.heap[o];
    PieceBounds(meta, p.id);
    s.(disk := Overwrite(s.disk, meta.Offset(p.id), p.data), heap := s.heap[o := p.SetWritten()])
  }

  /** `write_next_piece`. An id past the listed digests and a wrong data size throw after the dequeue. */
  ghost function WriteNext<Id>(meta: Meta, s: Sys<Id>): Sys<Id>
    requires ObjectsOk(meta, s) && s.queue != []
  {
    var o := s.queue[0];
    var p := s.heap[o];
    var s' := s.(queue := s.queue[1..]);
    if p.id >= meta.PieceCount() then s'
    else if meta.sha1(p.data) != meta.digests[p.id] then ResetPiece(meta, s', p.id)
    else if |p.data| != p.size then s'
    else WriteBack(meta, s', o)
  }

  // ----- every step keeps the invariant -----

  lemma ActivateKeepsInv<Id>(meta: Meta, s: Sys<Id>, id: nat, o: Id)
    requires Inv(meta, s) && o !in s.heap
    ensures Inv(meta, Activate(meta, s, id, o))
  {
    if id !in s.active {
      PieceSizePositive(meta, id);
      NewPieceOk(id, meta.PieceLengthOf(id));
      var s' := Activate(meta, s, id, o);
      forall i: nat
        ensures ConservedAt(meta, s', i)
      {
        assert ConservedAt(meta, s, i);
      }
    }
  }

  lemma PieceSizePositive(meta: Meta, id: nat)
    requires meta.WellFormed()
    ensures meta.PieceLengthOf(id) > 0
  {}

  /** Replacing the object of one active piece changes the flags of that piece alone. */
  lemma UpdateFlags<Id>(meta: Meta, s: Sys<Id>, id: nat, p: PieceState, i: nat)
    requires ObjectsOk(meta, s) && id in s.active
    ensures var s' := s.(heap := s.heap[s.active[id] := p]);
            && Has(s', i) == (if i == id then p.Complete() else Has(s, i))
            && Written(s', i) == (if i == id then p.written else Written(s, i))
            && Queued(s', i) == Queued(s, i)
  {}

  lemma UpdateObjectsOk<Id>(meta: Meta, s: Sys<Id>, o: Id, p: PieceState)
    requires ObjectsOk(meta, s) && o in s.heap
    requires p.Ok() && p.id == s.heap[o].id && p.size == s.heap[o].size
    ensures ObjectsOk(meta, s.(heap := s.heap[o := p]))
  {}

  /** Replacing an active object by one with the same flags keeps the invariant. */
  lemma UpdateKeepsInv<Id>(meta: Meta, s: Sys<Id>, id: nat, p: PieceState)
    requires Inv(meta, s) && id in s.active
    requires p.Ok() && p.id == id && p.size == s.heap[s.active[id]].size
    requires p.Complete() == Has(s, id) && p.written == Written(s, id)
    ensures Inv(meta, s.(heap := s.heap[s.active[id] := p]))
  {
    var s' := s.(heap := s.heap[s.active[id] := p]);
    UpdateObjectsOk(meta, s, s.active[id], p);
    forall i: nat
      ensures ConservedAt(meta, s', i)
    {
      assert ConservedAt(meta, s, i);
      UpdateFlags(meta, s, id, p, i);
    }
  }

  lemma MarkKeepsInv<Id>(meta: Meta, s: Sys<Id>, id: nat)
    requires Inv(meta, s) && id in s.active
    ensures Inv(meta, Mark(meta, s, id))
  {
    MarkOk(s.heap[s.active[id]]);
    UpdateKeepsInv(meta, s, id, s.heap[s.active[id]].MarkNext());
  }

  lemma RetryKeepsInv<Id>(meta: Meta, s: Sys<Id>, id: nat, timedOut: bool)
    requires Inv(meta, s) && id in s.active
    ensures Inv(meta, RetryPiece(meta, s, id, timedOut))
  {
    RetryOk(s.heap[s.active[id]], timedOut);
    UpdateKeepsInv(meta, s, id, s.heap[s.active[id]].Retry(timedOut));
  }

  lemma InitClientKeepsInv<Id>(meta: Meta, s: Sys<Id>, count: nat)
    requires Inv(meta, s)
    ensures Inv(meta, InitClient(s, count))
  {
    var s' := InitClient(s, count);
    forall i: nat
      ensures ConservedAt(meta, s', i)
    {
      assert ConservedAt(meta, s, i);
    }
  }

  /** The state after the block that completed a piece: its bit is set and its object queued, again if need be. */
  function PieceDone<Id>(s: Sys<Id>, id: nat, p: PieceState): Sys<Id>
    requires id in s.active
  {
    var o := s.active[id];
    s.(heap := s.heap[o := p], client := WithBit(s.client, id, true), queue := s.queue + [o])
  }

  lemma PieceDoneAt<Id>(meta: Meta, s: Sys<Id>, id: nat, p: PieceState, i: nat)
    requires ObjectsOk(meta, s) && id in s.active
    requires p.Complete() && p.written == Written(s, id)
    requires ConservedAt(meta, s, i) && ConservedAt(meta, s, id)
    ensures ConservedAt(meta, PieceDone(s, id, p), i)
  {
    UpdateFlags(meta, s, id, p, i);
  }

  lemma PieceDoneKeepsInv<Id>(meta: Meta, s: Sys<Id>, id: nat, p: PieceState)
    requires Inv(meta, s) && id in s.active
    requires p.Ok() && p.id == id && p.size == s.heap[s.active[id]].size
    requires p.Complete() && p.written == Written(s, id)
    ensures Inv(meta, PieceDone(s, id, p))
  {
    UpdateObjectsOk(meta, s, s.active[id], p);
    forall i: nat
      ensures ConservedAt(meta, PieceDone(s, id, p), i)
    {
      assert ConservedAt(meta, s, i) && ConservedAt(meta, s, id);
      PieceDoneAt(meta, s, id, p, i);
    }
  }

  lemma PutBlockKeepsInv<Id>(meta: Meta, s: Sys<Id>, id: nat, offset: nat, data: Bytes)
    requires Inv(meta, s)
    ensures Inv(meta, PutBlock(meta, s, id, offset, data))
  {
    if id in s.active && s.heap[s.active[id]].BlockError(offset, |data|).None? {
      var q := s.heap[s.active[id]];
      StoreOk(q, offset, data);
      var p := q.StoreBlock(offset, data);
      if p.Complete() {
        PieceDoneKeepsInv(meta, s, id, p);
      } else {
        StoreKeepsComplete(q, offset, data);
        UpdateKeepsInv(meta, s, id, p);
      }
    }
  }

  lemma ResetAt<Id>(meta: Meta, s: Sys<Id>, id: nat, i: nat)
    requires ObjectsOk(meta, s) && (i != id ==> ConservedAt(meta, s, i))
    requires id !in s.active ==> ConservedAt(meta, s, i)
    ensures ConservedAt(meta, ResetPiece(meta, s, id), i)
  {
    if id in s.active {
      ResetOk(s.heap[s.active[id]]);
      UpdateFlags(meta, s, id, s.heap[s.active[id]].Reset(), i);
    }
  }

  lemma ResetObjectsOk<Id>(meta: Meta, s: Sys<Id>, id: nat)
    requires ObjectsOk(meta, s)
    ensures ObjectsOk(meta, ResetPiece(meta, s, id))
  {
    if id in s.active {
      var o := s.active[id];
      ResetOk(s.heap[o]);
      UpdateObjectsOk(meta, s, o, s.heap[o].Reset());
    }
  }

  /** Taking an object out of the queue leaves the invariant, except for the piece of that object. */
  lemma DequeueLeaves<Id>(meta: Meta, s: Sys<Id>, i: nat)
    requires Inv(meta, s) && s.queue != []
    requires i in s.active ==> s.active[i] != s.queue[0]
    ensures ConservedAt(meta, s.(queue := s.queue[1..]), i)
  {
    assert ConservedAt(meta, s, i);
    assert s.queue == [s.queue[0]] + s.queue[1..];
  }

  /** Writing a piece gives its slice the piece's bytes and keeps every other slice. */
  lemma WriteBackSlices<Id>(meta: Meta, s: Sys<Id>, o: Id, i: nat)
    requires ObjectsOk(meta, s) && o in s.heap
    requires s.heap[o].id < meta.PieceCount() && |s.heap[o].data| == s.heap[o].size && i < meta.PieceCount()
    ensures |WriteBack(meta, s, o).disk| == meta.Length()
    ensures PieceSlice(meta, WriteBack(meta, s, o).disk, i)
         == if i == s.heap[o].id then s.heap[o].data else PieceSlice(meta, s.disk, i)
  {
    SliceAfterWrite(meta, s.disk, s.heap[o].id, s.heap[o].data, i);
  }

  lemma WriteBackAt<Id>(meta: Meta, s: Sys<Id>, o: Id, i: nat)
    requires ObjectsOk(meta, s) && o in s.heap
    requires s.heap[o].id < meta.PieceCount() && |s.heap[o].data| == s.heap[o].size
    requires meta.sha1(s.heap[o].data) == meta.digests[s.heap[o].id]
    requires if i in s.active && s.active[i] == o then BitAt(s.client, i) else ConservedAt(meta, s, i)
    ensures ConservedAt(meta, WriteBack(meta, s, o), i)
  {
    var s' := WriteBack(meta, s, o);
    SetWrittenOk(s.heap[o]);
    if i < meta.PieceCount() {
      WriteBackSlices(meta, s, o, i);
    }
    if i in s.active && s.active[i] == o {
      assert Has(s', i) && Written(s', i);
    } else {
      assert Has(s', i) == Has(s, i) && Written(s', i) == Written(s, i) && Queued(s', i) == Queued(s, i);
    }
  }

  lemma DequeueObjectsOk<Id>(meta: Meta, s: Sys<Id>)
    requires ObjectsOk(meta, s) && s.queue != []
    ensures ObjectsOk(meta, s.(queue := s.queue[1..]))
  {}

  lemma WriteBackObjectsOk<Id>(meta: Meta, s: Sys<Id>, o: Id)
    requires ObjectsOk(meta, s) && o in s.heap
    requires s.heap[o].id < meta.PieceCount() && |s.heap[o].data| == s.heap[o].size
    ensures ObjectsOk(meta, WriteBack(meta, s, o))
  {
    SetWrittenOk(s.heap[o]);
    PieceBounds(meta, s.heap[o].id);
    var s1 := s.(disk := WriteBack(meta, s, o).disk);
    assert ObjectsOk(meta, s1);
    UpdateObjectsOk(meta, s1, o, s.heap[o].SetWritten());
  }

  lemma WriteNextObjectsOk<Id>(meta: Meta, s: Sys<Id>)
    requires ObjectsOk(meta, s) && s.queue != []
    ensures ObjectsOk(meta, s.(queue := s.queue[1..])) && ObjectsOk(meta, WriteNext(meta, s))
  {
    var o := s.queue[0];
    var s1 := s.(queue := s.queue[1..]);
    DequeueObjectsOk(meta, s);
    ResetObjectsOk(meta, s1, s.heap[o].id);
    if s.heap[o].id < meta.PieceCount() && |s.heap[o].data| == s.heap[o].size {
      WriteBackObjectsOk(meta, s1, o);
    }
  }

  /** A dequeued piece with an id past the listed digests is dropped, and nothing else is asked of such an id. */
  lemma DequeueBogus<Id>(meta: Meta, s: Sys<Id>, i: nat)
    requires Inv(meta, s) && s.queue != [] && i >= meta.PieceCount()
    ensures ConservedAt(meta, s.(queue := s.queue[1..]), i)
  {
    assert ConservedAt(meta, s, i);
    assert s.queue == [s.queue[0]] + s.queue[1..];
  }

  /** A piece whose data was cleared never matches its digest, so a matching one is whole. */
  lemma MatchingIsWhole(meta: Meta, p: PieceState)
    requires meta.WellFormed() && p.Ok() && p.id < meta.PieceCount() && meta.sha1(p.data) == meta.digests[p.id]
    ensures !p.written && |p.data| == p.size
  {
    assert meta.digests[p.id] in meta.digests;
  }

  lemma WriteNextAt<Id>(meta: Meta, s: Sys<Id>, i: nat)
    requires Inv(meta, s) && s.queue != []
    ensures ObjectsOk(meta, s.(queue := s.queue[1..])) && ConservedAt(meta, WriteNext(meta, s), i)
  {
    var o := s.queue[0];
    var p := s.heap[o];
    var s1 := s.(queue := s.queue[1..]);
    WriteNextObjectsOk(meta, s);
    if i in s.active && s.active[i] == o {
      assert ConservedAt(meta, s, i) && Queued(s, i);
      if i >= meta.PieceCount() {
        DequeueBogus(meta, s, i);
      }
    } else {
      DequeueLeaves(meta, s, i);
    }
    if p.id < meta.PieceCount() {
      if meta.sha1(p.data) != meta.digests[p.id] {
        ResetAt(meta, s1, p.id, i);
      } else {
        MatchingIsWhole(meta, p);
        WriteBackAt(meta, s1, o, i);
      }
    }
  }

  lemma WriteNextKeepsInv<Id>(meta: Meta, s: Sys<Id>)
    requires Inv(meta, s) && s.queue != []
    ensures Inv(meta, WriteNext(meta, s)) && WriteNext(meta, s).queue == s.queue[1..]
  {
    WriteNextObjectsOk(meta, s);
    forall i: nat {
      WriteNextAt(meta, s, i);
    }
  }
}
