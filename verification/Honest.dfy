/** Runs in which peers send the bytes of one fixed content: what arrives is that content, and the download ends. */
module Honest {
  import opened Bytes
  import opened Files
  import opened Pieces
  import opened Assembly
  import opened Transfer
  import opened Runs
  import opened Serving
  import opened Draining

  /** A block of a listed piece, where it names one, has the bytes of `t` there. */
  ghost predicate TrueBlock(meta: Meta, t: Bytes, id: nat, offset: nat, data: Bytes)
    requires meta.WellFormed() && |t| == meta.Length()
  {
    id < meta.PieceCount() && offset % BLOCK_SIZE == 0 && offset / BLOCK_SIZE < BlockCountOf(|PieceSlice(meta, t, id)|) ==>
      data == BlockOf(PieceSlice(meta, t, id), offset / BLOCK_SIZE)
  }

  /** The done blocks of the piece, as long as it is in memory, have the bytes of `c`. */
  ghost predicate HoldsPart(p: PieceState, c: Bytes)
    requires p.Ok() && p.size == |c|
  {
    !p.written ==> forall b: nat :: b < BlockCountOf(|c|) ==> HoldsBlock(p, c, b, p.done[b])
  }

  lemma StoreHoldsPart(p: PieceState, c: Bytes, offset: nat, data: Bytes)
    requires p.Ok() && p.size == |c| && HoldsPart(p, c) && p.BlockError(offset, |data|).None?
    requires offset / BLOCK_SIZE < BlockCountOf(|c|) ==> data == BlockOf(c, offset / BLOCK_SIZE)
    ensures p.StoreBlock(offset, data).Ok() && HoldsPart(p.StoreBlock(offset, data), c)
  {
    StoreOk(p, offset, data);
    var q, a := p.StoreBlock(offset, data), offset / BLOCK_SIZE;
    if !p.written {
      forall b: nat | b < BlockCountOf(|c|)
        ensures HoldsBlock(q, c, b, q.done[b])
      {
        assert HoldsBlock(p, c, b, p.done[b]);
        if a < BlockCountOf(|c|) {
          StoreHoldsBlock(p, c, a, b, p.done[b]);
        } else {
          NoBlockNoBytes(p, offset, data);
        }
      }
    }
  }

  /** Behind the last block only an empty block is accepted. */
  lemma NoBlockNoBytes(p: PieceState, offset: nat, data: Bytes)
    requires p.Ok() && p.BlockError(offset, |data|).None? && offset / BLOCK_SIZE >= BlockCountOf(p.size)
    ensures data == []
  {}

  lemma CompletePartIsWhole(p: PieceState, c: Bytes)
    requires p.Ok() && p.size == |c| && HoldsPart(p, c) && p.Complete() && !p.written
    ensures p.data == c
  {
    CompleteIff(p);
    forall j | 0 <= j < |c|
      ensures p.data[j] == c[j]
    {
      var b := j / BLOCK_SIZE;
      BlocksTile(|c|, b);
      assert HoldsBlock(p, c, b, p.done[b]);
      assert p.data[j] == BlockOf(p.data, b)[j - b * BLOCK_SIZE];
    }
  }

  // ----- over whole runs -----

  /** The object is active or in the queue. */
  ghost predicate Live<Id>(s: Sys<Id>, o: Id) {
    o in s.active.Values || o in s.queue
  }

  /** Every live object of a listed piece holds bytes of `t` only. */
  ghost predicate HoldsContent<Id>(meta: Meta, s: Sys<Id>, t: Bytes) {
    && ObjectsOk(meta, s) && |t| == meta.Length()
    && forall o :: o in s.heap && Live(s, o) && s.heap[o].id < meta.PieceCount() ==> ObjectHolds(meta, s.heap[o], t)
  }

  ghost predicate ObjectHolds(meta: Meta, p: PieceState, t: Bytes) {
    && meta.WellFormed() && |t| == meta.Length() && p.id < meta.PieceCount()
    && p.Ok() && p.size == |PieceSlice(meta, t, p.id)| && HoldsPart(p, PieceSlice(meta, t, p.id))
  }

  /** The block that the step brings, if it brings one, is one of `t`. */
  ghost predicate Honest<Id>(meta: Meta, t: Bytes, l: Label<Id>) {
    && meta.WellFormed() && |t| == meta.Length()
    && (l.Receiving? ==> TrueBlock(meta, t, l.id, l.offset, l.data))
  }

  lemma SliceSize(meta: Meta, t: Bytes, id: nat)
    requires meta.WellFormed() && |t| == meta.Length() && id < meta.PieceCount()
    ensures |PieceSlice(meta, t, id)| == meta.PieceLengthOf(id) > 0
  {
    PieceBounds(meta, id);
  }

  /** An object that keeps its blocks, or starts over, or is written, still holds only bytes of `t`. */
  lemma ObjectStillHolds(meta: Meta, p: PieceState, q: PieceState, t: Bytes)
    requires ObjectHolds(meta, p, t) && q.Ok() && q.id == p.id && q.size == p.size
    requires q.written || (q.data == p.data && q.done == p.done && !p.written) || forall b :: 0 <= b < |q.done| ==> !q.done[b]
    ensures ObjectHolds(meta, q, t)
  {
    var c := PieceSlice(meta, t, p.id);
    if !q.written {
      forall b: nat | b < BlockCountOf(|c|)
        ensures HoldsBlock(q, c, b, q.done[b])
      {
        if !p.written {
          assert HoldsBlock(p, c, b, p.done[b]);
        }
      }
    }
  }

  lemma NewHolds(meta: Meta, id: nat, t: Bytes)
    requires meta.WellFormed() && |t| == meta.Length() && id < meta.PieceCount()
    ensures ObjectHolds(meta, NewPiece(id, meta.PieceLengthOf(id)), t)
  {
    SliceSize(meta, t, id);
    NewPieceOk(id, meta.PieceLengthOf(id));
  }

  /** Replacing one object by one that still holds only bytes of `t` keeps the content of the heap. */
  lemma UpdateHoldsContent<Id>(meta: Meta, s: Sys<Id>, s': Sys<Id>, t: Bytes, o: Id, q: PieceState)
    requires HoldsContent(meta, s, t) && ObjectsOk(meta, s')
    requires s'.heap == s.heap[o := q] && (q.id < meta.PieceCount() ==> ObjectHolds(meta, q, t))
    requires forall x :: Live(s', x) ==> x == o || Live(s, x)
    ensures HoldsContent(meta, s', t)
  {
    hide ObjectsOk, ObjectHolds;
  }

  lemma StoreHolds(meta: Meta, p: PieceState, offset: nat, data: Bytes, t: Bytes)
    requires ObjectHolds(meta, p, t) && p.BlockError(offset, |data|).None? && TrueBlock(meta, t, p.id, offset, data)
    ensures ObjectHolds(meta, p.StoreBlock(offset, data), t)
  {
    StoreHoldsPart(p, PieceSlice(meta, t, p.id), offset, data);
  }

  lemma BlockMakesNothingLive<Id>(meta: Meta, s: Sys<Id>, id: nat, offset: nat, data: Bytes)
    requires ObjectsOk(meta, s)
    ensures forall x :: Live(PutBlock(meta, s, id, offset, data), x) ==> Live(s, x)
  {
    hide ObjectsOk, PieceState.StoreBlock, PieceState.BlockError;
  }

  lemma ReceiveHoldsContent<Id>(meta: Meta, s: Sys<Id>, t: Bytes, id: nat, offset: nat, data: Bytes)
    requires HoldsContent(meta, s, t) && TrueBlock(meta, t, id, offset, data)
    requires ObjectsOk(meta, PutBlock(meta, s, id, offset, data))
    ensures HoldsContent(meta, PutBlock(meta, s, id, offset, data), t)
  {
    hide TrueBlock, ObjectHolds, PieceState.StoreBlock;
    var s' := PutBlock(meta, s, id, offset, data);
    BlockMakesNothingLive(meta, s, id, offset, data);
    hide Live;
    if id in s.active && s.heap[s.active[id]].BlockError(offset, |data|).None? {
      ActiveIsLive(s, id);
      var p := s.heap[s.active[id]];
      if id < meta.PieceCount() {
        StoreHolds(meta, p, offset, data, t);
      }
      SameId(p, offset, data);
      UpdateHoldsContent(meta, s, s', t, s.active[id], p.StoreBlock(offset, data));
    }
  }

  lemma SameId(p: PieceState, offset: nat, data: Bytes)
    requires p.Ok() && p.BlockError(offset, |data|).None?
    ensures p.StoreBlock(offset, data).id == p.id
  {}

  lemma ActiveIsLive<Id>(s: Sys<Id>, id: nat)
    requires id in s.active
    ensures Live(s, s.active[id])
  {}

  lemma WriteMakesNothingLive<Id>(meta: Meta, s: Sys<Id>, x: Id)
    requires ObjectsOk(meta, s) && s.queue != [] && Live(WriteNext(meta, s), x)
    ensures Live(s, x)
  {
    DequeueObjectsOk(meta, s);
  }

  lemma WriteHoldsContent<Id>(meta: Meta, s: Sys<Id>, t: Bytes)
    requires HoldsContent(meta, s, t) && s.queue != [] && ObjectsOk(meta, WriteNext(meta, s))
    ensures HoldsContent(meta, WriteNext(meta, s), t)
  {
    var o, s' := s.queue[0], WriteNext(meta, s);
    var p := s.heap[o];
    DequeueObjectsOk(meta, s);
    assert Live(s, o);
    forall x
      ensures Live(s', x) ==> Live(s, x)
    {
      if Live(s', x) {
        WriteMakesNothingLive(meta, s, x);
      }
    }
    hide ObjectHolds, Live;
    if p.id < meta.PieceCount() {
      if meta.sha1(p.data) != meta.digests[p.id] {
        if p.id in s.active {
          ActiveIsLive(s, p.id);
          var a := s.heap[s.active[p.id]];
          ResetOk(a);
          ObjectStillHolds(meta, a, a.Reset(), t);
          UpdateHoldsContent(meta, s, s', t, s.active[p.id], a.Reset());
        }
      } else {
        MatchingIsWhole(meta, p);
        SetWrittenOk(p);
        ObjectStillHolds(meta, p, p.SetWritten(), t);
        UpdateHoldsContent(meta, s, s', t, o, p.SetWritten());
      }
    }
  }

  lemma StepHoldsContent<Id>(meta: Meta, s: Sys<Id>, l: Label<Id>, s': Sys<Id>, t: Bytes)
    requires Inv(meta, s) && Step(meta, s, l, s') && HoldsContent(meta, s, t) && Honest(meta, t, l)
    ensures HoldsContent(meta, s', t)
  {
    StepKeepsInv(meta, s, l, s');
    hide ObjectHolds, PieceSlice, TrueBlock, Inv;
    assert ObjectsOk(meta, s') by {
      InvObjectsOk(meta, s');
    }
    match l
    case Activating(id, o) =>
      if id !in s.active {
        if id < meta.PieceCount() {
          NewHolds(meta, id, t);
        }
        UpdateHoldsContent(meta, s, s', t, o, NewPiece(id, meta.PieceLengthOf(id)));
      }
    case Marking(id) => FlagsHoldContent(meta, s, s', t, id, s.heap[s.active[id]].MarkNext());
    case Retrying(id, timedOut) => FlagsHoldContent(meta, s, s', t, id, s.heap[s.active[id]].Retry(timedOut));
    case Sizing(count) =>
    case Receiving(id, offset, data) => ReceiveHoldsContent(meta, s, t, id, offset, data);
    case Writing => WriteHoldsContent(meta, s, t);
  }

  lemma FlagsHoldContent<Id>(meta: Meta, s: Sys<Id>, s': Sys<Id>, t: Bytes, id: nat, q: PieceState)
    requires HoldsContent(meta, s, t) && ObjectsOk(meta, s') && id in s.active
    requires s'.heap == s.heap[s.active[id] := q] && s'.active == s.active && s'.queue == s.queue
    requires var p := s.heap[s.active[id]]; q == p.(requested := q.requested)
    ensures HoldsContent(meta, s', t)
  {
    ActiveIsLive(s, id);
    forall x
      ensures Live(s', x) <==> Live(s, x)
    {}
    hide ObjectHolds, PieceSlice, Live;
    var p := s.heap[s.active[id]];
    if p.id < meta.PieceCount() {
      assert s'.heap[s.active[id]] == q;
      ObjectStillHolds(meta, p, q, t);
    }
    UpdateHoldsContent(meta, s, s', t, s.active[id], q);
  }

  /** The first `k` steps of the run bring blocks of `t` only. */
  ghost predicate HonestUntil<Id>(meta: Meta, r: Run<Id>, t: Bytes, k: nat)
    requires k <= |r.labels|
  {
    forall i :: 0 <= i < k ==> Honest(meta, t, r.labels[i])
  }

  lemma {:induction false} RunHoldsContent<Id>(meta: Meta, r: Run<Id>, t: Bytes, k: nat)
    requires IsRun(meta, r) && k < |r.states| && |t| == meta.Length() && HonestUntil(meta, r, t, k)
    ensures HoldsContent(meta, r.states[k], t)
  {
    RunKeepsInv(meta, r, k);
    if k == 0 {
      StartHoldsContent(meta, r.states[0], t);
    } else {
      RunHoldsContent(meta, r, t, k - 1);
      RunKeepsInv(meta, r, k - 1);
      assert StepAt(meta, r, k - 1) && Honest(meta, t, r.labels[k - 1]);
      hide HoldsContent, Honest, Inv;
      StepHoldsContent(meta, r.states[k - 1], r.labels[k - 1], r.states[k], t);
    }
  }

  lemma StartHoldsContent<Id>(meta: Meta, s: Sys<Id>, t: Bytes)
    requires Inv(meta, s) && |t| == meta.Length() && (Blank(meta, s) || Verified(meta, s))
    ensures HoldsContent(meta, s, t)
  {
    forall o | o in s.heap && Live(s, o) && s.heap[o].id < meta.PieceCount()
      ensures ObjectHolds(meta, s.heap[o], t)
    {
      var id :| id in s.active && s.active[id] == o;
      assert VerifiedAt(meta, s, id);
      SliceSize(meta, t, id);
    }
  }

  /**
   * For any run in which all peers send blocks of `t`, in whatever order and however often: a complete piece that
   * is still in memory is its slice of `t`.
   */
  lemma RunAssembles<Id>(meta: Meta, r: Run<Id>, t: Bytes, k: nat, id: nat)
    requires IsRun(meta, r) && k < |r.states| && |t| == meta.Length() && HonestUntil(meta, r, t, k)
    requires id < meta.PieceCount() && Has(r.states[k], id) && !Written(r.states[k], id)
    ensures meta.WellFormed() && r.states[k].heap[r.states[k].active[id]].data == PieceSlice(meta, t, id)
  {
    RunHoldsContent(meta, r, t, k);
    var p := r.states[k].heap[r.states[k].active[id]];
    assert ObjectHolds(meta, p, t);
    CompletePartIsWhole(p, PieceSlice(meta, t, id));
  }

  // ----- what is served meanwhile -----

  /** The written pieces have the bytes of `t` on disk. */
  ghost predicate DiskHolds<Id>(meta: Meta, s: Sys<Id>, t: Bytes) {
    && meta.WellFormed() && |s.disk| == meta.Length() && |t| == meta.Length()
    && forall id: nat :: id < meta.PieceCount() && Written(s, id) ==> PieceSlice(meta, s.disk, id) == PieceSlice(meta, t, id)
  }

  lemma WriteKeepsDisk<Id>(meta: Meta, s: Sys<Id>, t: Bytes, id: nat)
    requires Inv(meta, s) && s.queue != [] && HoldsContent(meta, s, t) && DiskHolds(meta, s, t) && Inv(meta, WriteNext(meta, s))
    requires id < meta.PieceCount() && Written(WriteNext(meta, s), id)
    requires Has(s, id) ==> !WritesOther(meta, s, Writing, id)
    ensures PieceSlice(meta, WriteNext(meta, s).disk, id) == PieceSlice(meta, t, id)
  {
    var s', o := WriteNext(meta, s), s.queue[0];
    assert ConservedAt(meta, s, id) && ConservedAt(meta, s', id);
    DequeueObjectsOk(meta, s);
    if Written(s, id) {
      WriteContentIff(meta, s, id);
    } else {
      NewlyWritten(meta, s, id);
      assert Live(s, o);
      CompletePartIsWhole(s.heap[o], PieceSlice(meta, t, id));
    }
  }

  /** A piece becomes written when its own object, complete and in memory, is dequeued. */
  lemma NewlyWritten<Id>(meta: Meta, s: Sys<Id>, id: nat)
    requires Inv(meta, s) && s.queue != [] && id < meta.PieceCount() && !Written(s, id) && Written(WriteNext(meta, s), id)
    ensures var o := s.queue[0];
            && id in s.active && s.active[id] == o && s.heap[o].id == id && s.heap[o].Complete() && !s.heap[o].written
            && |WriteNext(meta, s).disk| == meta.Length()
            && PieceSlice(meta, WriteNext(meta, s).disk, id) == s.heap[o].data
  {
    var o, s1 := s.queue[0], s.(queue := s.queue[1..]);
    assert ConservedAt(meta, s, id);
    DequeueObjectsOk(meta, s);
    assert s.heap[o].id < meta.PieceCount() && meta.sha1(s.heap[o].data) == meta.digests[s.heap[o].id];
    RightIsWritten(meta, s);
    WriteBackSlices(meta, s1, o, id);
  }

  /** The step does not write other bytes with a listed digest over a written piece. */
  ghost predicate Harmless<Id>(meta: Meta, s: Sys<Id>, l: Label<Id>)
    requires Inv(meta, s)
  {
    forall id: nat :: Has(s, id) ==> !WritesOther(meta, s, l, id)
  }

  lemma StepKeepsDisk<Id>(meta: Meta, s: Sys<Id>, l: Label<Id>, s': Sys<Id>, t: Bytes)
    requires Inv(meta, s) && Step(meta, s, l, s') && HoldsContent(meta, s, t) && DiskHolds(meta, s, t) && Harmless(meta, s, l)
    ensures DiskHolds(meta, s', t)
  {
    StepKeepsInv(meta, s, l, s');
    InvObjectsOk(meta, s');
    forall id: nat | id < meta.PieceCount() && Written(s', id)
      ensures PieceSlice(meta, s'.disk, id) == PieceSlice(meta, t, id)
    {
      if l.Writing? {
        WriteKeepsDisk(meta, s, t, id);
      } else {
        OnlyWritesWrite(meta, s, l, s', id);
      }
    }
  }

  lemma OnlyWritesWrite<Id>(meta: Meta, s: Sys<Id>, l: Label<Id>, s': Sys<Id>, id: nat)
    requires ObjectsOk(meta, s) && Step(meta, s, l, s') && !l.Writing?
    ensures s'.disk == s.disk && (Written(s', id) ==> Written(s, id))
  {
    hide PieceState.Ok, PieceState.BlockError, PieceState.Complete;
  }

  ghost predicate HarmlessUntil<Id>(meta: Meta, r: Run<Id>, k: nat)
    requires k <= |r.labels| && k < |r.states|
  {
    forall i :: 0 <= i < k ==> HarmlessStep(meta, r, i)
  }

  ghost predicate HarmlessStep<Id>(meta: Meta, r: Run<Id>, i: nat)
    requires i < |r.labels| && i < |r.states|
  {
    Inv(meta, r.states[i]) ==> Harmless(meta, r.states[i], r.labels[i])
  }

  lemma {:induction false} RunKeepsDisk<Id>(meta: Meta, r: Run<Id>, t: Bytes, k: nat)
    requires IsRun(meta, r) && k < |r.states| && |t| == meta.Length()
    requires HonestUntil(meta, r, t, k) && HarmlessUntil(meta, r, k) && DiskHolds(meta, r.states[0], t)
    ensures DiskHolds(meta, r.states[k], t)
  {
    hide DiskHolds, Inv, Step, HoldsContent, Honest, Harmless;
    if k > 0 {
      assert HarmlessStep(meta, r, k - 1);
      RunKeepsDisk(meta, r, t, k - 1);
      RunHoldsContent(meta, r, t, k - 1);
      RunKeepsInv(meta, r, k - 1);
      RunStep(meta, r, k - 1);
      StepKeepsDisk(meta, r.states[k - 1], r.labels[k - 1], r.states[k], t);
    }
  }

  /** What is answered to a request that stays inside one block: that part of the content if the block is done. */
  lemma ServesContent<Id>(meta: Meta, s: Sys<Id>, t: Bytes, id: nat, begin: nat, length: nat)
    requires Inv(meta, s) && HoldsContent(meta, s, t) && DiskHolds(meta, s, t) && id in s.active && id < meta.PieceCount()
    requires var n := if length == 0 then 16384 else length;
             begin % 16384 == 0 && begin < meta.PieceLengthOf(id) && n <= RequestLength(meta.PieceLengthOf(id), begin / 16384)
    ensures var p, n := s.heap[s.active[id]], if length == 0 then 16384 else length;
            && begin + n <= |PieceSlice(meta, t, id)| && (p.written ==> p.id < meta.PieceCount())
            && GetBlock(meta, p, s.disk, begin, length)
               == if p.done[begin / 16384] then Served(PieceSlice(meta, t, id)[begin..begin + n]) else NotDone
  {
    var p := s.heap[s.active[id]];
    SliceSize(meta, t, id);
    assert Live(s, s.active[id]) && ObjectHolds(meta, p, t);
    assert p.written ==> Written(s, id);
    hide Inv, HoldsContent, DiskHolds, HoldsPart, GetBlock, PieceSlice;
    ServesPart(meta, p, s.disk, PieceSlice(meta, t, id), begin, length);
  }

  lemma ServesPart(meta: Meta, p: PieceState, disk: Bytes, c: Bytes, begin: nat, length: nat)
    requires meta.WellFormed() && |disk| == meta.Length() && p.Ok() && p.id < meta.PieceCount()
    requires p.size == meta.PieceLengthOf(p.id) == |c| && HoldsPart(p, c) && (p.written ==> PieceSlice(meta, disk, p.id) == c)
    requires var n := if length == 0 then 16384 else length;
             begin % 16384 == 0 && begin < |c| && n <= RequestLength(|c|, begin / 16384)
    ensures var n := if length == 0 then 16384 else length;
            && begin + n <= |c|
            && GetBlock(meta, p, disk, begin, length) == if p.done[begin / 16384] then Served(c[begin..begin + n]) else NotDone
  {
    BlocksTile(|c|, begin / 16384);
    hide GetBlock, HoldsPart, Meta.WellFormed, PieceState.Complete;
    if p.written {
      CompleteIff(p);
      hide PieceSlice;
      ServedIsContent(meta, p, disk, begin, length);
    } else {
      hide PieceSlice;
      AnswerCases(meta, p, disk, begin, length);
      if p.done[begin / 16384] {
        PartOfBlock(p, c, begin, if length == 0 then 16384 else length);
      }
    }
  }

  lemma PartOfBlock(p: PieceState, c: Bytes, begin: nat, n: nat)
    requires p.Ok() && p.size == |c| && HoldsPart(p, c) && !p.written
    requires begin % 16384 == 0 && begin < |c| && n <= RequestLength(|c|, begin / 16384) && p.done[begin / 16384]
    ensures begin + n <= |c| && p.data[begin..begin + n] == c[begin..begin + n]
  {
    var b := begin / 16384;
    BlocksTile(|c|, b);
    assert HoldsBlock(p, c, b, p.done[b]);
    var m := RequestLength(|c|, b);
    SliceOfSlice(p.data, begin, begin + m, 0, n);
    SliceOfSlice(c, begin, begin + m, 0, n);
  }

  /**
   * Over any run with blocks of one content, before and after pieces are complete or written: a request that stays
   * inside one block is served with that part of the content, exactly if the block is done.
   */
  lemma RunServesContent<Id>(meta: Meta, r: Run<Id>, t: Bytes, k: nat, id: nat, begin: nat, length: nat)
    requires IsRun(meta, r) && k < |r.states| && |t| == meta.Length()
    requires HonestUntil(meta, r, t, k) && HarmlessUntil(meta, r, k) && DiskHolds(meta, r.states[0], t)
    requires meta.WellFormed() && id in r.states[k].active && id < meta.PieceCount()
    requires var n := if length == 0 then 16384 else length;
             begin % 16384 == 0 && begin < meta.PieceLengthOf(id) && n <= RequestLength(meta.PieceLengthOf(id), begin / 16384)
    ensures ObjectsOk(meta, r.states[k])
    ensures var s := r.states[k];
            var p, n := s.heap[s.active[id]], if length == 0 then 16384 else length;
            && begin + n <= |PieceSlice(meta, t, id)| && (p.written ==> p.id < meta.PieceCount())
            && GetBlock(meta, p, s.disk, begin, length)
               == if p.done[begin / 16384] then Served(PieceSlice(meta, t, id)[begin..begin + n]) else NotDone
  {
    RunKeepsInv(meta, r, k);
    RunHoldsContent(meta, r, t, k);
    RunKeepsDisk(meta, r, t, k);
    hide HoldsContent, DiskHolds, Conserved, GetBlock, PieceSlice;
    ServesContent(meta, r.states[k], t, id, begin, length);
  }

  // ----- without blocks for complete pieces -----

  ghost predicate WaitingAt<Id>(s: Sys<Id>, k: nat)
    requires k < |s.queue|
  {
    var o := s.queue[k];
    o in s.heap && !s.heap[o].written && s.heap[o].Complete()
  }

  /** Every object in the queue is complete and still in memory, and is queued once. */
  ghost predicate QueueClean<Id>(s: Sys<Id>) {
    && (forall k :: 0 <= k < |s.queue| ==> WaitingAt(s, k))
    && (forall j, k :: 0 <= j < k < |s.queue| ==> s.queue[j] != s.queue[k])
  }

  /** The content has the listed digests. */
  ghost predicate Right(meta: Meta, t: Bytes) {
    forall id: nat :: id < meta.PieceCount() ==> SliceGood(meta, t, id)
  }

  /** An object that waits in the queue has its slice of `t`, which has the listed digest. */
  lemma WaitingIsRight<Id>(meta: Meta, s: Sys<Id>, t: Bytes, k: nat)
    requires HoldsContent(meta, s, t) && Right(meta, t) && k < |s.queue| && WaitingAt(s, k)
    ensures var p := s.heap[s.queue[k]];
            p.id < meta.PieceCount() ==> meta.sha1(p.data) == meta.digests[p.id]
  {
    var o := s.queue[k];
    if s.heap[o].id < meta.PieceCount() {
      assert Live(s, o) && SliceGood(meta, t, s.heap[o].id);
      CompletePartIsWhole(s.heap[o], PieceSlice(meta, t, s.heap[o].id));
    }
  }

  lemma WriteKeepsClean<Id>(meta: Meta, s: Sys<Id>, t: Bytes)
    requires HoldsContent(meta, s, t) && Right(meta, t) && QueueClean(s) && s.queue != []
    ensures QueueClean(WriteNext(meta, s))
  {
    var s' := WriteNext(meta, s);
    assert WaitingAt(s, 0);
    WaitingIsRight(meta, s, t, 0);
    if s.heap[s.queue[0]].id < meta.PieceCount() {
      RightIsWritten(meta, s);
    }
    forall k | 0 <= k < |s'.queue|
      ensures WaitingAt(s', k)
    {
      assert WaitingAt(s, k + 1) && s.queue[k + 1] != s.queue[0];
    }
  }

  lemma ReceiveKeepsClean<Id>(meta: Meta, s: Sys<Id>, id: nat, offset: nat, data: Bytes)
    requires Inv(meta, s) && QueueClean(s) && !Has(s, id)
    ensures QueueClean(PutBlock(meta, s, id, offset, data))
  {
    if id in s.active && s.heap[s.active[id]].BlockError(offset, |data|).None? {
      var s', o := PutBlock(meta, s, id, offset, data), s.active[id];
      forall k | 0 <= k < |s.queue|
        ensures s.queue[k] != o && s'.queue[k] == s.queue[k] && WaitingAt(s', k)
      {
        assert WaitingAt(s, k);
      }
      StoreKeepsWritten(s.heap[o], offset, data);
    }
  }

  lemma StoreKeepsWritten(p: PieceState, offset: nat, data: Bytes)
    requires p.Ok() && p.BlockError(offset, |data|).None? && !p.Complete()
    ensures !p.written && !p.StoreBlock(offset, data).written
  {}

  lemma OtherKeepsClean<Id>(meta: Meta, s: Sys<Id>, l: Label<Id>, s': Sys<Id>)
    requires Step(meta, s, l, s') && QueueClean(s) && !l.Writing? && !l.Receiving?
    ensures QueueClean(s')
  {
    forall k | 0 <= k < |s'.queue|
      ensures WaitingAt(s', k)
    {
      assert WaitingAt(s, k);
      match l
      case Activating(id, o) =>
      case Marking(id) => MarkOk(s.heap[s.active[id]]);
      case Retrying(id, timedOut) => RetryOk(s.heap[s.active[id]], timedOut);
      case Sizing(count) =>
    }
  }

  lemma StepKeepsClean<Id>(meta: Meta, s: Sys<Id>, l: Label<Id>, s': Sys<Id>, t: Bytes)
    requires Inv(meta, s) && Step(meta, s, l, s') && HoldsContent(meta, s, t) && Right(meta, t)
    requires QueueClean(s) && (l.Receiving? ==> !Has(s, l.id))
    ensures QueueClean(s')
  {
    if l.Writing? {
      WriteKeepsClean(meta, s, t);
    } else if l.Receiving? {
      ReceiveKeepsClean(meta, s, l.id, l.offset, l.data);
    } else {
      OtherKeepsClean(meta, s, l, s');
    }
  }

  /** None of the first `k` steps brings a block for a piece that is complete already. */
  ghost predicate NoDuplicates<Id>(r: Run<Id>, k: nat)
    requires k <= |r.labels| < |r.states|
  {
    forall i :: 0 <= i < k ==> NoDuplicateAt(r, i)
  }

  ghost predicate NoDuplicateAt<Id>(r: Run<Id>, i: nat)
    requires i < |r.labels| < |r.states|
  {
    r.labels[i].Receiving? ==> !Has(r.states[i], r.labels[i].id)
  }

  lemma {:induction false} RunKeepsClean<Id>(meta: Meta, r: Run<Id>, t: Bytes, k: nat)
    requires IsRun(meta, r) && k < |r.states| && |t| == meta.Length() && Right(meta, t)
    requires HonestUntil(meta, r, t, k) && NoDuplicates(r, k)
    ensures QueueClean(r.states[k])
  {
    if k > 0 {
      assert StepAt(meta, r, k - 1) && NoDuplicateAt(r, k - 1);
      assert HonestUntil(meta, r, t, k - 1) && NoDuplicates(r, k - 1) && |r.states| == |r.labels| + 1;
      hide IsRun, HonestUntil, NoDuplicates, HoldsContent, Right, QueueClean, Inv, Has, Step;
      RunKeepsClean(meta, r, t, k - 1);
      RunHoldsContent(meta, r, t, k - 1);
      RunKeepsInv(meta, r, k - 1);
      StepKeepsClean(meta, r.states[k - 1], r.labels[k - 1], r.states[k], t);
    }
  }

  /**
   * The download ends: over any run in which peers send right blocks, in any order, from any start, and none for a
   * piece that is complete, the writer ends with a done torrent if and only if all listed pieces and no others are there.
   */
  lemma HonestRunEndsDoneIff<Id>(meta: Meta, r: Run<Id>, t: Bytes, k: nat)
    requires IsRun(meta, r) && k < |r.states| && |t| == meta.Length() && Right(meta, t)
    requires HonestUntil(meta, r, t, k) && NoDuplicates(r, k)
    ensures Inv(meta, r.states[k])
    ensures Done(meta, Drained(meta, r.states[k], |r.states[k].queue|))
       <==> AllThere(meta, r.states[k])
  {
    var s := r.states[k];
    RunKeepsInv(meta, r, k);
    RunHoldsContent(meta, r, t, k);
    RunKeepsClean(meta, r, t, k);
    forall i | 0 <= i < |s.queue|
      ensures FitAt(meta, s, i)
    {
      assert WaitingAt(s, i);
      WaitingIsRight(meta, s, t, i);
    }
    hide Done, HoldsContent, Right, Inv;
    DrainedIsDoneIff(meta, s);
  }

  /** The state of a complete download, with or without writes pending: one more block for any of its pieces spoils it. */
  lemma DuplicateUndoes<Id>(meta: Meta, r: Run<Id>, t: Bytes, k: nat, id: nat, offset: nat, data: Bytes)
    requires IsRun(meta, r) && k < |r.states| && |t| == meta.Length() && Right(meta, t)
    requires HonestUntil(meta, r, t, k) && NoDuplicates(r, k) && AllThere(meta, r.states[k])
    requires id < meta.PieceCount() && Has(r.states[k], id)
    requires r.states[k].heap[r.states[k].active[id]].BlockError(offset, |data|).None?
    ensures Inv(meta, r.states[k]) && Done(meta, Drained(meta, r.states[k], |r.states[k].queue|))
    ensures var s' := PutBlock(meta, r.states[k], id, offset, data);
            Inv(meta, s') && !Done(meta, Drained(meta, s', |s'.queue|))
  {
    hide Done, Right, Inv;
    HonestRunEndsDoneIff(meta, r, t, k);
    DuplicateEndsUndone(meta, r.states[k], id, offset, data);
  }

  // ----- the smallest run that goes wrong -----

  lemma ThreeSteps<Id>(
    meta: Meta, s: Sys<Id>, a: Label<Id>, s1: Sys<Id>, b: Label<Id>, s2: Sys<Id>, c: Label<Id>, s3: Sys<Id>)
    requires Blank(meta, s) && Step(meta, s, a, s1) && Step(meta, s1, b, s2) && Step(meta, s2, c, s3)
    ensures IsRun(meta, Run([s, s1, s2, s3], [a, b, c]))
  {
    hide Step, Blank;
    var r := Run([s, s1, s2, s3], [a, b, c]);
    assert StepAt(meta, r, 0) && StepAt(meta, r, 1) && StepAt(meta, r, 2);
  }

  /** A torrent of one block, whose block arrives once and then once more. */
  ghost function TwiceRun<Id>(meta: Meta, s: Sys<Id>, o: Id, t: Bytes): (r: Run<Id>)
    requires Blank(meta, s) && meta.PieceCount() == 1 && |t| == meta.Length() <= BLOCK_SIZE
    ensures IsRun(meta, r) && |r.states| == 4 && r.states[0] == s
  {
    hide PutBlock, Activate, IsRun, Inv, ObjectsOk;
    InitialInv(meta, s);
    var s1 := Activate(meta, s, 0, o);
    ActivateKeepsInv(meta, s, 0, o);
    InvObjectsOk(meta, s);
    InvObjectsOk(meta, s1);
    var s2 := PutBlock(meta, s1, 0, 0, t);
    PutBlockKeepsInv(meta, s1, 0, 0, t);
    InvObjectsOk(meta, s2);
    var s3 := PutBlock(meta, s2, 0, 0, t);
    ThreeSteps(meta, s, Activating(0, o), s1, Receiving(0, 0, t), s2, Receiving(0, 0, t), s3);
    Run([s, s1, s2, s3], [Activating(0, o), Receiving(0, 0, t), Receiving(0, 0, t)])
  }

  /** After the first copy of the block the writer ends done, and after the second it does not. */
  lemma TwiceEndsUndone<Id>(meta: Meta, s: Sys<Id>, o: Id, t: Bytes)
    requires Blank(meta, s) && meta.PieceCount() == 1 && |t| == meta.Length() <= BLOCK_SIZE && Right(meta, t)
    ensures var r := TwiceRun(meta, s, o, t);
            && Inv(meta, r.states[2]) && Done(meta, Drained(meta, r.states[2], |r.states[2].queue|))
            && Inv(meta, r.states[3]) && !Done(meta, Drained(meta, r.states[3], |r.states[3].queue|))
  {
    var r := TwiceRun(meta, s, o, t);
    TwiceArrives(meta, s, o, t);
    hide *;
    DuplicateUndoes(meta, r, t, 2, 0, 0, t);
  }

  lemma OneBlockCompletes(t: Bytes)
    requires 0 < |t| <= BLOCK_SIZE
    ensures var p := NewPiece(0, |t|);
            && p.Ok() && !p.Complete() && p.BlockError(0, |t|).None?
            && var q := p.StoreBlock(0, t); q.Ok() && q.Complete() && q.id == 0 && q.BlockError(0, |t|).None?
  {
    var p := NewPiece(0, |t|);
    NewPieceOk(0, |t|);
    StoreOk(p, 0, t);
    CompleteIff(p.StoreBlock(0, t));
  }

  lemma TwiceArrives<Id>(meta: Meta, s: Sys<Id>, o: Id, t: Bytes)
    requires Blank(meta, s) && meta.PieceCount() == 1 && |t| == meta.Length() <= BLOCK_SIZE
    ensures var r := TwiceRun(meta, s, o, t);
            && HonestUntil(meta, r, t, 2) && NoDuplicates(r, 2) && AllThere(meta, r.states[2]) && Has(r.states[2], 0)
            && r.states[2].heap[r.states[2].active[0]].BlockError(0, |t|).None?
            && ObjectsOk(meta, r.states[2]) && r.states[3] == PutBlock(meta, r.states[2], 0, 0, t)
  {
    OneBlock(meta, t);
    OneBlockCompletes(t);
    hide NewPiece, PieceState.Complete, PieceState.StoreBlock, PieceState.BlockError, PieceState.Ok, PieceSlice;
    var r := TwiceRun(meta, s, o, t);
    assert NoDuplicateAt(r, 0) && NoDuplicateAt(r, 1);
  }

  lemma OneBlock(meta: Meta, t: Bytes)
    requires meta.WellFormed() && meta.PieceCount() == 1 && |t| == meta.Length() <= BLOCK_SIZE
    ensures meta.PieceLengthOf(0) == |t| && BlockCountOf(|t|) == 1
    ensures PieceSlice(meta, t, 0) == t && BlockOf(t, 0) == t
  {
    PieceBounds(meta, 0);
    BlocksTile(|t|, 0);
  }
}
