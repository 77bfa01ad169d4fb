/**
 * The writer at work. The torrent is done once the queue is empty exactly when all pieces are there and no object
 * with wrong or written bytes is dequeued; a piece that was completed twice is queued twice, and that resets it.
 */
module Draining {
  import opened Bytes
  import opened Bitfields
  import opened Files
  import opened Pieces
  import opened Transfer
  import opened Runs

  /** The `k`-th object of the queue holds the right bytes, and its turn comes only once. Unlisted ids are dropped. */
  ghost predicate FitAt<Id>(meta: Meta, s: Sys<Id>, k: nat)
    requires k < |s.queue|
  {
    var o := s.queue[k];
    o in s.heap && s.heap[o].id < meta.PieceCount() ==>
      && meta.sha1(s.heap[o].data) == meta.digests[s.heap[o].id]
      && forall m :: k < m < |s.queue| ==> s.queue[m] != o
  }

  /** Every listed piece is complete, and no other is active. */
  ghost predicate AllThere<Id>(meta: Meta, s: Sys<Id>) {
    && (forall id: nat :: id < meta.PieceCount() ==> Has(s, id))
    && (forall id :: id in s.active ==> id < meta.PieceCount())
  }

  /** All pieces are there, and the queue is fit to be written. */
  ghost predicate Fit<Id>(meta: Meta, s: Sys<Id>) {
    && AllThere(meta, s)
    && (forall k :: 0 <= k < |s.queue| ==> FitAt(meta, s, k))
  }

  // ----- one round of the writer -----

  /** Dequeuing a listed object with right bytes is a write to disk. */
  lemma RightIsWritten<Id>(meta: Meta, s: Sys<Id>)
    requires ObjectsOk(meta, s) && s.queue != []
    requires var p := s.heap[s.queue[0]];
             p.id < meta.PieceCount() && meta.sha1(p.data) == meta.digests[p.id]
    ensures var o := s.queue[0];
            && ObjectsOk(meta, s.(queue := s.queue[1..])) && |s.heap[o].data| == s.heap[o].size
            && WriteNext(meta, s) == WriteBack(meta, s.(queue := s.queue[1..]), o)
  {
    DequeueObjectsOk(meta, s);
    MatchingIsWhole(meta, s.heap[s.queue[0]]);
  }

  /** A write leaves which pieces are active and complete. */
  lemma WriteKeepsPieces<Id>(meta: Meta, s: Sys<Id>, id: nat)
    requires Inv(meta, s) && s.queue != []
    requires var p := s.heap[s.queue[0]];
             p.id < meta.PieceCount() && meta.sha1(p.data) == meta.digests[p.id]
    ensures WriteNext(meta, s).active == s.active && (Has(WriteNext(meta, s), id) <==> Has(s, id))
  {
    RightIsWritten(meta, s);
    SetWrittenOk(s.heap[s.queue[0]]);
    assert ConservedAt(meta, s, id);
  }

  /** Of a write, the rest of the queue is fit exactly when the queue was. */
  lemma WriteKeepsFit<Id>(meta: Meta, s: Sys<Id>)
    requires Inv(meta, s) && s.queue != []
    requires var p := s.heap[s.queue[0]];
             p.id < meta.PieceCount() && meta.sha1(p.data) == meta.digests[p.id]
    ensures Fit(meta, s) <==> Fit(meta, WriteNext(meta, s))
  {
    var s' := WriteNext(meta, s);
    var o := s.queue[0];
    RightIsWritten(meta, s);
    forall id: nat
      ensures s'.active == s.active && (Has(s', id) <==> Has(s, id))
    {
      WriteKeepsPieces(meta, s, id);
    }
    assert meta.digests[s.heap[o].id] in meta.digests;
    QueueAfterWrite(meta, s, s');
  }

  lemma QueueAfterWrite<Id>(meta: Meta, s: Sys<Id>, s': Sys<Id>)
    requires ObjectsOk(meta, s) && s.queue != [] && s'.queue == s.queue[1..]
    requires var p := s.heap[s.queue[0]];
             && p.id < meta.PieceCount() && meta.sha1(p.data) == meta.digests[p.id]
             && meta.sha1([]) != meta.digests[p.id]
             && s'.heap == s.heap[s.queue[0] := p.SetWritten()]
    ensures (forall k :: 0 <= k < |s.queue| ==> FitAt(meta, s, k))
       <==> (forall k :: 0 <= k < |s'.queue| ==> FitAt(meta, s', k))
  {
    if forall k :: 0 <= k < |s.queue| ==> FitAt(meta, s, k) {
      forall k | 0 <= k < |s'.queue|
        ensures FitAt(meta, s', k)
      {
        assert FitAt(meta, s, 0) && FitAt(meta, s, k + 1);
        assert s.queue[k + 1] != s.queue[0];
        assert forall m :: k < m < |s'.queue| ==> s'.queue[m] == s.queue[m + 1];
      }
    }
    if forall k :: 0 <= k < |s'.queue| ==> FitAt(meta, s', k) {
      forall m | 0 < m < |s.queue|
        ensures s.queue[m] != s.queue[0] && FitAt(meta, s, m)
      {
        assert s'.queue[m - 1] == s.queue[m] && FitAt(meta, s', m - 1);
        assert forall i :: m < i < |s.queue| ==> s.queue[i] == s'.queue[i - 1];
      }
      assert FitAt(meta, s, 0);
    }
  }

  /** An object with an unlisted id leaves the queue without effect. */
  lemma DropKeepsFit<Id>(meta: Meta, s: Sys<Id>)
    requires ObjectsOk(meta, s) && s.queue != [] && s.heap[s.queue[0]].id >= meta.PieceCount()
    ensures Fit(meta, s) <==> Fit(meta, WriteNext(meta, s))
  {
    var s' := WriteNext(meta, s);
    assert forall id: nat :: Has(s', id) <==> Has(s, id);
    forall k | 0 <= k < |s'.queue|
      ensures FitAt(meta, s', k) <==> FitAt(meta, s, k + 1)
    {
      assert forall m :: k < m < |s'.queue| ==> s'.queue[m] == s.queue[m + 1];
      assert forall m :: k + 1 < m < |s.queue| ==> s.queue[m] == s'.queue[m - 1];
    }
    assert FitAt(meta, s, 0);
    forall k | 0 < k < |s.queue|
      ensures FitAt(meta, s, k) <==> FitAt(meta, s', k - 1)
    {}
  }

  /** Neither before nor after a reset is the state fit. */
  lemma ResetIsUnfit<Id>(meta: Meta, s: Sys<Id>)
    requires ObjectsOk(meta, s) && s.queue != []
    requires var p := s.heap[s.queue[0]];
             p.id < meta.PieceCount() && meta.sha1(p.data) != meta.digests[p.id]
    ensures !Fit(meta, s) && !Fit(meta, WriteNext(meta, s))
  {
    assert !FitAt(meta, s, 0);
    DequeueObjectsOk(meta, s);
    assert !Has(WriteNext(meta, s), s.heap[s.queue[0]].id);
  }

  lemma WriteNextFitIff<Id>(meta: Meta, s: Sys<Id>)
    requires Inv(meta, s) && s.queue != []
    ensures Fit(meta, s) <==> Fit(meta, WriteNext(meta, s))
  {
    var p := s.heap[s.queue[0]];
    if p.id >= meta.PieceCount() {
      DropKeepsFit(meta, s);
    } else if meta.sha1(p.data) == meta.digests[p.id] {
      WriteKeepsFit(meta, s);
    } else {
      ResetIsUnfit(meta, s);
    }
  }

  // ----- until the queue is empty -----

  lemma {:induction false} DrainedFitIff<Id>(meta: Meta, s: Sys<Id>, n: nat)
    requires Inv(meta, s) && n <= |s.queue|
    ensures Fit(meta, s) <==> Fit(meta, Drained(meta, s, n))
  {
    hide WriteNext, Inv, Fit;
    if n > 0 {
      DrainedFitIff(meta, s, n - 1);
      WriteNextFitIff(meta, Drained(meta, s, n - 1));
    }
  }

  lemma EmptyQueueDoneIff<Id>(meta: Meta, s: Sys<Id>)
    requires Inv(meta, s) && s.queue == []
    ensures Done(meta, s) <==> Fit(meta, s)
  {
    DoneIff(meta, s);
    forall id: nat | id < meta.PieceCount()
      ensures Written(s, id) <==> Has(s, id)
    {
      assert ConservedAt(meta, s, id);
    }
  }

  /**
   * Exactly when the writer ends with a done torrent: all listed pieces and no others are there, and every listed
   * object in the queue, active or stale, has right bytes and is queued once.
   */
  lemma DrainedIsDoneIff<Id>(meta: Meta, s: Sys<Id>)
    requires Inv(meta, s)
    ensures Done(meta, Drained(meta, s, |s.queue|)) <==> Fit(meta, s)
  {
    hide Done, Fit;
    DrainedFitIff(meta, s, |s.queue|);
    EmptyQueueDoneIff(meta, Drained(meta, s, |s.queue|));
  }

  // ----- duplicate blocks -----

  /** A block for a complete piece, which every sender can repeat, queues the piece again. */
  lemma DuplicateQueuesAgain<Id>(meta: Meta, s: Sys<Id>, id: nat, offset: nat, data: Bytes)
    requires Inv(meta, s) && Has(s, id) && s.heap[s.active[id]].BlockError(offset, |data|).None?
    ensures var s' := PutBlock(meta, s, id, offset, data);
            && s'.queue == s.queue + [s.active[id]] && s'.active == s.active
            && s'.heap[s.active[id]].data == s.heap[s.active[id]].data
            && s'.heap[s.active[id]].id == id
  {
    var p := s.heap[s.active[id]];
    StoreKeepsComplete(p, offset, data);
    CompleteIff(p);
  }

  /** So after a duplicate block the writer ends with a torrent that is not done, whatever else is in the queue. */
  lemma DuplicateEndsUndone<Id>(meta: Meta, s: Sys<Id>, id: nat, offset: nat, data: Bytes)
    requires Inv(meta, s) && Has(s, id) && id < meta.PieceCount()
    requires s.heap[s.active[id]].BlockError(offset, |data|).None?
    ensures var s' := PutBlock(meta, s, id, offset, data);
            Inv(meta, s') && !Done(meta, Drained(meta, s', |s'.queue|))
  {
    var s' := PutBlock(meta, s, id, offset, data);
    PutBlockKeepsInv(meta, s, id, offset, data);
    DuplicateQueuesAgain(meta, s, id, offset, data);
    var o, n := s.active[id], |s.queue|;
    assert ConservedAt(meta, s, id);
    assert s'.queue[n] == o;
    if Written(s, id) {
      assert s'.heap[o].data == [] && meta.digests[id] in meta.digests;
      assert !FitAt(meta, s', n);
    } else {
      var k :| 0 <= k < n && s.queue[k] == o;
      assert s'.queue[k] == o && !FitAt(meta, s', k);
    }
    DrainedIsDoneIff(meta, s');
  }

  /**
   * The same object twice in a row: the second round finds the data gone and resets the piece, though its right
   * bytes are on disk.
   */
  lemma QueuedTwiceIsReset<Id>(meta: Meta, s: Sys<Id>)
    requires Inv(meta, s) && |s.queue| >= 2 && s.queue[0] == s.queue[1]
    requires var p := s.heap[s.queue[0]];
             && p.id < meta.PieceCount() && meta.sha1(p.data) == meta.digests[p.id]
             && p.id in s.active && s.active[p.id] == s.queue[0]
    ensures Inv(meta, WriteNext(meta, s)) && WriteNext(meta, s).queue != []
    ensures var t, id := WriteNext(meta, WriteNext(meta, s)), s.heap[s.queue[0]].id;
            id !in t.active && !BitAt(t.client, id) && SliceGood(meta, t.disk, id)
  {
    var id := s.heap[s.queue[0]].id;
    var s1 := WriteNext(meta, s);
    RightIsWritten(meta, s);
    WriteNextKeepsInv(meta, s);
    assert Written(s1, id) && ConservedAt(meta, s1, id);
    assert s1.heap[s1.queue[0]].data == [] && meta.digests[id] in meta.digests;
  }

  /** The step dequeues an object with the id whose bytes miss the listed digest. */
  ghost predicate DequeuesWrong<Id>(meta: Meta, s: Sys<Id>, l: Label<Id>, id: nat)
    requires ObjectsOk(meta, s) && (l.Writing? ==> s.queue != [])
  {
    l.Writing? && id < meta.PieceCount()
    && var p := s.heap[s.queue[0]]; p.id == id && meta.sha1(p.data) != meta.digests[id]
  }

  /** Exactly when a written piece stays written across a step. */
  lemma WrittenStaysIff<Id>(meta: Meta, s: Sys<Id>, l: Label<Id>, s': Sys<Id>, id: nat)
    requires Inv(meta, s) && Step(meta, s, l, s') && Written(s, id)
    ensures Written(s', id) <==> !DequeuesWrong(meta, s, l, id)
  {
    assert ConservedAt(meta, s, id);
    if l.Writing? {
      WrittenStaysInWriteIff(meta, s, id);
    } else {
      WrittenStaysOutside(meta, s, l, s', id);
    }
  }

  lemma WrittenStaysInWriteIff<Id>(meta: Meta, s: Sys<Id>, id: nat)
    requires ObjectsOk(meta, s) && s.queue != [] && Written(s, id) && id < meta.PieceCount()
    ensures Written(WriteNext(meta, s), id) <==> !DequeuesWrong(meta, s, Writing, id)
  {
    DequeueObjectsOk(meta, s);
    var p := s.heap[s.queue[0]];
    if p.id < meta.PieceCount() && meta.sha1(p.data) == meta.digests[p.id] {
      RightIsWritten(meta, s);
    }
  }

  lemma WrittenStaysOutside<Id>(meta: Meta, s: Sys<Id>, l: Label<Id>, s': Sys<Id>, id: nat)
    requires ObjectsOk(meta, s) && Step(meta, s, l, s') && !l.Writing? && Written(s, id)
    ensures Written(s', id)
  {
    hide PieceState.BlockError, PieceState.Complete, PieceState.Ok;
    if l.Receiving? && l.id in s.active && s.heap[s.active[l.id]].BlockError(l.offset, |l.data|).None? {
      assert s'.heap[s.active[id]].written == s.heap[s.active[id]].written;
    }
  }
}
