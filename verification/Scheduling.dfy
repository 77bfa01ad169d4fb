/** The REQUESTs of whole runs, from all peers together. */
module Scheduling {
  import opened Bytes
  import opened Bitfields
  import opened Files
  import opened Pieces
  import opened Transfer
  import opened Runs

  /** A requested block of a piece. */
  datatype BlockRequest = BlockRequest(id: nat, block: nat)

  /** The request that a step sends: `next_offset(true)` on an active piece that still has an open block. */
  ghost function Sent<Id>(meta: Meta, s: Sys<Id>, l: Label<Id>): Option<BlockRequest>
    requires ObjectsOk(meta, s)
  {
    if !l.Marking? || l.id !in s.active then None
    else
      var next := s.heap[s.active[l.id]].NextBlock();
      if next.None? then None else Some(BlockRequest(l.id, next.value))
  }

  /** The step neither retries the piece `id` with effect nor resets it. */
  ghost predicate KeepsRequests<Id>(meta: Meta, s: Sys<Id>, l: Label<Id>, s': Sys<Id>, id: nat)
    requires Step(meta, s, l, s')
  {
    && (l.Retrying? && l.id == id ==> !s.heap[s.active[id]].RetryApplies(l.timedOut))
    && (l.Writing? && id in s.active ==> id in s'.active)
  }

  /** The block is marked as requested in the active piece. */
  ghost predicate Marked<Id>(s: Sys<Id>, q: BlockRequest) {
    && q.id in s.active && s.active[q.id] in s.heap
    && BitAt(s.heap[s.active[q.id]].requested, q.block)
  }

  lemma ResetKeepsOthers<Id>(meta: Meta, s: Sys<Id>, i: nat, id: nat)
    requires ObjectsOk(meta, s) && id in s.active && id in ResetPiece(meta, s, i).active
    ensures ResetPiece(meta, s, i).active[id] == s.active[id] && s.active[id] in ResetPiece(meta, s, i).heap
    ensures ResetPiece(meta, s, i).heap[s.active[id]] == s.heap[s.active[id]]
  {
    hide PieceState.Reset, PieceState.Ok, WithBit;
    if i in s.active {
      assert s.heap[s.active[i]].id == i && s.heap[s.active[id]].id == id;
    }
  }

  lemma WriteKeepsRequested<Id>(meta: Meta, s: Sys<Id>, id: nat)
    requires ObjectsOk(meta, s) && s.queue != [] && id in s.active && id in WriteNext(meta, s).active
    ensures WriteNext(meta, s).active[id] == s.active[id] && s.active[id] in WriteNext(meta, s).heap
    ensures WriteNext(meta, s).heap[s.active[id]].requested == s.heap[s.active[id]].requested
  {
    var s1, p := s.(queue := s.queue[1..]), s.heap[s.queue[0]];
    DequeueObjectsOk(meta, s);
    hide ObjectsOk, ResetPiece, PieceState.Ok;
    if p.id < meta.PieceCount() && meta.sha1(p.data) != meta.digests[p.id] {
      ResetKeepsOthers(meta, s1, p.id, id);
    }
  }

  lemma StoreKeepsRequested(p: PieceState, offset: nat, data: Bytes)
    requires p.Ok() && p.BlockError(offset, |data|).None?
    ensures p.StoreBlock(offset, data).requested == p.requested
  {}

  lemma BlockKeepsMarked<Id>(meta: Meta, s: Sys<Id>, id: nat, offset: nat, data: Bytes, q: BlockRequest)
    requires ObjectsOk(meta, s) && Marked(s, q)
    ensures Marked(PutBlock(meta, s, id, offset, data), q)
  {
    hide PieceState.StoreBlock, PieceState.BlockError, PieceState.Complete;
    if id in s.active && s.heap[s.active[id]].BlockError(offset, |data|).None? {
      StoreKeepsRequested(s.heap[s.active[id]], offset, data);
    }
  }

  lemma StepKeepsMarked<Id>(meta: Meta, s: Sys<Id>, l: Label<Id>, s': Sys<Id>, q: BlockRequest)
    requires Step(meta, s, l, s') && KeepsRequests(meta, s, l, s', q.id) && Marked(s, q)
    ensures Marked(s', q)
  {
    hide WriteNext, PutBlock, PieceState.Ok;
    match l
    case Activating(id, o) =>
    case Marking(id) => assert s.heap[s.active[id]].Ok();
    case Retrying(id, timedOut) =>
      if id != q.id {
        assert s.active[id] != s.active[q.id];
      }
    case Sizing(count) =>
    case Receiving(id, offset, data) => BlockKeepsMarked(meta, s, id, offset, data, q);
    case Writing => WriteKeepsRequested(meta, s, q.id);
  }

  /**
   * A request names a block that lies in its piece, is not done and was not requested before; its offset and
   * length are the block's part of the piece.
   */
  lemma SentIsOpen<Id>(meta: Meta, s: Sys<Id>, l: Label<Id>, s': Sys<Id>)
    requires Step(meta, s, l, s') && Sent(meta, s, l).Some?
    ensures var q := Sent(meta, s, l).value;
            && q.id in s.active
            && var p := s.heap[s.active[q.id]];
               && q.block < p.BlockCount() && !BitAt(p.done, q.block) && !Marked(s, q)
               && q.block * BLOCK_SIZE + RequestLength(p.size, q.block) <= p.size
    ensures Marked(s', Sent(meta, s, l).value)
  {
    var p := s.heap[s.active[l.id]];
    NextBlockIsFirstOpen(p);
    BlocksTile(p.size, p.NextBlock().value);
  }

  // ----- over whole runs -----

  /** Activations come from `next_piece`, which stays inside the common length of the two bitfields. */
  ghost predicate Scheduled<Id>(r: Run<Id>) {
    forall k :: 0 <= k < |r.labels| && k < |r.states| ==> ScheduledAt(r, k)
  }

  ghost predicate ScheduledAt<Id>(r: Run<Id>, k: nat)
    requires k < |r.labels| && k < |r.states|
  {
    r.labels[k].Activating? ==> r.labels[k].id < |r.states[k].client|
  }

  /** The step chooses a piece or a block to request, and nothing else. */
  ghost predicate AsksAt<Id>(r: Run<Id>, k: nat)
    requires k < |r.labels| && k < |r.states|
  {
    (r.labels[k].Activating? || r.labels[k].Marking?) && ScheduledAt(r, k)
  }

  /** The run `r` goes on after `h` with such steps only. */
  ghost predicate Asks<Id>(h: Run<Id>, r: Run<Id>) {
    && Continues(h, r)
    && forall k :: |h.labels| <= k < |r.labels| && k < |r.states| ==> AsksAt(r, k)
  }

  lemma OneStepAsks<Id>(h: Run<Id>, l: Label<Id>, s: Sys<Id>)
    requires |h.states| == |h.labels| + 1 && (l.Activating? || l.Marking?)
    requires l.Activating? ==> l.id < |Last(h).client|
    ensures Asks(h, Extended(h, l, s))
  {}

  lemma AsksTransitive<Id>(a: Run<Id>, b: Run<Id>, c: Run<Id>)
    requires Asks(a, b) && Asks(b, c) && |b.states| == |b.labels| + 1
    ensures Asks(a, c)
  {
    forall k | |a.labels| <= k < |c.labels| && k < |c.states|
      ensures AsksAt(c, k)
    {
      if k < |b.labels| {
        assert AsksAt(b, k) && b.labels[k] == c.labels[k] && b.states[k] == c.states[k];
      }
    }
  }

  ghost predicate KeepsRequestsAt<Id>(meta: Meta, r: Run<Id>, k: nat, id: nat)
    requires IsRun(meta, r) && k < |r.labels|
  {
    assert StepAt(meta, r, k);
    KeepsRequests(meta, r.states[k], r.labels[k], r.states[k + 1], id)
  }

  ghost function SentAt<Id>(meta: Meta, r: Run<Id>, k: nat): Option<BlockRequest>
    requires IsRun(meta, r) && k < |r.labels|
  {
    assert StepAt(meta, r, k);
    Sent(meta, r.states[k], r.labels[k])
  }

  function Log(q: Option<BlockRequest>): seq<BlockRequest> {
    if q.Some? then [q.value] else []
  }

  /** The requests of the first `k` steps, in the order in which they were sent. */
  ghost function RequestLog<Id>(meta: Meta, r: Run<Id>, k: nat): seq<BlockRequest>
    requires IsRun(meta, r) && k <= |r.labels|
  {
    if k == 0 then []
    else
      RequestLog(meta, r, k - 1) + Log(SentAt(meta, r, k - 1))
  }

  lemma {:induction false} ExtendedLog<Id>(meta: Meta, r: Run<Id>, l: Label<Id>, s: Sys<Id>, k: nat)
    requires IsRun(meta, r) && IsRun(meta, Extended(r, l, s)) && k <= |r.labels|
    ensures RequestLog(meta, Extended(r, l, s), k) == RequestLog(meta, r, k)
  {
    if k > 0 {
      ExtendedLog(meta, r, l, s, k - 1);
      assert StepAt(meta, r, k - 1) && StepAt(meta, Extended(r, l, s), k - 1);
    }
  }

  ghost function AllRequests<Id>(meta: Meta, r: Run<Id>): seq<BlockRequest>
    requires IsRun(meta, r)
  {
    RequestLog(meta, r, |r.labels|)
  }

  /** One more step adds the request that it sends, if it sends one. */
  lemma ExtendedRequests<Id>(meta: Meta, r: Run<Id>, l: Label<Id>, s: Sys<Id>)
    requires IsRun(meta, r) && IsRun(meta, Extended(r, l, s)) && ObjectsOk(meta, Last(r))
    ensures AllRequests(meta, Extended(r, l, s))
         == AllRequests(meta, r) + Log(Sent(meta, Last(r), l))
  {
    ExtendedLog(meta, r, l, s, |r.labels|);
    assert StepAt(meta, Extended(r, l, s), |r.labels|);
  }

  lemma {:induction false} RunKeepsMarked<Id>(meta: Meta, r: Run<Id>, j: nat, k: nat, q: BlockRequest)
    requires IsRun(meta, r) && j <= k < |r.states| && Marked(r.states[j], q)
    requires forall i :: j <= i < k ==> KeepsRequestsAt(meta, r, i, q.id)
    ensures Marked(r.states[k], q)
  {
    hide Step, KeepsRequests, Marked;
    if j < k {
      RunKeepsMarked(meta, r, j, k - 1, q);
      assert StepAt(meta, r, k - 1) && KeepsRequestsAt(meta, r, k - 1, q.id);
      StepKeepsMarked(meta, r.states[k - 1], r.labels[k - 1], r.states[k], q);
    }
  }

  lemma SentAtIsOpen<Id>(meta: Meta, r: Run<Id>, k: nat)
    requires IsRun(meta, r) && k < |r.labels| && SentAt(meta, r, k).Some?
    ensures !Marked(r.states[k], SentAt(meta, r, k).value) && Marked(r.states[k + 1], SentAt(meta, r, k).value)
  {
    assert StepAt(meta, r, k);
    SentIsOpen(meta, r.states[k], r.labels[k], r.states[k + 1]);
  }

  /**
   * As long as a piece is neither retried with effect nor reset, none of its blocks is requested twice, whichever
   * peers send the requests and whatever happens to other pieces.
   */
  lemma RequestsAreDistinct<Id>(meta: Meta, r: Run<Id>, j: nat, k: nat)
    requires IsRun(meta, r) && j < k < |r.labels|
    requires SentAt(meta, r, j).Some? && SentAt(meta, r, k).Some?
    requires forall i :: j < i < k ==> KeepsRequestsAt(meta, r, i, SentAt(meta, r, j).value.id)
    ensures SentAt(meta, r, j).value != SentAt(meta, r, k).value
  {
    SentAtIsOpen(meta, r, j);
    SentAtIsOpen(meta, r, k);
    RunKeepsMarked(meta, r, j + 1, k, SentAt(meta, r, j).value);
  }

  // ----- every mark comes from a request -----

  /** The block of the active piece is requested and not done. */
  ghost predicate Outstanding<Id>(s: Sys<Id>, q: BlockRequest) {
    Marked(s, q) && !BitAt(s.heap[s.active[q.id]].done, q.block)
  }

  lemma BlockOutstanding<Id>(meta: Meta, s: Sys<Id>, id: nat, offset: nat, data: Bytes, q: BlockRequest)
    requires ObjectsOk(meta, s) && Outstanding(PutBlock(meta, s, id, offset, data), q)
    ensures Outstanding(s, q)
  {
    hide PieceState.StoreBlock, PieceState.BlockError, PieceState.Complete, PieceState.Ok;
    if id in s.active && s.heap[s.active[id]].BlockError(offset, |data|).None? {
      StoreMarksOne(s.heap[s.active[id]], offset, data);
    }
  }

  lemma WriteOutstanding<Id>(meta: Meta, s: Sys<Id>, q: BlockRequest)
    requires ObjectsOk(meta, s) && s.queue != [] && Outstanding(WriteNext(meta, s), q)
    ensures Outstanding(s, q)
  {
    var s1, o := s.(queue := s.queue[1..]), s.queue[0];
    var p := s.heap[o];
    DequeueObjectsOk(meta, s);
    if p.id < meta.PieceCount() {
      if meta.sha1(p.data) != meta.digests[p.id] {
        assert q.id in s.active;
        ResetKeepsOthers(meta, s1, p.id, q.id);
      } else {
        MatchingIsWhole(meta, p);
        SetWrittenIs(p);
        hide PieceState.SetWritten, PieceState.Ok;
      }
    }
  }

  /** A block is outstanding after a step because the step sent its request, or because it was before and was kept. */
  lemma StepOutstanding<Id>(meta: Meta, s: Sys<Id>, l: Label<Id>, s': Sys<Id>, q: BlockRequest)
    requires Step(meta, s, l, s') && Outstanding(s', q)
    ensures Sent(meta, s, l) == Some(q) || (Outstanding(s, q) && KeepsRequests(meta, s, l, s', q.id))
  {
    hide PutBlock, WriteNext, PieceState.Ok, PieceState.Retry, PieceState.MarkNext, PieceState.RetryApplies;
    match l
    case Activating(id, o) => NewPieceIs(NewPiece(id, meta.PieceLengthOf(id)));
    case Marking(id) => MarkNextMarksOne(s.heap[s.active[id]]);
    case Retrying(id, timedOut) => RetryAppliesIff(s.heap[s.active[id]], timedOut);
    case Sizing(count) =>
    case Receiving(id, offset, data) => BlockOutstanding(meta, s, id, offset, data, q);
    case Writing =>
      WriteOutstanding(meta, s, q);
  }

  /** No block is outstanding when a run starts. */
  lemma StartOutstanding<Id>(meta: Meta, s: Sys<Id>, q: BlockRequest)
    requires Blank(meta, s) || Verified(meta, s)
    requires q.block < BlockCountOf(meta.PieceLengthOf(q.id))
    ensures !Outstanding(s, q)
  {
    if q.id in s.active {
      assert VerifiedAt(meta, s, q.id);
      CompleteIff(s.heap[s.active[q.id]]);
    }
  }

  /** Step `j` sent the request, and since then its piece was neither retried with effect nor reset. */
  ghost predicate SentSince<Id>(meta: Meta, r: Run<Id>, j: nat, k: nat, q: BlockRequest)
    requires IsRun(meta, r) && k < |r.states|
  {
    j < k && SentAt(meta, r, j) == Some(q) && forall i :: j < i < k ==> KeepsRequestsAt(meta, r, i, q.id)
  }

  /**
   * In every state of every run, a block of an active piece that is requested and not done was really requested,
   * since that piece was made or last retried with effect. So no block is held back by a mark without a request.
   */
  lemma {:induction false} OutstandingWasSent<Id>(meta: Meta, r: Run<Id>, k: nat, q: BlockRequest) returns (j: nat)
    requires IsRun(meta, r) && k < |r.states| && Outstanding(r.states[k], q)
    requires q.block < BlockCountOf(meta.PieceLengthOf(q.id))
    ensures SentSince(meta, r, j, k, q)
  {
    hide Step, Outstanding, KeepsRequests, Sent, ObjectsOk, SentSince, Blank, Verified;
    if k == 0 {
      StartOutstanding(meta, r.states[0], q);
      assert false;
    } else {
      hide IsRun;
      RunStep(meta, r, k - 1);
      StepObjectsOk(meta, r.states[k - 1], r.labels[k - 1], r.states[k]);
      StepOutstanding(meta, r.states[k - 1], r.labels[k - 1], r.states[k], q);
      if Sent(meta, r.states[k - 1], r.labels[k - 1]) == Some(q) {
        j := k - 1;
        SentJustNow(meta, r, j, q);
      } else {
        j := OutstandingWasSent(meta, r, k - 1, q);
        StillSince(meta, r, j, k - 1, q);
      }
    }
  }

  lemma StepObjectsOk<Id>(meta: Meta, s: Sys<Id>, l: Label<Id>, s': Sys<Id>)
    requires Step(meta, s, l, s')
    ensures ObjectsOk(meta, s)
  {
    hide ObjectsOk;
  }

  lemma SentJustNow<Id>(meta: Meta, r: Run<Id>, k: nat, q: BlockRequest)
    requires IsRun(meta, r) && k < |r.labels| < |r.states| && ObjectsOk(meta, r.states[k])
    requires Sent(meta, r.states[k], r.labels[k]) == Some(q)
    ensures SentSince(meta, r, k, k + 1, q)
  {
    hide Sent, ObjectsOk, Step;
    SentAtIs(meta, r, k);
  }

  lemma StillSince<Id>(meta: Meta, r: Run<Id>, j: nat, k: nat, q: BlockRequest)
    requires IsRun(meta, r) && k < |r.labels| < |r.states| && SentSince(meta, r, j, k, q)
    requires Step(meta, r.states[k], r.labels[k], r.states[k + 1])
    requires KeepsRequests(meta, r.states[k], r.labels[k], r.states[k + 1], q.id)
    ensures SentSince(meta, r, j, k + 1, q)
  {
    hide Step, KeepsRequests, Sent, ObjectsOk, SentAt;
    KeepsIs(meta, r, k, q.id);
  }

  lemma SentAtIs<Id>(meta: Meta, r: Run<Id>, k: nat)
    requires IsRun(meta, r) && k < |r.labels| < |r.states|
    ensures ObjectsOk(meta, r.states[k]) && SentAt(meta, r, k) == Sent(meta, r.states[k], r.labels[k])
  {
    hide Sent, ObjectsOk;
    assert StepAt(meta, r, k);
  }

  lemma KeepsIs<Id>(meta: Meta, r: Run<Id>, k: nat, id: nat)
    requires IsRun(meta, r) && k < |r.labels| < |r.states| && Step(meta, r.states[k], r.labels[k], r.states[k + 1])
    ensures KeepsRequestsAt(meta, r, k, id) <==> KeepsRequests(meta, r.states[k], r.labels[k], r.states[k + 1], id)
  {
    hide KeepsRequests, Step;
  }
}
