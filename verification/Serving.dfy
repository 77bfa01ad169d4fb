/** The bytes that a peer is served: from memory before a piece is written, from the files after. */
module Serving {
  import opened Bytes
  import opened Bitfields
  import opened Files
  import opened Pieces
  import opened Transfer
  import opened Runs

  /** There is no answer when the range leaves the piece's buffer or, once written, the torrent. */
  datatype Served = Refused | NotDone | NoAnswer | Served(bytes: Bytes)

  function LengthOf(length: nat): nat {
    if length != 0 then length else BLOCK_SIZE
  }

  /** The request stays inside the piece; the program does not check this. */
  predicate InRange(p: PieceState, offset: nat, length: nat) {
    offset < p.size ==> offset + LengthOf(length) <= p.size
  }

  /** `Piece::get_block` over the disk image. */
  function GetBlock(meta: Meta, p: PieceState, disk: Bytes, offset: nat, length: nat): Served
    requires meta.WellFormed() && |disk| == meta.Length() && p.Ok()
    requires p.size == meta.PieceLengthOf(p.id) && (p.written ==> p.id < meta.PieceCount())
  {
    var n := LengthOf(length);
    if offset % BLOCK_SIZE != 0 || offset >= p.size then Refused
    else if !p.done[offset / BLOCK_SIZE] then NotDone
    else if !p.written then
      if offset + n <= p.size then Served(p.data[offset..offset + n]) else NoAnswer
    else
      var at := U32(meta.Offset(p.id) + offset);
      if at + n <= |disk| then Served(disk[at..at + n]) else NoAnswer
  }

  lemma ServedRange(meta: Meta, id: nat, offset: nat, length: nat)
    requires meta.WellFormed() && id < meta.PieceCount() && offset + length <= meta.PieceLengthOf(id)
    ensures U32(meta.Offset(id) + offset) == id * meta.pieceLength + offset
    ensures id * meta.pieceLength + offset + length <= meta.Length()
  {
    PieceBounds(meta, id);
    CeilBounds(meta.Length(), meta.pieceLength);
  }

  /** Exactly which answer there is, for pieces that are complete or not; a length of zero stands for a block. */
  lemma AnswerCases(meta: Meta, p: PieceState, disk: Bytes, offset: nat, length: nat)
    requires meta.WellFormed() && |disk| == meta.Length() && p.Ok()
    requires p.size == meta.PieceLengthOf(p.id) && (p.written ==> p.id < meta.PieceCount())
    ensures var answer, n := GetBlock(meta, p, disk, offset, length), if length == 0 then 16384 else length;
            var place, arrived := offset % 16384 == 0 && offset < p.size, BitAt(p.done, offset / 16384);
            var fits := if p.written then p.id * meta.pieceLength + offset + n <= meta.Length() else offset + n <= p.size;
            && (answer.Refused? <==> !place)
            && (answer.NotDone? <==> place && !arrived)
            && (answer.NoAnswer? <==> place && arrived && !fits)
            && (answer.Served? <==> place && arrived && fits)
  {
    if p.written && offset < p.size {
      ServedRange(meta, p.id, offset, 0);
    }
  }

  /** What is served from memory, of a complete piece or not. */
  lemma AnswerFromMemory(meta: Meta, p: PieceState, disk: Bytes, offset: nat, length: nat)
    requires meta.WellFormed() && |disk| == meta.Length() && p.Ok() && p.size == meta.PieceLengthOf(p.id) && !p.written
    requires GetBlock(meta, p, disk, offset, length).Served?
    ensures var n := if length == 0 then 16384 else length;
            offset + n <= |p.data| && GetBlock(meta, p, disk, offset, length).bytes == p.data[offset..offset + n]
  {}

  /** The bytes of a complete piece: in memory, or on disk once written. */
  function PieceContent(meta: Meta, p: PieceState, disk: Bytes): Bytes
    requires meta.WellFormed() && |disk| == meta.Length() && (p.written ==> p.id < meta.PieceCount())
  {
    if p.written then PieceSlice(meta, disk, p.id) else p.data
  }

  /** What is served is the requested part of the content, wherever the content is. */
  lemma ServedIsContent(meta: Meta, p: PieceState, disk: Bytes, offset: nat, length: nat)
    requires meta.WellFormed() && |disk| == meta.Length() && p.Ok() && p.Complete() && InRange(p, offset, length)
    requires p.size == meta.PieceLengthOf(p.id) && (p.written ==> p.id < meta.PieceCount())
    ensures |PieceContent(meta, p, disk)| == p.size
    ensures GetBlock(meta, p, disk, offset, length)
         == if offset % BLOCK_SIZE != 0 || offset >= p.size then Refused
            else Served(PieceContent(meta, p, disk)[offset..offset + LengthOf(length)])
  {
    CompleteIff(p);
    if p.written {
      PieceBounds(meta, p.id);
      if offset < p.size {
        var n, at := LengthOf(length), p.id * meta.pieceLength;
        ServedRange(meta, p.id, offset, n);
        SliceOfSlice(disk, at, at + p.size, offset, offset + n);
      }
    }
  }

  ghost function Content<Id>(meta: Meta, s: Sys<Id>, id: nat): Bytes
    requires Inv(meta, s) && Has(s, id)
  {
    assert ConservedAt(meta, s, id);
    PieceContent(meta, s.heap[s.active[id]], s.disk)
  }

  /**
   * The step writes an object with this id and the listed digest over the written piece, and its bytes are other
   * ones than those on disk: two byte strings with one digest.
   */
  ghost predicate WritesOther<Id>(meta: Meta, s: Sys<Id>, l: Label<Id>, id: nat)
    requires Inv(meta, s) && Has(s, id)
  {
    && l.Writing? && s.queue != [] && Written(s, id) && id < meta.PieceCount()
    && var p := s.heap[s.queue[0]];
       p.id == id && meta.sha1(p.data) == meta.digests[id] && p.data != Content(meta, s, id)
  }

  /** A write changes the content of a piece exactly if the piece was written and the object has other bytes for it. */
  lemma WriteBackContentIff<Id>(meta: Meta, s: Sys<Id>, o: Id, id: nat)
    requires ObjectsOk(meta, s) && o in s.heap && s.heap[o].id < meta.PieceCount() && |s.heap[o].data| == s.heap[o].size
    requires !s.heap[o].written && Has(s, id) && (Written(s, id) ==> id < meta.PieceCount())
    ensures var s' := WriteBack(meta, s, o);
            && |s'.disk| == meta.Length() && Has(s', id) && (Written(s', id) ==> id < meta.PieceCount())
            && var was := PieceContent(meta, s.heap[s.active[id]], s.disk);
               PieceContent(meta, s'.heap[s.active[id]], s'.disk) == was
               <==> !(Written(s, id) && s.heap[o].id == id && s.heap[o].data != was)
  {
    SetWrittenOk(s.heap[o]);
    PieceBounds(meta, s.heap[o].id);
    if id < meta.PieceCount() {
      WriteBackSlices(meta, s, o, id);
    }
  }

  lemma ResetKeepsContent<Id>(meta: Meta, s: Sys<Id>, i: nat, id: nat)
    requires ObjectsOk(meta, s) && Has(s, id) && id in ResetPiece(meta, s, i).active
    ensures ResetPiece(meta, s, i).heap[s.active[id]] == s.heap[s.active[id]]
  {}

  lemma WriteContentIff<Id>(meta: Meta, s: Sys<Id>, id: nat)
    requires Inv(meta, s) && s.queue != [] && Has(s, id) && id in WriteNext(meta, s).active
    ensures Inv(meta, WriteNext(meta, s)) && Has(WriteNext(meta, s), id)
    ensures Content(meta, WriteNext(meta, s), id) == Content(meta, s, id) <==> !WritesOther(meta, s, Writing, id)
  {
    var p := s.heap[s.queue[0]];
    var s1 := s.(queue := s.queue[1..]);
    DequeueObjectsOk(meta, s);
    WriteNextKeepsInv(meta, s);
    assert ConservedAt(meta, s, id);
    assert Has(s1, id) && Written(s1, id) == Written(s, id);
    if p.id < meta.PieceCount() {
      if meta.sha1(p.data) == meta.digests[p.id] {
        MatchingIsWhole(meta, p);
        WriteBackContentIff(meta, s1, s.queue[0], id);
      } else {
        ResetKeepsContent(meta, s1, p.id, id);
      }
    }
  }

  /** Storing a block in a complete piece changes none of its bytes. */
  lemma StoreKeepsCompleteData(p: PieceState, offset: nat, d: Bytes)
    requires p.Ok() && p.Complete() && p.BlockError(offset, |d|).None?
    ensures p.StoreBlock(offset, d).data == p.data && p.StoreBlock(offset, d).written == p.written
    ensures p.StoreBlock(offset, d).id == p.id
  {
    CompleteIff(p);
  }

  lemma BlockKeepsPiece<Id>(meta: Meta, s: Sys<Id>, i: nat, offset: nat, data: Bytes, id: nat)
    requires ObjectsOk(meta, s) && Has(s, id)
    ensures var s' := PutBlock(meta, s, i, offset, data);
            && Has(s', id) && s'.active == s.active && s'.disk == s.disk
            && var p, p' := s.heap[s.active[id]], s'.heap[s.active[id]];
               p'.data == p.data && p'.written == p.written && p'.id == p.id
  {
    hide PieceState.StoreBlock, PieceState.BlockError, PieceState.Complete, PieceState.Ok;
    var p := s.heap[s.active[id]];
    if i == id {
      if p.BlockError(offset, |data|).None? {
        StoreKeepsComplete(p, offset, data);
        StoreKeepsCompleteData(p, offset, data);
      }
    } else if i in s.active {
      assert s.active[i] != s.active[id];
    }
  }

  /** No step but the writer's touches the bytes of a complete piece, in memory or on disk. */
  lemma OtherStepKeepsPiece<Id>(meta: Meta, s: Sys<Id>, l: Label<Id>, s': Sys<Id>, id: nat)
    requires ObjectsOk(meta, s) && Step(meta, s, l, s') && !l.Writing? && Has(s, id)
    ensures Has(s', id) && s'.active[id] == s.active[id] && s'.disk == s.disk
    ensures var p, p' := s.heap[s.active[id]], s'.heap[s.active[id]];
            p'.data == p.data && p'.written == p.written && p'.id == p.id
  {
    hide PutBlock, PieceState.Complete, PieceState.Ok, PieceState.MarkNext, PieceState.Retry;
    match l
    case Activating(i, o) => assert s.active[id] != o;
    case Marking(i) => MarkOk(s.heap[s.active[i]]);
    case Retrying(i, timedOut) => RetryOk(s.heap[s.active[i]], timedOut);
    case Sizing(count) =>
    case Receiving(i, offset, data) => BlockKeepsPiece(meta, s, i, offset, data, id);
  }

  /**
   * Exactly when a step leaves the bytes of a complete piece that stays active. Duplicate blocks, the move from
   * memory to disk and the writes of other pieces all do; only a second byte string with the listed digest does not.
   */
  lemma StepKeepsContentIff<Id>(meta: Meta, s: Sys<Id>, l: Label<Id>, s': Sys<Id>, id: nat)
    requires Inv(meta, s) && Step(meta, s, l, s') && Has(s, id) && id in s'.active
    ensures Inv(meta, s') && Has(s', id)
    ensures Content(meta, s', id) == Content(meta, s, id) <==> !WritesOther(meta, s, l, id)
  {
    StepKeepsInv(meta, s, l, s');
    if l.Writing? {
      WriteContentIff(meta, s, id);
    } else {
      OtherStepKeepsPiece(meta, s, l, s', id);
    }
  }

  /** In state `k` of the run the piece is complete and its bytes are `c`. */
  ghost predicate Holds<Id>(meta: Meta, r: Run<Id>, k: nat, id: nat, c: Bytes) {
    k < |r.states| && Inv(meta, r.states[k]) && Has(r.states[k], id) && Content(meta, r.states[k], id) == c
  }

  ghost predicate ActiveAt<Id>(r: Run<Id>, k: nat, id: nat) {
    k < |r.states| && id in r.states[k].active
  }

  /** Step `k` does not write other bytes with the listed digest over the piece. */
  ghost predicate HarmlessAt<Id>(meta: Meta, r: Run<Id>, k: nat, id: nat) {
    && k < |r.labels| && k < |r.states|
    && (Inv(meta, r.states[k]) && Has(r.states[k], id) ==> !WritesOther(meta, r.states[k], r.labels[k], id))
  }

  lemma NextHolds<Id>(meta: Meta, r: Run<Id>, k: nat, id: nat, c: Bytes)
    requires IsRun(meta, r) && k + 1 < |r.states| && HarmlessAt(meta, r, k, id)
    requires Holds(meta, r, k, id, c) && ActiveAt(r, k + 1, id)
    ensures Holds(meta, r, k + 1, id, c)
  {
    hide Step, Inv, WritesOther, Content;
    RunStep(meta, r, k);
    StepKeepsContentIff(meta, r.states[k], r.labels[k], r.states[k + 1], id);
  }

  /** Over a whole run: a complete piece keeps its bytes as long as it is not given up. */
  lemma {:induction false} RunKeepsContent<Id>(meta: Meta, r: Run<Id>, j: nat, k: nat, id: nat, c: Bytes)
    requires IsRun(meta, r) && j <= k < |r.states| && forall i :: j <= i < k ==> HarmlessAt(meta, r, i, id)
    requires Holds(meta, r, j, id, c) && forall i :: j <= i <= k ==> ActiveAt(r, i, id)
    ensures Holds(meta, r, k, id, c)
    decreases k - j
  {
    hide IsRun, Holds, HarmlessAt, ActiveAt;
    if j < k {
      NextHolds(meta, r, j, id, c);
      RunKeepsContent(meta, r, j + 1, k, id, c);
    }
  }

  /** What a peer that asks for a part of the piece `id` is answered in the state `s`. */
  ghost function Answer<Id>(meta: Meta, s: Sys<Id>, id: nat, offset: nat, length: nat): Served
    requires Inv(meta, s) && Has(s, id)
  {
    assert ConservedAt(meta, s, id);
    GetBlock(meta, s.heap[s.active[id]], s.disk, offset, length)
  }

  lemma AnswerIsContent<Id>(meta: Meta, s: Sys<Id>, id: nat, offset: nat, length: nat)
    requires Inv(meta, s) && Has(s, id) && InRange(s.heap[s.active[id]], offset, length)
    ensures |Content(meta, s, id)| == meta.PieceLengthOf(id)
    ensures Answer(meta, s, id, offset, length)
         == if offset % BLOCK_SIZE != 0 || offset >= meta.PieceLengthOf(id) then Refused
            else Served(Content(meta, s, id)[offset..offset + LengthOf(length)])
  {
    assert ConservedAt(meta, s, id);
    ServedIsContent(meta, s.heap[s.active[id]], s.disk, offset, length);
  }

  /**
   * Memory and disk are not to be told apart: the same request gets the same answer at any two points of a run
   * between which the complete piece is not given up, be it still in memory or written.
   */
  lemma RunServesSame<Id>(meta: Meta, r: Run<Id>, j: nat, k: nat, id: nat, offset: nat, length: nat)
    requires IsRun(meta, r) && j <= k < |r.states| && forall i :: j <= i < k ==> HarmlessAt(meta, r, i, id)
    requires Has(r.states[j], id) && forall i :: j <= i <= k ==> ActiveAt(r, i, id)
    requires InRange(r.states[j].heap[r.states[j].active[id]], offset, length)
    ensures Inv(meta, r.states[j]) && Inv(meta, r.states[k]) && Has(r.states[k], id)
    ensures InRange(r.states[k].heap[r.states[k].active[id]], offset, length)
    ensures Answer(meta, r.states[k], id, offset, length) == Answer(meta, r.states[j], id, offset, length)
  {
    RunKeepsInv(meta, r, j);
    var c := Content(meta, r.states[j], id);
    RunKeepsContent(meta, r, j, k, id, c);
    assert Holds(meta, r, k, id, c);
    hide IsRun, GetBlock, Conserved;
    AnswerIsContent(meta, r.states[j], id, offset, length);
    AnswerIsContent(meta, r.states[k], id, offset, length);
  }
}
