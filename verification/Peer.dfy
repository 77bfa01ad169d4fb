/** A connected peer: which blocks are requested from it, and what arrives from it. */
module Peers {
  import opened Bytes
  import opened Bitfields
  import opened Files
  import opened Pieces
  import opened Transfer
  import opened Runs
  import opened Scheduling
  import opened Serving
  import opened Torrents
  import Messages

  /** The active piece `id` has a block that is neither requested nor done. */
  ghost predicate Open<Id>(s: Sys<Id>, id: nat) {
    && id in s.active && s.active[id] in s.heap && s.heap[s.active[id]].size > 0
    && s.heap[s.active[id]].NextBlock().Some?
  }

  /** The piece `id` is active without such a block. */
  ghost predicate Closed<Id>(s: Sys<Id>, id: nat) {
    id in s.active && !Open(s, id)
  }

  /** None of the first `n` pieces of `relevant` has a block to request. */
  ghost predicate ClosedBelow<Id>(s: Sys<Id>, relevant: Bits, n: nat) {
    forall i :: 0 <= i < n && i < |relevant| && relevant[i] ==> Closed(s, i)
  }

  /** The REQUEST message for a block. */
  function RequestMessage(meta: Meta, q: BlockRequest): Messages.Message
    requires meta.pieceLength > 0
  {
    Messages.Request(q.id, q.block * BLOCK_SIZE, RequestLength(meta.PieceLengthOf(q.id), q.block))
  }

  function RequestFrames(meta: Meta, qs: seq<BlockRequest>): Bytes
    requires meta.pieceLength > 0
  {
    if qs == [] then []
    else RequestFrames(meta, qs[..|qs| - 1]) + Messages.Frame(RequestMessage(meta, qs[|qs| - 1]))
  }

  lemma RequestJoined(meta: Meta, before: seq<BlockRequest>, qs: seq<BlockRequest>, q: BlockRequest)
    requires meta.pieceLength > 0
    ensures RequestFrames(meta, qs + [q]) == RequestFrames(meta, qs) + Messages.Frame(RequestMessage(meta, q))
    ensures before + qs + Log(Some(q)) == before + (qs + [q]) && |qs + [q]| == |qs| + 1
  {
    assert (qs + [q])[..|qs|] == qs;
  }

  lemma PieceLengthPositive(torrent: Torrent)
    requires torrent.Valid()
    ensures torrent.disk.meta.pieceLength > 0
  {}

  lemma NoStepAsks<Id>(h: Run<Id>)
    ensures Asks(h, h)
  {}

  lemma ValidShape(torrent: Torrent)
    requires torrent.Valid()
    ensures |torrent.history.states| == |torrent.history.labels| + 1 && Last(torrent.history) == torrent.abs
    ensures torrent.abs.client == torrent.clientPieces && torrent.abs.active == torrent.activePieces
  {}

  lemma ActiveCanBeServed(torrent: Torrent, id: nat)
    requires torrent.Valid() && id in torrent.activePieces
    ensures torrent.disk.Valid() && torrent.disk.Image() == torrent.abs.disk
    ensures |torrent.abs.disk| == torrent.disk.meta.Length() && torrent.disk.meta.WellFormed()
    ensures id in torrent.abs.active && torrent.abs.active[id] == torrent.activePieces[id]
    ensures var p := torrent.activePieces[id];
            && p in torrent.abs.heap && torrent.abs.heap[p] == p.State() && p.id == id
            && p.State().Ok() && p.size == torrent.disk.meta.PieceLengthOf(id)
            && (p.written ==> id < torrent.disk.meta.PieceCount())
  {
    hide IsRun, PieceState.Ok;
    assert ConservedAt(torrent.disk.meta, torrent.abs, id);
  }

  /** The PIECE frame that an answer makes, if it makes one. */
  function PieceFrame(index: nat, begin: nat, served: Served): Bytes {
    if served.Served? then Messages.Frame(Messages.PieceBlock(index, begin, served.bytes)) else []
  }

  lemma {:induction false} FramesJoin(meta: Meta, a: seq<BlockRequest>, b: seq<BlockRequest>)
    requires meta.pieceLength > 0
    ensures RequestFrames(meta, a + b) == RequestFrames(meta, a) + RequestFrames(meta, b)
  {
    hide RequestFrames, Messages.Frame, RequestMessage;
    if b == [] {
      assert a + b == a;
      NoFrames(meta);
    } else {
      var front, q := b[..|b| - 1], b[|b| - 1];
      assert a + b == (a + front) + [q] && b == front + [q];
      FramesJoin(meta, a, front);
      RequestJoined(meta, [], a + front, q);
      RequestJoined(meta, [], front, q);
    }
  }

  lemma NoFrames(meta: Meta)
    requires meta.pieceLength > 0
    ensures RequestFrames(meta, []) == []
  {}

  class Peer {
    const torrent: Torrent
    /** The configured limit. */
    const maxPendingRequests: nat
    var amChoking: bool
    var interested: bool
    var amInterested: bool
    var choking: bool
    var pendingRequests: nat
    var remotePieces: Bits
    /** The bytes written to the connection. */
    var sent: Bytes

    constructor (torrent: Torrent, maxPendingRequests: nat)
      ensures this.torrent == torrent && this.maxPendingRequests == maxPendingRequests
      ensures amChoking && !interested && !amInterested && choking
      ensures pendingRequests == 0 && remotePieces == [] && sent == []
    {
      this.torrent := torrent;
      this.maxPendingRequests := maxPendingRequests;
      amChoking, interested, amInterested, choking := true, false, false, true;
      pendingRequests, remotePieces, sent := 0, [], [];
    }

    /** Pieces the remote has minus the pieces we already got, over the common length. */
    function Relevant(): Bits
      reads this`remotePieces, torrent`clientPieces
    {
      Difference(remotePieces, torrent.clientPieces)
    }

    /** The remote has the piece of the block, and we lack it. */
    predicate Wants(q: BlockRequest)
      reads this`remotePieces, torrent`clientPieces
    {
      q.id < |Relevant()| && Relevant()[q.id]
    }

    function Limit(maxPending: nat): nat {
      if maxPending != 0 then maxPending else maxPendingRequests
    }

    /** We may request from the remote. */
    predicate MayRequest()
      reads this`amInterested, this`choking
    {
      amInterested && !choking
    }

    /** If we may request from the remote, it has no piece with a block to request. */
    ghost predicate Idle()
      reads this`amInterested, this`choking, this`remotePieces, torrent`clientPieces, torrent`abs
    {
      MayRequest() ==> ClosedBelow(torrent.abs, Relevant(), |Relevant()|)
    }

    /** As much as the limit allows is pending, or there is nothing to request. */
    ghost predicate Saturated(maxPending: nat)
      reads this`amInterested, this`choking, this`pendingRequests, this`remotePieces, torrent`clientPieces, torrent`abs
    {
      pendingRequests < Limit(maxPending) ==> Idle()
    }

    /** One round of the loop of `next_piece`: the piece `id` if it has a block to request. */
    method Candidate(id: nat) returns (piece: Piece?)
      requires torrent.Valid() && id < |torrent.clientPieces|
      modifies torrent
      ensures torrent.Valid() && torrent.clientPieces == old(torrent.clientPieces)
      ensures fresh(torrent.Objects() - old(torrent.Objects()))
      ensures torrent.Requests() == old(torrent.Requests()) && Asks(old(torrent.history), torrent.history)
      ensures piece == null ==> torrent.abs == old(torrent.abs) && Closed(torrent.abs, id)
      ensures piece != null ==>
                && piece.id == id && Open(torrent.abs, id)
                && id in torrent.activePieces && torrent.activePieces[id] == piece
                && torrent.abs == Activate(torrent.disk.meta, old(torrent.abs), id, piece)
    {
      hide Torrent.Valid, Torrent.Requests, Asks, PieceState.Ok;
      ValidShape(torrent);
      ghost var was := torrent.history;
      NoStepAsks(was);
      piece := torrent.ActivePiece(id, true);
      OneStepAsks(was, Activating(id, piece), torrent.abs);
      ActiveCanBeServed(torrent, id);
      NewPieceIsOpen(id, torrent.disk.meta.PieceLengthOf(id));
      var offset := piece.NextOffset(false);
      if offset.None? {
        return null;
      }
    }

    /** The lowest relevant piece that still has a block to request; at most one piece object is made. */
    method NextPiece() returns (piece: Piece?)
      requires torrent.Valid()
      modifies torrent
      ensures torrent.Valid() && torrent.clientPieces == old(torrent.clientPieces)
      ensures fresh(torrent.Objects() - old(torrent.Objects()))
      ensures torrent.Requests() == old(torrent.Requests()) && Asks(old(torrent.history), torrent.history)
      ensures piece == null ==> torrent.abs == old(torrent.abs) && ClosedBelow(torrent.abs, Relevant(), |Relevant()|)
      ensures piece != null ==>
                && piece.id < |Relevant()| && Relevant()[piece.id] && Open(torrent.abs, piece.id)
                && piece.id in torrent.activePieces && torrent.activePieces[piece.id] == piece
                && torrent.abs == Activate(torrent.disk.meta, old(torrent.abs), piece.id, piece)
                && ClosedBelow(old(torrent.abs), Relevant(), piece.id)
    {
      hide Torrent.Valid, Torrent.Requests, Inv, Reached, Asks, Open, Activate;
      var relevant := Relevant();
      var nextId := 0;
      ghost var was := torrent.history;
      NoStepAsks(was);
      while true
        invariant torrent.Valid() && torrent.abs == old(torrent.abs) && torrent.Requests() == old(torrent.Requests())
        invariant torrent.clientPieces == old(torrent.clientPieces) && Asks(was, torrent.history)
        invariant nextId <= |relevant|
        invariant ClosedBelow(torrent.abs, relevant, nextId)
        decreases |relevant| - nextId
      {
        var next := FirstAt(relevant, true, nextId);
        if next.None? {
          return null;
        }
        var id := next.value;
        ghost var before := torrent.history;
        ValidShape(torrent);
        piece := Candidate(id);
        AsksTransitive(was, before, torrent.history);
        if piece != null {
          return;
        }
        nextId := id + 1;
      }
    }

    /** Choose the next block, mark it as requested and say which it is; none if there is nothing to request. */
    method RequestOne() returns (q: Option<BlockRequest>)
      requires torrent.Valid()
      modifies torrent, torrent.Objects()
      ensures torrent.Valid() && torrent.clientPieces == old(torrent.clientPieces)
      ensures fresh(torrent.Objects() - old(torrent.Objects())) && Asks(old(torrent.history), torrent.history)
      ensures q.None? ==> torrent.abs == old(torrent.abs) && ClosedBelow(torrent.abs, Relevant(), |Relevant()|)
      ensures q.Some? ==> Wants(q.value)
      ensures torrent.Requests() == old(torrent.Requests()) + Log(q)
    {
      hide Inv, Reached, ClosedBelow, AllRequests, Asks;
      ghost var was := torrent.history;
      var piece := NextPiece();
      if piece == null {
        return None;
      }
      ghost var next := piece.State().NextBlock();
      assert torrent.abs.heap[piece] == piece.State() && next.Some?;
      hide Torrent.Matches, Open;
      ghost var before := torrent.history;
      ValidShape(torrent);
      var offset := torrent.MarkNextOffset(piece);
      OneStepAsks(before, Marking(piece.id), torrent.abs);
      AsksTransitive(was, before, torrent.history);
      assert offset.value / BLOCK_SIZE == next.value;
      q := Some(BlockRequest(piece.id, offset.value / BLOCK_SIZE));
    }

    /** The loop of `request_next_block`: at most `needed` requests, and fewer only when nothing is left to request. */
    method RequestBlocks(needed: nat) returns (count: nat, req: Bytes, ghost requests: seq<BlockRequest>)
      requires torrent.Valid()
      modifies this`pendingRequests, torrent, torrent.Objects()
      ensures torrent.Valid() && torrent.clientPieces == old(torrent.clientPieces)
      ensures fresh(torrent.Objects() - old(torrent.Objects())) && Asks(old(torrent.history), torrent.history)
      ensures count == |requests| <= needed && pendingRequests == old(pendingRequests) + count
      ensures count < needed ==> ClosedBelow(torrent.abs, Relevant(), |Relevant()|)
      ensures count == 0 ==> torrent.abs == old(torrent.abs)
      ensures req == RequestFrames(torrent.disk.meta, requests)
      ensures torrent.Requests() == old(torrent.Requests()) + requests && forall q :: q in requests ==> Wants(q)
    {
      hide Torrent.Valid, Torrent.Requests, Inv, Reached, Torrent.Matches, ClosedBelow, Messages.Frame, RequestMessage, Asks,
           Peer.Wants;
      PieceLengthPositive(torrent);
      count, req, requests := 0, [], [];
      assert req == RequestFrames(torrent.disk.meta, requests);
      ghost var was := torrent.history;
      NoStepAsks(was);
      hide RequestFrames, Difference;
      while count < needed
        invariant torrent.Valid() && torrent.clientPieces == old(torrent.clientPieces)
        invariant fresh(torrent.Objects() - old(torrent.Objects())) && Asks(was, torrent.history)
        invariant |requests| == count <= needed && pendingRequests == old(pendingRequests) + count
        invariant count == 0 ==> torrent.abs == old(torrent.abs)
        invariant req == RequestFrames(torrent.disk.meta, requests)
        invariant torrent.Requests() == old(torrent.Requests()) + requests && forall q :: q in requests ==> Wants(q)
      {
        ghost var before := torrent.history;
        ValidShape(torrent);
        var q := RequestOne();
        AsksTransitive(was, before, torrent.history);
        if q.None? {
          return;
        }
        RequestJoined(torrent.disk.meta, old(torrent.Requests()), requests, q.value);
        requests := requests + [q.value];
        req := req + Messages.Frame(RequestMessage(torrent.disk.meta, q.value));
        count := count + 1;
        pendingRequests := pendingRequests + 1;
      }
    }

    /** Fill up to `maxPending` pending requests, or the configured limit if it is 0. An error stands for the exception. */
    method RequestNextBlock(maxPending: nat) returns (r: Result<nat, ()>, ghost requests: seq<BlockRequest>)
      requires torrent.Valid()
      modifies this`pendingRequests, this`sent, torrent, torrent.Objects()
      ensures torrent.Valid() && torrent.clientPieces == old(torrent.clientPieces)
      ensures fresh(torrent.Objects() - old(torrent.Objects())) && Asks(old(torrent.history), torrent.history)
      ensures r.Err? <==> MayRequest() && Limit(maxPending) == 0
      ensures r.Err? ==> requests == []
      ensures r.Ok? ==> r.value == |requests|
      ensures requests == [] ==> torrent.abs == old(torrent.abs)
      ensures pendingRequests == old(pendingRequests) + |requests|
      ensures requests != [] ==> MayRequest() && pendingRequests <= Limit(maxPending)
      ensures Saturated(maxPending)
      ensures sent == old(sent) + RequestFrames(torrent.disk.meta, requests)
      ensures torrent.Requests() == old(torrent.Requests()) + requests && forall q :: q in requests ==> Wants(q)
    {
      hide Torrent.Valid, Torrent.Requests, ClosedBelow, Messages.Frame, RequestMessage, Asks, Peer.Wants;
      PieceLengthPositive(torrent);
      NoStepAsks(torrent.history);
      requests := [];
      if !amInterested || choking {
        return Ok(0), [];
      }
      var limit := Limit(maxPending);
      if limit == 0 {
        return Err(()), [];
      }
      var needed := limit - pendingRequests;
      if needed <= 0 {
        return Ok(0), [];
      }
      var count, req;
      count, req, requests := RequestBlocks(needed);
      if req != [] {
        sent := sent + req;
      }
      return Ok(count), requests;
    }

    /** `Peer::request`: the answer, if we are to answer, and the PIECE message that is sent back, if any. */
    method Serve(index: nat, begin: nat, length: nat) returns (answer: Option<Served>)
      requires torrent.Valid()
      modifies this`sent, torrent
      ensures torrent.Valid() && (answer.None? <==> amChoking || !interested) && torrent.Requests() == old(torrent.Requests())
      ensures fresh(torrent.Objects() - old(torrent.Objects()))
      ensures answer.None? ==> torrent.abs == old(torrent.abs) && torrent.history == old(torrent.history) && sent == old(sent)
      ensures answer.Some? ==>
                && index in torrent.abs.active && torrent.abs.active[index] in torrent.abs.heap
                && torrent.abs == Activate(torrent.disk.meta, old(torrent.abs), index, torrent.abs.active[index])
                && (index !in old(torrent.abs).active ==> torrent.abs.active[index] !in old(torrent.abs).heap)
                && torrent.history == (if index in old(torrent.abs).active then old(torrent.history)
                                       else Extended(old(torrent.history), Activating(index, torrent.abs.active[index]), torrent.abs))
                && var p := torrent.abs.heap[torrent.abs.active[index]];
                   && p.Ok() && (p.written ==> p.id < torrent.disk.meta.PieceCount())
                   && answer.value == GetBlock(torrent.disk.meta, p, torrent.abs.disk, begin, length)
                   && sent == old(sent) + PieceFrame(index, begin, answer.value)
    {
      hide Torrent.Valid, Activate, PieceState.Ok, GetBlock, Messages.Frame;
      if amChoking || !interested {
        return None;
      }
      ValidShape(torrent);
      var piece := torrent.ActivePiece(index, true);
      ActiveCanBeServed(torrent, index);
      var served := torrent.GetBlock(piece, begin, length);
      if served.Served? {
        sent := sent + Messages.Frame(Messages.PieceBlock(index, begin, served.bytes));
      }
      answer := Some(served);
    }

    /**
     * A block arrives: it is stored, and then more blocks are requested. False stands for an exception, from a
     * block that is refused or from a limit of zero.
     */
    method SetBlock(pieceId: nat, offset: nat, data: Bytes) returns (ok: bool, ghost requests: seq<BlockRequest>)
      requires torrent.Valid()
      modifies this`pendingRequests, this`sent, torrent, torrent.writer, torrent.Objects()
      ensures torrent.Valid() && fresh(torrent.Objects() - old(torrent.Objects()))
      ensures ObjectsOk(torrent.disk.meta, old(torrent.abs))
      ensures var stored := PutBlock(torrent.disk.meta, old(torrent.abs), pieceId, offset, data);
              && Asks(Extended(old(torrent.history), Receiving(pieceId, offset, data), stored), torrent.history)
              && torrent.clientPieces == stored.client
              && (requests == [] ==> torrent.abs == stored)
              && (Refusal(torrent.disk.meta, old(torrent.abs), pieceId, offset, |data|).Some? ==>
                    torrent.history == Extended(old(torrent.history), Receiving(pieceId, offset, data), stored))
      ensures ok <==> Refusal(torrent.disk.meta, old(torrent.abs), pieceId, offset, |data|).None?
                      && !(MayRequest() && maxPendingRequests == 0)
      ensures if ok then Saturated(0) else requests == []
      ensures requests != [] ==> MayRequest() && pendingRequests <= maxPendingRequests
      ensures torrent.Requests() == old(torrent.Requests()) + requests && forall q :: q in requests ==> Wants(q)
      ensures sent == old(sent) + RequestFrames(torrent.disk.meta, requests)
      ensures var pending := old(pendingRequests);
              pendingRequests == (if pending > 0 then pending - 1 else 0) + |requests|
    {
      hide Torrent.Valid, Torrent.Requests, ClosedBelow, Asks, Peer.Wants, ObjectsOk, PutBlock, Refusal;
      PieceLengthPositive(torrent);
      assert sent + RequestFrames(torrent.disk.meta, []) == sent;
      hide RequestFrames;
      requests := [];
      if pendingRequests > 0 {
        pendingRequests := pendingRequests - 1;
      }
      var stored := torrent.SetBlock(pieceId, offset, data);
      ValidShape(torrent);
      NoStepAsks(torrent.history);
      if stored.Err? {
        return false, requests;
      }
      var r;
      r, requests := RequestNextBlock(0);
      return r.Ok?, requests;
    }

    /** The remote chokes us, which forgets what is pending, or stops to, which starts requests. */
    method SetChoking(nowChoking: bool) returns (ok: bool, ghost requests: seq<BlockRequest>)
      requires torrent.Valid()
      modifies this`choking, this`pendingRequests, this`sent, torrent, torrent.Objects()
      ensures torrent.Valid() && choking == nowChoking && fresh(torrent.Objects() - old(torrent.Objects()))
      ensures torrent.clientPieces == old(torrent.clientPieces) && Asks(old(torrent.history), torrent.history)
      ensures requests == [] ==> torrent.abs == old(torrent.abs)
      ensures torrent.Requests() == old(torrent.Requests()) + requests && forall q :: q in requests ==> Wants(q)
      ensures sent == old(sent) + RequestFrames(torrent.disk.meta, requests)
      ensures nowChoking || !old(choking) ==> ok && requests == [] && torrent.history == old(torrent.history)
      ensures requests != [] ==> MayRequest() && pendingRequests <= maxPendingRequests
      ensures old(choking) && !nowChoking ==> (ok <==> !(amInterested && maxPendingRequests == 0)) && Saturated(0)
      ensures pendingRequests == if nowChoking && !old(choking) then 0 else old(pendingRequests) + |requests|
    {
      hide Torrent.Valid, Torrent.Requests, ClosedBelow, Asks, Peer.Wants;
      PieceLengthPositive(torrent);
      assert sent + RequestFrames(torrent.disk.meta, []) == sent;
      NoStepAsks(torrent.history);
      hide RequestFrames;
      ok, requests := true, [];
      if choking && !nowChoking {
        choking := nowChoking;
        var r;
        r, requests := RequestNextBlock(0);
        ok := r.Ok?;
      }
      if !choking && nowChoking {
        choking := nowChoking;
        pendingRequests := 0;
      }
    }

    /** `set_am_choking`: a change is told to the remote. */
    method SetAmChoking(nowChoking: bool)
      modifies this`amChoking, this`sent
      ensures amChoking == nowChoking
      ensures sent == old(sent) + if old(amChoking) == nowChoking then []
                                  else Messages.Frame(if nowChoking then Messages.Choke else Messages.Unchoke)
    {
      if !amChoking && nowChoking {
        sent := sent + Messages.Frame(Messages.Choke);
      }
      if amChoking && !nowChoking {
        sent := sent + Messages.Frame(Messages.Unchoke);
      }
      amChoking := nowChoking;
    }

    /** `set_interested`: a remote that becomes interested is unchoked. */
    method SetInterested(nowInterested: bool)
      modifies this`interested, this`amChoking, this`sent
      ensures interested == nowInterested
      ensures amChoking == (old(amChoking) && (old(interested) || !nowInterested))
      ensures sent == old(sent) + if amChoking == old(amChoking) then [] else Messages.Frame(Messages.Unchoke)
    {
      if !interested && nowInterested {
        SetAmChoking(false);
      }
      interested := nowInterested;
    }

    /** `set_am_interested`: a change is told to the remote, but a done torrent does not become interested. */
    method SetAmInterested(nowInterested: bool)
      requires torrent.Valid()
      modifies this`amInterested, this`sent
      ensures amInterested == (nowInterested && (old(amInterested) || !Done(torrent.disk.meta, torrent.abs)))
      ensures sent == old(sent) + if old(amInterested) == amInterested then []
                                  else Messages.Frame(if amInterested then Messages.Interested else Messages.NotInterested)
    {
      if !amInterested && nowInterested {
        var done := torrent.IsDone();
        if done {
          return;
        }
        sent := sent + Messages.Frame(Messages.Interested);
      }
      if amInterested && !nowInterested {
        sent := sent + Messages.Frame(Messages.NotInterested);
      }
      amInterested := nowInterested;
    }

    /** `set_remote_pieces`: the bitfield of the remote also sizes ours, if that is empty. */
    method SetRemotePieces(bits: Bits)
      requires torrent.Valid()
      modifies this`remotePieces, torrent
      ensures torrent.Valid() && remotePieces == bits && torrent.abs == InitClient(old(torrent.abs), |bits|)
      ensures torrent.history == Extended(old(torrent.history), Sizing(|bits|), torrent.abs)
      ensures torrent.Objects() == old(torrent.Objects()) && torrent.Requests() == old(torrent.Requests())
    {
      hide Torrent.Requests, Inv, IsRun;
      remotePieces := bits;
      torrent.InitClientPieces(|bits|);
    }

    /** `have`: a first HAVE without a bitfield before it stands for all pieces. */
    method Have(id: nat) returns (ok: bool, ghost requests: seq<BlockRequest>)
      requires torrent.Valid()
      modifies this`remotePieces, this`pendingRequests, this`sent, torrent, torrent.Objects()
      ensures torrent.Valid() && fresh(torrent.Objects() - old(torrent.Objects()))
      ensures var n, was := torrent.disk.meta.PieceCount(), old(remotePieces);
              var none := CountTrue(was) == 0;
              var sized := if none then InitClient(old(torrent.abs), n) else old(torrent.abs);
              && remotePieces == (if none then Filled(NoBits(n), 0, n, true) else WithBit(was, id, true))
              && torrent.clientPieces == sized.client && (requests == [] ==> torrent.abs == sized)
              && Asks(if none then Extended(old(torrent.history), Sizing(n), sized) else old(torrent.history), torrent.history)
      ensures ok <==> !(MayRequest() && maxPendingRequests == 0)
      ensures Saturated(0) && (requests != [] ==> MayRequest() && pendingRequests <= maxPendingRequests)
      ensures torrent.Requests() == old(torrent.Requests()) + requests && forall q :: q in requests ==> Wants(q)
      ensures sent == old(sent) + RequestFrames(torrent.disk.meta, requests)
      ensures pendingRequests == old(pendingRequests) + |requests|
    {
      hide Torrent.Valid, Torrent.Requests, ClosedBelow, Asks, Peer.Wants, RequestFrames, WithBit, Filled;
      ValidShape(torrent);
      if CountTrue(remotePieces) == 0 {
        var n := torrent.disk.meta.PieceCount();
        torrent.InitClientPieces(n);
        ValidShape(torrent);
        remotePieces := Filled(NoBits(n), 0, n, true);
      } else {
        remotePieces := WithBit(remotePieces, id, true);
      }
      NoStepAsks(torrent.history);
      var r;
      r, requests := RequestNextBlock(0);
      ok := r.Ok?;
    }

    /** How many blocks may be pending after a visit of `retry_pieces`: up to the limit, but always at least 1 more. */
    function RetryTarget(retry: nat, maxPending: nat): (target: nat)
      reads this`pendingRequests
      ensures retry > 0 ==> target > pendingRequests
      ensures target <= pendingRequests + retry && (target <= maxPending || target <= pendingRequests + 1)
      ensures target == pendingRequests + retry || target >= maxPending
    {
      var desired := if pendingRequests < maxPending then maxPending - pendingRequests else 1;
      pendingRequests + if desired <= retry then desired else retry
    }

    /** One visit of `retry_pieces`: never more than `retry` requests. None stands for an exception. */
    method RetryFrom(retry: nat, maxPending: nat) returns (count: Option<nat>, ghost requests: seq<BlockRequest>)
      requires torrent.Valid() && retry > 0
      modifies this`pendingRequests, this`sent, torrent, torrent.Objects()
      ensures torrent.Valid() && fresh(torrent.Objects() - old(torrent.Objects()))
      ensures torrent.clientPieces == old(torrent.clientPieces) && Asks(old(torrent.history), torrent.history)
      ensures count.None? <==> old(RetryTarget(retry, maxPending)) > MAX_UNSIGNED_SHORT
      ensures count.Some? ==> count.value == |requests| <= retry
      ensures requests == [] ==> torrent.abs == old(torrent.abs)
      ensures count == Some(0) ==> Idle()
      ensures count.None? ==> requests == []
      ensures count.Some? ==> pendingRequests <= old(RetryTarget(retry, maxPending))
                              && (pendingRequests < old(RetryTarget(retry, maxPending)) ==> Idle())
      ensures sent == old(sent) + RequestFrames(torrent.disk.meta, requests)
      ensures pendingRequests == old(pendingRequests) + |requests|
      ensures torrent.Requests() == old(torrent.Requests()) + requests && forall q :: q in requests ==> Wants(q)
    {
      hide Torrent.Valid, Torrent.Requests, ClosedBelow, Asks, Peer.Wants;
      PieceLengthPositive(torrent);
      assert sent + RequestFrames(torrent.disk.meta, []) == sent;
      NoStepAsks(torrent.history);
      hide RequestFrames;
      var desired := if pendingRequests < maxPending then maxPending - pendingRequests else 1;
      var toRequest := if desired <= retry then desired else retry;
      if pendingRequests + toRequest > MAX_UNSIGNED_SHORT {
        return None, [];
      }
      var r;
      r, requests := RequestNextBlock(pendingRequests + toRequest);
      count := Some(r.value);
    }
  }

  /** How a call of `retry_pieces` ends: it throws when a count does not fit an unsigned short. */
  datatype RetryEnd = Finished | CountTooLarge

  const MAX_UNSIGNED_SHORT: nat := 65535

  /** A block that was requested from a peer. */
  datatype Ask = Ask(peer: Peer, block: BlockRequest)

  function Blocks(asks: seq<Ask>): seq<BlockRequest> {
    seq(|asks|, i requires 0 <= i < |asks| => asks[i].block)
  }

  /** The blocks that were requested from one peer. */
  function AskedOf(asks: seq<Ask>, p: Peer): seq<BlockRequest> {
    if asks == [] then []
    else
      var last := asks[|asks| - 1];
      AskedOf(asks[..|asks| - 1], p) + if last.peer == p then [last.block] else []
  }

  function AllFrom(p: Peer, qs: seq<BlockRequest>): seq<Ask> {
    seq(|qs|, i requires 0 <= i < |qs| => Ask(p, qs[i]))
  }

  lemma AskedOfSnoc(asks: seq<Ask>, last: Ask, other: Peer)
    ensures AskedOf(asks + [last], other) == if last.peer == other then AskedOf(asks, other) + [last.block] else AskedOf(asks, other)
  {
    var all := asks + [last];
    assert all[..|all| - 1] == asks && all[|all| - 1] == last;
  }

  lemma AllFromSnoc(asks: seq<Ask>, p: Peer, qs: seq<BlockRequest>)
    requires qs != []
    ensures var n := |qs| - 1;
            asks + AllFrom(p, qs) == asks + AllFrom(p, qs[..n]) + [Ask(p, qs[n])] && qs == qs[..n] + [qs[n]]
  {}

  lemma {:induction false} AskedOfJoin(asks: seq<Ask>, p: Peer, qs: seq<BlockRequest>, other: Peer)
    ensures AskedOf(asks + AllFrom(p, qs), other) == if p == other then AskedOf(asks, other) + qs else AskedOf(asks, other)
  {
    if qs == [] {
      assert asks + AllFrom(p, qs) == asks;
    } else {
      hide AskedOf, AllFrom;
      var n := |qs| - 1;
      AllFromSnoc(asks, p, qs);
      AskedOfJoin(asks, p, qs[..n], other);
      AskedOfSnoc(asks + AllFrom(p, qs[..n]), Ask(p, qs[n]), other);
    }
  }

  lemma BlocksJoin(asks: seq<Ask>, p: Peer, qs: seq<BlockRequest>)
    ensures Blocks(asks + AllFrom(p, qs)) == Blocks(asks) + qs
  {}

  /** One peer's frames after it was asked for more, or another one was. */
  lemma FramesOfOne(meta: Meta, asks: seq<Ask>, p: Peer, qs: seq<BlockRequest>, other: Peer, before: Bytes)
    requires meta.pieceLength > 0
    ensures before + RequestFrames(meta, AskedOf(asks + AllFrom(p, qs), other))
         == before + RequestFrames(meta, AskedOf(asks, other)) + if p == other then RequestFrames(meta, qs) else []
  {
    AskedOfJoin(asks, p, qs, other);
    hide *;
    if p == other {
      FramesJoin(meta, AskedOf(asks, other), qs);
      Regroup(before, RequestFrames(meta, AskedOf(asks, other)), RequestFrames(meta, qs));
    } else {
      Regroup(before, RequestFrames(meta, AskedOf(asks, other)), []);
    }
  }

  lemma Regroup(a: Bytes, b: Bytes, c: Bytes)
    ensures a + (b + c) == a + b + c && a + b + [] == a + b
  {}

  /** Every block was requested from a peer that has its piece, which we lack. */
  ghost predicate AllWanted(torrent: Torrent, peers: seq<Peer>, asks: seq<Ask>)
    reads peers`remotePieces, torrent`clientPieces
  {
    forall a :: a in asks ==> a.peer in peers && a.peer.torrent == torrent && a.peer.Wants(a.block)
  }

  lemma WantedJoin(torrent: Torrent, peers: seq<Peer>, asks: seq<Ask>, p: Peer, qs: seq<BlockRequest>)
    requires AllWanted(torrent, peers, asks) && p in peers && p.torrent == torrent && forall q :: q in qs ==> p.Wants(q)
    ensures AllWanted(torrent, peers, asks + AllFrom(p, qs))
  {}

  /** What is asked when the peers are visited in turn and the `i`-th visit requests the blocks `visits[i]`. */
  function Visited(peers: seq<Peer>, visits: seq<seq<BlockRequest>>): seq<Ask>
    requires peers != []
  {
    if visits == [] then []
    else
      var n := |visits| - 1;
      Visited(peers, visits[..n]) + AllFrom(peers[n % |peers|], visits[n])
  }

  lemma OneMoreVisit(peers: seq<Peer>, visits: seq<seq<BlockRequest>>, it: nat, qs: seq<BlockRequest>)
    requires it < |peers| && |visits| % |peers| == it
    ensures Visited(peers, visits + [qs]) == Visited(peers, visits) + AllFrom(peers[it], qs)
    ensures |visits + [qs]| % |peers| == if it + 1 == |peers| then 0 else it + 1
  {
    assert (visits + [qs])[..|visits|] == visits;
    NextInTurn(|visits|, |peers|);
  }

  lemma NextInTurn(k: nat, n: nat)
    requires n > 0
    ensures (k + 1) % n == if k % n + 1 == n then 0 else k % n + 1
  {
    var q := k / n;
    assert k + 1 == q * n + (k % n + 1);
    if k % n + 1 == n {
      assert k + 1 == (q + 1) * n;
      MulDivMod(q + 1, n, 0);
    } else {
      MulDivMod(q, n, k % n + 1);
    }
  }

  lemma MulDivMod(q: nat, n: nat, r: nat)
    requires r < n
    ensures (q * n + r) % n == r
  {
    var x := q * n + r;
    assert x == (x / n) * n + x % n;
    var d := x / n - q;
    assert d * n == r - x % n;
  }

  datatype Account = Account(sent: Bytes, pending: nat)

  ghost function Accounts(peers: seq<Peer>): map<Peer, Account>
    reads peers`pendingRequests, peers`sent
  {
    map p | p in peers :: Account(p.sent, p.pendingRequests)
  }

  /** Since `was`, each peer was sent exactly the frames of its own requests, and as many more are pending. */
  ghost predicate Told(meta: Meta, peers: seq<Peer>, was: map<Peer, Account>, asks: seq<Ask>)
    requires meta.pieceLength > 0
    reads peers`pendingRequests, peers`sent
  {
    forall p :: p in peers ==>
      && p in was && p.sent == was[p].sent + RequestFrames(meta, AskedOf(asks, p))
      && p.pendingRequests == was[p].pending + |AskedOf(asks, p)|
  }

  /** One more peer is asked. */
  method AskOne(peer: Peer, peers: seq<Peer>, left: nat, maxPending: nat, ghost was: map<Peer, Account>, ghost asks: seq<Ask>)
    returns (count: Option<nat>, ghost more: seq<BlockRequest>)
    requires peer.torrent.Valid() && left > 0 && peer in peers && peer.torrent.disk.meta.pieceLength > 0
    requires Told(peer.torrent.disk.meta, peers, was, asks) && AllWanted(peer.torrent, peers, asks)
    modifies peer`pendingRequests, peer`sent, peer.torrent, peer.torrent.Objects()
    ensures peer.torrent.Valid() && fresh(peer.torrent.Objects() - old(peer.torrent.Objects()))
    ensures peer.torrent.clientPieces == old(peer.torrent.clientPieces)
    ensures Asks(old(peer.torrent.history), peer.torrent.history)
    ensures count.None? ==> more == [] && peer.RetryTarget(left, maxPending) > MAX_UNSIGNED_SHORT
    ensures count.Some? ==> count.value == |more| <= left
    ensures more == [] ==> peer.torrent.abs == old(peer.torrent.abs)
    ensures count == Some(0) ==> peer.Idle()
    ensures Told(peer.torrent.disk.meta, peers, was, asks + AllFrom(peer, more))
    ensures AllWanted(peer.torrent, peers, asks + AllFrom(peer, more))
    ensures peer.torrent.Requests() == old(peer.torrent.Requests()) + more
  {
    hide Torrent.Valid, Torrent.Requests, Peer.Idle, Peer.Wants, Asks, RequestFrames, AskedOf, AllFrom, AllWanted;
    var meta := peer.torrent.disk.meta;
    count, more := peer.RetryFrom(left, maxPending);
    NoFrames(meta);
    forall p | p in peers
      ensures p.sent == was[p].sent + RequestFrames(meta, AskedOf(asks + AllFrom(peer, more), p))
      ensures p.pendingRequests == was[p].pending + |AskedOf(asks + AllFrom(peer, more), p)|
    {
      AskedOfJoin(asks, peer, more, p);
      FramesOfOne(meta, asks, peer, more, p, was[p].sent);
    }
    WantedJoin(peer.torrent, peers, asks, peer, more);
  }

  /** The loop of `retry_pieces`: peer after peer, and round after round. */
  method RetryRounds(torrent: Torrent, peers: seq<Peer>, retry: nat, maxPending: nat, ghost was: map<Peer, Account>)
    returns (end: RetryEnd, left: nat, ghost asks: seq<Ask>, ghost visits: seq<seq<BlockRequest>>)
    requires torrent.Valid() && peers != [] && (forall p :: p in peers ==> p.torrent == torrent)
    requires torrent.disk.meta.pieceLength > 0 && Told(torrent.disk.meta, peers, was, [])
    modifies peers`pendingRequests, peers`sent, torrent, torrent.Objects()
    ensures torrent.Valid() && |asks| + left == retry && torrent.clientPieces == old(torrent.clientPieces)
    ensures torrent.Requests() == old(torrent.Requests()) + Blocks(asks)
    ensures Asks(old(torrent.history), torrent.history) && (asks == [] ==> torrent.abs == old(torrent.abs))
    ensures AllWanted(torrent, peers, asks) && Told(torrent.disk.meta, peers, was, asks) && asks == Visited(peers, visits)
    ensures end.Finished? && left > 0 ==> forall p :: p in peers ==> p.Idle()
    ensures end.CountTooLarge? ==> left > 0 && exists p :: p in peers && p.RetryTarget(left, maxPending) > MAX_UNSIGNED_SHORT
  {
    hide Torrent.Valid, Torrent.Requests, Peer.Idle, Peer.Wants, Asks, RequestFrames, AskedOf, Blocks, AllWanted, Told, Visited;
    left, asks, visits := retry, [], [];
    ghost var h := torrent.history;
    NothingAsked(torrent, peers);
    NothingVisited(peers);
    NoStepAsks(h);
    var startCount := left;
    var it := 0;
    while left > 0
      invariant torrent.Valid() && fresh(torrent.Objects() - old(torrent.Objects()))
      invariant torrent.clientPieces == old(torrent.clientPieces)
      invariant |asks| + left == retry && torrent.Requests() == old(torrent.Requests()) + Blocks(asks)
      invariant Asks(h, torrent.history) && (asks == [] ==> torrent.abs == old(torrent.abs))
      invariant AllWanted(torrent, peers, asks) && Told(torrent.disk.meta, peers, was, asks)
      invariant it < |peers| && left <= startCount && asks == Visited(peers, visits) && |visits| % |peers| == it
      invariant left == startCount ==> forall k :: 0 <= k < it ==> peers[k].Idle()
      decreases left, left < startCount, |peers| - it
    {
      var peer := peers[it];
      ghost var before := torrent.history;
      ValidShape(torrent);
      var count, more := AskOne(peer, peers, left, maxPending, was, asks);
      AsksTransitive(h, before, torrent.history);
      BlocksJoin(asks, peer, more);
      OneMoreVisit(peers, visits, it, more);
      asks, visits := asks + AllFrom(peer, more), visits + [more];
      if count.None? {
        assert peer.RetryTarget(left, maxPending) > MAX_UNSIGNED_SHORT && peer in peers;
        return CountTooLarge, left, asks, visits;
      }
      left := left - count.value;
      it := it + 1;
      if it == |peers| {
        if left == startCount {
          break;
        }
        startCount := left;
        it := 0;
      }
    }
    return Finished, left, asks, visits;
  }

  /**
   * The second half of `retry_pieces`: ask the peers, in the order of the list and round after round, until
   * `retry` blocks were requested. It ends because every round either requests something or is the last, and with
   * blocks left to retry only when no peer has any of them to request.
   */
  method RequestRetries(torrent: Torrent, peers: seq<Peer>, retry: nat, maxPending: nat)
    returns (end: RetryEnd, left: nat, ghost asks: seq<Ask>, ghost visits: seq<seq<BlockRequest>>)
    requires torrent.Valid() && forall p :: p in peers ==> p.torrent == torrent
    modifies peers`pendingRequests, peers`sent, torrent, torrent.Objects()
    ensures torrent.Valid() && |asks| + left == retry && torrent.clientPieces == old(torrent.clientPieces)
    ensures torrent.Requests() == old(torrent.Requests()) + Blocks(asks)
    ensures Asks(old(torrent.history), torrent.history) && (asks == [] ==> torrent.abs == old(torrent.abs))
    ensures AllWanted(torrent, peers, asks) && (if peers == [] then asks == [] else asks == Visited(peers, visits))
    ensures forall p :: p in peers ==> p.sent == old(p.sent) + RequestFrames(torrent.disk.meta, AskedOf(asks, p))
    ensures forall p :: p in peers ==> p.pendingRequests == old(p.pendingRequests) + |AskedOf(asks, p)|
    ensures end.Finished? && left > 0 ==> forall p :: p in peers ==> p.Idle()
    ensures end.CountTooLarge? ==> left > 0 && exists p :: p in peers && p.RetryTarget(left, maxPending) > MAX_UNSIGNED_SHORT
  {
    hide Torrent.Valid, Torrent.Requests, Peer.Idle, Asks, RequestFrames, AskedOf, Blocks, AllWanted;
    PieceLengthPositive(torrent);
    NothingAsked(torrent, peers);
    NoStepAsks(torrent.history);
    if peers == [] {
      return Finished, retry, [], [];
    }
    end, left, asks, visits := RetryRounds(torrent, peers, retry, maxPending, Accounts(peers));
  }

  lemma NothingVisited(peers: seq<Peer>)
    requires peers != []
    ensures Visited(peers, []) == []
  {}

  lemma NothingAsked(torrent: Torrent, peers: seq<Peer>)
    requires torrent.disk.meta.pieceLength > 0
    ensures Blocks([]) == [] && forall p: Peer :: RequestFrames(torrent.disk.meta, AskedOf([], p)) == []
    ensures AllWanted(torrent, peers, []) && forall p: Peer :: AskedOf([], p) == []
  {}
}
