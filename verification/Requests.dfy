/** A REQUEST from its block to its bytes, and the answer from its bytes to the block. */
module Requests {
  import opened Bytes
  import opened Bitfields
  import opened Files
  import opened Pieces
  import opened Assembly
  import opened Scheduling
  import opened Serving
  import opened Peers
  import opened Messages
  import opened Segmentation

  /** The block lies in its piece, and its numbers fit into words. */
  ghost predicate Requestable(meta: Meta, q: BlockRequest) {
    && meta.pieceLength > 0 && meta.PieceLengthOf(q.id) < TWO_TO_THE_32 && q.id < TWO_TO_THE_32
    && q.block < BlockCountOf(meta.PieceLengthOf(q.id))
  }

  /** For any content of the piece: the message names the piece and where the block is in it. */
  lemma RequestNamesBlock(meta: Meta, q: BlockRequest, c: Bytes)
    requires meta.pieceLength > 0 && |c| == meta.PieceLengthOf(q.id) && q.block < BlockCountOf(|c|)
    ensures var m := RequestMessage(meta, q);
            && m.Request? && m.index == q.id && m.begin == 16384 * q.block
            && m.begin + m.length <= |c| && c[m.begin..m.begin + m.length] == BlockOf(c, q.block)
            && 0 < m.length <= 16384 && (m.length < 16384 ==> m.begin + m.length == |c|)
  {
    BlocksTile(|c|, q.block);
  }

  /** The PIECE that answers it is accepted, and makes exactly that block done, with its bytes. */
  lemma AnswerIsStored(meta: Meta, q: BlockRequest, c: Bytes, p: PieceState)
    requires meta.pieceLength > 0 && |c| == meta.PieceLengthOf(q.id) && q.block < BlockCountOf(|c|)
    requires p.Ok() && p.size == |c|
    ensures RequestMessage(meta, q).Request?
    ensures var m := RequestMessage(meta, q);
            var d := BlockOf(c, q.block);
            && |d| == m.length && p.BlockError(m.begin, |d|).None?
            && var p' := p.StoreBlock(m.begin, d);
               && (forall b: nat :: BitAt(p'.done, b) <==> BitAt(p.done, b) || b == q.block)
               && (!BitAt(p.done, q.block) ==> m.begin + |d| <= |p'.data| && p'.data[m.begin..m.begin + |d|] == d)
  {
    RequestNamesBlock(meta, q, c);
    StoreMarksOne(p, q.block * BLOCK_SIZE, BlockOf(c, q.block));
  }

  /** A complete piece answers it with that block, from memory or from disk. */
  lemma RequestIsAnswered(meta: Meta, q: BlockRequest, p: PieceState, disk: Bytes)
    requires meta.WellFormed() && |disk| == meta.Length() && p.Ok() && p.Complete()
    requires p.id == q.id && p.size == meta.PieceLengthOf(p.id) && (p.written ==> p.id < meta.PieceCount())
    requires q.block < BlockCountOf(p.size)
    ensures |PieceContent(meta, p, disk)| == p.size
    ensures var m := RequestMessage(meta, q);
            GetBlock(meta, p, disk, m.begin, m.length) == Served(BlockOf(PieceContent(meta, p, disk), q.block))
  {
    var m := RequestMessage(meta, q);
    BlocksTile(p.size, q.block);
    hide PieceContent, GetBlock, PieceState.Ok, PieceState.Complete, Meta.WellFormed, BlockOf;
    ServedIsContent(meta, p, disk, m.begin, m.length);
    RequestNamesBlock(meta, q, PieceContent(meta, p, disk));
  }

  // ----- the bytes that are sent -----

  function RequestMessages(meta: Meta, qs: seq<BlockRequest>): seq<Message>
    requires meta.pieceLength > 0
  {
    seq(|qs|, i requires 0 <= i < |qs| => RequestMessage(meta, qs[i]))
  }

  lemma {:induction false} FramesSnoc(ms: seq<Message>, m: Message)
    ensures Frames(ms + [m]) == Frames(ms) + Frame(m)
  {
    hide Frame;
    if ms == [] {
      assert [m][1..] == [] && ms + [m] == [m];
    } else {
      assert (ms + [m])[1..] == ms[1..] + [m];
      FramesSnoc(ms[1..], m);
    }
  }

  lemma {:induction false} RequestFramesAreFrames(meta: Meta, qs: seq<BlockRequest>)
    requires meta.pieceLength > 0
    ensures RequestFrames(meta, qs) == Frames(RequestMessages(meta, qs))
  {
    hide Frame, RequestMessage;
    if qs != [] {
      var n := |qs| - 1;
      RequestFramesAreFrames(meta, qs[..n]);
      FramesSnoc(RequestMessages(meta, qs[..n]), RequestMessage(meta, qs[n]));
      assert RequestMessages(meta, qs) == RequestMessages(meta, qs[..n]) + [RequestMessage(meta, qs[n])];
    }
  }

  lemma RequestIsSendable(meta: Meta, q: BlockRequest)
    requires Requestable(meta, q)
    ensures Sendable(RequestMessage(meta, q)) && |Frame(RequestMessage(meta, q))| == 17 && Frame(RequestMessage(meta, q))[0] == 0
  {
    BlocksTile(meta.PieceLengthOf(q.id), q.block);
  }

  /** Every frame has 17 bytes and starts with a zero. */
  lemma {:induction false} ZerosInRequests(meta: Meta, qs: seq<BlockRequest>, j: nat)
    requires meta.pieceLength > 0 && forall q :: q in qs ==> Requestable(meta, q)
    ensures |RequestFrames(meta, qs)| == 17 * |qs|
    ensures j < |qs| ==> RequestFrames(meta, qs)[17 * j] == 0
  {
    hide Frame, RequestMessage, Requestable;
    if qs != [] {
      var n := |qs| - 1;
      ZerosInRequests(meta, qs[..n], if j < n then j else 0);
      RequestIsSendable(meta, qs[n]);
    }
  }

  /** So no handshake marker is ever sent in a row of requests: it has no zero. */
  lemma NoHandshakeInRequests(meta: Meta, qs: seq<BlockRequest>)
    requires meta.pieceLength > 0 && forall q :: q in qs ==> Requestable(meta, q)
    ensures NoHandshakeIn(RequestFrames(meta, qs))
  {
    var s := RequestFrames(meta, qs);
    ZerosInRequests(meta, qs, 0);
    hide RequestFrames, Requestable;
    forall i: nat
      ensures !MarkerAt(s, i)
    {
      if i + |BT_START| <= |s| {
        var j := (i + 16) / 17;
        ZerosInRequests(meta, qs, j);
        assert s[i..i + |BT_START|][17 * j - i] == s[17 * j] == 0;
        assert BT_START[17 * j - i] != 0;
      }
    }
  }

  /**
   * The bytes that requesting the blocks sends, in whatever reads they arrive, are dispatched as just these
   * REQUESTs, in order.
   */
  lemma RequestsArrive(meta: Meta, qs: seq<BlockRequest>, chunks: seq<Bytes>)
    requires meta.pieceLength > 0 && forall q :: q in qs ==> Requestable(meta, q)
    requires Flatten(chunks) == RequestFrames(meta, qs)
    ensures FeedAll([], chunks) == Drained(Events(RequestMessages(meta, qs)), [], Open)
  {
    var ms := RequestMessages(meta, qs);
    NoHandshakeInRequests(meta, qs);
    RequestFramesAreFrames(meta, qs);
    forall k | 0 <= k < |ms|
      ensures Sendable(ms[k])
    {
      RequestIsSendable(meta, qs[k]);
    }
    hide RequestFrames, Requestable, RequestMessage, Sendable, Frames;
    assert Sendable(KeepAlive) && |Frame(KeepAlive)| == 4 by {
      KeepAliveIsSendable();
    }
    assert Frames(ms) + [] == Frames(ms);
    SegmentationIndependence(ms, [], KeepAlive, chunks);
  }

  lemma KeepAliveIsSendable()
    ensures Sendable(KeepAlive) && |Frame(KeepAlive)| == 4
  {}

  /** What an answer sends: nothing, or a frame that is read as the block at its place, whatever follows it. */
  lemma AnswerArrives(index: nat, begin: nat, served: Served, rest: Bytes)
    requires served.Served? ==> Sendable(PieceBlock(index, begin, served.bytes))
    requires ParseHandshake(PieceFrame(index, begin, served) + rest) == NoHandshake
    ensures !served.Served? ==> PieceFrame(index, begin, served) == []
    ensures served.Served? ==>
              var frame := PieceFrame(index, begin, served);
              && |frame| == 13 + |served.bytes|
              && Parse(frame + rest) == Consumed(|frame|, Some(Dispatched(PieceBlock(index, begin, served.bytes))))
  {
    if served.Served? {
      FrameShape(PieceBlock(index, begin, served.bytes));
      hide Parse, ParseHandshake, Sendable;
      FrameIsParsed(PieceBlock(index, begin, served.bytes), rest);
    }
  }
}
