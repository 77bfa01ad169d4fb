/**
 * What the message of a peer does, as a relation between two views: of the peer's fields, of the bytes sent to it,
 * and of the run of the torrent.
 */
module Calls {
  import opened Bytes
  import opened Bitfields
  import opened Files
  import opened Pieces
  import opened Transfer
  import opened Runs
  import opened Scheduling
  import opened Serving
  import opened Peers
  import opened Messages

  datatype View<Id> = View(
    amChoking: bool, interested: bool, amInterested: bool, choking: bool,
    pending: nat, remote: Bits, sent: Bytes, run: Run<Id>)

  /** What does not change: the torrent file, the configured limit and the info hash. */
  datatype Config = Config(meta: Meta, maxPending: nat, infoHash: Bytes)

  /** The run leads to a consistent state. */
  ghost predicate ViewOk<Id>(c: Config, v: View<Id>) {
    c.meta.pieceLength > 0 && IsRun(c.meta, v.run) && Inv(c.meta, Last(v.run))
  }

  ghost function Now<Id>(c: Config, v: View<Id>): (s: Sys<Id>)
    requires ViewOk(c, v)
    ensures ObjectsOk(c.meta, s)
  {
    Last(v.run)
  }

  /** One more step of the run. */
  ghost function Took<Id>(v: View<Id>, l: Label<Id>, s: Sys<Id>): View<Id> {
    v.(run := Extended(v.run, l, s))
  }

  // ----- parts of a call -----

  /** The bits of a BITFIELD message. */
  function BitsOf(raw: Bytes): Bits {
    Unpack(seq(|raw|, i requires 0 <= i < |raw| => (raw[i] as int) as bv8))
  }

  /** `set_remote_pieces`. */
  ghost function WithRemote<Id>(c: Config, v: View<Id>, bits: Bits): View<Id>
    requires ViewOk(c, v)
  {
    Took(v, Sizing(|bits|), InitClient(Now(c, v), |bits|)).(remote := bits)
  }

  /** `set_am_interested(true)`. */
  ghost function Interests<Id>(c: Config, v: View<Id>, s: Sys<Id>): View<Id> {
    if v.amInterested || Done(c.meta, s) then v
    else v.(amInterested := true, sent := v.sent + Frame(Interested))
  }

  predicate MayAsk<Id>(v: View<Id>) {
    v.amInterested && !v.choking
  }

  predicate LimitIsZero<Id>(c: Config, v: View<Id>) {
    MayAsk(v) && c.maxPending == 0
  }

  /** The blocks `qs` are requested, all of pieces that the remote has and we lack, until the limit or the end. */
  ghost predicate AsksFor<Id>(c: Config, v: View<Id>, w: View<Id>, qs: seq<BlockRequest>)
    requires ViewOk(c, v) && ViewOk(c, w)
  {
    var wanted := Difference(w.remote, Now(c, w).client);
    && Asks(v.run, w.run)
    && AllRequests(c.meta, w.run) == AllRequests(c.meta, v.run) + qs
    && w == v.(run := w.run, sent := v.sent + RequestFrames(c.meta, qs), pending := v.pending + |qs|)
    && (if qs == [] then Now(c, w) == Now(c, v) else MayAsk(v) && w.pending <= c.maxPending)
    && (forall q :: q in qs ==> q.id < |wanted| && wanted[q.id])
    && (MayAsk(w) && w.pending < c.maxPending ==> ClosedBelow(Now(c, w), wanted, |wanted|))
  }

  /** `request_next_block()`. */
  ghost predicate Fills<Id>(c: Config, v: View<Id>, w: View<Id>) {
    ViewOk(c, v) && ViewOk(c, w) && exists qs :: AsksFor(c, v, w, qs)
  }

  /** The piece that a REQUEST is about, made active if need be. */
  ghost function PieceFor<Id>(meta: Meta, s: Sys<Id>, id: nat): PieceState
    requires ObjectsOk(meta, s)
  {
    if id in s.active then s.heap[s.active[id]] else NewPiece(id, meta.PieceLengthOf(id))
  }

  /** The answer to a REQUEST. */
  ghost function AnswerTo<Id>(meta: Meta, s: Sys<Id>, index: nat, begin: nat, length: nat): Served
    requires Inv(meta, s)
  {
    PieceSizePositive(meta, index);
    NewPieceOk(index, meta.PieceLengthOf(index));
    assert ConservedAt(meta, s, index);
    GetBlock(meta, PieceFor(meta, s, index), s.disk, begin, length)
  }

  // ----- the calls -----

  ghost predicate Serves<Id>(c: Config, v: View<Id>, index: nat, begin: nat, length: nat, w: View<Id>)
    requires ViewOk(c, v) && ViewOk(c, w)
  {
    var s, t := Now(c, v), Now(c, w);
    var frame := PieceFrame(index, begin, AnswerTo(c.meta, s, index, begin, length));
    if v.amChoking || !v.interested then w == v
    else if index in s.active then w == v.(sent := v.sent + frame)
    else
      && index in t.active && t.active[index] !in s.heap
      && w == Took(v, Activating(index, t.active[index]), Activate(c.meta, s, index, t.active[index])).(sent := v.sent + frame)
  }

  /** A block arrived: one less is pending, and it is stored. */
  ghost function Stored<Id>(c: Config, v: View<Id>, index: nat, begin: nat, block: Bytes): View<Id>
    requires ViewOk(c, v)
  {
    Took(v, Receiving(index, begin, block), PutBlock(c.meta, Now(c, v), index, begin, block))
      .(pending := if v.pending > 0 then v.pending - 1 else 0)
  }

  /** The view after `have` and before it requests. */
  ghost function Having<Id>(c: Config, v: View<Id>, id: nat): View<Id>
    requires ViewOk(c, v)
  {
    var n := c.meta.PieceCount();
    if CountTrue(v.remote) == 0 then
      Took(v, Sizing(n), InitClient(Now(c, v), n)).(remote := Filled(NoBits(n), 0, n, true))
    else v.(remote := WithBit(v.remote, id, true))
  }

  /** The call that the event makes leads from `v` to `w`. */
  ghost predicate Makes<Id>(c: Config, v: View<Id>, e: Event, w: View<Id>)
    requires ViewOk(c, v) && ViewOk(c, w)
  {
    match e
    case Handshake(hash, peerId, bits) =>
      if hash != c.infoHash then w == v
      else
        var v' := if bits == [] then v else WithRemote(c, v, BitsOf(bits));
        w == Interests(c, v', Now(c, w))
    case Dispatched(m) =>
      match m
      case KeepAlive => w == v
      case Choke => w == v.(choking := true, pending := if v.choking then v.pending else 0)
      case Unchoke => if v.choking then Fills(c, v.(choking := false), w) else w == v
      case Interested =>
        if v.interested || !v.amChoking then w == v.(interested := true)
        else w == v.(interested := true, amChoking := false, sent := v.sent + Frame(Unchoke))
      case NotInterested => w == v.(interested := false)
      case Have(id) => Fills(c, Having(c, v, id), w)
      case BitfieldBytes(raw) => w == WithRemote(c, v, BitsOf(raw))
      case Request(index, begin, length) => Serves(c, v, index, begin, length, w)
      case PieceBlock(index, begin, block) =>
        if Refusal(c.meta, Now(c, v), index, begin, |block|).Some? then w == Stored(c, v, index, begin, block)
        else Fills(c, Stored(c, v, index, begin, block), w)
  }

  /** Exactly when that call throws. */
  ghost predicate Throws<Id>(c: Config, v: View<Id>, e: Event)
    requires ViewOk(c, v)
  {
    e.Dispatched? &&
    match e.message
    case Unchoke => v.choking && v.amInterested && c.maxPending == 0
    case Have(id) => LimitIsZero(c, v)
    case Request(index, begin, length) =>
      var answer := AnswerTo(c.meta, Now(c, v), index, begin, length);
      !v.amChoking && v.interested && (answer.Refused? || answer.NoAnswer?)
    case PieceBlock(index, begin, block) =>
      LimitIsZero(c, v) || Refusal(c.meta, Now(c, v), index, begin, |block|).Some?
    case _ => false
  }

  // ----- what calls keep -----

  lemma TookIsOk<Id>(c: Config, v: View<Id>, l: Label<Id>, s: Sys<Id>)
    requires ViewOk(c, v) && Step(c.meta, Now(c, v), l, s)
    ensures ViewOk(c, Took(v, l, s)) && Now(c, Took(v, l, s)) == s
    ensures AllRequests(c.meta, Took(v, l, s).run) == AllRequests(c.meta, v.run) + Scheduling.Log(Sent(c.meta, Now(c, v), l))
  {
    hide Step, Inv, IsRun, AllRequests, Sent;
    StepKeepsInv(c.meta, Now(c, v), l, s);
    ExtendedIsRun(c.meta, v.run, l, s);
    ExtendedRequests(c.meta, v.run, l, s);
  }

  /** Neither a block nor a size sends a request. */
  lemma TookQuietly<Id>(c: Config, v: View<Id>, l: Label<Id>, s: Sys<Id>)
    requires ViewOk(c, v) && Step(c.meta, Now(c, v), l, s) && !l.Marking?
    ensures ViewOk(c, Took(v, l, s)) && Now(c, Took(v, l, s)) == s
    ensures AllRequests(c.meta, Took(v, l, s).run) == AllRequests(c.meta, v.run)
  {
    hide Step, Inv, IsRun, AllRequests;
    TookIsOk(c, v, l, s);
    assert AllRequests(c.meta, v.run) + [] == AllRequests(c.meta, v.run);
  }

  lemma StoredIsOk<Id>(c: Config, v: View<Id>, index: nat, begin: nat, block: Bytes)
    requires ViewOk(c, v)
    ensures var w := Stored(c, v, index, begin, block);
            && ViewOk(c, w) && Now(c, w) == PutBlock(c.meta, Now(c, v), index, begin, block)
            && AllRequests(c.meta, w.run) == AllRequests(c.meta, v.run)
  {
    hide Inv, IsRun, AllRequests, PutBlock, ObjectsOk;
    TookQuietly(c, v, Receiving(index, begin, block), PutBlock(c.meta, Now(c, v), index, begin, block));
  }

  lemma SizedIsOk<Id>(c: Config, v: View<Id>, n: nat)
    requires ViewOk(c, v)
    ensures var w := Took(v, Sizing(n), InitClient(Now(c, v), n));
            ViewOk(c, w) && Now(c, w) == InitClient(Now(c, v), n) && AllRequests(c.meta, w.run) == AllRequests(c.meta, v.run)
  {
    hide Inv, IsRun, AllRequests, InitClient, ObjectsOk;
    TookQuietly(c, v, Sizing(n), InitClient(Now(c, v), n));
  }

  lemma HavingIsOk<Id>(c: Config, v: View<Id>, id: nat)
    requires ViewOk(c, v)
    ensures var w := Having(c, v, id); ViewOk(c, w) && AllRequests(c.meta, w.run) == AllRequests(c.meta, v.run)
  {
    hide Inv, IsRun, AllRequests, InitClient, Filled, WithBit, CountTrue;
    SizedIsOk(c, v, c.meta.PieceCount());
  }

  /** The answer can be told from the piece once it is active. */
  lemma AnswerWhenActive<Id>(meta: Meta, s: Sys<Id>, t: Sys<Id>, index: nat, begin: nat, length: nat)
    requires Inv(meta, s) && index in t.active && t == Activate(meta, s, index, t.active[index])
    ensures t.active[index] in t.heap && |t.disk| == meta.Length() && meta.WellFormed()
    ensures var p := t.heap[t.active[index]];
            && p.Ok() && p.size == meta.PieceLengthOf(p.id) && (p.written ==> p.id < meta.PieceCount())
            && AnswerTo(meta, s, index, begin, length) == GetBlock(meta, p, t.disk, begin, length)
  {
    hide GetBlock, PieceState.Ok;
    PieceSizePositive(meta, index);
    NewPieceOk(index, meta.PieceLengthOf(index));
    assert ConservedAt(meta, s, index);
  }
}
