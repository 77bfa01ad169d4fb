/** What the peer protocol promises over whole chains of calls. */
module Protocol {
  import opened Bytes
  import opened Bitfields
  import opened Files
  import opened Pieces
  import opened Transfer
  import opened Runs
  import opened Scheduling
  import opened Serving
  import opened Peers
  import opened Calls
  import opened Messages
  import opened Connections

  // ----- one call -----

  /** The remote chokes us or we are not interested, and the event does not change that. */
  ghost predicate Forbids<Id>(v: View<Id>, e: Event) {
    (v.choking && e != Dispatched(Unchoke)) || (!v.amInterested && !e.Handshake?)
  }

  /** Whoever is interested is not choked. */
  ghost predicate Polite<Id>(v: View<Id>) {
    v.interested ==> !v.amChoking
  }

  /** `w` comes after `v`: nothing that was sent is taken back, and no more is pending than the limit, or than before. */
  ghost predicate Follows<Id>(c: Config, v: View<Id>, w: View<Id>) {
    && (Polite(v) ==> Polite(w))
    && v.sent <= w.sent
    && (w.pending <= v.pending || w.pending <= c.maxPending)
  }

  lemma FillsIs<Id>(c: Config, v: View<Id>, w: View<Id>)
    requires Fills(c, v, w)
    ensures ViewOk(c, v) && ViewOk(c, w)
    ensures w == v.(run := w.run, sent := w.sent, pending := w.pending)
    ensures v.sent <= w.sent && (w.pending == v.pending || w.pending <= c.maxPending)
    ensures v.choking || !v.amInterested ==> w.sent == v.sent && AllRequests(c.meta, w.run) == AllRequests(c.meta, v.run)
  {
    hide AllRequests, Inv, ClosedBelow, Asks, Frame;
    var qs :| AsksFor(c, v, w, qs);
    if qs == [] {
      assert AllRequests(c.meta, v.run) + [] == AllRequests(c.meta, v.run);
      NoFrames(c.meta);
    }
  }

  /** The bits of a BITFIELD: piece 0 is the most significant bit of the first byte. */
  lemma BitfieldBits(raw: Bytes, i: nat)
    ensures |BitsOf(raw)| == 8 * |raw|
    ensures i < 8 * |raw| ==> (BitsOf(raw)[i] <==> ((raw[i / 8] as int) as bv8) & ((1 as bv8) << (7 - i % 8)) != 0)
  {
    if i < 8 * |raw| {
      var packed := seq(|raw|, k requires 0 <= k < |raw| => (raw[k] as int) as bv8);
      UnpackAt(packed, i);
      MaskTestsBit(packed[i / 8], i);
      MaskIsShift(i);
    }
  }

  /** A block that is requested is in a piece that the remote has and we lack. */
  lemma AskedIsLacking<Id>(c: Config, v: View<Id>, w: View<Id>, qs: seq<BlockRequest>, q: BlockRequest)
    requires ViewOk(c, v) && ViewOk(c, w) && AsksFor(c, v, w, qs) && q in qs
    ensures q.id < |w.remote| && w.remote[q.id] && q.id < |Now(c, w).client| && !Now(c, w).client[q.id]
  {
    hide ViewOk, AllRequests, Asks, RequestFrames, ClosedBelow;
  }

  lemma AnswerFromContent<Id>(meta: Meta, s: Sys<Id>, index: nat, begin: nat, length: nat)
    requires Inv(meta, s) && Has(s, index) && 0 < length && begin + length <= meta.PieceLengthOf(index)
    ensures |Content(meta, s, index)| == meta.PieceLengthOf(index)
    ensures AnswerTo(meta, s, index, begin, length)
         == if begin % 16384 != 0 then Refused else Served(Content(meta, s, index)[begin..begin + length])
  {
    hide PieceState.Ok, PieceState.Complete, GetBlock, PieceContent;
    AnswerIsContent(meta, s, index, begin, length);
  }

  /** A REQUEST for a part of a complete piece is answered with that part, if the remote is interested and not choked. */
  lemma RequestIsServed<Id>(c: Config, v: View<Id>, index: nat, begin: nat, length: nat, w: View<Id>)
    requires ViewOk(c, v) && ViewOk(c, w) && Makes(c, v, Dispatched(Request(index, begin, length)), w)
    requires Has(Now(c, v), index) && 0 < length && begin + length <= c.meta.PieceLengthOf(index)
    ensures |Content(c.meta, Now(c, v), index)| == c.meta.PieceLengthOf(index)
    ensures v.amChoking || !v.interested || begin % 16384 != 0 ==> w == v
    ensures !v.amChoking && v.interested && begin % 16384 == 0 ==>
              w == v.(sent := v.sent
                + Frame(PieceBlock(index, begin, Content(c.meta, Now(c, v), index)[begin..begin + length])))
  {
    hide Frame, IsRun, AnswerTo, Content, Inv, Activate;
    AnswerFromContent(c.meta, Now(c, v), index, begin, length);
    assert v.sent + [] == v.sent;
  }

  /** The call asks for more blocks, if that is allowed, and keeps the flags that say who is interested. */
  ghost predicate OnlyAsks<Id>(c: Config, v: View<Id>, w: View<Id>)
    requires ViewOk(c, v) && ViewOk(c, w)
  {
    && w.amChoking == v.amChoking && w.interested == v.interested && w.amInterested == v.amInterested
    && v.sent <= w.sent && (w.pending <= v.pending || w.pending <= c.maxPending)
    && (w.choking || !w.amInterested ==> AllRequests(c.meta, w.run) == AllRequests(c.meta, v.run))
  }

  lemma UnchokeOnlyAsks<Id>(c: Config, v: View<Id>, w: View<Id>)
    requires ViewOk(c, v) && ViewOk(c, w) && Makes(c, v, Dispatched(Unchoke), w)
    ensures OnlyAsks(c, v, w) && !w.choking
  {
    hide Fills, ViewOk, AllRequests;
    if v.choking {
      FillsIs(c, v.(choking := false), w);
    }
  }

  lemma HaveOnlyAsks<Id>(c: Config, v: View<Id>, id: nat, w: View<Id>)
    requires ViewOk(c, v) && ViewOk(c, w) && Makes(c, v, Dispatched(Message.Have(id)), w)
    ensures OnlyAsks(c, v, w) && w.choking == v.choking
  {
    hide Fills, ViewOk, AllRequests, InitClient, Filled, WithBit, CountTrue;
    HavingIsOk(c, v, id);
    FillsIs(c, Having(c, v, id), w);
  }

  lemma PieceOnlyAsks<Id>(c: Config, v: View<Id>, index: nat, begin: nat, block: Bytes, w: View<Id>)
    requires ViewOk(c, v) && ViewOk(c, w) && Makes(c, v, Dispatched(PieceBlock(index, begin, block)), w)
    ensures OnlyAsks(c, v, w) && w.choking == v.choking
  {
    hide Fills, ViewOk, AllRequests, Refusal, PutBlock;
    StoredIsOk(c, v, index, begin, block);
    if Fills(c, Stored(c, v, index, begin, block), w) {
      FillsIs(c, Stored(c, v, index, begin, block), w);
    }
  }

  ghost predicate MayAskMore(e: Event) {
    e.Dispatched? && (e.message.Unchoke? || e.message.Have? || e.message.PieceBlock?)
  }

  /** What every other call does: it asks for nothing. */
  ghost predicate AsksNothing<Id>(c: Config, v: View<Id>, w: View<Id>)
    requires ViewOk(c, v) && ViewOk(c, w)
  {
    && w.pending <= v.pending && v.sent <= w.sent && (Polite(v) ==> Polite(w))
    && AllRequests(c.meta, w.run) == AllRequests(c.meta, v.run)
  }

  lemma WithRemoteAsksNothing<Id>(c: Config, v: View<Id>, bits: Bits)
    requires ViewOk(c, v)
    ensures ViewOk(c, WithRemote(c, v, bits)) && AsksNothing(c, v, WithRemote(c, v, bits))
    ensures var w := WithRemote(c, v, bits); w.choking == v.choking && w.amInterested == v.amInterested
  {
    hide ViewOk, AllRequests, InitClient;
    SizedIsOk(c, v, |bits|);
    RemoteIsOk(c, v, bits);
  }

  lemma RemoteIsOk<Id>(c: Config, v: View<Id>, bits: Bits)
    requires ViewOk(c, v) && ViewOk(c, Took(v, Sizing(|bits|), InitClient(Now(c, v), |bits|)))
    ensures ViewOk(c, WithRemote(c, v, bits))
  {
    hide IsRun, Inv, InitClient;
  }

  lemma HandshakeAsksNothing<Id>(c: Config, v: View<Id>, hash: Bytes, peerId: Bytes, bits: Bytes, w: View<Id>)
    requires ViewOk(c, v) && ViewOk(c, w) && Makes(c, v, Handshake(hash, peerId, bits), w)
    ensures AsksNothing(c, v, w) && w.choking == v.choking
  {
    hide ViewOk, AllRequests, WithRemote, Done, Frame;
    WithRemoteAsksNothing(c, v, BitsOf(bits));
  }

  lemma MessageAsksNothing<Id>(c: Config, v: View<Id>, m: Message, w: View<Id>)
    requires ViewOk(c, v) && ViewOk(c, w) && Makes(c, v, Dispatched(m), w) && !MayAskMore(Dispatched(m))
    ensures AsksNothing(c, v, w) && w.choking == (v.choking || m.Choke?) && w.amInterested == v.amInterested
  {
    hide ViewOk, AllRequests, WithRemote, Serves, Frame;
    match m
    case BitfieldBytes(raw) => WithRemoteAsksNothing(c, v, BitsOf(raw));
    case Request(index, begin, length) => ServesQuietly(c, v, index, begin, length, w);
    case _ =>
  }

  lemma OtherCall<Id>(c: Config, v: View<Id>, e: Event, w: View<Id>)
    requires ViewOk(c, v) && ViewOk(c, w) && Makes(c, v, e, w) && !MayAskMore(e)
    ensures AsksNothing(c, v, w) && w.choking == (v.choking || e == Dispatched(Choke))
    ensures w.amInterested == v.amInterested || e.Handshake?
  {
    hide Makes, ViewOk, AsksNothing;
    match e
    case Handshake(hash, peerId, bits) => HandshakeAsksNothing(c, v, hash, peerId, bits, w);
    case Dispatched(m) => MessageAsksNothing(c, v, m, w);
  }

  lemma AskingCall<Id>(c: Config, v: View<Id>, e: Event, w: View<Id>)
    requires ViewOk(c, v) && ViewOk(c, w) && Makes(c, v, e, w) && MayAskMore(e)
    ensures OnlyAsks(c, v, w) && w.choking == (v.choking && !e.message.Unchoke?)
  {
    hide Makes, ViewOk, OnlyAsks;
    match e.message
    case Unchoke => UnchokeOnlyAsks(c, v, w);
    case Have(id) => HaveOnlyAsks(c, v, id, w);
    case PieceBlock(index, begin, block) => PieceOnlyAsks(c, v, index, begin, block, w);
  }

  lemma CallFollows<Id>(c: Config, v: View<Id>, e: Event, w: View<Id>)
    requires ViewOk(c, v) && ViewOk(c, w) && Makes(c, v, e, w)
    ensures Follows(c, v, w)
  {
    hide Makes, ViewOk, AllRequests;
    if MayAskMore(e) {
      AskingCall(c, v, e, w);
    } else {
      OtherCall(c, v, e, w);
    }
  }

  /** No call requests anything while the remote chokes us or we are not interested, and each keeps it so. */
  lemma ForbiddenCall<Id>(c: Config, v: View<Id>, e: Event, w: View<Id>)
    requires ViewOk(c, v) && ViewOk(c, w) && Makes(c, v, e, w) && Forbids(v, e)
    ensures AllRequests(c.meta, w.run) == AllRequests(c.meta, v.run)
    ensures v.choking && e != Dispatched(Unchoke) ==> w.choking
    ensures !v.amInterested && !e.Handshake? ==> !w.amInterested
  {
    hide Makes, ViewOk, AllRequests;
    if MayAskMore(e) {
      AskingCall(c, v, e, w);
    } else {
      OtherCall(c, v, e, w);
    }
  }

  lemma ServesQuietly<Id>(c: Config, v: View<Id>, index: nat, begin: nat, length: nat, w: View<Id>)
    requires ViewOk(c, v) && ViewOk(c, w) && Serves(c, v, index, begin, length, w)
    ensures AllRequests(c.meta, w.run) == AllRequests(c.meta, v.run)
    ensures w == v.(run := w.run, sent := w.sent) && v.sent <= w.sent
  {
    hide AnswerTo, PieceFrame, AllRequests, Inv, IsRun;
    var s, t := Now(c, v), Now(c, w);
    if w.run != v.run {
      TookQuietly(c, v, Activating(index, t.active[index]), Activate(c.meta, s, index, t.active[index]));
    }
  }

  // ----- chains of calls -----

  /**
   * From the first view of a chain to the last: no interested remote is left choked, the bytes sent only grow, and
   * the pending requests stay within the configured limit, unless there were more to start with.
   */
  lemma {:induction false} ChainFollows<Id>(c: Config, views: seq<View<Id>>, events: seq<Event>, threw: bool, k: nat)
    requires Chain(c, views, events, threw) && k <= |events|
    ensures Follows(c, views[0], views[k])
  {
    hide Makes, ViewOk, Throws;
    if k > 0 {
      ChainFollows(c, views, events, threw, k - 1);
      assert LinkAt(c, views, events, k - 1);
      CallFollows(c, views[k - 1], events[k - 1], views[k]);
    }
  }

  /** From a view in which the remote chokes us nothing is requested until it sends an UNCHOKE. */
  lemma {:induction false} NothingAskedWhileChoked<Id>(
    c: Config, views: seq<View<Id>>, events: seq<Event>, threw: bool, k: nat)
    requires Chain(c, views, events, threw) && k <= |events| && views[0].choking
    requires forall i :: 0 <= i < k ==> events[i] != Dispatched(Unchoke)
    ensures views[k].choking && ViewOk(c, views[0]) && ViewOk(c, views[k])
    ensures AllRequests(c.meta, views[k].run) == AllRequests(c.meta, views[0].run)
  {
    hide Makes, ViewOk, Throws;
    if k > 0 {
      NothingAskedWhileChoked(c, views, events, threw, k - 1);
      assert LinkAt(c, views, events, k - 1);
      ForbiddenCall(c, views[k - 1], events[k - 1], views[k]);
    }
  }

  /** Nor is anything requested before we become interested, which only a handshake makes us. */
  lemma {:induction false} NothingAskedWithoutInterest<Id>(
    c: Config, views: seq<View<Id>>, events: seq<Event>, threw: bool, k: nat)
    requires Chain(c, views, events, threw) && k <= |events| && !views[0].amInterested
    requires forall i :: 0 <= i < k ==> !events[i].Handshake?
    ensures !views[k].amInterested && ViewOk(c, views[0]) && ViewOk(c, views[k])
    ensures AllRequests(c.meta, views[k].run) == AllRequests(c.meta, views[0].run)
  {
    hide Makes, ViewOk, Throws;
    if k > 0 {
      NothingAskedWithoutInterest(c, views, events, threw, k - 1);
      assert LinkAt(c, views, events, k - 1);
      ForbiddenCall(c, views[k - 1], events[k - 1], views[k]);
    }
  }
}
