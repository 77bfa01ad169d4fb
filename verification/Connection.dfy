/** A peer connection: from the bytes that are read to the calls that change the torrent. */
module Connections {
  import opened Bytes
  import opened Bitfields
  import opened Pieces
  import opened Transfer
  import opened Runs
  import opened Scheduling
  import opened Serving
  import opened Torrents
  import opened Peers
  import opened Calls
  import opened Messages
  import opened Segmentation

  // ----- the blocks that a run received -----

  datatype Block = Block(id: nat, offset: nat, data: Bytes)

  function BlockOfLabel<Id>(l: Label<Id>): seq<Block> {
    if l.Receiving? then [Block(l.id, l.offset, l.data)] else []
  }

  function Received<Id>(labels: seq<Label<Id>>): seq<Block> {
    if labels == [] then []
    else Received(labels[..|labels| - 1]) + BlockOfLabel(labels[|labels| - 1])
  }

  function BlockOfEvent(e: Event): seq<Block> {
    if e.Dispatched? && e.message.PieceBlock? then [Block(e.message.index, e.message.begin, e.message.block)] else []
  }

  function BlocksOf(events: seq<Event>): seq<Block> {
    if events == [] then []
    else BlockOfEvent(events[0]) + BlocksOf(events[1..])
  }

  lemma {:induction false} BlocksOfJoin(a: seq<Event>, b: seq<Event>)
    ensures BlocksOf(a + b) == BlocksOf(a) + BlocksOf(b)
  {
    if a == [] {
      assert a + b == b;
    } else {
      assert (a + b)[1..] == a[1..] + b;
      BlocksOfJoin(a[1..], b);
    }
  }

  /** The run `r` goes on after `h`; it receives just the blocks `bs`, in order, and neither writes nor retries. */
  ghost predicate Handles<Id>(h: Run<Id>, r: Run<Id>, bs: seq<Block>) {
    && Continues(h, r)
    && Received(r.labels) == Received(h.labels) + bs
    && forall k :: |h.labels| <= k < |r.labels| ==> !r.labels[k].Writing? && !r.labels[k].Retrying?
  }

  lemma HandlesNothing<Id>(h: Run<Id>)
    ensures Handles(h, h, [])
  {}

  lemma HandlesMore<Id>(a: Run<Id>, b: Run<Id>, c: Run<Id>, x: seq<Block>, y: seq<Block>)
    requires Handles(a, b, x) && Handles(b, c, y)
    ensures Handles(a, c, x + y)
  {
    forall k | |a.labels| <= k < |c.labels|
      ensures !c.labels[k].Writing? && !c.labels[k].Retrying?
    {
      if k < |b.labels| {
        assert c.labels[k] == b.labels[k];
      }
    }
  }

  lemma StepHandles<Id>(h: Run<Id>, l: Label<Id>, s: Sys<Id>)
    requires !l.Writing? && !l.Retrying?
    ensures Handles(h, Extended(h, l, s), BlockOfLabel(l))
  {
    assert (h.labels + [l])[..|h.labels|] == h.labels;
  }

  lemma {:induction false} ReceivedSkips<Id>(labels: seq<Label<Id>>, n: nat)
    requires n <= |labels| && forall k :: n <= k < |labels| ==> !labels[k].Receiving?
    ensures Received(labels) == Received(labels[..n])
    decreases |labels|
  {
    if n == |labels| {
      assert labels[..n] == labels;
    } else {
      ReceivedSkips(labels[..|labels| - 1], n);
      assert labels[..|labels| - 1][..n] == labels[..n];
    }
  }

  /** Requests bring no block. */
  lemma AsksHandles<Id>(h: Run<Id>, r: Run<Id>)
    requires Asks(h, r) && |r.states| == |r.labels| + 1
    ensures Handles(h, r, [])
  {
    forall k | |h.labels| <= k < |r.labels|
      ensures r.labels[k].Activating? || r.labels[k].Marking?
    {
      assert AsksAt(r, k);
    }
    ReceivedSkips(r.labels, |h.labels|);
    assert r.labels[..|h.labels|] == h.labels;
  }

  // ----- the buffer -----

  /** What is left to do with the buffer is what was to do without the events that were handled. */
  ghost predicate Remaining(all: Drained, handled: nat, buf: Bytes) {
    handled <= |all.events| && Drain(buf) == Drained(all.events[handled..], all.rest, all.status)
  }

  /** How a call of `handle_response` ends: an exception comes from the parser or from the call that a message makes. */
  datatype HandleEnd = Handled | ParserThrew | HandlerThrew

  // ----- chains of calls -----

  ghost predicate LinkAt<Id>(c: Config, views: seq<View<Id>>, events: seq<Event>, i: nat)
    requires i < |events| < |views|
  {
    ViewOk(c, views[i]) && ViewOk(c, views[i + 1]) && Makes(c, views[i], events[i], views[i + 1])
  }

  /** Each event made its call, one after the other; the last one threw if `threw` says so, and no other did. */
  ghost predicate Chain<Id>(c: Config, views: seq<View<Id>>, events: seq<Event>, threw: bool) {
    && |views| == |events| + 1 && ViewOk(c, views[0]) && (threw ==> events != [])
    && forall i :: 0 <= i < |events| ==>
         LinkAt(c, views, events, i) && (Throws(c, views[i], events[i]) <==> threw && i == |events| - 1)
  }

  lemma NoCalls<Id>(c: Config, v: View<Id>)
    requires ViewOk(c, v)
    ensures Chain(c, [v], [], false)
  {}

  lemma OneMoreCall<Id>(c: Config, views: seq<View<Id>>, events: seq<Event>, e: Event, w: View<Id>)
    requires Chain(c, views, events, false) && ViewOk(c, w) && ViewOk(c, views[|views| - 1])
    requires Makes(c, views[|views| - 1], e, w)
    ensures Chain(c, views + [w], events + [e], Throws(c, views[|views| - 1], e))
  {
    hide ViewOk, Makes, Throws;
    var vs, es := views + [w], events + [e];
    forall i | 0 <= i < |es|
      ensures LinkAt(c, vs, es, i)
    {
      assert i < |events| ==> LinkAt(c, views, events, i);
    }
    forall i | 0 <= i < |events|
      ensures !Throws(c, vs[i], es[i])
    {
      assert LinkAt(c, views, events, i);
    }
  }

  lemma NextCall<Id>(c: Config, views: seq<View<Id>>, events: seq<Event>, k: nat, w: View<Id>)
    requires k < |events| && Chain(c, views, events[..k], false) && ViewOk(c, w) && ViewOk(c, views[|views| - 1])
    requires Makes(c, views[|views| - 1], events[k], w)
    ensures Chain(c, views + [w], events[..k + 1], Throws(c, views[|views| - 1], events[k]))
  {
    hide Chain, ViewOk, Makes, Throws;
    assert events[..k] + [events[k]] == events[..k + 1];
    OneMoreCall(c, views, events[..k], events[k], w);
  }

  lemma ChainsJoin<Id>(c: Config, a: seq<View<Id>>, x: seq<Event>, b: seq<View<Id>>, y: seq<Event>, threw: bool)
    requires Chain(c, a, x, false) && Chain(c, b, y, threw) && a[|a| - 1] == b[0]
    ensures Chain(c, a + b[1..], x + y, threw)
    ensures (a + b[1..])[0] == a[0] && (a + b[1..])[|a| + |b| - 2] == b[|b| - 1]
  {
    hide ViewOk, Makes, Throws;
    var vs, es := a + b[1..], x + y;
    assert forall i :: |x| <= i < |vs| ==> vs[i] == b[i - |x|];
    forall i | 0 <= i < |es|
      ensures LinkAt(c, vs, es, i) && (Throws(c, vs[i], es[i]) <==> threw && i == |es| - 1)
    {
      if i < |x| {
        assert LinkAt(c, a, x, i);
      } else {
        assert LinkAt(c, b, y, i - |x|);
      }
    }
  }

  // ----- the blocks of a chain -----

  lemma FillsHandles<Id>(c: Config, v: View<Id>, w: View<Id>)
    requires Fills(c, v, w)
    ensures Handles(v.run, w.run, [])
  {
    hide AllRequests, Inv, ClosedBelow, Handles;
    var qs :| AsksFor(c, v, w, qs);
    AsksHandles(v.run, w.run);
  }

  lemma TookHandles<Id>(v: View<Id>, l: Label<Id>, s: Sys<Id>)
    requires !l.Writing? && !l.Retrying?
    ensures Handles(v.run, Took(v, l, s).run, BlockOfLabel(l))
  {
    StepHandles(v.run, l, s);
  }

  lemma SizedHandles<Id>(c: Config, v: View<Id>, n: nat)
    requires ViewOk(c, v)
    ensures Handles(v.run, Took(v, Sizing(n), InitClient(Now(c, v), n)).run, [])
  {
    hide Handles, ViewOk, InitClient;
    TookHandles(v, Sizing(n), InitClient(Now(c, v), n));
  }

  lemma HaveHandles<Id>(c: Config, v: View<Id>, id: nat, w: View<Id>)
    requires ViewOk(c, v) && Fills(c, Having(c, v, id), w)
    ensures Handles(v.run, w.run, [])
  {
    hide Handles, ViewOk, InitClient, Fills, Filled, WithBit, CountTrue;
    var v' := Having(c, v, id);
    SizedHandles(c, v, c.meta.PieceCount());
    HandlesNothing(v.run);
    FillsHandles(c, v', w);
    HandlesMore(v.run, v'.run, w.run, [], []);
  }

  lemma ServesHandles<Id>(c: Config, v: View<Id>, index: nat, begin: nat, length: nat, w: View<Id>)
    requires ViewOk(c, v) && ViewOk(c, w) && Serves(c, v, index, begin, length, w)
    ensures Handles(v.run, w.run, [])
  {
    hide Handles, ViewOk, AnswerTo, Activate, PieceFrame;
    HandlesNothing(v.run);
    var s, t := Now(c, v), Now(c, w);
    if index in t.active && w.run != v.run {
      TookHandles(v, Activating(index, t.active[index]), Activate(c.meta, s, index, t.active[index]));
    }
  }

  lemma PieceHandles<Id>(c: Config, v: View<Id>, index: nat, begin: nat, block: Bytes, w: View<Id>)
    requires ViewOk(c, v)
    requires var v' := Stored(c, v, index, begin, block); w == v' || Fills(c, v', w)
    ensures Handles(v.run, w.run, [Block(index, begin, block)])
  {
    hide Handles, ViewOk, Fills, PutBlock;
    var v' := Stored(c, v, index, begin, block);
    TookHandles(v, Receiving(index, begin, block), PutBlock(c.meta, Now(c, v), index, begin, block));
    if w != v' {
      FillsHandles(c, v', w);
      HandlesMore(v.run, v'.run, w.run, [Block(index, begin, block)], []);
      assert [Block(index, begin, block)] + [] == [Block(index, begin, block)];
    }
  }

  /** Whatever an event does, it brings its own block, if it has one, and neither writes nor retries. */
  lemma MakesHandles<Id>(c: Config, v: View<Id>, e: Event, w: View<Id>)
    requires ViewOk(c, v) && ViewOk(c, w) && Makes(c, v, e, w)
    ensures Handles(v.run, w.run, BlockOfEvent(e))
  {
    hide Handles, Fills, ViewOk, Stored, Having, Serves, InitClient, Refusal, Done, BitsOf, Frame;
    HandlesNothing(v.run);
    match e
    case Handshake(hash, peerId, bits) => SizedHandles(c, v, |BitsOf(bits)|);
    case Dispatched(m) =>
      match m
      case Unchoke =>
        if v.choking {
          FillsHandles(c, v.(choking := false), w);
        }
      case Have(id) => HaveHandles(c, v, id, w);
      case BitfieldBytes(raw) => SizedHandles(c, v, |BitsOf(raw)|);
      case Request(index, begin, length) => ServesHandles(c, v, index, begin, length, w);
      case PieceBlock(index, begin, block) => PieceHandles(c, v, index, begin, block, w);
      case _ =>
  }

  /** A chain of calls receives exactly the blocks of its events. */
  lemma {:induction false} ChainHandles<Id>(c: Config, views: seq<View<Id>>, events: seq<Event>, threw: bool, k: nat)
    requires Chain(c, views, events, threw) && k <= |events|
    ensures Handles(views[0].run, views[k].run, BlocksOf(events[..k]))
  {
    hide Handles, Makes, ViewOk, Throws, BlocksOf;
    if k == 0 {
      HandlesNothing(views[0].run);
      NoBlocks(events);
    } else {
      ChainHandles(c, views, events, threw, k - 1);
      assert LinkAt(c, views, events, k - 1);
      MakesHandles(c, views[k - 1], events[k - 1], views[k]);
      OneMoreEvent(events, k - 1);
      HandlesMore(views[0].run, views[k - 1].run, views[k].run, BlocksOf(events[..k - 1]), BlockOfEvent(events[k - 1]));
    }
  }

  lemma NoBlocks(events: seq<Event>)
    ensures BlocksOf(events[..0]) == []
  {}

  // ----- the connection -----

  class PeerConnection {
    const peer: Peer
    /** The info hash of the torrent. */
    const infoHash: Bytes
    var response: Bytes
    var stopped: bool

    constructor (peer: Peer, infoHash: Bytes)
      ensures this.peer == peer && this.infoHash == infoHash && response == [] && !stopped
    {
      this.peer := peer;
      this.infoHash := infoHash;
      response, stopped := [], false;
    }

    ghost function Config(): Config {
      Calls.Config(peer.torrent.disk.meta, peer.maxPendingRequests, infoHash)
    }

    ghost function View(): View<Piece>
      reads peer, peer.torrent`history
    {
      Calls.View(peer.amChoking, peer.interested, peer.amInterested, peer.choking,
                 peer.pendingRequests, peer.remotePieces, peer.sent, peer.torrent.history)
    }

    /** The call that a message makes on the peer. False stands for an exception. */
    method Dispatch(m: Message) returns (ok: bool)
      requires peer.torrent.Valid()
      modifies peer, peer.torrent, peer.torrent.writer, peer.torrent.Objects()
      ensures peer.torrent.Valid() && fresh(peer.torrent.Objects() - old(peer.torrent.Objects()))
      ensures ViewOk(Config(), old(View())) && ViewOk(Config(), View())
      ensures Makes(Config(), old(View()), Dispatched(m), View()) && (ok <==> !Throws(Config(), old(View()), Dispatched(m)))
    {
      hide Torrent.Valid, ViewOk, Fills, Serves, Stored, Having, WithRemote, Frame, BitsOf, Refusal, AnswerTo;
      ViewIsOk(this);
      match m {
        case KeepAlive =>
          ok := true;
        case Choke =>
          ok := DispatchChoke();
        case Unchoke =>
          ok := DispatchUnchoke();
        case Interested =>
          peer.SetInterested(true);
          ok := true;
        case NotInterested =>
          peer.SetInterested(false);
          ok := true;
        case Have(id) =>
          ok := DispatchHave(id);
        case BitfieldBytes(raw) =>
          DispatchBitfield(BitsOf(raw));
          ok := true;
        case Request(index, begin, length) =>
          ok := DispatchRequest(index, begin, length);
        case PieceBlock(index, begin, block) =>
          ok := DispatchPiece(index, begin, block);
      }
      ViewIsOk(this);
    }

    method DispatchChoke() returns (ok: bool)
      requires peer.torrent.Valid()
      modifies peer`choking, peer`pendingRequests, peer`sent, peer.torrent, peer.torrent.Objects()
      ensures peer.torrent.Valid() && fresh(peer.torrent.Objects() - old(peer.torrent.Objects())) && ok
      ensures View() == old(View()).(choking := true, pending := if old(peer.choking) then old(peer.pendingRequests) else 0)
    {
      hide Torrent.Valid, Asks, ClosedBelow, RequestFrames;
      PieceLengthPositive(peer.torrent);
      NoFrames(peer.torrent.disk.meta);
      ghost var requests;
      ok, requests := peer.SetChoking(true);
    }

    method DispatchUnchoke() returns (ok: bool)
      requires peer.torrent.Valid()
      modifies peer`choking, peer`pendingRequests, peer`sent, peer.torrent, peer.torrent.Objects()
      ensures peer.torrent.Valid() && fresh(peer.torrent.Objects() - old(peer.torrent.Objects()))
      ensures var v := old(View());
              && (if v.choking then Fills(Config(), v.(choking := false), View()) else View() == v)
              && (ok <==> !(v.choking && v.amInterested && peer.maxPendingRequests == 0))
    {
      hide Torrent.Valid, Asks, ClosedBelow, RequestFrames, Inv, IsRun, AllRequests;
      PieceLengthPositive(peer.torrent);
      NoFrames(peer.torrent.disk.meta);
      ViewIsOk(this);
      ghost var v := View();
      ghost var requests;
      ok, requests := peer.SetChoking(false);
      ViewIsOk(this);
      if v.choking {
        assert AsksFor(Config(), v.(choking := false), View(), requests);
      }
    }

    method DispatchHave(id: nat) returns (ok: bool)
      requires peer.torrent.Valid()
      modifies peer`remotePieces, peer`pendingRequests, peer`sent, peer.torrent, peer.torrent.Objects()
      ensures peer.torrent.Valid() && fresh(peer.torrent.Objects() - old(peer.torrent.Objects()))
      ensures ViewOk(Config(), old(View())) && Fills(Config(), Having(Config(), old(View()), id), View())
      ensures ok <==> !LimitIsZero(Config(), old(View()))
    {
      hide Torrent.Valid, Asks, ClosedBelow, RequestFrames, Inv, IsRun, AllRequests, Filled, WithBit, CountTrue, InitClient;
      ViewIsOk(this);
      ghost var v := View();
      HavingIsOk(Config(), v, id);
      ghost var requests;
      ok, requests := peer.Have(id);
      ViewIsOk(this);
      assert AsksFor(Config(), Having(Config(), v, id), View(), requests);
    }

    method DispatchBitfield(bits: Bits)
      requires peer.torrent.Valid()
      modifies peer`remotePieces, peer.torrent
      ensures peer.torrent.Valid() && peer.torrent.Objects() == old(peer.torrent.Objects())
      ensures ViewOk(Config(), old(View())) && View() == WithRemote(Config(), old(View()), bits)
    {
      hide Torrent.Valid, Torrent.Requests, Inv, IsRun, InitClient;
      ViewIsOk(this);
      peer.SetRemotePieces(bits);
    }

    method DispatchRequest(index: nat, begin: nat, length: nat) returns (ok: bool)
      requires peer.torrent.Valid()
      modifies peer`sent, peer.torrent
      ensures peer.torrent.Valid() && fresh(peer.torrent.Objects() - old(peer.torrent.Objects()))
      ensures ViewOk(Config(), old(View())) && ViewOk(Config(), View())
      ensures Serves(Config(), old(View()), index, begin, length, View())
      ensures ok <==> !Throws(Config(), old(View()), Dispatched(Request(index, begin, length)))
    {
      hide Torrent.Valid, Torrent.Requests, Inv, IsRun, GetBlock, PieceState.Ok, Frame, AnswerTo, Activate, ObjectsOk;
      ViewIsOk(this);
      ghost var s := Now(Config(), View());
      var answer := peer.Serve(index, begin, length);
      ViewIsOk(this);
      if answer.Some? {
        ok := !answer.value.Refused? && !answer.value.NoAnswer?;
        AnswerWhenActive(Config().meta, s, peer.torrent.abs, index, begin, length);
      } else {
        ok := true;
      }
    }

    method DispatchPiece(index: nat, begin: nat, block: Bytes) returns (ok: bool)
      requires peer.torrent.Valid()
      modifies peer`pendingRequests, peer`sent, peer.torrent, peer.torrent.writer, peer.torrent.Objects()
      ensures peer.torrent.Valid() && fresh(peer.torrent.Objects() - old(peer.torrent.Objects()))
      ensures ViewOk(Config(), old(View()))
      ensures var c, v := Config(), old(View());
              var refused := Refusal(c.meta, Now(c, v), index, begin, |block|).Some?;
              && (if refused then View() == Stored(c, v, index, begin, block)
                  else Fills(c, Stored(c, v, index, begin, block), View()))
              && (ok <==> !refused && !LimitIsZero(c, v))
    {
      hide Torrent.Valid, Asks, ClosedBelow, RequestFrames, Inv, IsRun, AllRequests, PutBlock, Refusal, ObjectsOk;
      PieceLengthPositive(peer.torrent);
      NoFrames(peer.torrent.disk.meta);
      ViewIsOk(this);
      ghost var v := View();
      StoredIsOk(Config(), v, index, begin, block);
      ghost var requests;
      ok, requests := peer.SetBlock(index, begin, block);
      ViewIsOk(this);
      if Refusal(Config().meta, Now(Config(), v), index, begin, |block|).None? {
        assert AsksFor(Config(), Stored(Config(), v, index, begin, block), View(), requests);
      }
    }

    /** A handshake; the reply and the report of our bitfield are left out. */
    method DispatchHandshake(hash: Bytes, peerId: Bytes, bits: Bytes)
      requires peer.torrent.Valid()
      modifies peer`remotePieces, peer`amInterested, peer`sent, peer.torrent
      ensures peer.torrent.Valid() && peer.torrent.Objects() == old(peer.torrent.Objects())
      ensures ViewOk(Config(), old(View())) && ViewOk(Config(), View())
      ensures Makes(Config(), old(View()), Handshake(hash, peerId, bits), View())
    {
      hide Torrent.Requests, Inv, IsRun, WithRemote, Frame, Done, BitsOf, ObjectsOk, AllRequests;
      ViewIsOk(this);
      if hash != infoHash {
        return;
      }
      if bits != [] {
        DispatchBitfield(BitsOf(bits));
      }
      ViewIsOk(this);
      peer.SetAmInterested(true);
    }

    method DispatchEvent(e: Event) returns (ok: bool)
      requires peer.torrent.Valid()
      modifies peer, peer.torrent, peer.torrent.writer, peer.torrent.Objects()
      ensures peer.torrent.Valid() && fresh(peer.torrent.Objects() - old(peer.torrent.Objects()))
      ensures ViewOk(Config(), old(View())) && ViewOk(Config(), View())
      ensures Makes(Config(), old(View()), e, View()) && (ok <==> !Throws(Config(), old(View()), e))
    {
      hide Torrent.Valid, ViewOk, Makes;
      match e
      case Dispatched(m) =>
        ok := Dispatch(m);
      case Handshake(hash, peerId, bits) =>
        DispatchHandshake(hash, peerId, bits);
        ok := true;
    }

    /**
     * Newly read bytes are in the buffer; each message that is complete makes its call, in order. `views` are the
     * views before, between and after the calls. A message whose call throws stays in the buffer.
     */
    method HandleResponse(chunk: Bytes) returns (end: HandleEnd, ghost views: seq<View<Piece>>)
      requires peer.torrent.Valid()
      modifies this`response, this`stopped, peer, peer.torrent, peer.torrent.writer, peer.torrent.Objects()
      ensures peer.torrent.Valid() && fresh(peer.torrent.Objects() - old(peer.torrent.Objects()))
      ensures |views| > 0 && views[0] == old(View()) && views[|views| - 1] == View()
      ensures old(stopped) ==> end.Handled? && response == old(response) + chunk && stopped && |views| == 1
      ensures !old(stopped) ==>
                var all, k := Drain(old(response) + chunk), |views| - 1;
                && k <= |all.events| && Chain(Config(), views, all.events[..k], end.HandlerThrew?)
                && match end
                   case Handled => k == |all.events| && response == all.rest && !all.status.Broken? && stopped == all.status.Stopped?
                   case ParserThrew => k == |all.events| && response == all.rest && all.status.Broken? && !stopped
                   case HandlerThrew => k > 0 && Remaining(all, k - 1, response) && !stopped
    {
      hide Torrent.Valid, Torrent.Requests, ObjectsOk, AllRequests, Drain, Parse, Remaining, Chain, ViewOk, Makes, Throws;
      ViewIsOk(this);
      response := response + chunk;
      views := [View()];
      if stopped {
        return Handled, views;
      }
      ghost var all := Drain(response);
      NoCalls(Config(), View());
      NothingDone(all, response);
      var done := false;
      while !done && |response| > 0
        invariant peer.torrent.Valid() && fresh(peer.torrent.Objects() - old(peer.torrent.Objects())) && !stopped
        invariant |views| > 0 && views[0] == old(View()) && views[|views| - 1] == View() && ViewOk(Config(), View())
        invariant |views| - 1 <= |all.events| && Chain(Config(), views, all.events[..|views| - 1], false)
        invariant if done then |views| - 1 == |all.events| && response == all.rest && all.status == Open
                  else Remaining(all, |views| - 1, response)
        decreases !done, |response|
      {
        ghost var k := |views| - 1;
        RemainingStep(all, k, response);
        var parsed := Parse(response);
        if parsed.Closed? {
          stopped := true;
          return Handled, views;
        }
        if parsed.Threw? {
          return ParserThrew, views;
        }
        if parsed.event.Some? {
          var ok := DispatchEvent(parsed.event.value);
          NextCall(Config(), views, all.events, k, View());
          views := views + [View()];
          if !ok {
            return HandlerThrew, views;
          }
        }
        response := response[parsed.n..];
        done := parsed.n == 0;
      }
      if !done {
        NothingRemains(all, |views| - 1);
      }
      return Handled, views;
    }

    /** Read after read, as `handle_response` asks for the next one, until one ends otherwise or stops. */
    method HandleReads(chunks: seq<Bytes>) returns (end: HandleEnd, ghost views: seq<View<Piece>>)
      requires peer.torrent.Valid() && !stopped
      modifies this`response, this`stopped, peer, peer.torrent, peer.torrent.writer, peer.torrent.Objects()
      ensures peer.torrent.Valid() && fresh(peer.torrent.Objects() - old(peer.torrent.Objects()))
      ensures |views| > 0 && views[0] == old(View()) && views[|views| - 1] == View()
      ensures var all, k := FeedAll(old(response), chunks), |views| - 1;
              && k <= |all.events| && Chain(Config(), views, all.events[..k], end.HandlerThrew?)
              && match end
                 case Handled => k == |all.events| && response == all.rest && !all.status.Broken? && stopped == all.status.Stopped?
                 case ParserThrew => k == |all.events| && all.status.Broken? && !stopped
                 case HandlerThrew => k > 0 && !stopped
    {
      hide Torrent.Valid, Torrent.Requests, ObjectsOk, AllRequests, FeedAll, Drain, Chain, ViewOk, Makes, Throws, Follows;
      ViewIsOk(this);
      ghost var all := FeedAll(response, chunks);
      ghost var events: seq<Event> := [];
      views := [View()];
      NoCalls(Config(), View());
      NoReads(response, chunks);
      var i := 0;
      while i < |chunks|
        invariant i <= |chunks| && !stopped
        invariant peer.torrent.Valid() && fresh(peer.torrent.Objects() - old(peer.torrent.Objects()))
        invariant |views| > 0 && views[0] == old(View()) && views[|views| - 1] == View() && |views| - 1 == |events|
        invariant Chain(Config(), views, events, false)
        invariant Follows(all, events, FeedAll(response, chunks[i..]))
      {
        ghost var d := Drain(response + chunks[i]);
        FollowsStep(all, events, response, chunks, i);
        ghost var more;
        end, more := HandleResponse(chunks[i]);
        ghost var n := |more| - 1;
        ChainsJoin(Config(), views, events, more, d.events[..n], end.HandlerThrew?);
        views := views + more[1..];
        PrefixOfPrefix(events, d.events, n, all.events);
        if !end.Handled? || stopped {
          return;
        }
        events := events + d.events;
        i := i + 1;
      }
      AllRead(all, events, response, chunks);
      return Handled, views;
    }

    /**
     * From the bytes of a stream to the torrent: whatever the cut, each message makes its call, in order, the run
     * receives exactly the blocks of the PIECE messages, and the part of the next frame is kept; only a call that
     * throws ends this early.
     */
    method HandleStream(chunks: seq<Bytes>, ghost ms: seq<Message>, ghost tail: Bytes, ghost next: Message)
      returns (end: HandleEnd, ghost views: seq<View<Piece>>)
      requires peer.torrent.Valid() && !stopped && response == []
      requires AllSendable(ms) && Sendable(next) && tail < Frame(next)
      requires Flatten(chunks) == Frames(ms) + tail && NoHandshakeIn(Flatten(chunks))
      modifies this`response, this`stopped, peer, peer.torrent, peer.torrent.writer, peer.torrent.Objects()
      ensures peer.torrent.Valid() && fresh(peer.torrent.Objects() - old(peer.torrent.Objects())) && !stopped
      ensures 0 < |views| <= |ms| + 1 && views[0] == old(View()) && views[|views| - 1] == View()
      ensures Chain(Config(), views, Events(ms[..|views| - 1]), end.HandlerThrew?)
      ensures Handles(old(peer.torrent.history), peer.torrent.history, BlocksOf(Events(ms[..|views| - 1])))
      ensures match end
              case Handled => |views| - 1 == |ms| && response == tail
              case ParserThrew => false
              case HandlerThrew => |views| > 1
    {
      hide Torrent.Valid, Handles, FeedAll, BlocksOf, Chain;
      SegmentationIndependence(ms, tail, next, chunks);
      end, views := HandleReads(chunks);
      ghost var k := |views| - 1;
      assert Events(ms)[..k] == Events(ms[..k]);
      ChainHandles(Config(), views, Events(ms[..k]), end.HandlerThrew?, k);
      assert Events(ms[..k])[..k] == Events(ms[..k]);
    }
  }

  lemma ViewIsOk(connection: PeerConnection)
    requires connection.peer.torrent.Valid()
    ensures ViewOk(connection.Config(), connection.View())
    ensures var torrent, v := connection.peer.torrent, connection.View();
            && Last(v.run) == torrent.abs && |v.run.states| == |v.run.labels| + 1
            && torrent.clientPieces == torrent.abs.client && ObjectsOk(torrent.disk.meta, torrent.abs)
            && torrent.Requests() == AllRequests(torrent.disk.meta, v.run)
  {
    hide ObjectsOk, Conserved, Torrent.Matches, AllRequests;
    ValidShape(connection.peer.torrent);
    PieceLengthPositive(connection.peer.torrent);
  }

  /** `all` is `events` and then what is `left`. */
  ghost predicate Follows(all: Drained, events: seq<Event>, left: Drained) {
    all == Drained(events + left.events, left.rest, left.status)
  }

  lemma NoReads(buf: Bytes, chunks: seq<Bytes>)
    ensures Follows(FeedAll(buf, chunks), [], FeedAll(buf, chunks[0..])) && BlocksOf([]) == []
  {
    assert chunks[0..] == chunks;
    assert [] + FeedAll(buf, chunks).events == FeedAll(buf, chunks).events;
  }

  lemma FollowsStep(all: Drained, events: seq<Event>, buf: Bytes, chunks: seq<Bytes>, i: nat)
    requires i < |chunks| && Follows(all, events, FeedAll(buf, chunks[i..]))
    ensures var d := Drain(buf + chunks[i]);
            && (d.status == Open ==> Follows(all, events + d.events, FeedAll(d.rest, chunks[i + 1..])))
            && (d.status != Open ==> all == Drained(events + d.events, d.rest, d.status))
            && events + d.events <= all.events
  {
    hide Drain;
    var d := Drain(buf + chunks[i]);
    assert chunks[i..][0] == chunks[i] && chunks[i..][1..] == chunks[i + 1..];
    if d.status == Open {
      var e := FeedAll(d.rest, chunks[i + 1..]);
      assert events + (d.events + e.events) == events + d.events + e.events;
    }
  }

  lemma AllRead(all: Drained, events: seq<Event>, buf: Bytes, chunks: seq<Bytes>)
    requires Follows(all, events, FeedAll(buf, chunks[|chunks|..]))
    ensures all == Drained(events, buf, Open) && all.events[..|events|] == events
  {}

  lemma PrefixOfPrefix(a: seq<Event>, b: seq<Event>, n: nat, all: seq<Event>)
    requires a + b <= all && n <= |b|
    ensures all[..|a| + n] == a + b[..n] && (n > 0 ==> all[|a| + n - 1] == b[n - 1])
    ensures n == |b| ==> a + b[..n] == a + b
  {
    assert all[..|a| + n] == (a + b)[..|a| + n];
    assert n > 0 ==> all[|a| + n - 1] == (a + b)[|a| + n - 1];
    assert b[..|b|] == b;
  }

  lemma NothingDone(all: Drained, buf: Bytes)
    requires all == Drain(buf)
    ensures Remaining(all, 0, buf) && BlocksOf(all.events[..0]) == []
  {
    assert all.events[0..] == all.events;
  }

  lemma NothingRemains(all: Drained, k: nat)
    requires Remaining(all, k, [])
    ensures k == |all.events| && all.rest == [] && all.status == Open
  {}

  lemma OneMoreEvent(events: seq<Event>, k: nat)
    requires k < |events|
    ensures BlocksOf(events[..k + 1]) == BlocksOf(events[..k]) + BlockOfEvent(events[k])
  {
    assert events[..k + 1] == events[..k] + [events[k]];
    BlocksOfJoin(events[..k], [events[k]]);
    assert BlocksOf([events[k]]) == BlockOfEvent(events[k]);
  }

  /** What one round of the loop takes from the buffer. */
  lemma RemainingStep(all: Drained, k: nat, buf: Bytes)
    requires Remaining(all, k, buf) && buf != []
    ensures match Parse(buf)
            case Closed => k == |all.events| && buf == all.rest && all.status == Stopped
            case Threw => k == |all.events| && buf == all.rest && all.status == Broken
            case Consumed(n, event) =>
              && n <= |buf|
              && (event.Some? ==> k < |all.events| && all.events[k] == event.value)
              && (n > 0 ==> Remaining(all, k + |Messages.Log(event)|, buf[n..]))
              && (n == 0 ==> k + |Messages.Log(event)| == |all.events| && buf == all.rest && all.status == Open)
  {
    ParseConsumes(buf);
    hide Parse;
    match Parse(buf)
    case Closed =>
    case Threw =>
    case Consumed(n, event) =>
      assert event.Some? ==> all.events[k..][0] == event.value;
      if n > 0 {
        var d := Drain(buf[n..]);
        assert all.events[k..] == Messages.Log(event) + d.events;
        assert all.events[k + |Messages.Log(event)|..] == all.events[k..][|Messages.Log(event)|..];
      }
  }
}
