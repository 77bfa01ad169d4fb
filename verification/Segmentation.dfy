/** The dispatched messages do not depend on how the byte stream is cut into reads. */
module Segmentation {
  import opened Bytes
  import opened Messages

  /** Behind every handshake marker less than a handshake is left. */
  ghost predicate NoHandshakeIn(s: Bytes) {
    forall i: nat :: MarkerAt(s, i) ==> i + MIN_BT_MSG_LENGTH > |s|
  }

  /** A part of such a stream is such a stream. */
  lemma NoHandshakeInPart(s: Bytes, lo: nat, hi: nat)
    requires NoHandshakeIn(s) && lo <= hi <= |s|
    ensures NoHandshakeIn(s[lo..hi])
  {
    forall i: nat
      ensures MarkerAt(s[lo..hi], i) ==> i + MIN_BT_MSG_LENGTH > hi - lo
    {
      if MarkerAt(s[lo..hi], i) {
        SliceOfSlice(s, lo, hi, i, i + |BT_START|);
        assert MarkerAt(s, lo + i);
      }
    }
  }

  lemma NoHandshakeIsParsed(s: Bytes)
    requires NoHandshakeIn(s)
    ensures ParseHandshake(s) == NoHandshake
  {}

  /** The words of a frame, wherever it stands at the start of a buffer. */
  lemma WordAt(buf: Bytes, offset: nat, v: nat)
    requires v < TWO_TO_THE_32 && offset + 4 <= |buf| && buf[offset..offset + 4] == ToBigEndian(v)
    ensures FromBigEndian(buf, offset) == Some(v)
  {
    BigEndianRoundTrip(buf[..offset], v, buf[offset + 4..]);
    assert buf == buf[..offset] + ToBigEndian(v) + buf[offset + 4..];
  }

  lemma WordFirst(v: nat, body: Bytes)
    ensures |ToBigEndian(U32(v)) + body| == 4 + |body| && (ToBigEndian(U32(v)) + body)[..4] == ToBigEndian(U32(v))
  {
    var word := ToBigEndian(U32(v));
    assert |word| == 4;
    hide ToBigEndian;
    assert (word + body)[..4] == word;
  }

  lemma FrameShape(m: Message)
    requires Sendable(m)
    ensures |Frame(m)| == 4 + |Body(m)| && Frame(m)[..4] == ToBigEndian(|Body(m)|)
  {
    hide Body, ToBigEndian;
    WordFirst(|Body(m)|, Body(m));
  }

  lemma FrameLength(m: Message, rest: Bytes)
    requires Sendable(m)
    ensures FromBigEndian(Frame(m) + rest, 0) == Some(|Body(m)|)
    ensures |Frame(m)| == 4 + |Body(m)|
  {
    FrameShape(m);
    hide Body, ToBigEndian, Frame, FromBigEndian;
    assert (Frame(m) + rest)[0..4] == Frame(m)[..4];
    WordAt(Frame(m) + rest, 0, |Body(m)|);
  }

  /** `buf` starts with a length word and then `body`. */
  predicate BodyAt(buf: Bytes, body: Bytes) {
    4 + |body| <= |buf| && buf[4..4 + |body|] == body
  }

  lemma BodyWord(buf: Bytes, body: Bytes, k: nat, v: nat)
    requires BodyAt(buf, body) && v < TWO_TO_THE_32 && k + 4 <= |body| && body[k..k + 4] == ToBigEndian(v)
    ensures FromBigEndian(buf, 4 + k) == Some(v)
  {
    SliceOfSlice(buf, 4, 4 + |body|, k, k + 4);
    WordAt(buf, 4 + k, v);
  }

  lemma BodyStart(buf: Bytes, body: Bytes)
    requires BodyAt(buf, body) && body != []
    ensures buf[4] == body[0]
  {
    assert buf[4] == buf[4..4 + |body|][0];
  }

  lemma Parts(t: byte, a: Bytes, b: Bytes, c: Bytes)
    requires |a| == |b| == 4
    ensures var s := [t] + a + b + c;
            s[0] == t && s[1..5] == a && s[5..9] == b && s[9..9 + |c|] == c && |s| == 9 + |c|
  {}

  lemma BehindFirst(t: byte, a: Bytes)
    ensures |[t] + a| == 1 + |a| && ([t] + a)[0] == t && ([t] + a)[1..1 + |a|] == a
  {}

  lemma HaveIsRead(buf: Bytes, id: nat)
    requires Sendable(Have(id)) && BodyAt(buf, Body(Have(id)))
    ensures ParseBody(buf, 5) == Consumed(9, Some(Dispatched(Have(id))))
  {
    assert |ToBigEndian(id)| == 4;
    BodyStart(buf, Body(Have(id)));
    hide BodyAt, ToBigEndian, FromBigEndian;
    BehindFirst(4, ToBigEndian(id));
    BodyWord(buf, Body(Have(id)), 1, id);
  }

  /** The two words and the rest of a REQUEST or PIECE body. */
  lemma WordsAreRead(buf: Bytes, t: byte, a: Bytes, b: Bytes, c: Bytes, index: nat, begin: nat)
    requires BodyAt(buf, [t] + a + b + c) && index < TWO_TO_THE_32 && begin < TWO_TO_THE_32
    requires a == ToBigEndian(index) && b == ToBigEndian(begin)
    ensures |buf| >= 13 + |c| && buf[4] == t && buf[13..13 + |c|] == c
    ensures FromBigEndian(buf, 5) == Some(index) && FromBigEndian(buf, 9) == Some(begin)
  {
    var body := [t] + a + b + c;
    Parts(t, a, b, c);
    BodyWord(buf, body, 1, index);
    BodyWord(buf, body, 5, begin);
    SliceOfSlice(buf, 4, 4 + |body|, 9, 9 + |c|);
  }

  lemma RequestFromWords(buf: Bytes, index: nat, begin: nat, length: nat)
    requires |buf| >= 17 && buf[4] == 6
    requires FromBigEndian(buf, 5) == Some(index) && FromBigEndian(buf, 9) == Some(begin) && FromBigEndian(buf, 13) == Some(length)
    ensures ParseBody(buf, 13) == Consumed(17, Some(Dispatched(Request(index, begin, length))))
  {}

  lemma RequestParts(buf: Bytes, a: Bytes, b: Bytes, c: Bytes, index: nat, begin: nat, length: nat)
    requires BodyAt(buf, [6] + a + b + c)
    requires index < TWO_TO_THE_32 && begin < TWO_TO_THE_32 && length < TWO_TO_THE_32
    requires a == ToBigEndian(index) && b == ToBigEndian(begin) && c == ToBigEndian(length)
    ensures ParseBody(buf, 13) == Consumed(17, Some(Dispatched(Request(index, begin, length))))
  {
    WordsAreRead(buf, 6, a, b, c, index, begin);
    WordAt(buf, 13, length);
    RequestFromWords(buf, index, begin, length);
  }

  lemma RequestIsRead(buf: Bytes, index: nat, begin: nat, length: nat)
    requires Sendable(Request(index, begin, length)) && BodyAt(buf, Body(Request(index, begin, length)))
    ensures ParseBody(buf, 13) == Consumed(17, Some(Dispatched(Request(index, begin, length))))
  {
    hide BodyAt, ToBigEndian, ParseBody;
    RequestParts(buf, ToBigEndian(U32(index)), ToBigEndian(U32(begin)), ToBigEndian(U32(length)), index, begin, length);
  }

  lemma PieceIsRead(buf: Bytes, index: nat, begin: nat, block: Bytes)
    requires Sendable(PieceBlock(index, begin, block)) && BodyAt(buf, Body(PieceBlock(index, begin, block)))
    ensures ParseBody(buf, 9 + |block|) == Consumed(13 + |block|, Some(Dispatched(PieceBlock(index, begin, block))))
  {
    hide BodyAt, ToBigEndian, FromBigEndian;
    WordsAreRead(buf, 7, ToBigEndian(index), ToBigEndian(begin), block, index, begin);
  }

  lemma BitfieldIsRead(buf: Bytes, raw: Bytes)
    requires BodyAt(buf, Body(BitfieldBytes(raw)))
    ensures ParseBody(buf, 1 + |raw|) == Consumed(5 + |raw|, Some(Dispatched(BitfieldBytes(raw))))
  {
    var body := Body(BitfieldBytes(raw));
    BodyStart(buf, body);
    SliceOfSlice(buf, 4, 4 + |body|, 1, 1 + |raw|);
    assert body[1..1 + |raw|] == raw;
  }

  /** The body of a message is read back, whatever follows it. */
  lemma BodyIsRead(m: Message, buf: Bytes)
    requires Sendable(m) && m != KeepAlive && BodyAt(buf, Body(m))
    ensures |Body(m)| > 0
    ensures ParseBody(buf, |Body(m)|) == Consumed(4 + |Body(m)|, Some(Dispatched(m)))
  {
    assert |Body(m)| > 0 && buf[4] == buf[4..4 + |Body(m)|][0];
    match m
    case Have(id) => HaveIsRead(buf, id);
    case BitfieldBytes(raw) => BitfieldIsRead(buf, raw);
    case Request(index, begin, length) => RequestIsRead(buf, index, begin, length);
    case PieceBlock(index, begin, block) => PieceIsRead(buf, index, begin, block);
    case _ =>
  }

  /** A complete frame at the start of the buffer is dispatched and consumed. */
  lemma FrameIsParsed(m: Message, rest: Bytes)
    requires Sendable(m) && ParseHandshake(Frame(m) + rest) == NoHandshake
    ensures Parse(Frame(m) + rest) == Consumed(|Frame(m)|, Some(Dispatched(m)))
  {
    FrameLength(m, rest);
    if m != KeepAlive {
      BodyIsRead(m, Frame(m) + rest);
    }
  }

  /** An incomplete frame is left for the next read. */
  lemma PartIsKept(frame: Bytes, len: nat, part: Bytes)
    requires len <= MAX_INCOMING_DATA_SIZE && |frame| == 4 + len && frame[..4] == ToBigEndian(len)
    requires part < frame && ParseHandshake(part) == NoHandshake
    ensures Parse(part) == Consumed(0, None)
  {
    if |part| >= 4 {
      assert part[0..4] == frame[..4];
      WordAt(part, 0, len);
    }
  }

  /** The first frame is dispatched if and only if the handshake search does not fire on the buffer. */
  lemma DispatchedIff(m: Message, rest: Bytes)
    requires Sendable(m)
    ensures Parse(Frame(m) + rest) == Consumed(|Frame(m)|, Some(Dispatched(m)))
       <==> ParseHandshake(Frame(m) + rest) == NoHandshake
  {
    if ParseHandshake(Frame(m) + rest) == NoHandshake {
      FrameIsParsed(m, rest);
    }
  }

  /**
   * A block that carries the marker: the PIECE message is taken for a handshake of 68 bytes, and neither the
   * block nor its frame is seen.
   */
  lemma MarkerInBlockIsTakenForHandshake(reserved: Bytes, infoHash: Bytes, peerId: Bytes)
    requires |reserved| == 8 && |infoHash| == |peerId| == 20
    ensures var m := PieceBlock(0, 0, BT_START + reserved + infoHash + peerId);
            && Sendable(m) && |Frame(m)| == 81
            && Parse(Frame(m)) == Consumed(68, Some(Handshake(infoHash, peerId, [])))
  {
    var block := BT_START + reserved + infoHash + peerId;
    HandshakeParts(reserved, infoHash, peerId);
    ZeroBlockFrame(block);
    hide *;
    HandshakeBehindHead(BlockHead(), block, infoHash, peerId);
  }

  /** The length word, the id and two zero words of a PIECE message with a block of 68 bytes. */
  function BlockHead(): (s: Bytes)
    ensures |s| == 13 && forall i :: 0 <= i < 13 ==> s[i] != 19
  {
    [0, 0, 0, 77, 7] + Zeros(8)
  }

  lemma ZeroBlockFrame(block: Bytes)
    requires |block| == 68
    ensures Sendable(PieceBlock(0, 0, block)) && Frame(PieceBlock(0, 0, block)) == BlockHead() + block
  {
    var word := ToBigEndian(0);
    assert ToBigEndian(77) == [0, 0, 0, 77];
    assert Body(PieceBlock(0, 0, block)) == [7] + word + word + block;
    ZeroWords(word);
    Regroup(ToBigEndian(77), [7], word, word, block);
  }

  lemma ZeroWords(word: Bytes)
    requires word == Zeros(4)
    ensures [0, 0, 0, 77] + [7] + word + word == BlockHead()
  {}

  lemma Regroup(a: Bytes, b: Bytes, c: Bytes, d: Bytes, e: Bytes)
    ensures a + (b + c + d + e) == (a + b + c + d) + e
  {}

  lemma HandshakeParts(reserved: Bytes, infoHash: Bytes, peerId: Bytes)
    requires |reserved| == 8 && |infoHash| == |peerId| == 20
    ensures var block := BT_START + reserved + infoHash + peerId;
            |block| == 68 && BT_START <= block && block[28..48] == infoHash && block[48..68] == peerId
  {
    var front := BT_START + reserved;
    assert |front| == 28;
    var block := front + infoHash + peerId;
    assert block[..28] == front && front[..|BT_START|] == BT_START;
  }

  lemma HandshakeBehindHead(head: Bytes, block: Bytes, infoHash: Bytes, peerId: Bytes)
    requires |head| == 13 && |block| == 68 && BT_START <= block && forall i :: 0 <= i < 13 ==> head[i] != 19
    requires block[28..48] == infoHash && block[48..68] == peerId
    ensures Parse(head + block) == Consumed(68, Some(Handshake(infoHash, peerId, [])))
  {
    HeadHasNoMarker(head, block);
    hide MarkerAt;
    assert (head + block)[13..] == block;
    assert FindMarker(head + block, 0) == Some(13);
  }

  lemma HeadHasNoMarker(head: Bytes, block: Bytes)
    requires |head| == 13 && BT_START <= block && forall i :: 0 <= i < 13 ==> head[i] != 19
    ensures MarkerAt(head + block, 13)
    ensures forall i: nat :: i < 13 ==> !MarkerAt(head + block, i)
  {
    var s := head + block;
    assert s[13..13 + |BT_START|] == block[..|BT_START|];
    forall i: nat
      ensures i < 13 ==> !MarkerAt(s, i)
    {
      if i < 13 {
        assert s[i..i + |BT_START|][0] == s[i] == head[i];
      }
    }
  }

  // ----- streams -----

  function Frames(ms: seq<Message>): Bytes {
    if ms == [] then [] else Frame(ms[0]) + Frames(ms[1..])
  }

  function Events(ms: seq<Message>): seq<Event> {
    seq(|ms|, i requires 0 <= i < |ms| => Dispatched(ms[i]))
  }

  predicate AllSendable(ms: seq<Message>) {
    forall k :: 0 <= k < |ms| ==> Sendable(ms[k])
  }

  /** The stream `buf + later` is the frames of `ms` and then a part of the frame of `next`. */
  ghost predicate Stream(buf: Bytes, later: Bytes, ms: seq<Message>, tail: Bytes, next: Message) {
    && AllSendable(ms) && Sendable(next) && tail < Frame(next)
    && buf + later == Frames(ms) + tail
    && NoHandshakeIn(buf + later)
  }

  /** The buffer holds no complete frame. */
  predicate Short(buf: Bytes, ms: seq<Message>) {
    ms != [] ==> |buf| < |Frame(ms[0])|
  }

  lemma DrainFrame(m: Message, rest: Bytes)
    requires Sendable(m) && ParseHandshake(Frame(m) + rest) == NoHandshake
    ensures var d := Drain(rest); Drain(Frame(m) + rest) == Drained([Dispatched(m)] + d.events, d.rest, d.status)
  {
    FrameLength(m, []);
    FrameIsParsed(m, rest);
    assert (Frame(m) + rest)[|Frame(m)|..] == rest;
  }

  lemma DrainKept(buf: Bytes)
    requires buf == [] || Parse(buf) == Consumed(0, None)
    ensures Drain(buf) == Drained([], buf, Open)
  {}

  lemma PartOfConcat(buf: Bytes, later: Bytes, front: Bytes, back: Bytes)
    requires buf + later == front + back
    ensures |buf| < |front| ==> buf < front
    ensures |buf| >= |front| ==> front <= buf && buf == front + buf[|front|..] && buf[|front|..] + later == back
  {
    assert (buf + later)[..|buf|] == buf;
    assert (front + back)[..|front|] == front && (front + back)[|front|..] == back;
    if |buf| < |front| {
      assert front[..|buf|] == (front + back)[..|buf|];
    } else {
      assert buf[..|front|] == (buf + later)[..|front|];
      assert buf[|front|..] + later == (buf + later)[|front|..];
    }
  }

  lemma BufferHasNoHandshake(buf: Bytes, later: Bytes)
    requires NoHandshakeIn(buf + later)
    ensures ParseHandshake(buf) == NoHandshake
  {
    NoHandshakeInPart(buf + later, 0, |buf|);
    assert (buf + later)[0..|buf|] == buf;
    NoHandshakeIsParsed(buf);
  }

  lemma PartOfFrameIsKept(m: Message, part: Bytes)
    requires Sendable(m) && part < Frame(m) && ParseHandshake(part) == NoHandshake
    ensures Drain(part) == Drained([], part, Open)
  {
    FrameShape(m);
    PartIsKept(Frame(m), |Body(m)|, part);
    DrainKept(part);
  }

  /** What is left of a stream after its first part `front`. */
  lemma StreamParts(buf: Bytes, later: Bytes, front: Bytes, back: Bytes, tail: Bytes)
    requires buf + later == front + back + tail && NoHandshakeIn(buf + later)
    ensures |buf| < |front| ==> buf < front
    ensures |buf| >= |front| ==>
              && front <= buf && buf == front + buf[|front|..]
              && buf[|front|..] + later == back + tail && NoHandshakeIn(buf[|front|..] + later)
  {
    assert front + back + tail == front + (back + tail);
    PartOfConcat(buf, later, front, back + tail);
    if |buf| >= |front| {
      NoHandshakeInPart(buf + later, |front|, |buf + later|);
      assert (buf + later)[|front|..|buf + later|] == buf[|front|..] + later;
    }
  }

  lemma TailIsShort(buf: Bytes, later: Bytes, tail: Bytes, frame: Bytes)
    requires buf + later == tail && tail < frame
    ensures buf < frame
  {
    assert buf == tail[..|buf|] == frame[..|buf|];
  }

  lemma ShortIsKept(buf: Bytes, later: Bytes, ms: seq<Message>, tail: Bytes, next: Message)
    requires Stream(buf, later, ms, tail, next) && Short(buf, ms)
    ensures Drain(buf) == Drained([], buf, Open)
  {
    BufferHasNoHandshake(buf, later);
    if ms == [] {
      TailIsShort(buf, later, tail, Frame(next));
      PartOfFrameIsKept(next, buf);
    } else {
      StreamParts(buf, later, Frame(ms[0]), Frames(ms[1..]), tail);
      PartOfFrameIsKept(ms[0], buf);
    }
  }

  lemma FirstFramePeeled(buf: Bytes, later: Bytes, ms: seq<Message>, tail: Bytes, next: Message)
    requires Stream(buf, later, ms, tail, next) && !Short(buf, ms)
    ensures Frame(ms[0]) <= buf && buf == Frame(ms[0]) + buf[|Frame(ms[0])|..]
    ensures Stream(buf[|Frame(ms[0])|..], later, ms[1..], tail, next)
  {
    StreamParts(buf, later, Frame(ms[0]), Frames(ms[1..]), tail);
  }

  lemma EventsStep(ms: seq<Message>, k: nat)
    requires ms != [] && k <= |ms| - 1
    ensures Events(ms[..k + 1]) == [Dispatched(ms[0])] + Events(ms[1..][..k])
    ensures ms[1..][k..] == ms[k + 1..]
  {}

  /** One read dispatches the frames that it completes and keeps the start of the next one. */
  lemma {:induction false} DrainPeels(buf: Bytes, later: Bytes, ms: seq<Message>, tail: Bytes, next: Message) returns (k: nat)
    requires Stream(buf, later, ms, tail, next)
    ensures k <= |ms|
    ensures Drain(buf) == Drained(Events(ms[..k]), Drain(buf).rest, Open)
    ensures Stream(Drain(buf).rest, later, ms[k..], tail, next) && Short(Drain(buf).rest, ms[k..])
    decreases |ms|
  {
    if Short(buf, ms) {
      k := 0;
      assert ms[0..] == ms;
      ShortIsKept(buf, later, ms, tail, next);
    } else {
      FirstFramePeeled(buf, later, ms, tail, next);
      var buf' := buf[|Frame(ms[0])|..];
      BufferHasNoHandshake(buf, later);
      DrainFrame(ms[0], buf');
      k := DrainPeels(buf', later, ms[1..], tail, next);
      EventsStep(ms, k);
      k := k + 1;
    }
  }

  lemma EventsSplit(ms: seq<Message>, k: nat)
    requires k <= |ms|
    ensures Events(ms) == Events(ms[..k]) + Events(ms[k..])
  {}

  /** The connection after reading the chunks one after the other. */
  function FeedAll(buf: Bytes, chunks: seq<Bytes>): Drained
    decreases |chunks|
  {
    if chunks == [] then Drained([], buf, Open)
    else
      var d := Drain(buf + chunks[0]);
      if d.status != Open then d
      else
        var e := FeedAll(d.rest, chunks[1..]);
        Drained(d.events + e.events, e.rest, e.status)
  }

  lemma {:induction false} FeedFrom(buf: Bytes, chunks: seq<Bytes>, ms: seq<Message>, tail: Bytes, next: Message)
    requires Stream(buf, Flatten(chunks), ms, tail, next) && Short(buf, ms)
    ensures FeedAll(buf, chunks) == Drained(Events(ms), tail, Open)
    decreases |chunks|
  {
    if chunks == [] {
      assert buf == Frames(ms) + tail;
      assert ms == [];
    } else {
      var later := Flatten(chunks[1..]);
      assert buf + Flatten(chunks) == buf + chunks[0] + later;
      hide Drain, Short;
      var k := DrainPeels(buf + chunks[0], later, ms, tail, next);
      hide Stream;
      FeedFrom(Drain(buf + chunks[0]).rest, chunks[1..], ms[k..], tail, next);
      EventsSplit(ms, k);
    }
  }

  /**
   * For any messages, any cut of their frames (and of a part of one more frame) into reads: exactly these
   * messages are dispatched, in order, and exactly the part is kept.
   */
  lemma SegmentationIndependence(ms: seq<Message>, tail: Bytes, next: Message, chunks: seq<Bytes>)
    requires AllSendable(ms) && Sendable(next) && tail < Frame(next)
    requires Flatten(chunks) == Frames(ms) + tail && NoHandshakeIn(Flatten(chunks))
    ensures FeedAll([], chunks) == Drained(Events(ms), tail, Open)
  {
    assert [] + Flatten(chunks) == Flatten(chunks);
    FeedFrom([], chunks, ms, tail, next);
  }

  // ----- streams that hold a handshake marker -----

  /** A read that ends 68 bytes behind the start of the first marker dispatches a handshake. */
  lemma HandshakeIsDispatched(buf: Bytes, i: nat)
    requires MarkerAt(buf, i) && |buf| == i + MIN_BT_MSG_LENGTH && forall j: nat :: j < i ==> !MarkerAt(buf, j)
    ensures Drain(buf).events != [] && Drain(buf).events[0].Handshake?
  {
    var at := FindMarker(buf, 0);
    assert at == Some(i);
    assert ParseHandshakeHere(buf[i..]).Found?;
    assert Parse(buf).Consumed? && Parse(buf).n == MIN_BT_MSG_LENGTH <= |buf|;
  }

  lemma FirstMarker(s: Bytes, i: nat) returns (m: nat)
    requires MarkerAt(s, i)
    ensures m <= i && MarkerAt(s, m) && forall j: nat :: j < m ==> !MarkerAt(s, j)
  {
    m := FindMarker(s, 0).value;
  }

  lemma FlattenTwo(a: Bytes, b: Bytes)
    ensures Flatten([a, b]) == a + b
  {
    assert [a, b][1..] == [b] && [b][1..] == [];
    assert Flatten([b]) == b;
  }

  /** The cut that goes wrong. */
  lemma BadCut(s: Bytes, i: nat) returns (chunks: seq<Bytes>)
    requires MarkerAt(s, i) && i + MIN_BT_MSG_LENGTH <= |s|
    ensures Flatten(chunks) == s
    ensures FeedAll([], chunks).events != [] && FeedAll([], chunks).events[0].Handshake?
  {
    var m := FirstMarker(s, i);
    var n := m + MIN_BT_MSG_LENGTH;
    var buf := s[..n];
    chunks := [buf, s[n..]];
    FlattenTwo(buf, s[n..]);
    forall j: nat | j <= m
      ensures MarkerAt(buf, j) <==> MarkerAt(s, j)
    {
      MarkerInFront(s, n, j);
    }
    hide MarkerAt, Drain;
    HandshakeIsDispatched(buf, m);
    assert [] + buf == buf;
  }

  lemma MarkerInFront(s: Bytes, n: nat, j: nat)
    requires j + |BT_START| <= n <= |s|
    ensures MarkerAt(s[..n], j) <==> MarkerAt(s, j)
  {
    SliceOfSlice(s, 0, n, j, j + |BT_START|);
    assert s[0..n] == s[..n];
  }

  /**
   * Exactly when the dispatched messages do not depend on how the stream is cut: when behind every marker less
   * than a handshake is left.
   */
  lemma SegmentationIndependenceIff(ms: seq<Message>, tail: Bytes, next: Message)
    requires AllSendable(ms) && Sendable(next) && tail < Frame(next)
    ensures (forall chunks :: Flatten(chunks) == Frames(ms) + tail ==> FeedAll([], chunks) == Drained(Events(ms), tail, Open))
       <==> NoHandshakeIn(Frames(ms) + tail)
  {
    var s := Frames(ms) + tail;
    if NoHandshakeIn(s) {
      forall chunks | Flatten(chunks) == s
        ensures FeedAll([], chunks) == Drained(Events(ms), tail, Open)
      {
        SegmentationIndependence(ms, tail, next, chunks);
      }
    } else {
      var i: nat :| MarkerAt(s, i) && i + MIN_BT_MSG_LENGTH <= |s|;
      var chunks := BadCut(s, i);
      assert ms != [] ==> Events(ms)[0].Dispatched?;
    }
  }
}
