/** The messages as bytes, told without the encoder: what each byte form means, and what the program's own frames are. */
module Wire {
  import opened Bytes
  import opened Messages
  import opened Segmentation

  // ----- words -----

  /** The value of a word: its bytes as digits to the base 256, the most significant one first. */
  function Base256(s: Bytes): nat {
    if s == [] then 0 else 256 * Base256(s[..|s| - 1]) + s[|s| - 1] as nat
  }

  lemma Base256OfFour(a: byte, b: byte, c: byte, d: byte)
    ensures Base256([a, b, c, d]) == ((a as nat * 256 + b as nat) * 256 + c as nat) * 256 + d as nat
  {
    Base256Snoc([], a);
    Base256Snoc([a], b);
    Base256Snoc([a, b], c);
    Base256Snoc([a, b, c], d);
    assert [] + [a] == [a] && [a] + [b] == [a, b] && [a, b] + [c] == [a, b, c] && [a, b, c] + [d] == [a, b, c, d];
  }

  lemma Base256Snoc(s: Bytes, x: byte)
    ensures Base256(s + [x]) == 256 * Base256(s) + x as nat
  {
    assert (s + [x])[..|s|] == s;
  }

  lemma WordIsBase256(buf: Bytes, k: nat)
    ensures k + 4 <= |buf| ==> FromBigEndian(buf, k) == Some(Base256(buf[k..k + 4]))
    ensures k + 4 > |buf| ==> FromBigEndian(buf, k) == None
  {
    if k + 4 <= |buf| {
      Base256OfFour(buf[k], buf[k + 1], buf[k + 2], buf[k + 3]);
      assert buf[k..k + 4] == [buf[k], buf[k + 1], buf[k + 2], buf[k + 3]];
    }
  }

  lemma WrittenWordIsBase256(v: nat)
    requires v < 0x1_0000_0000
    ensures |ToBigEndian(v)| == 4 && Base256(ToBigEndian(v)) == v
  {
    BigEndianRoundTrip([], v, []);
    assert [] + ToBigEndian(v) + [] == ToBigEndian(v);
    WordIsBase256(ToBigEndian(v), 0);
    assert ToBigEndian(v)[0..4] == ToBigEndian(v);
  }

  // ----- reading -----

  /** The buffer starts with a length word, an id and the rest of the body, and no handshake is found in it. */
  ghost predicate Carries(buf: Bytes, id: byte, body: Bytes) {
    && 5 + |body| <= |buf| && Base256(buf[0..4]) == 1 + |body| <= 2 * 1024 * 1024
    && buf[4] == id && buf[5..5 + |body|] == body
    && ParseHandshake(buf) == NoHandshake
  }

  lemma CarriesWords(buf: Bytes, id: byte, body: Bytes)
    requires Carries(buf, id, body)
    ensures Parse(buf) == ParseBody(buf, 1 + |body|)
    ensures |body| >= 4 ==> FromBigEndian(buf, 5) == Some(Base256(body[0..4]))
    ensures |body| >= 8 ==> FromBigEndian(buf, 9) == Some(Base256(body[4..8]))
  {
    WordIsBase256(buf, 0);
    hide ParseBody, FromBigEndian, Base256;
    if |body| >= 4 {
      SliceOfSlice(buf, 5, 5 + |body|, 0, 4);
      WordIsBase256(buf, 5);
    }
    if |body| >= 8 {
      SliceOfSlice(buf, 5, 5 + |body|, 4, 8);
      WordIsBase256(buf, 9);
    }
  }

  lemma KeepAliveBytes(buf: Bytes)
    requires |buf| >= 4 && Base256(buf[0..4]) == 0 && ParseHandshake(buf) == NoHandshake
    ensures Parse(buf) == Consumed(4, Some(Dispatched(KeepAlive)))
  {
    WordIsBase256(buf, 0);
  }

  /** The four messages that are an id alone: 0 to 3. */
  lemma FlagBytes(buf: Bytes, id: byte)
    requires Carries(buf, id, []) && id < 4
    ensures Parse(buf) == Consumed(5, Some(Dispatched(
              if id == 0 then Choke else if id == 1 then Unchoke else if id == 2 then Interested else NotInterested)))
  {
    CarriesWords(buf, id, []);
  }

  /** The number of a HAVE is read behind the id, and nine bytes go, whatever the length word says. */
  lemma HaveBytes(buf: Bytes, body: Bytes)
    requires Carries(buf, 4, body)
    ensures Parse(buf) == if |buf| >= 9 then Consumed(9, Some(Dispatched(Have(Base256(buf[5..9]))))) else Threw
  {
    CarriesWords(buf, 4, body);
    WordIsBase256(buf, 5);
    hide FromBigEndian, Base256, Parse;
  }

  lemma BitfieldBytesAre(buf: Bytes, raw: Bytes)
    requires Carries(buf, 5, raw)
    ensures Parse(buf) == Consumed(5 + |raw|, Some(Dispatched(BitfieldBytes(raw))))
  {
    CarriesWords(buf, 5, raw);
  }

  /** The three numbers of a REQUEST are read behind the id: index, begin and length. */
  lemma RequestBytes(buf: Bytes, body: Bytes)
    requires Carries(buf, 6, body)
    ensures Parse(buf) == if |buf| >= 17
                          then Consumed(5 + |body|, Some(Dispatched(Request(Base256(buf[5..9]), Base256(buf[9..13]), Base256(buf[13..17])))))
                          else Threw
  {
    CarriesWords(buf, 6, body);
    WordIsBase256(buf, 5);
    WordIsBase256(buf, 9);
    WordIsBase256(buf, 13);
    hide FromBigEndian, Base256, Parse;
  }

  /** A PIECE: index, begin, and the rest of the body as the block. */
  lemma PieceBytes(buf: Bytes, body: Bytes)
    requires Carries(buf, 7, body)
    ensures |body| >= 8 ==>
              Parse(buf) == Consumed(5 + |body|, Some(Dispatched(PieceBlock(Base256(body[0..4]), Base256(body[4..8]), body[8..]))))
    ensures |body| < 8 ==> Parse(buf) == Threw
  {
    CarriesWords(buf, 7, body);
    if |body| >= 8 {
      SliceOfSlice(buf, 5, 5 + |body|, 8, |body|);
      assert body[8..|body|] == body[8..];
    }
    hide FromBigEndian, Base256, Parse;
  }

  /** CANCEL (8), PORT (9) and every other id: nothing is dispatched, and the whole buffer goes. */
  lemma OtherBytes(buf: Bytes, id: byte, body: Bytes)
    requires Carries(buf, id, body) && id >= 8
    ensures Parse(buf) == Consumed(|buf|, None)
  {
    CarriesWords(buf, id, body);
  }

  /** A length word above two mebibytes closes the connection. */
  lemma TooLongCloses(buf: Bytes)
    requires |buf| >= 4 && ParseHandshake(buf) == NoHandshake
    ensures Parse(buf) == Closed <==> Base256(buf[0..4]) > 2 * 1024 * 1024
  {
    WordIsBase256(buf, 0);
    hide ParseHandshake;
  }

  // ----- the handshake -----

  /** The marker is the byte 19 and the text of the protocol's name. */
  lemma MarkerIsText()
    ensures var name := "BitTorrent protocol";
            |BT_START| == 20 && |name| == 19 && BT_START[0] == 19 && forall i :: 0 <= i < 19 ==> BT_START[1 + i] as int == name[i] as int
  {}

  /** Marker, eight reserved bytes, info hash and peer id. */
  ghost predicate HandshakeAt(buf: Bytes, hash: Bytes, peerId: Bytes) {
    68 <= |buf| && BT_START <= buf && buf[28..48] == hash && buf[48..68] == peerId
  }

  lemma HandshakeIsFirst(buf: Bytes, hash: Bytes, peerId: Bytes)
    requires HandshakeAt(buf, hash, peerId)
    ensures ParseHandshake(buf) == ParseHandshakeHere(buf)
  {
    assert buf[0..0 + |BT_START|] == BT_START;
    assert MarkerAt(buf, 0);
    assert buf[0..] == buf;
  }

  /** A handshake alone is consumed whole. */
  lemma HandshakeAlone(buf: Bytes, hash: Bytes, peerId: Bytes)
    requires HandshakeAt(buf, hash, peerId) && |buf| == 68
    ensures Parse(buf) == Consumed(68, Some(Handshake(hash, peerId, [])))
  {
    HandshakeIsFirst(buf, hash, peerId);
  }

  /**
   * A handshake and a BITFIELD behind it: with the whole of it there, both are consumed and nothing behind them;
   * before that, nothing is.
   */
  lemma HandshakeWithBitfield(buf: Bytes, hash: Bytes, peerId: Bytes, n: nat)
    requires HandshakeAt(buf, hash, peerId) && |buf| >= 73 && buf[72] == 5
    requires Base256(buf[68..72]) == 1 + n < 0x1_0000_0000 - 72
    ensures Parse(buf) == if 73 + n <= |buf| then Consumed(73 + n, Some(Handshake(hash, peerId, buf[73..73 + n])))
                          else Consumed(0, None)
  {
    HandshakeIsFirst(buf, hash, peerId);
    WordIsBase256(buf, 68);
    hide ParseHandshake, FromBigEndian, Base256;
  }

  // ----- writing -----

  /** A frame is the word of the length of its body, and the body. */
  lemma FrameIsWord(m: Message)
    requires Sendable(m)
    ensures |Frame(m)| == 4 + |Body(m)| && Base256(Frame(m)[0..4]) == |Body(m)| && Frame(m)[4..] == Body(m)
  {
    FrameShape(m);
    assert |Body(m)| < 0x1_0000_0000;
    WrittenWordIsBase256(|Body(m)|);
    assert Frame(m)[0..4] == Frame(m)[..4];
  }

  /** The frames without numbers in them. */
  lemma FlagFrames()
    ensures Frame(KeepAlive) == [0, 0, 0, 0] && Frame(Choke) == [0, 0, 0, 1, 0] && Frame(Unchoke) == [0, 0, 0, 1, 1]
    ensures Frame(Interested) == [0, 0, 0, 1, 2] && Frame(NotInterested) == [0, 0, 0, 1, 3]
  {}

  /** The other frames: the id behind the length word, then the numbers as words, then what is left. */
  lemma HaveFrame(id: nat)
    requires Sendable(Have(id))
    ensures var f := Frame(Have(id));
            |f| == 9 && Base256(f[0..4]) == 5 && f[4] == 4 && Base256(f[5..9]) == id
  {
    hide Frame, ToBigEndian, Base256;
    var f := Frame(Have(id));
    FrameIsWord(Have(id));
    WrittenWordIsBase256(id);
    BehindFirst(4, ToBigEndian(id));
    assert f[5..9] == f[4..][1..5] && f[4] == f[4..][0];
  }

  lemma BitfieldFrame(raw: Bytes)
    requires Sendable(BitfieldBytes(raw))
    ensures var f := Frame(BitfieldBytes(raw));
            |f| == 5 + |raw| && Base256(f[0..4]) == 1 + |raw| && f[4] == 5 && f[5..] == raw
  {
    var f := Frame(BitfieldBytes(raw));
    FrameIsWord(BitfieldBytes(raw));
    hide Frame, ToBigEndian, Base256;
    BehindFirst(5, raw);
    assert f[5..] == f[4..][1..1 + |raw|] && f[4] == f[4..][0];
  }

  /** Two words and a rest behind the id. */
  lemma TwoWordsBehind(f: Bytes, t: byte, a: Bytes, b: Bytes, c: Bytes)
    requires |f| >= 4 && f[4..] == [t] + a + b + c && |a| == |b| == 4
    ensures |f| == 13 + |c| && f[4] == t && f[5..9] == a && f[9..13] == b && f[13..] == c
  {
    Parts(t, a, b, c);
    var body := f[4..];
    assert f[4] == body[0] && f[5..9] == body[1..5] && f[9..13] == body[5..9] && f[13..] == body[9..9 + |c|];
  }

  lemma RequestFrame(index: nat, begin: nat, length: nat)
    requires Sendable(Request(index, begin, length))
    ensures var f := Frame(Request(index, begin, length));
            && |f| == 17 && Base256(f[0..4]) == 13 && f[4] == 6
            && Base256(f[5..9]) == index && Base256(f[9..13]) == begin && Base256(f[13..17]) == length
  {
    hide Frame, ToBigEndian, Base256;
    var f := Frame(Request(index, begin, length));
    FrameIsWord(Request(index, begin, length));
    WrittenWordIsBase256(index);
    WrittenWordIsBase256(begin);
    WrittenWordIsBase256(length);
    TwoWordsBehind(f, 6, ToBigEndian(index), ToBigEndian(begin), ToBigEndian(length));
    assert f[13..17] == f[13..];
  }

  lemma PieceFrameBytes(index: nat, begin: nat, block: Bytes)
    requires Sendable(PieceBlock(index, begin, block))
    ensures var f := Frame(PieceBlock(index, begin, block));
            && |f| == 13 + |block| && Base256(f[0..4]) == 9 + |block| && f[4] == 7
            && Base256(f[5..9]) == index && Base256(f[9..13]) == begin && f[13..] == block
  {
    hide Frame, ToBigEndian, Base256;
    var f := Frame(PieceBlock(index, begin, block));
    FrameIsWord(PieceBlock(index, begin, block));
    WrittenWordIsBase256(index);
    WrittenWordIsBase256(begin);
    TwoWordsBehind(f, 7, ToBigEndian(index), ToBigEndian(begin), block);
  }
}
