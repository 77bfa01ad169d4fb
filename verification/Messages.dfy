/** Peer wire messages: framing, `Message::parse` and the loop that consumes the receive buffer. */
module Messages {
  import opened Bytes

  const MIN_BT_MSG_LENGTH: nat := 68
  const MAX_INCOMING_DATA_SIZE: nat := 2 * 1024 * 1024

  /** The byte 19 and the text "BitTorrent protocol". */
  const BT_START: Bytes := [19, 66, 105, 116, 84, 111, 114, 114, 101, 110, 116, 32, 112, 114, 111, 116, 111, 99, 111, 108]

  /** The messages that the program handles. */
  datatype Message =
    | KeepAlive
    | Choke
    | Unchoke
    | Interested
    | NotInterested
    | Have(id: nat)
    | BitfieldBytes(raw: Bytes)
    | Request(index: nat, begin: nat, length: nat)
    | PieceBlock(index: nat, begin: nat, block: Bytes)

  datatype WireId = CHOKE | UNCHOKE | INTERESTED | NOT_INTERESTED | HAVE | BITFIELD | REQUEST | PIECE | CANCEL | PORT | UNKNOWN

  function ToWireId(b: byte): WireId {
    match b
    case 0 => CHOKE
    case 1 => UNCHOKE
    case 2 => INTERESTED
    case 3 => NOT_INTERESTED
    case 4 => HAVE
    case 5 => BITFIELD
    case 6 => REQUEST
    case 7 => PIECE
    case 8 => CANCEL
    case 9 => PORT
    case _ => UNKNOWN
  }

  /** Numbers are 32-bit words, and the frame is not longer than a receiver accepts. */
  predicate Sendable(m: Message) {
    && (m.Have? ==> m.id < TWO_TO_THE_32)
    && (m.Request? ==> m.index < TWO_TO_THE_32 && m.begin < TWO_TO_THE_32 && m.length < TWO_TO_THE_32)
    && (m.PieceBlock? ==> m.index < TWO_TO_THE_32 && m.begin < TWO_TO_THE_32)
    && |Body(m)| <= MAX_INCOMING_DATA_SIZE
  }

  /** The message without its length word. A number that does not fit a word has no form; it is cut here. */
  function Body(m: Message): Bytes {
    match m
    case KeepAlive => []
    case Choke => [0]
    case Unchoke => [1]
    case Interested => [2]
    case NotInterested => [3]
    case Have(id) => [4] + ToBigEndian(U32(id))
    case BitfieldBytes(raw) => [5] + raw
    case Request(index, begin, length) => [6] + ToBigEndian(U32(index)) + ToBigEndian(U32(begin)) + ToBigEndian(U32(length))
    case PieceBlock(index, begin, block) => [7] + ToBigEndian(U32(index)) + ToBigEndian(U32(begin)) + block
  }

  function Frame(m: Message): Bytes {
    ToBigEndian(U32(|Body(m)|)) + Body(m)
  }

  // ----- parsing -----

  datatype Event =
    | Dispatched(message: Message)
    | Handshake(infoHash: Bytes, peerId: Bytes, bits: Bytes)

  /** Consumed bytes and what was dispatched; a stop of the connection; or an exception or undefined read. */
  datatype Parsed =
    | Consumed(n: nat, event: Option<Event>)
    | Closed
    | Threw

  datatype HandshakeResult =
    | NoHandshake
    | Found(infoHash: Bytes, peerId: Bytes, bits: Bytes, consumed: nat)
    | Undefined

  predicate MarkerAt(msg: Bytes, i: nat) {
    i + |BT_START| <= |msg| && msg[i..i + |BT_START|] == BT_START
  }

  /** `std::ranges::search` for the handshake marker. */
  function FindMarker(msg: Bytes, from: nat): (r: Option<nat>)
    ensures r.Some? ==> from <= r.value && MarkerAt(msg, r.value)
    ensures forall i: nat :: from <= i && (r.Some? ==> i < r.value) ==> !MarkerAt(msg, i)
    decreases |msg| - from
  {
    if from + |BT_START| > |msg| then None
    else if MarkerAt(msg, from) then Some(from)
    else FindMarker(msg, from + 1)
  }

  /** A buffer that starts with the marker. The sum with the length word is a 32-bit one. */
  function ParseHandshakeHere(msg: Bytes): HandshakeResult {
    if |msg| < MIN_BT_MSG_LENGTH then NoHandshake
    else if |msg| == MIN_BT_MSG_LENGTH then Found(msg[28..48], msg[48..68], [], |msg|)
    else if |msg| < 73 then NoHandshake
    else if ToWireId(msg[72]) != BITFIELD then NoHandshake
    else
      var end := U32(72 + FromBigEndian(msg, 68).value);
      if end > |msg| then Found(msg[28..48], msg[48..68], [], 0)
      else if end < 73 then Undefined
      else Found(msg[28..48], msg[48..68], msg[73..end], end)
  }

  /** `HandshakeMsg::parse`. */
  function ParseHandshake(msg: Bytes): HandshakeResult {
    if |msg| < MIN_BT_MSG_LENGTH then NoHandshake
    else
      var at := FindMarker(msg, 0);
      if at.None? then NoHandshake else ParseHandshakeHere(msg[at.value..])
  }

  /** `Message::parse`. */
  function Parse(buf: Bytes): Parsed {
    match ParseHandshake(buf)
    case Found(infoHash, peerId, bits, consumed) =>
      Consumed(consumed, if consumed != 0 then Some(Handshake(infoHash, peerId, bits)) else None)
    case Undefined => Threw
    case NoHandshake =>
      if |buf| < 4 then Consumed(0, None)
      else
        var len := FromBigEndian(buf, 0).value;
        if len > MAX_INCOMING_DATA_SIZE then Closed
        else if len + 4 > |buf| then Consumed(0, None)
        else if len == 0 then Consumed(4, Some(Dispatched(KeepAlive)))
        else ParseBody(buf, len)
  }

  function ParseBody(buf: Bytes, len: nat): Parsed
    requires 0 < len && len + 4 <= |buf|
  {
    match ToWireId(buf[4])
    case CHOKE => Consumed(len + 4, Some(Dispatched(Choke)))
    case UNCHOKE => Consumed(len + 4, Some(Dispatched(Unchoke)))
    case INTERESTED => Consumed(len + 4, Some(Dispatched(Interested)))
    case NOT_INTERESTED => Consumed(len + 4, Some(Dispatched(NotInterested)))
    case PIECE =>
      var index, offset := FromBigEndian(buf, 5), FromBigEndian(buf, 9);
      if index.None? || offset.None? || len < 9 then Threw
      else Consumed(len + 4, Some(Dispatched(PieceBlock(index.value, offset.value, buf[13..13 + (len - 9)]))))
    case HAVE =>
      var id := FromBigEndian(buf, 5);
      if id.None? then Threw else Consumed(9, Some(Dispatched(Have(id.value))))
    case BITFIELD => Consumed(len + 4, Some(Dispatched(BitfieldBytes(buf[5..5 + (len - 1)]))))
    case REQUEST =>
      var index, begin, length := FromBigEndian(buf, 5), FromBigEndian(buf, 9), FromBigEndian(buf, 13);
      if index.None? || begin.None? || length.None? then Threw
      else Consumed(len + 4, Some(Dispatched(Request(index.value, begin.value, length.value))))
    case CANCEL => Consumed(|buf|, None)
    case PORT => Consumed(|buf|, None)
    case UNKNOWN => Consumed(|buf|, None)
  }

  lemma ParseConsumes(buf: Bytes)
    ensures Parse(buf).Consumed? ==> Parse(buf).n <= |buf|
  {}

  // ----- the consume loop -----

  datatype Status = Open | Stopped | Broken

  datatype Drained = Drained(events: seq<Event>, rest: Bytes, status: Status)

  function Log(e: Option<Event>): seq<Event> {
    if e.Some? then [e.value] else []
  }

  /** What one call of `handle_response` does with the buffer, as long as no call that it makes throws. */
  function Drain(buf: Bytes): Drained
    decreases |buf|
  {
    if buf == [] then Drained([], buf, Open)
    else
      match Parse(buf)
      case Closed => Drained([], buf, Stopped)
      case Threw => Drained([], buf, Broken)
      case Consumed(n, event) =>
        if n == 0 || n > |buf| then Drained(Log(event), buf, Open)
        else
          var d := Drain(buf[n..]);
          Drained(Log(event) + d.events, d.rest, d.status)
  }
}
