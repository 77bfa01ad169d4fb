/** Writing a torrent file: the piece digests of one file or of a directory, and their agreement with the verifier. */
module TorrentWriter {
  import opened Bytes
  import opened Files
  import opened Transfer
  import opened Runs

  /** Consecutive parts of `m` bytes; the last one might be shorter. */
  function Chunks(s: Bytes, m: nat): (r: seq<Bytes>)
    requires m > 0
    ensures Flatten(r) == s
  {
    if s == [] then []
    else if |s| <= m then [s]
    else [s[..m]] + Chunks(s[m..], m)
  }

  /** What the generator yields: a first part of `n` bytes and then parts of `m`. */
  function FirstThenChunks(s: Bytes, n: nat, m: nat): seq<Bytes>
    requires n > 0 && m > 0
  {
    if s == [] then []
    else if |s| <= n then [s]
    else [s[..n]] + Chunks(s[n..], m)
  }

  function Hashes(sha1: Bytes -> Digest, parts: seq<Bytes>): seq<Digest> {
    seq(|parts|, i requires 0 <= i < |parts| => sha1(parts[i]))
  }

  /** A file opened for reading, one character at a time. */
  class IStream {
    const content: Bytes
    var pos: nat
    var good: bool

    ghost predicate Valid()
      reads this
    {
      pos <= |content|
    }

    constructor (content: Bytes)
      ensures Valid() && this.content == content && pos == 0 && good
    {
      this.content := content;
      pos, good := 0, true;
    }

    method Get() returns (c: Option<byte>)
      requires Valid()
      modifies this
      ensures Valid()
      ensures if old(good) && old(pos) < |content| then c == Some(content[old(pos)]) && pos == old(pos) + 1 && good
              else c == None && pos == old(pos) && !good
    {
      if !good || pos == |content| {
        good := false;
        return None;
      }
      c := Some(content[pos]);
      pos := pos + 1;
    }
  }

  /** The lambda `read_chunk` of `get_chunks`. */
  method ReadChunk(stream: IStream, size: nat) returns (buf: Bytes)
    requires stream.Valid() && stream.good
    modifies stream
    ensures stream.Valid()
    ensures |buf| == if |stream.content| - old(stream.pos) < size then |stream.content| - old(stream.pos) else size
    ensures stream.pos == old(stream.pos) + |buf| && buf == stream.content[old(stream.pos)..stream.pos]
    ensures stream.good <==> |buf| == size
  {
    buf := [];
    var i := 0;
    while i < size
      invariant i == |buf| <= size && stream.Valid() && stream.good
      invariant stream.pos == old(stream.pos) + i && buf == stream.content[old(stream.pos)..stream.pos]
    {
      var c := stream.Get();
      if c.None? {
        return;
      }
      buf := buf + [c.value];
      i := i + 1;
    }
  }

  /** The first part and then the parts of the rest; there is no rest when the file is not longer. */
  lemma AfterFirst(s: Bytes, n: nat, m: nat)
    requires n > 0 && m > 0
    ensures |s| < n ==> FirstThenChunks(s, n, m) == (if s == [] then [] else [s[0..|s|]])
    ensures |s| >= n ==> FirstThenChunks(s, n, m) == [s[0..n]] + Chunks(s[n..], m)
  {
    if |s| == n {
      assert s[n..] == [];
    }
    assert s[0..|s|] == s;
  }

  /** A read of up to `m` bytes takes the next part. */
  lemma AfterNext(s: Bytes, pos: nat, m: nat)
    requires m > 0 && pos < |s|
    ensures |s| - pos < m ==> Chunks(s[pos..], m) == [s[pos..|s|]]
    ensures |s| - pos >= m ==> Chunks(s[pos..], m) == [s[pos..pos + m]] + Chunks(s[pos + m..], m)
  {
    var left := s[pos..];
    assert s[pos..|s|] == left;
    if |left| >= m {
      assert left[..m] == s[pos..pos + m] && left[m..] == s[pos + m..];
      if |left| == m {
        assert s[pos + m..] == [] && left[..m] == left;
      }
    }
  }

  /** What is still to come, when the stream is at `pos`. */
  function Pending(s: Bytes, pos: nat, good: bool, m: nat): seq<Bytes>
    requires m > 0 && pos <= |s|
  {
    if good then Chunks(s[pos..], m) else []
  }

  /** One read of up to `m` bytes yields the next part, or nothing at the end. */
  lemma PendingStep(s: Bytes, pos: nat, next: nat, m: nat)
    requires m > 0 && pos <= next <= |s| && next - pos == if |s| - pos < m then |s| - pos else m
    ensures pos == next ==> Pending(s, pos, true, m) == []
    ensures pos < next ==> Pending(s, pos, true, m) == [s[pos..next]] + Pending(s, next, next - pos == m, m)
  {
    if pos < next {
      AfterNext(s, pos, m);
    }
  }

  /** `get_chunks`: the values that the generator yields. */
  method GetChunks(stream: IStream, n: nat, m: nat) returns (chunks: seq<Bytes>)
    requires stream.Valid() && stream.good && stream.pos == 0 && n > 0 && m > 0
    modifies stream
    ensures chunks == FirstThenChunks(stream.content, n, m)
  {
    AfterFirst(stream.content, n, m);
    chunks := [];
    var first := ReadChunk(stream, n);
    if first != [] {
      chunks := chunks + [first];
    }
    ghost var all := FirstThenChunks(stream.content, n, m);
    assert chunks + Pending(stream.content, stream.pos, stream.good, m) == all;
    hide FirstThenChunks, Pending;
    while stream.good
      invariant stream.Valid() && chunks + Pending(stream.content, stream.pos, stream.good, m) == all
      decreases |stream.content| - stream.pos, stream.good
    {
      ghost var pos := stream.pos;
      var next := ReadChunk(stream, m);
      PendingStep(stream.content, pos, stream.pos, m);
      if next == [] {
        return;
      }
      chunks := chunks + [next];
    }
    NothingPending(stream.content, stream.pos, m);
  }

  lemma NothingPending(s: Bytes, pos: nat, m: nat)
    requires m > 0 && pos <= |s|
    ensures Pending(s, pos, false, m) == []
  {}

  // ----- the parts of a byte string -----

  /** How many parts there are. */
  lemma {:induction false} ChunkCount(s: Bytes, m: nat)
    requires m > 0 && s != []
    ensures |Chunks(s, m)| == (|s| + m - 1) / m
    decreases |s|
  {
    if |s| <= m {
      DivModUnique(|s| + m - 1, m, 1, |s| - 1);
    } else {
      ChunkCount(s[m..], m);
      DivPlusOne(|s| - 1, m);
    }
  }

  lemma MulPred(i: nat, m: nat)
    requires i > 0
    ensures (i - 1) * m == i * m - m
  {}

  /** Which bytes a part holds. */
  lemma {:induction false} ChunkAt(s: Bytes, m: nat, i: nat, at: nat)
    requires m > 0 && i < |Chunks(s, m)| && at == i * m
    ensures at < |s| && Chunks(s, m)[i] == s[at..if at + m <= |s| then at + m else |s|]
    decreases |s|
  {
    if i > 0 {
      var rest := s[m..];
      assert Chunks(s, m)[i] == Chunks(rest, m)[i - 1];
      MulPred(i, m);
      ChunkAt(rest, m, i - 1, at - m);
      SliceOfSlice(s, m, |s|, at - m, if at + m <= |s| then at else |s| - m);
      assert s[m..|s|] == rest;
    }
  }

  lemma DivPlusOne(x: nat, m: nat)
    requires m > 0
    ensures (x + m) / m == x / m + 1
  {
    DivModUnique(x + m, m, x / m + 1, x % m);
  }

  /** Full parts and a shorter rest are the parts of their concatenation. */
  lemma {:induction false} FullPartsAreChunks(parts: seq<Bytes>, rest: Bytes, m: nat)
    requires m > 0 && |rest| < m && forall i :: 0 <= i < |parts| ==> |parts[i]| == m
    ensures Chunks(Flatten(parts) + rest, m) == parts + if rest == [] then [] else [rest]
  {
    var s := Flatten(parts) + rest;
    if parts == [] {
      assert s == rest;
    } else {
      FullPartsAreChunks(parts[1..], rest, m);
      var tail := Flatten(parts[1..]) + rest;
      assert s == parts[0] + tail;
      assert s[..m] == parts[0] && s[m..] == tail;
    }
  }

  lemma HashesConcat(sha1: Bytes -> Digest, a: seq<Bytes>, b: seq<Bytes>)
    ensures Hashes(sha1, a + b) == Hashes(sha1, a) + Hashes(sha1, b)
  {}

  // ----- the piece digests -----

  /** The single-file loop: one digest for each part of the file. */
  method DigestsOfFile(sha1: Bytes -> Digest, content: Bytes, pieceLength: nat) returns (digests: seq<Digest>)
    requires pieceLength > 0
    ensures digests == Hashes(sha1, Chunks(content, pieceLength))
  {
    var parts := Chunks(content, pieceLength);
    digests := [];
    for i := 0 to |parts|
      invariant digests == Hashes(sha1, parts[..i])
    {
      assert parts[..i + 1] == parts[..i] + [parts[i]];
      HashesConcat(sha1, parts[..i], [parts[i]]);
      digests := digests + [sha1(parts[i])];
    }
    assert parts[..|parts|] == parts;
  }

  /** What was hashed so far, what is carried over and which bytes these are. */
  ghost predicate Progress(sha1: Bytes -> Digest, pieceLength: nat, digests: seq<Digest>, emitted: seq<Bytes>,
                           pieceData: Bytes, read: Bytes) {
    && digests == Hashes(sha1, emitted)
    && (forall i :: 0 <= i < |emitted| ==> |emitted[i]| == pieceLength)
    && Flatten(emitted) + pieceData == read && |pieceData| < pieceLength
  }

  /** More bytes that do not fill the piece are carried over; bytes that fill it complete a part. */
  lemma ProgressStep(sha1: Bytes -> Digest, pieceLength: nat, digests: seq<Digest>, emitted: seq<Bytes>,
                     pieceData: Bytes, read: Bytes, chunk: Bytes)
    requires pieceLength > 0 && Progress(sha1, pieceLength, digests, emitted, pieceData, read)
    requires |pieceData| + |chunk| <= pieceLength
    ensures |pieceData| + |chunk| < pieceLength ==>
              Progress(sha1, pieceLength, digests, emitted, pieceData + chunk, read + chunk)
    ensures |pieceData| + |chunk| == pieceLength ==>
              Progress(sha1, pieceLength, digests + [sha1(pieceData + chunk)], emitted + [pieceData + chunk], [], read + chunk)
  {
    var full := pieceData + chunk;
    assert Flatten(emitted) + full == read + chunk;
    HashesConcat(sha1, emitted, [full]);
    FlattenAppend(emitted, [full]);
    assert Flatten([full]) == full;
  }

  lemma ReadGrows(read: Bytes, chunks: seq<Bytes>, i: nat)
    requires i < |chunks|
    ensures read + Flatten(chunks[..i + 1]) == read + Flatten(chunks[..i]) + chunks[i]
  {
    assert chunks[..i + 1] == chunks[..i] + [chunks[i]];
    FlattenAppend(chunks[..i], [chunks[i]]);
    assert Flatten([chunks[i]]) == chunks[i];
  }

  /** The inner loop: one file is read in parts that complete the carried-over data and then whole pieces. */
  method DigestsOfNext(sha1: Bytes -> Digest, content: Bytes, pieceLength: nat, digests: seq<Digest>, pieceData: Bytes,
                       ghost emitted: seq<Bytes>, ghost read: Bytes)
    returns (digests': seq<Digest>, pieceData': Bytes, ghost emitted': seq<Bytes>)
    requires pieceLength > 0 && Progress(sha1, pieceLength, digests, emitted, pieceData, read)
    ensures Progress(sha1, pieceLength, digests', emitted', pieceData', read + content)
  {
    var stream := new IStream(content);
    var chunks := GetChunks(stream, pieceLength - |pieceData|, pieceLength);
    digests', pieceData', emitted' := digests, pieceData, emitted;
    FirstThenChunksShape(content, pieceLength - |pieceData|, pieceLength);
    hide Progress, FirstThenChunks;
    for i := 0 to |chunks|
      invariant Progress(sha1, pieceLength, digests', emitted', pieceData', read + Flatten(chunks[..i]))
      invariant i == 0 ==> pieceData' == pieceData
      invariant 0 < i < |chunks| ==> pieceData' == []
    {
      ReadGrows(read, chunks, i);
      assert i > 0 ==> chunks[i] == chunks[1..][i - 1];
      ProgressStep(sha1, pieceLength, digests', emitted', pieceData', read + Flatten(chunks[..i]), chunks[i]);
      pieceData' := pieceData' + chunks[i];
      if |pieceData'| == pieceLength {
        digests' := digests' + [sha1(pieceData')];
        emitted' := emitted' + [pieceData'];
        pieceData' := [];
      }
    }
    assert chunks[..|chunks|] == chunks;
  }

  /** No part is empty or longer than `m`, and every part but the last is full. */
  ghost predicate FullButLast(c: seq<Bytes>, m: nat) {
    forall i :: 0 <= i < |c| ==> 0 < |c[i]| <= m && (i < |c| - 1 ==> |c[i]| == m)
  }

  /** The yielded parts are the file: the first one is full unless it is the only one, and the others are parts of `m`. */
  lemma FirstThenChunksShape(s: Bytes, n: nat, m: nat)
    requires n > 0 && m > 0
    ensures var c := FirstThenChunks(s, n, m);
            && Flatten(c) == s
            && (c != [] ==> 0 < |c[0]| <= n && (|c| > 1 ==> |c[0]| == n) && FullButLast(c[1..], m))
  {
    if |s| > n {
      ChunksShape(s[n..], m);
      hide FullButLast, Chunks;
      var front, rest := s[..n], Chunks(s[n..], m);
      assert s == front + s[n..];
      assert ([front] + rest)[1..] == rest;
    } else if s != [] {
      assert Flatten([s]) == s && [s][1..] == [];
    }
  }

  lemma {:induction false} ChunksShape(s: Bytes, m: nat)
    requires m > 0
    ensures FullButLast(Chunks(s, m), m)
    decreases |s|
  {
    if |s| > m {
      ChunksShape(s[m..], m);
      FullButLastCons(s[..m], Chunks(s[m..], m), m);
    }
  }

  lemma FullButLastCons(first: Bytes, rest: seq<Bytes>, m: nat)
    requires FullButLast(rest, m) && |first| == m && m > 0
    ensures FullButLast([first] + rest, m)
  {}

  /** The multi-file loop: the digests are those of the parts of all files in a row. */
  method DigestsOfFiles(sha1: Bytes -> Digest, files: seq<Bytes>, pieceLength: nat) returns (digests: seq<Digest>)
    requires pieceLength > 0
    ensures digests == Hashes(sha1, Chunks(Flatten(files), pieceLength))
  {
    digests := [];
    var pieceData: Bytes := [];
    ghost var emitted: seq<Bytes> := [];
    for i := 0 to |files|
      invariant Progress(sha1, pieceLength, digests, emitted, pieceData, Flatten(files[..i]))
    {
      assert files[..i + 1] == files[..i] + [files[i]];
      FlattenAppend(files[..i], [files[i]]);
      assert Flatten([files[i]]) == files[i];
      digests, pieceData, emitted := DigestsOfNext(sha1, files[i], pieceLength, digests, pieceData, emitted, Flatten(files[..i]));
    }
    assert files[..|files|] == files;
    FullPartsAreChunks(emitted, pieceData, pieceLength);
    if pieceData != [] {
      HashesConcat(sha1, emitted, [pieceData]);
      digests := digests + [sha1(pieceData)];
    }
  }

  // ----- agreement with the client's verifier -----

  /** The metainfo that the writer makes for these files. */
  function WrittenMeta(sha1: Bytes -> Digest, files: seq<Bytes>, pieceLength: nat, single: bool): Meta
    requires pieceLength > 0
  {
    Meta(sha1, pieceLength, Hashes(sha1, Chunks(Flatten(files), pieceLength)), Lengths(files), single)
  }

  /** The verifier reads the part that the writer hashed. */
  lemma SliceIsChunk(meta: Meta, image: Bytes, id: nat)
    requires meta.WellFormed() && |image| == meta.Length() && id < meta.PieceCount()
    requires meta.PieceCount() == |Chunks(image, meta.pieceLength)|
    ensures PieceSlice(meta, image, id) == Chunks(image, meta.pieceLength)[id]
  {
    ChunkAt(image, meta.pieceLength, id, id * meta.pieceLength);
    PieceLengthIsMin(meta, id);
    PieceBounds(meta, id);
  }

  /** Every slice of the very files that were hashed is right, whatever the file boundaries. */
  lemma WriterAgreesWithVerifier(sha1: Bytes -> Digest, files: seq<Bytes>, pieceLength: nat, single: bool, id: nat)
    requires pieceLength > 0
    requires var meta := WrittenMeta(sha1, files, pieceLength, single);
             meta.WellFormed() && id < meta.PieceCount()
    ensures SliceGood(WrittenMeta(sha1, files, pieceLength, single), Flatten(files), id)
  {
    FlattenLength(files);
    SliceIsChunk(WrittenMeta(sha1, files, pieceLength, single), Flatten(files), id);
  }

  /** A client that starts on these files finds every piece: it is done at once. */
  lemma WrittenTorrentIsDone<Id>(sha1: Bytes -> Digest, files: seq<Bytes>, pieceLength: nat, single: bool, s: Sys<Id>)
    requires pieceLength > 0
    requires var meta := WrittenMeta(sha1, files, pieceLength, single);
             meta.WellFormed() && Verified(meta, s) && s.disk == Flatten(files)
    ensures Done(WrittenMeta(sha1, files, pieceLength, single), s)
  {
    var meta := WrittenMeta(sha1, files, pieceLength, single);
    InitialInv(meta, s);
    forall id: nat
      ensures id < meta.PieceCount() ==> Written(s, id)
      ensures id in s.active ==> id < meta.PieceCount()
    {
      assert VerifiedAt(meta, s, id);
      if id < meta.PieceCount() {
        WriterAgreesWithVerifier(sha1, files, pieceLength, single, id);
      }
    }
    DoneIff(meta, s);
  }

  /** The number of digests is the piece count that the client expects. */
  lemma WriterCountsPieces(sha1: Bytes -> Digest, files: seq<Bytes>, pieceLength: nat, single: bool)
    requires pieceLength > 0
    ensures var meta := WrittenMeta(sha1, files, pieceLength, single);
            meta.PieceCount() == (meta.Length() + pieceLength - 1) / pieceLength
  {
    FlattenLength(files);
    var image := Flatten(files);
    if image != [] {
      ChunkCount(image, pieceLength);
    } else {
      DivModUnique(pieceLength - 1, pieceLength, 0, pieceLength - 1);
    }
    assert WrittenMeta(sha1, files, pieceLength, single).PieceCount() == |Chunks(image, pieceLength)|;
  }
}
