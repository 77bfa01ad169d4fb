/** The torrent's layout: pieces over one byte string, and the byte string over one or more files. */
module Files {
  import opened Bytes

  type Digest = seq<byte>

  /** What the torrent file fixes for a whole transfer. SHA-1 is an uninterpreted function of the data. */
  datatype Meta = Meta(sha1: Bytes -> Digest, pieceLength: nat, digests: seq<Digest>, fileLengths: seq<nat>, single: bool)
  {
    function Length(): nat {
      Sum(fileLengths)
    }

    function PieceCount(): nat {
      |digests|
    }

    /** `Torrent::piece_length(id)`: only the last piece might be shorter. */
    function PieceLengthOf(id: nat): nat
      requires pieceLength > 0
    {
      if id == PieceCount() - 1 then
        var mod := Length() % pieceLength;
        if mod != 0 then mod else pieceLength
      else pieceLength
    }

    /** The 32-bit product that the program uses as the position of a piece. */
    function Offset(id: nat): nat {
      U32(id * pieceLength)
    }

    /** What the program relies on and does not check. */
    ghost predicate WellFormed() {
      && pieceLength > 0
      && (single ==> |fileLengths| == 1)
      && Length() > 0
      && PieceCount() == (Length() + pieceLength - 1) / pieceLength
      && PieceCount() * pieceLength < TWO_TO_THE_32
      && sha1([]) !in digests
    }
  }

  function Sum(s: seq<nat>): nat {
    if s == [] then 0 else s[0] + Sum(s[1..])
  }

  lemma {:induction false} SumSnoc(s: seq<nat>, x: nat)
    ensures Sum(s + [x]) == Sum(s) + x
  {
    if s == [] {
    } else {
      assert (s + [x])[1..] == s[1..] + [x];
      SumSnoc(s[1..], x);
    }
  }

  lemma MulMonotone(a: nat, b: nat, k: nat)
    requires a <= b
    ensures a * k <= b * k
  {}

  /** A 32-bit product is the mathematical one exactly when the latter is below 2^32. */
  lemma OffsetExactIff(meta: Meta, id: nat)
    ensures meta.Offset(id) == id * meta.pieceLength <==> id * meta.pieceLength < TWO_TO_THE_32
  {}

  /** The pieces tile the byte string: each starts where the one before ends, and the last ends at the end. */
  lemma PieceBounds(meta: Meta, id: nat)
    requires meta.WellFormed() && id < meta.PieceCount()
    ensures meta.Offset(id) == id * meta.pieceLength
    ensures 0 < meta.PieceLengthOf(id) <= meta.pieceLength
    ensures id * meta.pieceLength + meta.PieceLengthOf(id) <= meta.Length()
    ensures id * meta.pieceLength + meta.PieceLengthOf(id)
         == if id + 1 < meta.PieceCount() then (id + 1) * meta.pieceLength else meta.Length()
  {
    var pl, n, len := meta.pieceLength, meta.PieceCount(), meta.Length();
    CeilBounds(len, pl);
    assert (n - 1) * pl < len <= n * pl;
    assert n * pl == (n - 1) * pl + pl;
    if id + 1 < n {
      assert (id + 1) * pl == id * pl + pl;
      MulMonotone(id + 1, n - 1, pl);
    } else {
      LastPiece(len, pl, n);
    }
    MulMonotone(id, n - 1, pl);
  }

  lemma CeilBounds(len: nat, pl: nat)
    requires len > 0 && pl > 0
    ensures var n := (len + pl - 1) / pl; n > 0 && (n - 1) * pl < len <= n * pl
  {
    var n := (len + pl - 1) / pl;
    var r := (len + pl - 1) % pl;
    assert len + pl - 1 == n * pl + r;
    if n == 0 {
      assert false;
    }
    assert n * pl == (n - 1) * pl + pl;
  }

  lemma LastPiece(len: nat, pl: nat, n: nat)
    requires pl > 0 && n > 0 && (n - 1) * pl < len <= n * pl
    ensures (n - 1) * pl + (if len % pl != 0 then len % pl else pl) == len
  {
    var tail := len - (n - 1) * pl;
    assert n * pl == (n - 1) * pl + pl;
    if tail == pl {
      DivModUnique(len, pl, n, 0);
    } else {
      DivModUnique(len, pl, n - 1, tail);
    }
  }

  lemma DivModUnique(x: nat, d: nat, q: nat, r: nat)
    requires x == q * d + r && r < d
    ensures x / d == q && x % d == r
  {
    var q', r' := x / d, x % d;
    assert x == q' * d + r';
    if q < q' {
      MulStep(q, q', d);
    } else if q' < q {
      MulStep(q', q, d);
    }
  }

  lemma MulStep(a: nat, b: nat, k: nat)
    requires a < b
    ensures a * k + k <= b * k
  {
    MulMonotone(a + 1, b, k);
    assert (a + 1) * k == a * k + k;
  }

  // ----- one byte string over several files -----

  function Lengths(files: seq<Bytes>): seq<nat> {
    seq(|files|, i requires 0 <= i < |files| => |files[i]|)
  }

  /** Position of the first byte of file `i`. */
  function Before(lengths: seq<nat>, i: nat): nat
    requires i <= |lengths|
  {
    Sum(lengths[..i])
  }

  lemma BeforeStep(lengths: seq<nat>, i: nat)
    requires i < |lengths|
    ensures Before(lengths, i + 1) == Before(lengths, i) + lengths[i]
  {
    assert lengths[..i + 1] == lengths[..i] + [lengths[i]];
    SumSnoc(lengths[..i], lengths[i]);
  }

  lemma {:induction false} BeforeMonotone(lengths: seq<nat>, i: nat, j: nat)
    requires i <= j <= |lengths|
    ensures Before(lengths, i) <= Before(lengths, j) <= Sum(lengths)
    decreases |lengths| - i
  {
    if i < j {
      BeforeStep(lengths, i);
      BeforeMonotone(lengths, i + 1, j);
    } else if i < |lengths| {
      BeforeStep(lengths, i);
      BeforeMonotone(lengths, i + 1, i + 1);
    } else {
      assert lengths[..i] == lengths;
    }
  }

  lemma {:induction false} FlattenLength(files: seq<Bytes>)
    ensures |Flatten(files)| == Sum(Lengths(files))
  {
    if files != [] {
      assert Lengths(files)[1..] == Lengths(files[1..]);
      FlattenLength(files[1..]);
    }
  }

  /** The byte string around file `i`. */
  lemma FlattenAround(files: seq<Bytes>, i: nat)
    requires i < |files|
    ensures Flatten(files) == Flatten(files[..i]) + files[i] + Flatten(files[i + 1..])
    ensures |Flatten(files[..i])| == Before(Lengths(files), i)
  {
    var a, b := files[..i], files[i + 1..];
    assert files == a + ([files[i]] + b);
    FlattenAppend(a, [files[i]] + b);
    assert ([files[i]] + b)[1..] == b;
    FlattenLength(a);
    assert Lengths(a) == Lengths(files)[..i];
  }

  /** Overwriting part of one file overwrites the same bytes of the whole, and nothing else. */
  lemma OverwriteInFile(files: seq<Bytes>, i: nat, off: nat, d: Bytes)
    requires i < |files| && off + |d| <= |files[i]|
    ensures var at := Before(Lengths(files), i) + off;
            && at + |d| <= |Flatten(files)|
            && Flatten(files[i := Overwrite(files[i], off, d)]) == Overwrite(Flatten(files), at, d)
    ensures Lengths(files[i := Overwrite(files[i], off, d)]) == Lengths(files)
  {
    var files' := files[i := Overwrite(files[i], off, d)];
    FlattenAround(files, i);
    FlattenAround(files', i);
    assert files'[..i] == files[..i] && files'[i + 1..] == files[i + 1..];
    hide Flatten, Overwrite, Before;
    OverwriteMiddle(Flatten(files[..i]), files[i], Flatten(files[i + 1..]), off, d);
  }

  lemma OverwriteMiddle(a: Bytes, f: Bytes, b: Bytes, off: nat, d: Bytes)
    requires off + |d| <= |f|
    ensures a + Overwrite(f, off, d) + b == Overwrite(a + f + b, |a| + off, d)
    ensures |Overwrite(f, off, d)| == |f|
  {
    var s, at := a + f + b, |a| + off;
    assert s[..at] == a + f[..off];
    assert s[at + |d|..] == f[off + |d|..] + b;
  }

  lemma ReadInFile(files: seq<Bytes>, i: nat, off: nat, n: nat)
    requires i < |files| && off + n <= |files[i]|
    ensures var at := Before(Lengths(files), i) + off;
            && at + n <= |Flatten(files)|
            && files[i][off..off + n] == Flatten(files)[at..at + n]
  {
    FlattenAround(files, i);
  }

  /** Two overwrites next to each other are one. */
  lemma OverwriteTwice(s: Bytes, at: nat, a: Bytes, b: Bytes)
    requires at + |a| + |b| <= |s|
    ensures Overwrite(Overwrite(s, at, a), at + |a|, b) == Overwrite(s, at, a + b)
  {}

  /** One round of the write loop. */
  lemma ChunkWritten(files: seq<Bytes>, fi: nat, off: nat, was: Bytes, at: nat, data: Bytes, done: nat, len: nat)
    requires fi < |files| && off + len <= |files[fi]| && done + len <= |data| && at + |data| <= |was|
    requires Flatten(files) == Overwrite(was, at, data[..done])
    requires at + done == Before(Lengths(files), fi) + off
    ensures var files' := files[fi := Overwrite(files[fi], off, data[done..done + len])];
            Lengths(files') == Lengths(files) && Flatten(files') == Overwrite(was, at, data[..done + len])
  {
    var part := data[done..done + len];
    OverwriteInFile(files, fi, off, part);
    OverwriteTwice(was, at, data[..done], part);
    assert data[..done] + part == data[..done + len];
  }

  /** One round of a read loop. */
  lemma ChunkRead(files: seq<Bytes>, fi: nat, off: nat, len: nat, data: Bytes, at: nat, done: nat)
    requires fi < |files| && off + len <= |files[fi]| && done + len <= |data|
    requires at + done == Before(Lengths(files), fi) + off && at + done <= |Flatten(files)|
    requires data[..done] == Flatten(files)[at..at + done]
    ensures at + done + len <= |Flatten(files)|
    ensures Overwrite(data, done, files[fi][off..off + len])[..done + len] == Flatten(files)[at..at + done + len]
  {
    var image := Flatten(files);
    ReadInFile(files, fi, off, len);
    assert image[at..at + done] + image[at + done..at + done + len] == image[at..at + done + len];
    assert Overwrite(data, done, files[fi][off..off + len])[..done + len] == data[..done] + files[fi][off..off + len];
  }

  /** The part of the image that belongs to a piece. */
  function PieceSlice(meta: Meta, image: Bytes, id: nat): Bytes
    requires meta.WellFormed() && id < meta.PieceCount() && |image| == meta.Length()
  {
    PieceBounds(meta, id);
    image[id * meta.pieceLength..id * meta.pieceLength + meta.PieceLengthOf(id)]
  }

  lemma PieceLengthIsMin(meta: Meta, id: nat)
    requires meta.WellFormed() && id < meta.PieceCount()
    ensures meta.Offset(id) == id * meta.pieceLength <= meta.Length()
    ensures var tail := meta.Length() - id * meta.pieceLength;
            meta.PieceLengthOf(id) == if meta.pieceLength <= tail then meta.pieceLength else tail
  {
    PieceBounds(meta, id);
  }

  /** A whole piece written at its place is its slice, and no other slice changes. */
  lemma SliceAfterWrite(meta: Meta, image: Bytes, id: nat, data: Bytes, i: nat)
    requires meta.WellFormed() && |image| == meta.Length() && id < meta.PieceCount() && i < meta.PieceCount()
    requires |data| == meta.PieceLengthOf(id)
    ensures meta.Offset(id) + |data| <= |image| && |Overwrite(image, meta.Offset(id), data)| == meta.Length()
    ensures PieceSlice(meta, Overwrite(image, meta.Offset(id), data), i)
         == if i == id then data else PieceSlice(meta, image, i)
  {
    PieceBounds(meta, id);
    PieceBounds(meta, i);
    if i < id {
      MulStep(i, id, meta.pieceLength);
    } else if id < i {
      MulStep(id, i, meta.pieceLength);
    }
    var at := i * meta.pieceLength;
    OverwriteSlices(image, meta.Offset(id), data, at, at + meta.PieceLengthOf(i));
  }

  /** Where a position falls: the file, the offset in it and how much of the file is left. */
  datatype Place = Place(file: nat, offset: int, left: int)

  class Disk {
    const meta: Meta
    var files: seq<Bytes>

    ghost predicate Valid()
      reads this
    {
      meta.WellFormed() && Lengths(files) == meta.fileLengths
    }

    ghost function Image(): Bytes
      reads this
    {
      Flatten(files)
    }

    constructor (meta: Meta, files: seq<Bytes>)
      requires meta.WellFormed() && Lengths(files) == meta.fileLengths
      ensures Valid() && this.meta == meta && this.files == files
    {
      this.meta := meta;
      this.files := files;
    }

    /** `Torrent::file_at_pos`. A multi-file torrent throws for a position past the end. */
    method FileAtPos(pos: nat) returns (r: Option<Place>)
      requires Valid()
      ensures !meta.single ==> (r.Some? <==> pos < meta.Length())
      ensures meta.single ==> r == Some(Place(0, pos, meta.Length() - pos))
      ensures r.Some? && pos < meta.Length() ==>
                && r.value.file < |files| && 0 <= r.value.offset < |files[r.value.file]|
                && pos == Before(meta.fileLengths, r.value.file) + r.value.offset
                && r.value.left == |files[r.value.file]| - r.value.offset
    {
      if meta.single {
        assert meta.fileLengths == [|files[0]|];
        return Some(Place(0, pos, meta.Length() - pos));
      }
      var cpos := 0;
      for i := 0 to |meta.fileLengths|
        invariant cpos == Before(meta.fileLengths, i) <= pos
      {
        BeforeStep(meta.fileLengths, i);
        if pos < cpos + meta.fileLengths[i] {
          BeforeMonotone(meta.fileLengths, i + 1, |meta.fileLengths|);
          return Some(Place(i, pos - cpos, cpos + meta.fileLengths[i] - pos));
        }
        cpos := cpos + meta.fileLengths[i];
      }
      assert meta.fileLengths[..|meta.fileLengths|] == meta.fileLengths;
      return None;
    }

    /** `SingleTorrentDestination::writePiece`. */
    method WritePieceSingle(id: nat, data: Bytes)
      requires Valid() && meta.single && meta.Offset(id) + |data| <= meta.Length()
      modifies this`files
      ensures Valid()
      ensures |old(Image())| == meta.Length()
      ensures Image() == Overwrite(old(Image()), meta.Offset(id), data)
    {
      FlattenLength(files);
      assert meta.fileLengths == [|files[0]|] && files == [files[0]];
      OverwriteInFile(files, 0, meta.Offset(id), data);
      files := files[0 := Overwrite(files[0], meta.Offset(id), data)];
    }

    /** `MultiTorrentDestination::writePiece`: the piece might be spread over more than one file. */
    method WritePieceMulti(id: nat, data: Bytes)
      requires Valid() && !meta.single && meta.Offset(id) + |data| <= meta.Length()
      modifies this`files
      ensures Valid()
      ensures |old(Image())| == meta.Length()
      ensures Image() == Overwrite(old(Image()), meta.Offset(id), data)
    {
      FlattenLength(files);
      var remaining := |data|;
      assert data[..|data|] == data;
      ghost var was := Image();
      while remaining > 0
        invariant 0 <= remaining <= |data|
        invariant Valid() && Image() == Overwrite(was, meta.Offset(id), data[..|data| - remaining])
      {
        var len := WriteChunk(id, data, |data| - remaining, was);
        remaining := remaining - len;
      }
    }

    /** One round of the loop: as much of the data as the file takes at its position. */
    method WriteChunk(id: nat, data: Bytes, done: nat, ghost was: Bytes) returns (len: int)
      requires Valid() && !meta.single && |was| == meta.Length() && meta.Offset(id) + |data| <= |was| && done < |data|
      requires Image() == Overwrite(was, meta.Offset(id), data[..done])
      modifies this`files
      ensures Valid() && 0 < len <= |data| - done
      ensures Image() == Overwrite(was, meta.Offset(id), data[..done + len])
    {
      var remaining := |data| - done;
      var pos := meta.Offset(id) + done;
      var place := FileAtPos(pos);
      var Place(fi, offset, left) := place.value;
      len := if remaining <= left then remaining else left;
      var part := data[done..done + len];
      ChunkWritten(files, fi, offset, was, meta.Offset(id), data, done, len);
      files := files[fi := Overwrite(files[fi], offset, part)];
    }

    /** The bytes land at the piece's 32-bit position, across file boundaries, and no file changes length. */
    method WritePiece(id: nat, data: Bytes)
      requires Valid() && meta.Offset(id) + |data| <= meta.Length()
      modifies this`files
      ensures Valid()
      ensures |old(Image())| == meta.Length()
      ensures Image() == Overwrite(old(Image()), meta.Offset(id), data)
    {
      if meta.single {
        WritePieceSingle(id, data);
      } else {
        WritePieceMulti(id, data);
      }
    }

    /** `FileWriter::read_block`. */
    method ReadBlock(offset: nat, length: nat) returns (data: Bytes)
      requires Valid() && offset + length <= meta.Length()
      ensures |Image()| == meta.Length() && data == Image()[offset..offset + length]
    {
      FlattenLength(files);
      var remaining := length;
      data := Zeros(length);
      var cpos, dpos := offset, 0;
      while remaining > 0
        invariant 0 <= remaining <= length && dpos == length - remaining && cpos == offset + dpos
        invariant |data| == length && data[..dpos] == Image()[offset..offset + dpos]
      {
        var place := FileAtPos(cpos);
        var Place(fi, off, left) := place.value;
        var len := if remaining <= left then remaining else left;
        if meta.single {
          assert files == [files[0]];
        }
        ChunkRead(files, fi, off, len, data, offset, dpos);
        data := Overwrite(data, dpos, files[fi][off..off + len]);
        cpos := cpos + len;
        remaining := remaining - len;
        dpos := dpos + len;
      }
      assert data[..dpos] == data;
    }

    /** The bytes that `verify_piece_single_file` hashes. */
    method ReadPieceSingle(id: nat) returns (data: Bytes)
      requires Valid() && meta.single && id < meta.PieceCount()
      ensures |Image()| == meta.Length() && data == PieceSlice(meta, Image(), id)
    {
      FlattenLength(files);
      PieceLengthIsMin(meta, id);
      var offset := meta.Offset(id);
      assert files == [files[0]];
      var tail := |files[0]| - offset;
      var len := if meta.pieceLength <= tail then meta.pieceLength else tail;
      return files[0][offset..offset + len];
    }

    /** The bytes that `verify_piece_multi_file` hashes: the last piece might not be filled. */
    method ReadPieceMulti(id: nat) returns (data: Bytes)
      requires Valid() && !meta.single && id < meta.PieceCount()
      ensures |Image()| == meta.Length() && data == PieceSlice(meta, Image(), id)
    {
      FlattenLength(files);
      PieceLengthIsMin(meta, id);
      var pos := meta.Offset(id);
      data := Zeros(meta.pieceLength);
      var remaining := meta.pieceLength;
      var gpos, ppos := pos, 0;
      var globalLen := meta.Length();
      while remaining > 0 && gpos < globalLen
        invariant 0 <= remaining && ppos == meta.pieceLength - remaining && gpos == pos + ppos <= globalLen
        invariant |data| == meta.pieceLength && data[..ppos] == Image()[pos..gpos]
      {
        var place := FileAtPos(gpos);
        var Place(fi, offset, left) := place.value;
        var len := if left <= remaining then left else remaining;
        ChunkRead(files, fi, offset, len, data, pos, ppos);
        data := Overwrite(data, ppos, files[fi][offset..offset + len]);
        gpos := gpos + len;
        ppos := ppos + len;
        remaining := remaining - len;
      }
      data := data[..|data| - remaining];
    }
  }
}
