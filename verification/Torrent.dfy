/** The torrent object, its pieces, the write queue and the startup verification, as objects updated in place. */
module Torrents {
  import opened Bytes
  import opened Bitfields
  import opened Files
  import opened Pieces
  import opened Transfer
  import opened Runs
  import opened Scheduling
  import opened Accounting
  import opened Startup
  import opened Serving

  datatype StartupError = BothNamesExist | Incomplete

  /** The queue of pieces to write to disk. */
  class FileWriter {
    var queue: seq<Piece>

    constructor ()
      ensures queue == []
    {
      queue := [];
    }

    method Add(piece: Piece)
      modifies this
      ensures queue == old(queue) + [piece]
    {
      queue := queue + [piece];
    }

    /** One round of the writer thread, once the queue is not empty. */
    method WriteNextPiece(torrent: Torrent)
      requires torrent.writer == this && torrent.Valid() && queue != []
      modifies torrent, this, torrent.disk`files, torrent.Objects()
      ensures torrent.Valid() && torrent.abs == WriteNext(torrent.disk.meta, old(torrent.abs))
      ensures torrent.history == Extended(old(torrent.history), Writing, torrent.abs)
    {
      ghost var was := torrent.abs;
      WriteNextPieceLocked(torrent);
      torrent.Record(Writing, was);
    }

    method WriteNextPieceLocked(torrent: Torrent)
      requires torrent.writer == this && torrent.Matches() && ObjectsOk(torrent.disk.meta, torrent.abs) && queue != []
      modifies torrent`abs, torrent`clientPieces, torrent`activePieces, this, torrent.disk`files, torrent.Objects()
      ensures torrent.Matches() && torrent.abs == WriteNext(torrent.disk.meta, old(torrent.abs))
    {
      var meta := torrent.disk.meta;
      var piece := Pop(torrent);
      DequeueObjectsOk(meta, old(torrent.abs));
      hide Torrent.Matches, ObjectsOk, ResetPiece, WriteBack;
      var sha := meta.sha1(piece.data);
      if piece.id >= meta.PieceCount() {
        return;
      }
      if sha != meta.digests[piece.id] {
        torrent.ResetPiece(piece.id);
        return;
      }
      if |piece.data| != piece.size {
        return;
      }
      WriteOut(torrent, piece);
    }

    method Pop(torrent: Torrent) returns (piece: Piece)
      requires torrent.writer == this && torrent.Matches() && ObjectsOk(torrent.disk.meta, torrent.abs) && queue != []
      modifies torrent`abs, this
      ensures torrent.Matches() && old(torrent.abs).queue != [] && piece == old(torrent.abs).queue[0]
      ensures piece in torrent.abs.heap && piece.State() == torrent.abs.heap[piece]
      ensures torrent.abs == old(torrent.abs).(queue := old(torrent.abs).queue[1..])
    {
      piece := queue[0];
      queue := queue[1..];
      torrent.abs := torrent.abs.(queue := torrent.abs.queue[1..]);
    }

    /** The piece goes to the files and leaves memory. */
    method WriteOut(torrent: Torrent, piece: Piece)
      requires torrent.writer == this && torrent.Matches() && ObjectsOk(torrent.disk.meta, torrent.abs)
      requires piece in torrent.abs.heap && piece.id < torrent.disk.meta.PieceCount() && |piece.data| == piece.size
      modifies torrent`abs, torrent.disk`files, piece
      ensures torrent.Matches() && old(torrent.abs).heap[piece] == old(piece.State())
      ensures torrent.abs == WriteBack(torrent.disk.meta, old(torrent.abs), piece)
    {
      PieceBounds(torrent.disk.meta, piece.id);
      assert torrent.abs.heap[piece].Ok();
      hide ObjectsOk, PieceState.Ok, PieceState.SetWritten;
      torrent.disk.WritePiece(piece.id, piece.data);
      piece.SetPieceWritten();
      torrent.abs := WriteBack(torrent.disk.meta, torrent.abs, piece);
    }
  }

  class Torrent {
    const disk: Disk
    const writer: FileWriter
    var clientPieces: Bits
    var activePieces: map<nat, Piece>

    /** The abstract state; its heap holds every piece object ever made for this torrent. */
    ghost var abs: Sys<Piece>
    /** The run that led to it. */
    ghost var history: Run<Piece>

    ghost function Objects(): set<Piece>
      reads this`abs
    {
      abs.heap.Keys
    }

    /** The real fields are those of the abstract state. */
    ghost predicate Matches()
      reads this`abs, this`clientPieces, this`activePieces, disk, writer, Objects()
    {
      && disk.Valid() && disk.Image() == abs.disk
      && writer.queue == abs.queue
      && clientPieces == abs.client
      && activePieces == abs.active
      && (forall p :: p in abs.heap ==> p.State() == abs.heap[p])
    }

    /** The objects are in a state that a run of the transition system reaches. */
    ghost predicate Valid()
      reads this, disk, writer, Objects()
    {
      Matches() && Inv(disk.meta, abs) && Reached(disk.meta, history, abs)
    }

    constructor (disk: Disk, writer: FileWriter)
      requires disk.Valid() && writer.queue == []
      ensures Matches() && Blank(disk.meta, abs) && Valid()
      ensures this.disk == disk && this.writer == writer
    {
      this.disk := disk;
      this.writer := writer;
      clientPieces := [];
      activePieces := map[];
      new;
      FlattenLength(disk.files);
      abs := Sys(map[], map[], [], [], disk.Image());
      StartHere();
    }

    /** The step from `was` to the present state joins the run. */
    ghost method Record(l: Label<Piece>, was: Sys<Piece>)
      requires Reached(disk.meta, history, was) && Inv(disk.meta, was) && Step(disk.meta, was, l, abs)
      modifies this`history
      ensures Reached(disk.meta, history, abs) && Inv(disk.meta, abs)
      ensures history == Extended(old(history), l, abs)
      ensures AllRequests(disk.meta, history) == AllRequests(disk.meta, old(history)) + Log(Sent(disk.meta, was, l))
    {
      StepKeepsInv(disk.meta, was, l, abs);
      ExtendedIsRun(disk.meta, history, l, abs);
      ExtendedRequests(disk.meta, history, l, abs);
      history := Extended(history, l, abs);
    }

    /** Every block requested so far, from whichever peer. */
    ghost function Requests(): seq<BlockRequest>
      requires Valid()
      reads this, disk, writer, Objects()
    {
      AllRequests(disk.meta, history)
    }

    method PieceDone(piece: Piece)
      requires Matches()
      modifies this`abs, this`clientPieces, writer
      ensures Matches()
      ensures abs == old(abs).(client := WithBit(old(clientPieces), piece.id, true), queue := old(writer.queue) + [piece])
    {
      hide Disk.Valid, WithBit;
      clientPieces := WithBit(clientPieces, piece.id, true);
      writer.Add(piece);
      abs := abs.(client := clientPieces, queue := writer.queue);
    }

    /** Store a block; a block that `Piece::set_block` refuses throws. */
    method SetBlock(pieceId: nat, offset: nat, data: Bytes) returns (r: Result<bool, PieceError>)
      requires Valid()
      modifies this, writer, Objects()
      ensures Valid() && ObjectsOk(disk.meta, old(abs)) && abs == PutBlock(disk.meta, old(abs), pieceId, offset, data)
      ensures history == Extended(old(history), Receiving(pieceId, offset, data), abs)
      ensures Objects() == old(Objects()) && Requests() == old(Requests())
      ensures var error := Refusal(disk.meta, old(abs), pieceId, offset, |data|);
              r == if error.Some? then Err(error.value) else Ok(pieceId in old(activePieces))
    {
      ghost var was := abs;
      hide Inv, ObjectsOk, IsRun, AllRequests, Torrent.Matches, PutBlock, Refusal;
      InvObjectsOk(disk.meta, was);
      r := SetBlockLocked(pieceId, offset, data);
      Record(Receiving(pieceId, offset, data), was);
    }

    method SetBlockLocked(pieceId: nat, offset: nat, data: Bytes) returns (r: Result<bool, PieceError>)
      requires Matches() && ObjectsOk(disk.meta, abs)
      modifies this`abs, this`clientPieces, writer, Objects()
      ensures Matches() && abs == PutBlock(disk.meta, old(abs), pieceId, offset, data) && Objects() == old(Objects())
      ensures var error := Refusal(disk.meta, old(abs), pieceId, offset, |data|);
              r == if error.Some? then Err(error.value) else Ok(pieceId in old(activePieces))
    {
      assert activePieces == abs.active && clientPieces == abs.client && writer.queue == abs.queue;
      if pieceId !in activePieces {
        return Ok(false);
      }
      var piece := activePieces[pieceId];
      assert piece in abs.heap && abs.heap[piece].Ok() && piece.id == pieceId;
      hide Torrent.Matches, ObjectsOk, PieceState.Ok, PieceState.StoreBlock, PieceState.BlockError, PieceState.Complete, WithBit;
      var done := StoreInPiece(piece, offset, data);
      if done.Err? {
        return Err(done.error);
      }
      if done.value {
        PieceDone(piece);
      }
      return Ok(true);
    }

    /** The block goes to the piece object, and its state to the abstract one. */
    method StoreInPiece(piece: Piece, offset: nat, data: Bytes) returns (done: Result<bool, PieceError>)
      requires Matches() && piece in abs.heap && abs.heap[piece].Ok()
      modifies this`abs, piece
      ensures Matches() && clientPieces == abs.client && writer.queue == abs.queue
      ensures var p := old(abs).heap[piece];
              var error := p.BlockError(offset, |data|);
              if error.Some? then done == Err(error.value) && abs == old(abs)
              else
                && done == Ok(p.StoreBlock(offset, data).Complete())
                && abs == old(abs).(heap := old(abs).heap[piece := p.StoreBlock(offset, data)])
    {
      hide PieceState.Ok, PieceState.StoreBlock, PieceState.BlockError, PieceState.Complete, Disk.Valid;
      done := piece.SetBlock(offset, data);
      abs := abs.(heap := abs.heap[piece := piece.State()]);
    }

    /** The active piece for an id, made on demand. */
    method ActivePiece(id: nat, create: bool) returns (piece: Piece?)
      requires Valid()
      modifies this
      ensures Valid() && clientPieces == old(clientPieces) && fresh(Objects() - old(Objects()))
      ensures Requests() == old(Requests())
      ensures piece == null <==> !create && id !in old(activePieces)
      ensures piece == null || id in old(activePieces) ==> abs == old(abs) && history == old(history)
      ensures piece != null ==>
                && id in activePieces && activePieces[id] == piece
                && abs == Activate(disk.meta, old(abs), id, piece)
                && (id !in old(activePieces) ==>
                      fresh(piece) && history == Extended(old(history), Activating(id, piece), abs))
    {
      if id !in activePieces {
        if !create {
          return null;
        }
        ghost var was := abs;
        piece := new Piece(id, disk.meta.PieceLengthOf(id));
        activePieces := activePieces[id := piece];
        abs := Activate(disk.meta, abs, id, piece);
        Record(Activating(id, piece), was);
        return;
      }
      return activePieces[id];
    }

    /** `next_offset(true)` on an active piece: the offset of the block to request next. */
    method MarkNextOffset(piece: Piece) returns (offset: Option<nat>)
      requires Valid() && piece.id in activePieces && activePieces[piece.id] == piece
      modifies this, piece
      ensures Valid() && abs == Mark(disk.meta, old(abs), piece.id) && history == Extended(old(history), Marking(piece.id), abs)
      ensures activePieces == old(activePieces) && clientPieces == old(clientPieces) && Objects() == old(Objects())
      ensures var next := old(piece.State().NextBlock());
              && offset == (if next.None? then None else Some(next.value * BLOCK_SIZE))
              && Requests() == old(Requests()) + if next.None? then [] else [BlockRequest(piece.id, next.value)]
    {
      ghost var was := abs;
      assert ObjectsOk(disk.meta, was) && was.heap[piece] == piece.State();
      hide Inv, ObjectsOk, IsRun, AllRequests, Torrent.Matches;
      offset := MarkNextOffsetLocked(piece);
      Record(Marking(piece.id), was);
    }

    method MarkNextOffsetLocked(piece: Piece) returns (offset: Option<nat>)
      requires Matches() && ObjectsOk(disk.meta, abs) && piece.id in activePieces && activePieces[piece.id] == piece
      modifies this`abs, piece
      ensures Matches() && abs == Mark(disk.meta, old(abs), piece.id)
      ensures piece in old(abs).heap && Objects() == old(Objects())
      ensures var next := old(piece.State().NextBlock());
              offset == if next.None? then None else Some(next.value * BLOCK_SIZE)
    {
      offset := piece.NextOffset(true);
      abs := Mark(disk.meta, abs, piece.id);
    }

    /** `retry_blocks` on an active piece; `timedOut` stands for the 30 second test. */
    method RetryPiece(id: nat, timedOut: bool) returns (retry: nat)
      requires Valid() && id in activePieces
      modifies this, activePieces[id]
      ensures Valid() && abs == Transfer.RetryPiece(disk.meta, old(abs), id, timedOut)
      ensures history == Extended(old(history), Retrying(id, timedOut), abs)
      ensures Objects() == old(Objects()) && Requests() == old(Requests())
      ensures retry == old(abs).heap[old(abs).active[id]].RetryCount(timedOut)
    {
      ghost var was := abs;
      hide Inv, ObjectsOk, IsRun, AllRequests, Torrent.Matches;
      InvObjectsOk(disk.meta, was);
      retry := RetryPieceLocked(id, timedOut);
      Record(Retrying(id, timedOut), was);
    }

    method RetryPieceLocked(id: nat, timedOut: bool) returns (retry: nat)
      requires Matches() && ObjectsOk(disk.meta, abs) && id in activePieces
      modifies this`abs, activePieces[id]
      ensures Matches() && abs == Transfer.RetryPiece(disk.meta, old(abs), id, timedOut)
      ensures id in old(abs).active && old(abs).active[id] in old(abs).heap && Objects() == old(Objects())
      ensures retry == old(abs).heap[old(abs).active[id]].RetryCount(timedOut)
    {
      retry := activePieces[id].RetryBlocks(timedOut);
      abs := Transfer.RetryPiece(disk.meta, abs, id, timedOut);
    }

    /** `Piece::get_block`: from memory, or from the files once the piece is written. */
    method GetBlock(piece: Piece, offset: nat, length: nat) returns (served: Served)
      requires disk.Valid() && piece.State().Ok()
      requires piece.size == disk.meta.PieceLengthOf(piece.id) && (piece.written ==> piece.id < disk.meta.PieceCount())
      ensures |disk.Image()| == disk.meta.Length()
      ensures served == Serving.GetBlock(disk.meta, piece.State(), disk.Image(), offset, length)
    {
      FlattenLength(disk.files);
      if offset % BLOCK_SIZE != 0 || offset >= piece.size {
        return Refused;
      }
      if !piece.done[offset / BLOCK_SIZE] {
        return NotDone;
      }
      var len := LengthOf(length);
      if !piece.written {
        if offset + len > piece.size {
          return NoAnswer;
        }
        return Served(piece.data[offset..offset + len]);
      }
      var fileOffset := U32(disk.meta.Offset(piece.id) + offset);
      if fileOffset + len > disk.meta.Length() {
        return NoAnswer;
      }
      var bytes := disk.ReadBlock(fileOffset, len);
      return Served(bytes);
    }

    method InitClientPieces(count: nat)
      requires Valid()
      modifies this
      ensures Valid() && abs == InitClient(old(abs), count)
      ensures Objects() == old(Objects()) && Requests() == old(Requests())
      ensures history == Extended(old(history), Sizing(count), abs)
    {
      ghost var was := abs;
      if |clientPieces| == 0 {
        clientPieces := NoBits(count);
      }
      abs := InitClient(abs, count);
      Record(Sizing(count), was);
    }

    /** Reset one piece for re-transfer: whatever object is active for the id. */
    method ResetPiece(id: nat)
      requires Matches() && ObjectsOk(disk.meta, abs)
      modifies this`abs, this`clientPieces, this`activePieces, Objects()
      ensures Matches() && abs == Transfer.ResetPiece(disk.meta, old(abs), id)
    {
      ghost var was := abs;
      abs := Transfer.ResetPiece(disk.meta, abs, id);
      if id in activePieces {
        activePieces[id].ResetPiece();
        clientPieces := WithBit(clientPieces, id, false);
        activePieces := activePieces - {id};
      }
    }

    /** The bytes of a piece as the files hold them. */
    method PieceOnDisk(id: nat) returns (data: Bytes)
      requires disk.Valid() && id < disk.meta.PieceCount()
      ensures |disk.Image()| == disk.meta.Length() && data == PieceSlice(disk.meta, disk.Image(), id)
    {
      if disk.meta.single {
        data := disk.ReadPieceSingle(id);
      } else {
        data := disk.ReadPieceMulti(id);
      }
    }

    /** `verify_piece_single_file` and `verify_piece_multi_file`: is the piece there? */
    method VerifyPiece(id: nat, ghost seen: set<nat>) returns (found: bool)
      requires Matches() && VerifiedFor(disk.meta, abs, seen) && id !in seen && id < disk.meta.PieceCount()
      modifies this`abs, this`clientPieces, this`activePieces
      ensures Matches() && VerifiedFor(disk.meta, abs, seen + {id}) && abs.disk == old(abs.disk)
      ensures found <==> SliceGood(disk.meta, abs.disk, id)
    {
      var data := PieceOnDisk(id);
      found := disk.meta.sha1(data) == disk.meta.digests[id];
      if found {
        MarkFound(id, seen);
      } else {
        VisitPasses(disk.meta, abs, seen, id);
      }
    }

    method MarkFound(id: nat, ghost seen: set<nat>)
      requires Matches() && VerifiedFor(disk.meta, abs, seen) && id !in seen && SliceGood(disk.meta, abs.disk, id)
      modifies this`abs, this`clientPieces, this`activePieces
      ensures Matches() && VerifiedFor(disk.meta, abs, seen + {id}) && abs.disk == old(abs.disk)
    {
      assert ObjectsOk(disk.meta, abs);
      hide SliceGood, VerifiedFor, Torrent.Matches, Found;
      ghost var was := abs;
      ghost var piece := PutFound(id);
      VisitFinds(disk.meta, was, seen, id, piece);
    }

    /** The piece is marked, active and written. */
    method PutFound(id: nat) returns (ghost piece: Piece)
      requires Matches() && disk.meta.WellFormed()
      modifies this`abs, this`clientPieces, this`activePieces
      ensures Matches() && piece !in old(abs).heap && abs == Found(disk.meta, old(abs), id, piece) && abs.disk == old(abs.disk)
    {
      hide PieceState.SetWritten, NewPiece, WithBit, Disk.Valid;
      clientPieces := WithBit(clientPieces, id, true);
      piece := InsertWritten(id);
      abs := Found(disk.meta, abs, id, piece);
    }

    method InsertWritten(id: nat) returns (piece: Piece)
      requires disk.meta.WellFormed()
      modifies this`activePieces
      ensures fresh(piece) && activePieces == old(activePieces)[id := piece]
      ensures piece.State() == NewPiece(id, disk.meta.PieceLengthOf(id)).SetWritten()
    {
      PieceSizePositive(disk.meta, id);
      NewPieceOk(id, disk.meta.PieceLengthOf(id));
      piece := new Piece(id, disk.meta.PieceLengthOf(id));
      activePieces := activePieces[id := piece];
      piece.SetPieceWritten();
    }

    /** The visits of `verify_existing_file`, in any order, each update under the lock. */
    method VerifyPieces() returns (numPieces: nat)
      requires Matches() && VerifiedFor(disk.meta, abs, {})
      modifies this`abs, this`clientPieces, this`activePieces
      ensures Matches() && VerifiedFor(disk.meta, abs, Below(disk.meta.PieceCount())) && abs.disk == old(abs.disk)
      ensures numPieces == |GoodAmong(disk.meta, abs.disk, Below(disk.meta.PieceCount()))|
    {
      hide Torrent.Matches, VerifiedFor, SliceGood;
      var todo := Below(disk.meta.PieceCount());
      ghost var seen: set<nat> := {};
      numPieces := 0;
      while todo != {}
        invariant Matches() && VerifiedFor(disk.meta, abs, seen) && abs.disk == old(abs.disk)
        invariant todo !! seen && todo + seen == Below(disk.meta.PieceCount())
        invariant numPieces == |GoodAmong(disk.meta, abs.disk, seen)|
      {
        var id :| id in todo;
        GoodAmongStep(disk.meta, abs.disk, seen, id);
        var found := VerifyPiece(id, seen);
        if found {
          numPieces := numPieces + 1;
        }
        todo := todo - {id};
        seen := seen + {id};
      }
    }

    /** A run starts in the present state. */
    ghost method StartHere()
      requires Matches() && (Blank(disk.meta, abs) || Verified(disk.meta, abs))
      modifies this`history
      ensures Valid() && history == Run([abs], [])
    {
      history := Run([abs], []);
      InitialInv(disk.meta, abs);
    }

    /**
     * `verify_existing_file`; whether the final and the temporary name exist are arguments. What exists is verified:
     * exactly the pieces that are right on disk are found. An error stands for an exception: a single file exists
     * under both names, or under its final name without being complete.
     */
    method VerifyExistingFile(nameExists: bool, tmpExists: bool) returns (r: Result<nat, StartupError>)
      requires Matches() && Blank(disk.meta, abs)
      modifies this
      ensures Valid() && Trimmed(clientPieces) && abs.disk == old(abs.disk) && history == Run([abs], [])
      ensures r == Err(BothNamesExist) <==> disk.meta.single && nameExists && tmpExists
      ensures r == Err(BothNamesExist) || (!nameExists && !tmpExists) ==> abs == old(abs)
      ensures !nameExists && !tmpExists ==> r == Ok(0)
      ensures r != Err(BothNamesExist) && (nameExists || tmpExists) ==>
                && Verified(disk.meta, abs)
                && var found := |GoodAmong(disk.meta, abs.disk, Below(disk.meta.PieceCount()))|;
                   r == if disk.meta.single && nameExists && found != disk.meta.PieceCount() then Err(Incomplete) else Ok(found)
    {
      BlankIsVerifiedForNone(disk.meta, abs);
      StartHere();
      hide VerifiedFor, Blank, Verified, GoodAmong, Inv, Reached, SliceGood;
      var fullFile := disk.meta.single && nameExists;
      if fullFile && tmpExists {
        return Err(BothNamesExist);
      }
      if !nameExists && !tmpExists {
        return Ok(0);
      }
      var numPieces := VerifyPieces();
      AllSeenIsVerified(disk.meta, abs, Below(disk.meta.PieceCount()));
      StartHere();
      return if fullFile && numPieces != disk.meta.PieceCount() then Err(Incomplete) else Ok(numPieces);
    }

    /** `done`: all listed pieces received, and no active piece with a pending write. */
    method IsDone() returns (done: bool)
      requires Valid()
      ensures done == Done(disk.meta, abs)
    {
      var received := CountTrue(clientPieces) == disk.meta.PieceCount() && disk.meta.PieceCount() != 0;
      var pendingWrites := false;
      var rest := activePieces.Keys;
      while rest != {}
        invariant rest <= activePieces.Keys
        invariant pendingWrites <==> exists id :: id in activePieces.Keys - rest && !Written(abs, id)
      {
        var id :| id in rest;
        rest := rest - {id};
        assert Written(abs, id) == activePieces[id].written;
        if !activePieces[id].written {
          pendingWrites := true;
        }
      }
      return received && !pendingWrites;
    }

    /** `downloaded` and `left`. */
    method DownloadedAndLeft() returns (downloaded: nat, left: int)
      requires Valid()
      ensures downloaded == Downloaded(disk.meta, abs) && left == disk.meta.Length() - downloaded
      ensures 0 <= left && (left == 0 <==> forall id: nat :: id < disk.meta.PieceCount() ==> Written(abs, id))
    {
      downloaded := 0;
      var rest := activePieces.Keys;
      ghost var seen: set<nat> := {};
      while rest != {}
        invariant rest !! seen && rest + seen == activePieces.Keys
        invariant downloaded == SizeOf(disk.meta, WrittenAmong(abs, seen))
      {
        var id :| id in rest;
        WrittenAmongStep(disk.meta, abs, seen, id);
        rest := rest - {id};
        seen := seen + {id};
        downloaded := downloaded + if activePieces[id].written then activePieces[id].size else 0;
      }
      assert WrittenAmong(abs, seen) == WrittenIds(abs);
      DownloadedBounds(disk.meta, abs);
      left := disk.meta.Length() - downloaded;
    }
  }
}
