# Verified model of zit

zit is a BitTorrent client. This project models, in Dafny, the chain from the bytes of a peer connection to the
files on disk, the bencode codec, and the tool that writes torrent files, and proves what they are for.

* **Transfer.** `Bitfield.dfy` is the packed bitfield, proved against sequences of booleans. `Piece.dfy` is a piece
  of 16 KiB blocks and `Assembly.dfy` its assembly from blocks in any order. `Files.dfy` is the disk: a list of
  files that is read and written as one byte string. `Transfer.dfy` is the transition system of the whole client
  state (piece objects with identity, active pieces, client bitfield, write queue, disk image), and `Runs.dfy`,
  `Draining.dfy`, `Honest.dfy`, `Scheduling.dfy`, `Accounting.dfy`, `Startup.dfy`, `Serving.dfy` and `Resume.dfy`
  hold the theorems about all its runs. `Requests.dfy` follows a request from its block to its bytes and back.
  `Torrent.dfy` and `Peer.dfy` are the classes of the program: each public method is proved to take their fields
  from one state that a run reaches to another, so the theorems hold for the objects.
* **Framing.** `Messages.dfy` is the message parser, and `Wire.dfy` says what each byte form means;
  `Segmentation.dfy` proves on exactly which streams the dispatched messages do not depend on how the stream is cut
  into reads; `Calls.dfy` says what the call of each message does and when it throws, and `Connection.dfy` is the
  loop that consumes the receive buffer and makes these calls, from the bytes of a stream to the steps of the run.
  `Protocol.dfy` holds what chains of calls keep.
* **Bencode.** `Bencode.dfy` is the encoder and the decoder over a stream, `BencodeLaws.dfy` and `BencodeCanon.dfy`
  prove round trip, depth limit, prefix-freeness and canonical form, and `BencodeNumbers.dfy` what numerals mean.
* **Torrent writer.** `TorrentWriter.dfy` is the chunking of files into piece digests and its agreement with the
  client's startup verification.

Each function that the program runs under its locks is one atomic step. SHA-1 is an uninterpreted function; the only
fact used about it is, as stated in each theorem, that the digest of the empty string is not listed. Where a second
byte string with a listed digest would make a difference, the theorem says so (`Serving.StepKeepsContentIff`).

`Files.Meta.WellFormed` collects what the program relies on without checking it: a positive piece length, a
non-empty torrent, one digest for each piece, piece offsets below 2^32, and no digest of the empty string. Piece ids
are not limited: an id past the listed digests can become active, and the theorems say what follows.

## Where the code differs from what one expects

* A duplicate block for a complete piece makes `set_block` return true again, so the object is queued again
  (`Draining.DuplicateQueuesAgain`) and the writer then ends with a torrent that is not done
  (`Draining.DuplicateEndsUndone`, and `Honest.TwiceEndsUndone` for a run from a blank start). "Queued once" and
  "written stays written" are false; `Draining.DrainedIsDoneIff` and `Draining.WrittenStaysIff` are the exact
  conditions. The invariant of `Runs.RunKeepsInv` and the preservation of right slices (`Runs.RunKeepsGoodSlices`) hold.
* An active piece with an id past the listed digests is never written, and `done()` then never holds
  (`Runs.BogusPieceBlocksDone`; `Runs.DoneIff` is the exact condition).
* `init_client_pieces` sizes only an empty bitfield. After a startup verification that found pieces, the bitfield
  ends with the byte of the last piece found (`Resume.LengthAfterVerification`), and set difference over the common
  length hides all later pieces from the scheduler. `Resume.VerifiedOffersAllIff` says on exactly which disks, and
  `Resume.ShortStartIsNeverDone` what follows.
* The handshake marker is searched for in every buffer, so a block that contains it can be taken for a handshake
  (`Segmentation.MarkerInBlockIsTakenForHandshake`), depending on the cut.
  `Segmentation.SegmentationIndependenceIff` is the exact condition on the stream, and `Segmentation.DispatchedIff` on
  the first frame of one buffer.
* The comment of `info_hash()` asks for validated input; the decoder accepts more than canonical text.
  `BencodeCanon.EncodingIsText` says exactly for which texts re-encoding gives the text back.
* `retry_blocks` means to skip a piece with no activity, but it compares with the least time point while the fields
  start at the epoch, so that test never applies and is not in the model.

## Model

| member | source | states |
|---|---|---|
| `Transfer.ActivateKeepsInv` | src/torrent.cpp:1251-1264 | making a piece active on demand keeps the agreement of piece objects, bitfield, queue and disk |
| `Transfer.MarkKeepsInv` | src/piece.cpp:28-47 | choosing and marking the next block keeps that agreement |
| `Transfer.PutBlockKeepsInv` | src/torrent.cpp:1236-1249 | any block, with any bytes and any offset, duplicate or not, refused or stored, keeps it: the last block sets the client bit and queues the object in one step |
| `Transfer.RetryKeepsInv` | src/piece.cpp:128-153 | a retry, timed out or not, keeps it |
| `Transfer.InitClientKeepsInv` | src/torrent.hpp:304-309 | sizing an empty client bitfield keeps it |
| `Transfer.WriteNextKeepsInv` | src/file_writer.cpp:259-316 | one round of the writer keeps it, also for stale objects, objects queued twice, wrong digests and ids past the listed digests; it takes exactly the front of the queue |
| `Transfer.WriteBackSlices` | src/file_writer.cpp:148-163 | a written piece changes its own slice of the disk image to its data and no other piece's slice |
| `Transfer.ResetPieceIs` | src/torrent.cpp:1297-1305 | after a reset the object of the piece is like a new one and filed nowhere, its bit is clear, and every other object, id and bit, the queue and the disk are as before |
| `Transfer.MatchingIsWhole` | src/file_writer.cpp:275-282 | a dequeued piece whose bytes have the listed digest is unwritten and complete in size, so what is written is never a cleared buffer |
| `Runs.RunKeepsInv` | src/torrent.cpp:1236-1305 | in every state of every run, from a blank or a verified start: a client bit is set exactly when the piece is active with every block done, such a piece is written or its object is queued, a written or queued active piece has every block, and a written one has the listed digest on disk |
| `Runs.RunKeepsGoodSlices` | src/file_writer.cpp:259-302 | a slice of the disk that has its listed digest keeps it for the rest of the run |
| `Runs.RunDoneMeansAllGood` | src/torrent.cpp:1266-1280 | if any state of any run reports done, every slice on disk has its listed digest |
| `Runs.DoneMeansAllGood` | src/torrent.cpp:1266-1280 | done in a consistent state means every listed piece is written and right on disk, and no other piece is active |
| `Runs.DoneIff` | src/torrent.cpp:1266-1280 | done holds exactly when every listed piece is written and no active piece has an unlisted id; the bit count gives all bits by pigeonhole |
| `Runs.BogusPieceBlocksDone` | src/torrent.cpp:1251-1264 | once an id past the listed digests is active no later state of the run is ever done: the case in which a full download is not reported |
| `Runs.RestartRecovers` | src/torrent.cpp:327-395 | a piece that was written at any point of a run is marked and active again after a verified start on the disk of any later point |
| `Runs.DrainedBitsAreOnDisk` | src/file_writer.cpp:259-316 | after the writer emptied the queue with nothing else going on, a set client bit of a listed piece means right bytes on disk |
| `Draining.DrainedIsDoneIff` | src/file_writer.cpp:259-316 | exactly when the writer ends with a done torrent: every listed piece is complete, no other is active, and each queued object with a listed id, active or stale, holds bytes with its listed digest and does not occur again later in the queue |
| `Draining.WriteNextFitIff` | src/file_writer.cpp:268-298 | one round of the writer, whether it writes, resets or drops, neither makes nor breaks that condition |
| `Draining.DuplicateQueuesAgain` | src/piece.cpp:70-83 | a block for a complete piece puts the same object into the queue again and changes none of its bytes |
| `Draining.DuplicateEndsUndone` | src/torrent.cpp:1236-1249 | after one more block for a complete listed piece, written or not, the writer ends with a torrent that is not done, whatever else is queued |
| `Draining.WrittenStaysIff` | src/file_writer.cpp:275-281 | a written piece stays written across a step exactly when the step is not a dequeue of an object with its id whose bytes miss the listed digest |
| `Honest.RunHoldsContent` | src/piece.cpp:57-84 | over any run whose blocks are parts of one content, every active or queued object holds only bytes of that content |
| `Honest.RunAssembles` | src/piece.cpp:57-84 | over any such run, in any order and with duplicates and retries, a complete piece in memory is its slice of the content |
| `Honest.RunKeepsDisk` | src/file_writer.cpp:259-298 | over any such run in which no step writes other bytes with a listed digest over a written piece, written pieces have the bytes of that content on disk |
| `Honest.ServesContent` | src/piece.cpp:86-116 | in a state that holds the content, a request inside one block is answered with that part of the content exactly if the block is done, and with nothing otherwise |
| `Honest.RunServesContent` | src/piece.cpp:86-116 | the same in every state of every such run, for incomplete, complete and written pieces |
| `Honest.HonestRunEndsDoneIff` | src/file_writer.cpp:259-316 | over any run with blocks of a content with the listed digests and none for a piece that is complete already, emptying the queue ends done exactly when all listed pieces and no others are there |
| `Honest.DuplicateUndoes` | src/torrent.cpp:1236-1249 | in such a state, which the writer ends done, one more block for any of its pieces makes it end not done |
| `Honest.TwiceEndsUndone` | src/piece.cpp:70-83 | the smallest run that shows it, from a blank start: a torrent of one block whose block arrives twice |
| `Draining.QueuedTwiceIsReset` | src/file_writer.cpp:274-282 | an active object with right bytes that stands twice in a row at the front is written and then reset: its piece is no longer active and its bit is cleared, though its slice on disk is right |
| `Runs.StepKeepsGoodSlices` | src/file_writer.cpp:259-302 | no single step makes a right slice wrong, whatever the other state |
| `Assembly.ArrivedIsDone` | src/piece.cpp:57-84 | after blocks of a byte string arrived in any order with duplicates, exactly the arrived ones are done and hold their bytes |
| `Assembly.CompleteIsWhole` | src/piece.cpp:57-84 | the piece is complete exactly when every block arrived, and then its data is the byte string |
| `Assembly.CompleteStays` | src/piece.cpp:57-84 | later arrivals never change a complete piece, so every later call returns true as well |
| `Scheduling.SentIsOpen` | src/piece.cpp:28-47 | a request names a block of its piece that is neither done nor requested, with an offset and length inside the piece, and marks it |
| `Scheduling.RequestsAreDistinct` | src/peer.cpp:458-527 | two requests of a run differ if their piece was neither retried with effect nor reset between them, whichever peers ask and whatever happens to other pieces |
| `Scheduling.StepOutstanding` | src/piece.cpp:28-47 | a block is requested and not done after a step only because the step sent its request, or because it was so before and its piece was neither retried with effect nor reset |
| `Scheduling.OutstandingWasSent` | src/peer.cpp:485-527 | in every state of every run each block that is requested and not done was really requested by an earlier step, since its piece was made or last retried with effect: no block is held back by a mark without a request |
| `Scheduling.ExtendedRequests` | src/peer.cpp:485-527 | one more step adds exactly the request it sends to the requests of the run |
| `Pieces.BlocksTile` | src/piece.hpp:40-43 | the offsets and lengths of the blocks tile the piece: each ends where the next begins and the last ends at the end |
| `Pieces.NextBlockIsFirstOpen` | src/piece.cpp:28-47 | a next block exists exactly when some block is neither requested nor done, and is the first such block |
| `Pieces.MarkNextMarksOne` | src/piece.cpp:28-47 | marking requests the next block, if there is one, and no other block, and changes nothing else |
| `Pieces.AcceptedIff` | src/piece.cpp:57-69 | exactly which blocks are accepted: those that start where a block starts and do not reach past its end, and an empty one right behind the last block if the bitfield has a spare bit |
| `Pieces.StoreMarksOne` | src/piece.cpp:70-83 | an accepted block makes its own block done and no other, changes no byte outside its range, and changes nothing if that block is done |
| `Pieces.NewPieceIs` | src/piece.hpp:23-29 | a new piece and a reset one have nothing requested, done or written |
| `Pieces.RetryAppliesIff` | src/piece.cpp:128-153 | a retry has an effect exactly if the piece is unwritten, timed out and has a requested block; then no block is requested any more and nothing else changes |
| `Pieces.RetryCountIs` | src/piece.cpp:128-153 | what a retry returns is the number of blocks that were requested and are not done, or zero if it has no effect |
| `Pieces.SetWrittenIs` | src/piece.cpp:118-126 | a written piece has every block done, keeps its requests and holds no bytes |
| `Pieces.RetryReopensUndone` | src/piece.cpp:128-153 | after a retry the requestable blocks are exactly those not done, and no data is lost |
| `Pieces.StoreKeepsComplete` | src/piece.cpp:57-84 | storing a block never takes completeness away |
| `Pieces.AnUndoneBlockIsInMemory` | src/piece.cpp:57-84 | a block that passes the checks and is not done is never copied into a cleared or too short buffer |
| `Pieces.Piece.constructor` | src/piece.hpp:23-29 | the object starts with no block requested or done and zeroed data |
| `Pieces.Piece.NextOffset` | src/piece.cpp:28-47 | returns the offset of the first open block and, when marking, changes that request bit alone |
| `Pieces.Piece.SetBlock` | src/piece.cpp:57-84 | one of the four errors and no change, or the block stored unless already done, and true exactly when the piece is complete |
| `Pieces.Piece.SetPieceWritten` | src/piece.cpp:118-126 | every block becomes done, the data is dropped, and requests stay |
| `Pieces.Piece.RetryBlocks` | src/piece.cpp:128-153 | clears the requests only when unwritten, timed out and something is requested; returns the number of blocks requested but not done |
| `Pieces.Piece.ResetPiece` | src/piece.cpp:155-162 | the piece starts over |
| `Accounting.LengthsTile` | src/torrent.cpp:245-252 | the lengths of the first n pieces add up to where piece n starts, and of all to the torrent's length |
| `Accounting.DownloadedIsWrittenBytes` | src/torrent.cpp:405-412 | downloaded() is the number of byte positions of the torrent whose piece is written |
| `Accounting.DownloadedBounds` | src/torrent.cpp:397-416 | 0 <= downloaded() <= length(), with equality exactly when every listed piece is written |
| `Accounting.RunDoneLeavesNothing` | src/torrent.cpp:405-416 | in every state of every run downloaded() stays in range, and done means nothing is left |
| `Startup.VisitFinds` | src/torrent.cpp:268-276 | visiting a piece whose slice is right adds exactly it to the verified pieces, whatever was visited before |
| `Startup.VisitPasses` | src/torrent.cpp:277-279 | visiting a piece whose slice is wrong changes nothing |
| `Startup.AllSeenIsVerified` | src/torrent.cpp:345-390 | once all were visited, in any order, exactly the right pieces are marked, active and written, and the bitfield ends with the byte of a marked piece or is empty |
| `Startup.VerifiedIsDetermined` | src/torrent.cpp:345-390 | two verifications of the same disk mark and activate the same pieces and leave the same bitfield, length included |
| `Serving.ServedIsContent` | src/piece.cpp:86-116 | for a complete piece the answer to an in-range request is that part of the piece's bytes, from memory or across files from disk; a misaligned or too large offset is refused |
| `Serving.AnswerCases` | src/piece.cpp:86-116 | exactly when a request is refused, has no answer because its block is not done, leaves the data, or is served, for pieces that are complete or not; a length of zero stands for a block |
| `Serving.StepKeepsContentIff` | src/file_writer.cpp:259-298 | exactly when a step leaves the bytes of a complete piece that stays active: unless it writes, over the written piece, other bytes with the same listed digest |
| `Serving.RunKeepsContent` | src/piece.cpp:86-116 | a complete piece has the same bytes at every later point of the run until it is given up, if no step between them is such a write |
| `Serving.RunServesSame` | src/piece.cpp:86-116 | the same in-range request gets the same answer before and after the piece moves from memory to disk, over any such part of a run |
| `Serving.ServedRange` | src/piece.cpp:114-115 | the 32-bit file offset of an in-range request is the exact position and stays inside the torrent |
| `Resume.OffersAllIff` | src/torrent.hpp:330-333 | every listed piece that any remote has and we lack is offered for request exactly when the client bitfield is empty, and then sized by that remote, or has a bit for every listed piece |
| `Resume.LengthAfterVerification` | src/torrent.cpp:272-275 | on every disk the verified bitfield ends with the byte of the last right piece, and is empty exactly if no piece is right |
| `Resume.ShortStartIff` | src/torrent.cpp:268-276 | verification leaves a non-empty bitfield that is too short exactly on the disks where some piece is right and the byte of every right piece ends before the last piece |
| `Resume.VerifiedOffersAllIff` | src/torrent.hpp:304-333 | a verified start offers every lacking piece that a remote has exactly on all other disks |
| `Resume.RunKeepsLength` | src/torrent.hpp:304-309 | once the bitfield is not empty it keeps its length, while only the scheduler activates pieces |
| `Resume.ShortIsNeverDone` | src/torrent.cpp:1266-1280 | from a point on where the bitfield is too short, whatever sized it, no state of such a run is done |
| `Resume.LongOffersAll` | src/torrent.hpp:330-333 | from a point on where it is long enough, every lacking piece that a remote has is offered in every state |
| `Resume.ShortStartIsNeverDone` | src/torrent.cpp:327-395 | a run that resumes from such a disk is never done while only the scheduler activates pieces |
| `Resume.OnlyFirstPieceFound` | src/torrent.cpp:272-275 | the concrete case: when only piece 0 of more than eight is right, eight bits are left, and sizing the bitfield does not extend it |
| `Files.PieceBounds` | src/torrent.cpp:245-252 | every piece is non-empty, its 32-bit offset is exact, it starts where the one before ends, and the last ends at the end |
| `Files.PieceLengthIsMin` | src/torrent.cpp:259-264 | the length from the modulus is the smaller of the piece length and what is left of the torrent |
| `Files.OffsetExactIff` | src/file_writer.cpp:152 | the 32-bit product is the position of the piece exactly when that position is below 2^32 |
| `Files.Disk.FileAtPos` | src/torrent.cpp:1282-1295 | finds the file, the offset in it and the rest of it, skipping empty files; a multi-file torrent throws exactly for positions past the end |
| `Files.Disk.WritePieceSingle` | src/file_writer.cpp:148-163 | one overwrite of the image at the piece's offset |
| `Files.Disk.WritePieceMulti` | src/file_writer.cpp:207-229 | the loop over files ends, is exactly one overwrite of a slice of the concatenation of all files, and keeps every file's length |
| `Files.Disk.WritePiece` | src/file_writer.cpp:148-229 | the same for either kind of torrent |
| `Files.Disk.ReadBlock` | src/file_writer.cpp:48-77 | reads exactly that slice of the concatenation, across file boundaries |
| `Files.Disk.ReadPieceSingle` | src/torrent.cpp:258-267 | the bytes hashed for a piece are its slice of the file |
| `Files.Disk.ReadPieceMulti` | src/torrent.cpp:286-312 | the bytes hashed for a piece are its slice of the concatenation, with the last one cut to what was read |
| `Torrents.FileWriter.Add` | src/file_writer.cpp:32-37 | the object goes to the end of the queue |
| `Torrents.FileWriter.WriteNextPiece` | src/file_writer.cpp:259-316 | on the real objects: dequeues one object and drops it, resets whatever piece is active for its id, or writes it to the files and marks it written; the result is a state that a run of the transition system reaches |
| `Torrents.Torrent.constructor` | src/torrent.cpp:117-140 | a torrent starts with no piece known |
| `Torrents.Torrent.PieceDone` | src/torrent.cpp:1322-1325 | the client bit is set and the object goes to the end of the queue, and nothing else changes |
| `Torrents.Torrent.SetBlock` | src/torrent.cpp:1236-1249 | the whole new state of all objects as one step of a run; the result is exactly the error of the block, or true for an active piece and false for another |
| `Torrents.Torrent.ActivePiece` | src/torrent.cpp:1251-1264 | returns the one active object of the id or makes a fresh one; none only when asked not to create |
| `Torrents.Torrent.MarkNextOffset` | src/piece.cpp:28-47 | the request log of the torrent grows by exactly the block whose offset is returned |
| `Torrents.Torrent.RetryPiece` | src/torrent.cpp:1114-1117 | retries one active piece as one step of the run and returns how many of its blocks have to be requested again |
| `Torrents.Torrent.GetBlock` | src/piece.cpp:86-116 | for every offset and length, the answer as a function of the piece and of the concatenation of the files |
| `Torrents.Torrent.InitClientPieces` | src/torrent.hpp:304-309 | sizes only an empty bitfield |
| `Torrents.Torrent.ResetPiece` | src/torrent.cpp:1297-1305 | the active object of the id starts over, is no longer active and its bit is cleared; otherwise nothing changes |
| `Torrents.Torrent.PieceOnDisk` | src/torrent.cpp:254-312 | the bytes of a piece as the files hold them, for either kind of torrent |
| `Torrents.Torrent.VerifyPiece` | src/torrent.cpp:282-325 | finds a piece exactly when its slice has the listed digest and then marks it |
| `Torrents.Torrent.VerifyPieces` | src/torrent.cpp:345-388 | the visits, in any order, mark exactly the right pieces and count them |
| `Torrents.Torrent.VerifyExistingFile` | src/torrent.cpp:327-395 | throws exactly for a single file that exists under both names or that exists under its final name and is incomplete; what exists is verified: exactly the right pieces are marked, active and written, their number is returned, the bitfield ends with the byte of a marked piece or is empty, and the disk is unchanged |
| `Torrents.Torrent.IsDone` | src/torrent.cpp:1266-1280 | the bit count and the scan of active pieces decide done |
| `Torrents.Torrent.DownloadedAndLeft` | src/torrent.cpp:405-416 | the sum over active pieces; left is never negative and is zero exactly when every listed piece is written |
| `Peers.Peer.NextPiece` | src/peer.cpp:695-714 | ends; returns the lowest id in the common length of both bitfields that the remote has, we lack and that has an open block; none only if there is no such id; makes at most one piece active |
| `Peers.Peer.Candidate` | src/peer.cpp:707-711 | a rejected candidate was active already, so looking at it changes nothing |
| `Peers.Peer.RequestOne` | src/peer.cpp:485-510 | marks and reports exactly one block, of a piece that the remote has and we lack, or nothing is left to request |
| `Peers.Peer.RequestBlocks` | src/peer.cpp:480-527 | requests at most what is needed, only of pieces the remote has and we lack, and fewer only when none of them has an open block; the frames are those of the new requests, and the run goes on with activations and markings only |
| `Peers.Peer.RequestNextBlock` | src/peer.cpp:458-527 | pending grows by the number returned and never beyond the limit when something is requested; it stays below the limit only when nothing is left to request; the bytes sent are the REQUEST frames of exactly the blocks added to the log, all of pieces the remote has and we lack; throws exactly for a zero limit of an interested and unchoked peer |
| `Peers.Peer.SetBlock` | src/peer.cpp:586-592 | the block is stored as one step of the run, then the scheduler fills up to the limit; false exactly when the block is refused or the limit is zero; pending drops by one, not below zero, and grows by what is requested |
| `Peers.Peer.SetChoking` | src/peer.cpp:539-551 | a choke forgets what is pending, sends nothing and changes nothing else; an unchoke requests until the limit is reached or nothing is left to request; a repeated notice does nothing |
| `Peers.Peer.SetAmChoking` | src/peer.cpp:405-426 | a change, and only a change, is told to the remote |
| `Peers.Peer.SetInterested` | src/peer.cpp:553-563 | a remote that becomes interested is unchoked |
| `Peers.Peer.SetAmInterested` | src/peer.cpp:428-456 | a change is told to the remote, and we do not become interested once the torrent is done |
| `Peers.Peer.SetRemotePieces` | src/peer.cpp:565-568 | the bitfield of the remote replaces the old one and, as one step of the run, sizes ours only if that is empty |
| `Peers.Peer.Have` | src/peer.cpp:570-584 | sets the bit of one piece, or all bits if the remote had none; then sizes an empty bitfield of ours by the piece count, and after that only requests |
| `Peers.Peer.Serve` | src/peer.cpp:371-403 | nothing happens for a choked or uninterested remote; otherwise the piece is made active, if need be, as the only step, and one PIECE frame is sent with its answer, or nothing |
| `Peers.Peer.RetryFrom` | src/torrent.cpp:1137-1146 | one peer requests at most the remaining retry count and no more than its target, and fewer than the target only if it may not be asked or has nothing to request; throws exactly when the target does not fit an unsigned short |
| `Peers.Peer.RetryTarget` | src/torrent.cpp:1137-1142 | the target is more than what is pending, at most the remaining retry count more, at most the limit or one more than what is pending, and lower than the limit only to keep the retry count |
| `Peers.RetryRounds` | src/torrent.cpp:1136-1157 | the loop over the peers and its rounds: the peers are visited in turn, in the order of the list, with what each was sent and has pending since the start |
| `Peers.RequestRetries` | src/torrent.cpp:1130-1157 | ends; the count never falls below zero and drops by what was requested; the peers are visited in turn and each was sent exactly the frames of its own requests, all of pieces it has and we lack, has as many more pending, and is otherwise unchanged; the run goes on with activations and markings only; blocks are left to retry only if no peer that may be asked has anything to request at the end, or a count does not fit an unsigned short |
| `Requests.RequestNamesBlock` | src/peer.cpp:499-518 | the REQUEST for a block names the piece and exactly the range of the block in it, for any content of the piece, and only the last block is shorter than 16 KiB |
| `Requests.AnswerIsStored` | src/piece.cpp:57-84 | the PIECE that answers it is accepted, and makes exactly that block done, with its bytes |
| `Requests.RequestIsAnswered` | src/piece.cpp:86-116 | a complete piece answers it with that block, from memory or from disk |
| `Requests.NoHandshakeInRequests` | src/messages.cpp:128-151 | no row of REQUEST frames contains the handshake marker |
| `Requests.RequestsArrive` | src/peer.cpp:499-525 | the bytes that the requests send are dispatched, whatever the cut into reads, as these REQUESTs and nothing else, in order |
| `Requests.AnswerArrives` | src/peer.cpp:388-403 | an answer sends nothing, or one frame that is read as the block at its place, whatever follows |
| `Calls.AnswerWhenActive` | src/peer.cpp:382-387 | the answer to a REQUEST is that of the piece once it is active, whether it was before or is made so |
| `Connections.MakesHandles` | src/messages.cpp:243-311 | whatever call an event makes, the run receives just its own block, if it has one, and neither writes nor retries |
| `Connections.ChainHandles` | src/peer.cpp:242-255 | a chain of calls receives exactly the blocks of its PIECE messages, in order |
| `Protocol.AskedIsLacking` | src/torrent.hpp:330-333 | every block that a call requests is in a piece that the remote has and we lack, bit by bit |
| `Protocol.BitfieldBits` | src/messages.cpp:280-287 | the bits of a BITFIELD: piece 0 is the most significant bit of the first byte |
| `Protocol.RequestIsServed` | src/peer.cpp:371-403 | a REQUEST for a part of a complete piece sends that part, as one PIECE with the same index and offset, exactly if we do not choke the remote, it is interested and the offset is that of a block |
| `Protocol.ChainFollows` | src/peer.cpp:553-563 | from the first call of any chain to the last: an interested remote is never left choked, the bytes sent only grow, and pending requests stay within the limit |
| `Protocol.NothingAskedWhileChoked` | src/peer.cpp:539-551 | once the remote chokes us no call of any chain requests anything until an UNCHOKE |
| `Protocol.NothingAskedWithoutInterest` | src/peer.cpp:458-478 | no call of any chain requests anything before a handshake made us interested |
| `Connections.PeerConnection.Dispatch` | src/messages.cpp:243-311 | each message makes the call on the peer that belongs to it: all fields of the peer, the bytes sent and the run afterwards as a relation to those before, message by message; it throws exactly for a refused block, a request that is refused or has no answer, and a zero limit |
| `Connections.PeerConnection.DispatchChoke` | src/messages.cpp:246-248 | a CHOKE forgets what is pending and changes nothing else |
| `Connections.PeerConnection.DispatchUnchoke` | src/messages.cpp:249-251 | an UNCHOKE of a choked peer requests up to the limit or until nothing is left, and of another does nothing; throws exactly for a zero limit |
| `Connections.PeerConnection.DispatchBitfield` | src/messages.cpp:280-287 | a BITFIELD replaces the remote's bitfield and sizes ours if empty, as one step |
| `Connections.PeerConnection.DispatchPiece` | src/messages.cpp:252-259 | a PIECE is stored as one step and then requests are made up to the limit; a refused one changes nothing but the pending count; throws exactly then or for a zero limit |
| `Connections.PeerConnection.DispatchRequest` | src/messages.cpp:288-294 | a REQUEST takes no step but the activation of its piece, sends its answer or nothing, and throws exactly when we serve the remote and the request is refused or has no answer |
| `Connections.PeerConnection.DispatchHave` | src/messages.cpp:266-279 | a HAVE sets the bit, or all bits and our size if the remote had none, and then requests up to the limit; throws exactly for a zero limit |
| `Connections.PeerConnection.DispatchHandshake` | src/messages.cpp:189-214 | a handshake for another torrent changes nothing; otherwise its bitfield, if any, becomes the remote's, and we become interested unless the torrent is done |
| `Connections.PeerConnection.HandleResponse` | src/peer.cpp:237-255 | the messages that the buffer then holds make their calls one after the other, each from the view the one before left; all of them, and just the incomplete rest is kept, unless the parser or a call throws, and then that message stays in the buffer; a stopped connection makes none |
| `Connections.PeerConnection.HandleReads` | src/peer.cpp:257-269 | read after read: a chain of the calls of the messages that the reads make together, all of them unless one throws |
| `Connections.PeerConnection.HandleStream` | src/peer.cpp:237-269 | for any cut of a stream of supported messages each message makes its call, in order; the run receives exactly the blocks of the PIECE messages, writes and retries nothing, and the part of the next frame is kept; it ends early only at a call that throws |
| `Bytes.BigEndianRoundTrip` | src/types.hpp:106-176 | a 32-bit word written anywhere in a buffer is read back |
| `Wire.WordIsBase256` | src/types.hpp:106-176 | a word is read as the base-256 value of its four bytes, the most significant first, and not at all if fewer are there |
| `Wire.WrittenWordIsBase256` | src/types.hpp:106-176 | a word is written as four bytes with that value |
| `Wire.FlagBytes` | src/messages.cpp:243-265 | a body of the one byte 0, 1, 2 or 3 is a CHOKE, UNCHOKE, INTERESTED or NOT_INTERESTED, whatever follows it, if no handshake is found |
| `Wire.KeepAliveBytes` | src/messages.cpp:239-242 | a length word of zero is a keep-alive of four bytes |
| `Wire.HaveBytes` | src/messages.cpp:266-279 | id 4 is a HAVE of the word behind it; nine bytes are consumed, and a shorter buffer throws |
| `Wire.BitfieldBytesAre` | src/messages.cpp:280-287 | id 5 is a BITFIELD of the rest of the body |
| `Wire.RequestBytes` | src/messages.cpp:288-294 | id 6 is a REQUEST of the three words behind it: index, begin, length |
| `Wire.PieceBytes` | src/messages.cpp:252-259 | id 7 is a PIECE: two words, index and begin, and the rest of the body as the block; a shorter body throws |
| `Wire.OtherBytes` | src/messages.cpp:295-311 | any id from 8 on dispatches nothing and discards the whole buffer |
| `Wire.TooLongCloses` | src/messages.cpp:221-232 | the connection is closed exactly if the length word is above two mebibytes |
| `Wire.HandshakeAlone` | src/messages.cpp:128-182 | a handshake of 68 bytes gives its hash at 28 and its peer id at 48 |
| `Wire.HandshakeWithBitfield` | src/messages.cpp:160-176 | a handshake with a BITFIELD behind it is consumed with exactly its bitfield, and not before all of that is there |
| `Wire.FlagFrames` | src/peer.cpp:405-456 | the exact bytes of the frames CHOKE, UNCHOKE, INTERESTED and NOT_INTERESTED |
| `Wire.RequestFrame` | src/peer.cpp:506-518 | a REQUEST frame has 17 bytes: length 13, id 6, index, begin and length as words |
| `Wire.PieceFrameBytes` | src/peer.cpp:392-402 | a PIECE frame: the length, id 7, index and begin as words, and the block |
| `Segmentation.FrameIsParsed` | src/messages.cpp:216-294 | a complete frame at the start of a buffer is dispatched as its message and consumed whole, whatever follows it |
| `Segmentation.PartIsKept` | src/messages.cpp:234-237 | a proper part of a frame consumes nothing |
| `Segmentation.DispatchedIff` | src/messages.cpp:185-214 | the first frame is dispatched exactly when the handshake search does not fire on the buffer |
| `Segmentation.MarkerInBlockIsTakenForHandshake` | src/messages.cpp:138-151 | a PIECE message whose block holds the handshake marker is parsed as a handshake of 68 bytes: the concrete input that breaks framing |
| `Segmentation.DrainPeels` | src/peer.cpp:245-255 | one read dispatches exactly the frames it completes and keeps the start of the next |
| `Segmentation.SegmentationIndependence` | src/peer.cpp:242-255 | for any supported messages, if less than 68 bytes follow the start of every marker in the stream, and any cut of their bytes into reads, exactly these messages are dispatched in order, and exactly the part of the next frame is kept |
| `Segmentation.SegmentationIndependenceIff` | src/messages.cpp:128-176 | that condition on the stream is exact: on every other stream some cut dispatches a handshake first |
| `Bitfields.Bitfield.constructor` | src/bitfield.cpp:65-69 | the bits, rounded up to bytes, are all false |
| `Bitfields.MaskIsShift` | src/bitfield.cpp:25-27 | the mask of a bit is the one byte shifted as in the program |
| `Bitfields.FillMasksAreShifts` | src/bitfield.cpp:119-131 | the masks of the first and of the last byte are the shifts of the program |
| `Bitfields.Bitfield.Get` | src/bitfield.cpp:71-78 | the bit, or out of range past the last byte |
| `Bitfields.Bitfield.Put` | src/bitfield.cpp:41-57 | sets one bit, growing the bytes with false bits as needed, and keeps all others |
| `Bitfields.Bitfield.FillSpan` | src/bitfield.cpp:115-146 | two masked bytes and the run between them set exactly the bits of the run |
| `Bitfields.Bitfield.FillWrapped` | src/bitfield.cpp:115-146 | a run whose end wrapped around fills only its two part bytes, and indexes outside the bytes exactly in the cases named |
| `Bitfields.Bitfield.Fill` | src/bitfield.cpp:92-147 | for every 64-bit start and count: throws exactly when the run, with its wrapped end, is not inside the bytes; a run that does not wrap sets its bits and no others |
| `Bitfields.Bitfield.Minus` | src/bitfield.cpp:149-159 | set difference over the common byte length |
| `Bitfields.Bitfield.Plus` | src/bitfield.cpp:161-171 | set union over the common byte length |
| `Bitfields.TableCountsBits` | src/bitfield.cpp:173-179 | the recurrence of the lookup table gives the number of one bits of every byte value |
| `Bitfields.Bitfield.BuildTable` | src/bitfield.cpp:173-179 | the table as filled in place satisfies the recurrence everywhere |
| `Bitfields.Bitfield.Count` | src/bitfield.cpp:181-187 | the number of true bits |
| `Bitfields.Bitfield.Next` | src/bitfield.cpp:189-228 | the partial byte, the skipped bytes and the final scan find the least index from the start on that holds the value |
| `Bitfields.FirstAtIsUnique` | src/bitfield.cpp:189-228 | the least index holding the value, or none if no bit does, is determined |
| `Bitfields.CountTrueIsSize` | src/bitfield.cpp:181-187 | the count is the number of indices that hold true |
| `Bitfields.NoBitsIs` | src/bitfield.cpp:65-69 | an empty bitfield for a count has that many bits, rounded up by less than a byte, all false |
| `TorrentWriter.ReadChunk` | src/torrent_writer/torrent_writer.cpp:49-56 | reads up to the size and leaves the stream good exactly if it got all |
| `TorrentWriter.GetChunks` | src/torrent_writer/torrent_writer.cpp:46-71 | yields a first part of n bytes and then parts of m, without an empty part at the end |
| `TorrentWriter.DigestsOfFile` | src/torrent_writer/torrent_writer.cpp:108-121 | one digest for each consecutive part of the file |
| `TorrentWriter.DigestsOfNext` | src/torrent_writer/torrent_writer.cpp:157-171 | one more file with data carried over from the files before extends the full parts and the carried rest |
| `TorrentWriter.DigestsOfFiles` | src/torrent_writer/torrent_writer.cpp:130-179 | the digests are the hashes of the fixed-size parts of the concatenation of all files, whatever their boundaries |
| `TorrentWriter.WriterAgreesWithVerifier` | src/torrent_writer/torrent_writer.cpp:157-179 | the slice that the client verifies for a piece is the part that the writer hashed |
| `TorrentWriter.WrittenTorrentIsDone` | src/torrent.cpp:377-390 | a client that starts on the files that were hashed is done at once |
| `TorrentWriter.WriterCountsPieces` | src/torrent_writer/torrent_writer.cpp:157-179 | the number of digests is the length divided by the piece length, rounded up |
| `Bencode.InsertIsAssignment` | src/bencode.hpp:358 | assigning a key keeps keys ascending, gives the key the value and keeps all other entries |
| `Bencode.InsertLast` | src/bencode.hpp:358 | a key after all others goes to the end |
| `Bencode.Stream.DecodeInt` | src/bencode.hpp:279-289 | the stream method reads what the recursive definition reads, with the 64-bit range check |
| `Bencode.Stream.DecodeString` | src/bencode.hpp:291-310 | the same for a string with its length check and wrapped negative length |
| `Bencode.Stream.DecodeList` | src/bencode.hpp:331-348 | the loop that grows the list reads what the recursion reads |
| `Bencode.Stream.DecodeDict` | src/bencode.hpp:350-369 | the loop that assigns map entries reads what the recursion reads |
| `Bencode.Stream.DecodeInternal` | src/bencode.hpp:374-393 | ends on every input and every depth and reads one element |
| `Bencode.DecodeText` | src/bencode.hpp:406-413 | succeeds exactly when one element is the whole text |
| `BencodeNumbers.DigitsAre` | src/bencode.hpp:279-289 | the value of each of the ten digits |
| `BencodeNumbers.NumbersAscend` | src/bencode.hpp:279-289 | numerals of one length are ordered as their numbers |
| `BencodeNumbers.LenientInt` | src/bencode.hpp:279-289 | an integer with spaces, one sign and zeros before its decimal digits is read as that number with its sign, exactly if it fits 64 bits |
| `BencodeNumbers.LenientString` | src/bencode.hpp:291-310 | a string whose length is written so is that many characters, exactly if they are there and at most 10^8 |
| `BencodeNumbers.LimitsAre` | src/bencode.hpp:49-52 | encoded integers are decoded exactly up to 64 bits, strings up to 10^8 characters, lists up to 200 levels deep |
| `BencodeNumbers.LessIff` | src/bencode.hpp:350-369 | keys are ordered by the first character that differs, or by length if none does |
| `BencodeNumbers.Examples` | src/bencode.hpp:374-413 | five texts and their values |
| `BencodeLaws.ParseEncoded` | src/bencode.hpp:77-82 | wherever an encoded value stands in a text and whatever follows, decoding it gives the value and stops at its end if the value is within the limits at that depth, and fails otherwise |
| `BencodeLaws.MinimalNumberIsNumeral` | src/bencode.hpp:279-289 | a number without sign, space or leading zero to spare stands as the encoder writes it |
| `BencodeCanon.Accepted` | src/bencode.hpp:374-393 | every accepted element is a map-ordered value within all limits, and where it is written minimally its text is its encoding |
| `BencodeCanon.RoundTripWithSuffix` | src/bencode.hpp:245-277 | decoding an encoding followed by any suffix consumes exactly the encoding, and fails exactly for values outside the limits |
| `BencodeCanon.RoundTrip` | src/bencode.hpp:406-413 | decode(encode(v)) is v for every value within the limits and fails for every other |
| `BencodeCanon.Canonical` | src/bencode.hpp:406-413 | decode(encode(decode(s))) is decode(s) for every accepted text |
| `BencodeCanon.EncodingIsText` | src/torrent.cpp:223 | encode(decode(s)) is s exactly when all numbers in s are minimal and all keys strictly ascend, which the info hash relies on |
| `BencodeCanon.PrefixFree` | src/bencode.hpp:245-277 | no encoding is a proper prefix of another, and no two values share one, for all values that the encoder takes: of any depth, with strings and numbers of any size |
| `BencodeCanon.DecodedIff` | src/bencode.hpp:374-413 | the values some text decodes to are exactly the map-ordered ones within the limits |

## Left out

- Sockets, resolver, HTTP and UDP trackers, TLS, the peer acceptor and peer-list maintenance: I/O and randomness.
- Threads and mutexes: each locked call is one step. Races on fields that are read outside a lock are not modelled.
- Paths, `allocate`, size checks, renames and disk errors: files always exist with their lengths and writes succeed; the exceptions in the writer round that remain are an unlisted id and a wrong data size.
- The size check of `writePiece`: the model makes it for multi-file torrents as well, where the code has an assertion.
- Several torrents in one write queue: the queue of the model belongs to one torrent.
- Clocks: the 30 second test is a boolean argument of `RetryBlocks`; activity time stamps are not modelled.
- `Bitfield` members of pieces, torrents and peers are their boolean sequences, which class `Bitfields.Bitfield` refines.
- The shuffle of `retry_pieces` and its first loop: `Peers.RequestRetries` starts with any list of peers and any count; the first loop is a sequence of `Torrents.Torrent.RetryPiece` calls.
- `report_bitfield` and `handshake`: they only send bytes; the notice to the torrent when a remote loses interest and the one on disconnection are callbacks outside the model.
- The handshake phase beyond its parse: with 69 to 72 bytes buffered the result depends on how the stream is cut.
- Messages that the program does not handle (CANCEL, PORT, unknown ids): the parser models that they discard the buffer, the stream theorems are about the others.
- Pretty printing, logging, configuration, and the rest of the torrent metadata.
- Peers.Peer.RequestBlocks: does not model the 32-bit wrap-around of block offset plus block size in src/peer.cpp:503, for pieces within 16 KiB of 2^32.
- Torrents.FileWriter.WriteNextPiece: leaves out what follows the last write (src/file_writer.cpp:302-308, src/torrent.cpp:1307-1320): the rename, the notice to the peers that we are no longer interested, the one to the tracker and the callback.
- Torrents.Torrent.GetBlock: a range that leaves the piece's buffer, or the torrent, has no defined answer in the program; the model says only that there is none.
- Torrents.Torrent.VerifyExistingFile: takes the pieces one after the other, in any order, and every file of a multi-file torrent exists; the existence of the two names is an argument.
- Bencode.DecodeText: characters stand for bytes, the locale is the classic one, and the end-of-file flags of the stream are modelled by the position alone.
- TorrentWriter.DigestsOfFile: the chunk view over the stream is taken as the consecutive parts of the content; path metadata and the directory order are not modelled.
