/**
 * Resuming a partial download. `init_client_pieces` sizes only an empty client bitfield, but startup
 * verification leaves one that ends with the byte of the last piece it found. Pieces after it are never
 * offered to the scheduler.
 */
module Resume {
  import opened Bytes
  import opened Bitfields
  import opened Files
  import opened Pieces
  import opened Transfer
  import opened Runs
  import opened Scheduling
  import opened Startup

  // ----- which pieces are offered -----

  /** The remote has a listed piece that we lack. */
  ghost predicate Lacks<Id>(meta: Meta, s: Sys<Id>, remote: Bits, id: nat) {
    id < meta.PieceCount() && BitAt(remote, id) && !BitAt(s.client, id)
  }

  /** The piece is among the relevant ones, after the bitfield of the remote came in. */
  predicate Offered<Id>(s: Sys<Id>, remote: Bits, id: nat) {
    BitAt(Difference(remote, InitClient(s, |remote|).client), id)
  }

  /** Whatever a remote has and we lack is offered to the scheduler. */
  ghost predicate OffersAll<Id>(meta: Meta, s: Sys<Id>) {
    forall remote: Bits, id: nat :: Lacks(meta, s, remote, id) ==> Offered(s, remote, id)
  }

  /** Exactly the bitfields that are empty or long enough offer everything. */
  lemma OffersAllIff<Id>(meta: Meta, s: Sys<Id>)
    ensures OffersAll(meta, s) <==> s.client == [] || |s.client| >= meta.PieceCount()
  {
    var n, c := meta.PieceCount(), |s.client|;
    if 0 < c < n {
      var remote := seq(n, _ => true);
      assert Lacks(meta, s, remote, c) && !Offered(s, remote, c);
    } else {
      forall remote: Bits, id: nat | Lacks(meta, s, remote, id)
        ensures Offered(s, remote, id)
      {
        var client := InitClient(s, |remote|).client;
        assert id < |client| && !BitAt(client, id);
      }
    }
  }

  // ----- what a verified start leaves -----

  /** Some piece is right on disk, and the byte of every right piece ends before the last piece. */
  ghost predicate EndsShort(meta: Meta, disk: Bytes) {
    && (exists g: nat :: SliceGood(meta, disk, g))
    && (forall g: nat :: SliceGood(meta, disk, g) ==> 8 * (g / 8 + 1) < meta.PieceCount())
  }

  /** After verification the bitfield ends with the byte of the last right piece; it is empty when there is none. */
  lemma LengthAfterVerification<Id>(meta: Meta, s: Sys<Id>)
    requires Verified(meta, s) && Trimmed(s.client)
    ensures s.client == [] <==> forall g: nat :: !SliceGood(meta, s.disk, g)
    ensures forall g: nat :: SliceGood(meta, s.disk, g) ==> |s.client| >= 8 * (g / 8 + 1)
    ensures s.client != [] ==> exists g: nat :: SliceGood(meta, s.disk, g) && |s.client| == 8 * (g / 8 + 1)
  {
    forall g: nat
      ensures SliceGood(meta, s.disk, g) <==> BitAt(s.client, g)
    {
      assert VerifiedAt(meta, s, g);
    }
    if s.client != [] {
      var g: nat :| EndsWithByteOf(s.client, g);
      assert SliceGood(meta, s.disk, g);
    }
  }

  /** Exactly on which disks verification leaves a bitfield that is too short. */
  lemma ShortStartIff<Id>(meta: Meta, s: Sys<Id>)
    requires Verified(meta, s) && Trimmed(s.client)
    ensures 0 < |s.client| < meta.PieceCount() <==> EndsShort(meta, s.disk)
  {
    LengthAfterVerification(meta, s);
  }

  /** A verified start offers every lacking piece that a remote has, except on exactly those disks. */
  lemma VerifiedOffersAllIff<Id>(meta: Meta, s: Sys<Id>)
    requires Verified(meta, s) && Trimmed(s.client)
    ensures OffersAll(meta, s) <==> !EndsShort(meta, s.disk)
  {
    ShortStartIff(meta, s);
    OffersAllIff(meta, s);
  }

  /** Such disks exist: only piece 0 of more than eight is right. */
  lemma OnlyFirstPieceFound<Id>(meta: Meta, s: Sys<Id>)
    requires Verified(meta, s) && Trimmed(s.client) && meta.PieceCount() > 8
    requires forall id: nat :: SliceGood(meta, s.disk, id) <==> id == 0
    ensures EndsShort(meta, s.disk) && |s.client| == 8 && forall count: nat :: InitClient(s, count) == s
  {
    assert SliceGood(meta, s.disk, 0);
    LengthAfterVerification(meta, s);
  }

  // ----- over whole runs -----

  /** Every active piece is inside the bitfield. */
  ghost predicate Confined<Id>(s: Sys<Id>) {
    forall id :: id in s.active ==> id < |s.client|
  }

  lemma BlockStaysConfined<Id>(meta: Meta, s: Sys<Id>, id: nat, offset: nat, data: Bytes)
    requires ObjectsOk(meta, s) && Confined(s)
    ensures var s' := PutBlock(meta, s, id, offset, data); s'.active == s.active && |s'.client| == |s.client|
  {
    hide PieceState.StoreBlock, PieceState.BlockError, PieceState.Complete, PieceState.Ok;
  }

  lemma ResetStaysConfined<Id>(meta: Meta, s: Sys<Id>, id: nat)
    requires ObjectsOk(meta, s) && Confined(s)
    ensures var s' := ResetPiece(meta, s, id); Confined(s') && |s'.client| == |s.client|
  {
    hide PieceState.Reset, PieceState.Ok;
  }

  lemma WriteStaysConfined<Id>(meta: Meta, s: Sys<Id>)
    requires ObjectsOk(meta, s) && s.queue != [] && Confined(s)
    ensures Confined(WriteNext(meta, s)) && |WriteNext(meta, s).client| == |s.client|
  {
    DequeueObjectsOk(meta, s);
    ResetStaysConfined(meta, s.(queue := s.queue[1..]), s.heap[s.queue[0]].id);
    hide ResetPiece, PieceState.Ok;
  }

  lemma StepStaysConfined<Id>(meta: Meta, s: Sys<Id>, l: Label<Id>, s': Sys<Id>)
    requires Step(meta, s, l, s') && Confined(s)
    requires l.Activating? ==> l.id < |s.client|
    ensures Confined(s') && (s.client != [] ==> |s'.client| == |s.client|)
  {
    hide ObjectsOk, PutBlock, WriteNext;
    if l.Writing? {
      WriteStaysConfined(meta, s);
    } else if l.Receiving? {
      BlockStaysConfined(meta, s, l.id, l.offset, l.data);
    }
  }

  lemma ScheduledStep<Id>(meta: Meta, r: Run<Id>, k: nat)
    requires IsRun(meta, r) && Scheduled(r) && k + 1 < |r.states| && Confined(r.states[k])
    ensures Confined(r.states[k + 1])
    ensures r.states[k].client != [] ==> |r.states[k + 1].client| == |r.states[k].client|
  {
    hide IsRun, Step, Confined;
    RunStep(meta, r, k);
    assert ScheduledAt(r, k);
    StepStaysConfined(meta, r.states[k], r.labels[k], r.states[k + 1]);
  }

  lemma StartIsConfined<Id>(meta: Meta, s: Sys<Id>)
    requires Blank(meta, s) || Verified(meta, s)
    ensures Confined(s)
  {
    forall id | id in s.active
      ensures id < |s.client|
    {
      assert VerifiedAt(meta, s, id);
    }
  }

  lemma {:induction false} RunStaysConfined<Id>(meta: Meta, r: Run<Id>, k: nat)
    requires IsRun(meta, r) && Scheduled(r) && k < |r.states|
    ensures Confined(r.states[k])
  {
    if k == 0 {
      StartIsConfined(meta, r.states[0]);
    } else {
      hide IsRun, Scheduled, Confined;
      RunStaysConfined(meta, r, k - 1);
      ScheduledStep(meta, r, k - 1);
    }
  }

  /** Once the bitfield has a length, it keeps it. */
  lemma {:induction false} RunKeepsLength<Id>(meta: Meta, r: Run<Id>, j: nat, k: nat)
    requires IsRun(meta, r) && Scheduled(r) && j <= k < |r.states| && r.states[j].client != []
    ensures |r.states[k].client| == |r.states[j].client|
  {
    if j < k {
      hide IsRun, Scheduled, Confined;
      RunKeepsLength(meta, r, j, k - 1);
      RunStaysConfined(meta, r, k - 1);
      ScheduledStep(meta, r, k - 1);
    }
  }

  /** From a point on where the bitfield is too short, whatever sized it, no state of the run is done. */
  lemma ShortIsNeverDone<Id>(meta: Meta, r: Run<Id>, j: nat, k: nat)
    requires IsRun(meta, r) && Scheduled(r) && j <= k < |r.states|
    requires 0 < |r.states[j].client| < meta.PieceCount()
    ensures !Done(meta, r.states[k])
  {
    RunKeepsLength(meta, r, j, k);
    RunStaysConfined(meta, r, k);
    RunKeepsInv(meta, r, k);
    DoneIff(meta, r.states[k]);
    assert !Written(r.states[k], |r.states[j].client|);
  }

  /** From a point on where it is long enough, every lacking piece that a remote has is offered in every state. */
  lemma LongOffersAll<Id>(meta: Meta, r: Run<Id>, j: nat, k: nat)
    requires IsRun(meta, r) && Scheduled(r) && j <= k < |r.states|
    requires |r.states[j].client| >= meta.PieceCount() > 0
    ensures OffersAll(meta, r.states[k])
  {
    RunKeepsLength(meta, r, j, k);
    OffersAllIff(meta, r.states[k]);
  }

  /** A run that resumes from a disk that ends short is never done, as long as the scheduler alone activates pieces. */
  lemma ShortStartIsNeverDone<Id>(meta: Meta, r: Run<Id>, k: nat)
    requires IsRun(meta, r) && Scheduled(r) && k < |r.states|
    requires Verified(meta, r.states[0]) && Trimmed(r.states[0].client) && EndsShort(meta, r.states[0].disk)
    ensures !Done(meta, r.states[k])
  {
    ShortStartIff(meta, r.states[0]);
    ShortIsNeverDone(meta, r, 0, k);
  }
}
