/** Whole runs of the transfer, from startup on: safety, recovery after a restart, and accounting. */
module Runs {
  import opened Bytes
  import opened Bitfields
  import opened Files
  import opened Transfer

  datatype Label<Id> =
    | Activating(id: nat, o: Id)
    | Marking(id: nat)
    | Receiving(id: nat, offset: nat, data: Bytes)
    | Retrying(id: nat, timedOut: bool)
    | Sizing(count: nat)
    | Writing

  /** One call, with any arguments: a peer activates or requests, a block arrives, a piece is retried, the writer runs. */
  ghost predicate Step<Id>(meta: Meta, s: Sys<Id>, l: Label<Id>, s': Sys<Id>) {
    && ObjectsOk(meta, s)
    && match l
       case Activating(id, o) => o !in s.heap && s' == Activate(meta, s, id, o)
       case Marking(id) => id in s.active && s' == Mark(meta, s, id)
       case Receiving(id, offset, data) => s' == PutBlock(meta, s, id, offset, data)
       case Retrying(id, timedOut) => id in s.active && s' == RetryPiece(meta, s, id, timedOut)
       case Sizing(count) => s' == InitClient(s, count)
       case Writing => s.queue != [] && s' == WriteNext(meta, s)
  }

  /** Start without verification: no piece is known, whatever is on disk. */
  ghost predicate Blank<Id>(meta: Meta, s: Sys<Id>) {
    && meta.WellFormed() && |s.disk| == meta.Length()
    && s.heap == map[] && s.active == map[] && s.client == [] && s.queue == []
  }

  /** Start after `verify_existing_file`: exactly the pieces whose slice on disk is right are active, written and marked. */
  ghost predicate Verified<Id>(meta: Meta, s: Sys<Id>) {
    && ObjectsOk(meta, s) && s.queue == []
    && forall id: nat :: VerifiedAt(meta, s, id)
  }

  ghost predicate VerifiedAt<Id>(meta: Meta, s: Sys<Id>, id: nat) {
    && (id in s.active <==> SliceGood(meta, s.disk, id))
    && (id in s.active ==> s.active[id] in s.heap && s.heap[s.active[id]].written)
    && (BitAt(s.client, id) <==> SliceGood(meta, s.disk, id))
  }

  datatype Run<Id> = Run(states: seq<Sys<Id>>, labels: seq<Label<Id>>)

  ghost predicate IsRun<Id>(meta: Meta, r: Run<Id>) {
    && |r.states| == |r.labels| + 1
    && (Blank(meta, r.states[0]) || Verified(meta, r.states[0]))
    && forall k :: 0 <= k < |r.labels| ==> StepAt(meta, r, k)
  }

  ghost predicate StepAt<Id>(meta: Meta, r: Run<Id>, k: nat)
    requires k < |r.labels| && |r.states| == |r.labels| + 1
  {
    Step(meta, r.states[k], r.labels[k], r.states[k + 1])
  }

  /** The `k`-th step of a run. */
  lemma RunStep<Id>(meta: Meta, r: Run<Id>, k: nat)
    requires IsRun(meta, r) && k + 1 < |r.states|
    ensures |r.states| == |r.labels| + 1 && Step(meta, r.states[k], r.labels[k], r.states[k + 1])
  {
    hide Step, Blank, Verified;
    assert StepAt(meta, r, k);
  }

  function Last<Id>(r: Run<Id>): Sys<Id>
    requires r.states != []
  {
    r.states[|r.states| - 1]
  }

  function Extended<Id>(r: Run<Id>, l: Label<Id>, s: Sys<Id>): Run<Id> {
    Run(r.states + [s], r.labels + [l])
  }

  /** The run `r` goes on after the run `h`. */
  ghost predicate Continues<Id>(h: Run<Id>, r: Run<Id>) {
    h.states <= r.states && h.labels <= r.labels
  }

  lemma ExtendedIsRun<Id>(meta: Meta, r: Run<Id>, l: Label<Id>, s: Sys<Id>)
    requires IsRun(meta, r) && Step(meta, Last(r), l, s)
    ensures IsRun(meta, Extended(r, l, s))
  {
    var e := Extended(r, l, s);
    forall k | 0 <= k < |e.labels|
      ensures StepAt(meta, e, k)
    {
      if k < |r.labels| {
        assert StepAt(meta, r, k);
      }
    }
  }

  /** A run leads to the state `s`. */
  ghost predicate Reached<Id>(meta: Meta, r: Run<Id>, s: Sys<Id>) {
    IsRun(meta, r) && Last(r) == s
  }

  lemma InitialInv<Id>(meta: Meta, s: Sys<Id>)
    requires Blank(meta, s) || Verified(meta, s)
    ensures Inv(meta, s)
  {
    forall id: nat
      ensures ConservedAt(meta, s, id)
    {
      if Verified(meta, s) {
        assert VerifiedAt(meta, s, id);
      }
    }
  }

  lemma StepKeepsInv<Id>(meta: Meta, s: Sys<Id>, l: Label<Id>, s': Sys<Id>)
    requires Inv(meta, s) && Step(meta, s, l, s')
    ensures Inv(meta, s')
  {
    match l
    case Activating(id, o) => ActivateKeepsInv(meta, s, id, o);
    case Marking(id) => MarkKeepsInv(meta, s, id);
    case Receiving(id, offset, data) => PutBlockKeepsInv(meta, s, id, offset, data);
    case Retrying(id, timedOut) => RetryKeepsInv(meta, s, id, timedOut);
    case Sizing(count) => InitClientKeepsInv(meta, s, count);
    case Writing => WriteNextKeepsInv(meta, s);
  }

  /** Queue, bitfield and disk agree in every state of every run. */
  lemma {:induction false} RunKeepsInv<Id>(meta: Meta, r: Run<Id>, k: nat)
    requires IsRun(meta, r) && k < |r.states|
    ensures Inv(meta, r.states[k])
  {
    if k == 0 {
      InitialInv(meta, r.states[0]);
    } else {
      RunKeepsInv(meta, r, k - 1);
      assert StepAt(meta, r, k - 1);
      StepKeepsInv(meta, r.states[k - 1], r.labels[k - 1], r.states[k]);
    }
  }

  lemma WriteKeepsGoodSlices<Id>(meta: Meta, s: Sys<Id>, id: nat)
    requires ObjectsOk(meta, s) && s.queue != [] && SliceGood(meta, s.disk, id)
    ensures SliceGood(meta, WriteNext(meta, s).disk, id)
  {
    var o := s.queue[0];
    DequeueObjectsOk(meta, s);
    if s.heap[o].id < meta.PieceCount() && |s.heap[o].data| == s.heap[o].size {
      WriteBackSlices(meta, s.(queue := s.queue[1..]), o, id);
    }
  }

  /** A slice that is right on disk is never made wrong, by any step. */
  lemma StepKeepsGoodSlices<Id>(meta: Meta, s: Sys<Id>, l: Label<Id>, s': Sys<Id>, id: nat)
    requires Step(meta, s, l, s') && SliceGood(meta, s.disk, id)
    ensures SliceGood(meta, s'.disk, id)
  {
    if l.Writing? {
      WriteKeepsGoodSlices(meta, s, id);
    }
  }

  lemma {:induction false} RunKeepsGoodSlices<Id>(meta: Meta, r: Run<Id>, j: nat, k: nat, id: nat)
    requires IsRun(meta, r) && j <= k < |r.states| && SliceGood(meta, r.states[j].disk, id)
    ensures SliceGood(meta, r.states[k].disk, id)
  {
    hide SliceGood, Step;
    if j < k {
      RunKeepsGoodSlices(meta, r, j, k - 1, id);
      assert StepAt(meta, r, k - 1);
      StepKeepsGoodSlices(meta, r.states[k - 1], r.labels[k - 1], r.states[k], id);
    }
  }

  /** A piece written in an earlier run is found again by the startup verification of a later one. */
  lemma RestartRecovers<Id>(meta: Meta, r: Run<Id>, j: nat, k: nat, id: nat, next: Sys<Id>)
    requires IsRun(meta, r) && j <= k < |r.states| && Written(r.states[j], id)
    requires Verified(meta, next) && next.disk == r.states[k].disk
    ensures BitAt(next.client, id) && Written(next, id)
  {
    RunKeepsInv(meta, r, j);
    assert ConservedAt(meta, r.states[j], id);
    RunKeepsGoodSlices(meta, r, j, k, id);
    assert VerifiedAt(meta, next, id);
  }

  // ----- done, downloaded, left -----

  ghost predicate Done<Id>(meta: Meta, s: Sys<Id>) {
    && CountTrue(s.client) == meta.PieceCount() && meta.PieceCount() != 0
    && forall id :: id in s.active ==> Written(s, id)
  }

  /** Bits that are set only below `n` are at most `n`, and exactly `n` only when all of these are set. */
  lemma {:induction false} CountBelow(b: Bits, n: nat)
    requires forall i :: n <= i < |b| ==> !b[i]
    ensures CountTrue(b) <= n
    ensures CountTrue(b) == n ==> forall i: nat :: i < n ==> BitAt(b, i)
    decreases |b|
  {
    if b != [] {
      var m := |b| - 1;
      assert b == b[..m] + [b[m]];
      CountTrueConcat(b[..m], [b[m]]);
      if m < n {
        CountBelow(b[..m], m);
        forall i: nat | i < n && CountTrue(b) == n
          ensures BitAt(b, i)
        {
          assert i < m ==> BitAt(b[..m], i);
        }
      } else {
        CountBelow(b[..m], n);
        forall i: nat | i < n && CountTrue(b) == n
          ensures BitAt(b, i)
        {
          assert BitAt(b[..m], i);
        }
      }
    }
  }

  /** `done()` holds only when every listed piece has its right bytes on disk, and no other piece is active. */
  lemma DoneMeansAllGood<Id>(meta: Meta, s: Sys<Id>)
    requires Inv(meta, s) && Done(meta, s)
    ensures forall id: nat :: id < meta.PieceCount() ==> SliceGood(meta, s.disk, id) && Written(s, id)
    ensures forall id: nat :: id in s.active ==> id < meta.PieceCount()
  {
    forall id: nat
      ensures id in s.active ==> id < meta.PieceCount()
      ensures BitAt(s.client, id) ==> id < meta.PieceCount() && Written(s, id) && SliceGood(meta, s.disk, id)
    {
      assert ConservedAt(meta, s, id);
    }
    forall i | meta.PieceCount() <= i < |s.client|
      ensures !s.client[i]
    {
      assert !BitAt(s.client, i);
    }
    CountBelow(s.client, meta.PieceCount());
  }

  /** Safety of whole runs: when any state of any run says `done`, the disk image is the torrent's content. */
  lemma RunDoneMeansAllGood<Id>(meta: Meta, r: Run<Id>, k: nat)
    requires IsRun(meta, r) && k < |r.states| && Done(meta, r.states[k])
    ensures forall id: nat :: id < meta.PieceCount() ==> SliceGood(meta, r.states[k].disk, id)
  {
    RunKeepsInv(meta, r, k);
    DoneMeansAllGood(meta, r.states[k]);
  }

  lemma {:induction false} CountExact(b: Bits, n: nat)
    requires n <= |b| && forall i :: 0 <= i < |b| ==> b[i] == (i < n)
    ensures CountTrue(b) == n
    decreases |b|
  {
    if b != [] {
      var m := |b| - 1;
      assert b == b[..m] + [b[m]];
      CountTrueConcat(b[..m], [b[m]]);
      CountExact(b[..m], if n <= m then n else m);
    }
  }

  /** Exactly when `done()` holds: every listed piece is written, and no piece with another id is active. */
  lemma DoneIff<Id>(meta: Meta, s: Sys<Id>)
    requires Inv(meta, s)
    ensures Done(meta, s) <==> (forall id: nat :: id < meta.PieceCount() ==> Written(s, id))
                               && (forall id: nat :: id in s.active ==> id < meta.PieceCount())
  {
    if Done(meta, s) {
      DoneMeansAllGood(meta, s);
    } else if (forall id: nat :: id < meta.PieceCount() ==> Written(s, id))
           && (forall id: nat :: id in s.active ==> id < meta.PieceCount()) {
      forall id: nat
        ensures BitAt(s.client, id) == (id < meta.PieceCount())
      {
        assert ConservedAt(meta, s, id);
      }
      CeilBounds(meta.Length(), meta.pieceLength);
      assert BitAt(s.client, meta.PieceCount() - 1);
      forall i | 0 <= i < |s.client|
        ensures s.client[i] == (i < meta.PieceCount())
      {
        assert BitAt(s.client, i) == s.client[i];
      }
      CountExact(s.client, meta.PieceCount());
      assert false;
    }
  }

  lemma StepKeepsBogus<Id>(meta: Meta, s: Sys<Id>, l: Label<Id>, s': Sys<Id>, id: nat)
    requires Step(meta, s, l, s') && id in s.active && id >= meta.PieceCount()
    ensures id in s'.active
  {}

  lemma {:induction false} RunKeepsBogus<Id>(meta: Meta, r: Run<Id>, j: nat, k: nat, id: nat)
    requires IsRun(meta, r) && j <= k < |r.states| && id in r.states[j].active && id >= meta.PieceCount()
    ensures id in r.states[k].active
  {
    if j < k {
      RunKeepsBogus(meta, r, j, k - 1, id);
      assert StepAt(meta, r, k - 1);
      StepKeepsBogus(meta, r.states[k - 1], r.labels[k - 1], r.states[k], id);
    }
  }

  /**
   * Nothing checks an id that a remote names. Once a piece past the listed digests is active it is never
   * written and never given up, so no later state of the run is ever done.
   */
  lemma BogusPieceBlocksDone<Id>(meta: Meta, r: Run<Id>, j: nat, k: nat, id: nat)
    requires IsRun(meta, r) && j <= k < |r.states| && id in r.states[j].active && id >= meta.PieceCount()
    ensures !Done(meta, r.states[k])
  {
    RunKeepsBogus(meta, r, j, k, id);
    RunKeepsInv(meta, r, k);
    DoneIff(meta, r.states[k]);
  }

  // ----- draining the queue -----

  /** The state after `n` rounds of the writer with nothing else going on. */
  ghost function Drained<Id>(meta: Meta, s: Sys<Id>, n: nat): (s': Sys<Id>)
    requires Inv(meta, s) && n <= |s.queue|
    ensures Inv(meta, s') && s'.queue == s.queue[n..]
  {
    if n == 0 then s
    else
      var t := Drained(meta, s, n - 1);
      hide WriteNext;
      assert t.queue[1..] == s.queue[n..];
      WriteNextKeepsInv(meta, t);
      WriteNext(meta, t)
  }

  /** Once the writer has caught up, a client bit means right bytes on disk. */
  lemma DrainedBitsAreOnDisk<Id>(meta: Meta, s: Sys<Id>, id: nat)
    requires Inv(meta, s) && id < meta.PieceCount()
    requires BitAt(Drained(meta, s, |s.queue|).client, id)
    ensures SliceGood(meta, Drained(meta, s, |s.queue|).disk, id)
  {
    assert ConservedAt(meta, Drained(meta, s, |s.queue|), id);
  }
}
