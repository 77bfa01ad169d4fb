/** Startup verification as steps on the abstract state: which pieces it finds does not depend on the order of visit. */
module Startup {
  import opened Bytes
  import opened Bitfields
  import opened Files
  import opened Pieces
  import opened Transfer
  import opened Runs

  /** A piece whose slice is right becomes active, written and marked. */
  function Found<Id>(meta: Meta, s: Sys<Id>, id: nat, o: Id): Sys<Id>
    requires meta.pieceLength > 0
  {
    s.(heap := s.heap[o := NewPiece(id, meta.PieceLengthOf(id)).SetWritten()],
       active := s.active[id := o],
       client := WithBit(s.client, id, true))
  }

  ghost predicate NotSeen<Id>(s: Sys<Id>, id: nat) {
    id !in s.active && !BitAt(s.client, id)
  }

  /** The bitfield ends with the byte of one of its set bits, or is empty. */
  ghost predicate Trimmed(b: Bits) {
    b == [] || exists g: nat :: EndsWithByteOf(b, g)
  }

  ghost predicate EndsWithByteOf(b: Bits, g: nat) {
    BitAt(b, g) && |b| == 8 * (g / 8 + 1)
  }

  /** The state when exactly the ids in `seen` were visited. */
  ghost predicate VerifiedFor<Id>(meta: Meta, s: Sys<Id>, seen: set<nat>) {
    && ObjectsOk(meta, s) && s.queue == [] && Trimmed(s.client)
    && forall id: nat :: if id in seen then VerifiedAt(meta, s, id) else NotSeen(s, id)
  }

  lemma BlankIsVerifiedForNone<Id>(meta: Meta, s: Sys<Id>)
    requires Blank(meta, s)
    ensures VerifiedFor(meta, s, {})
  {}

  lemma FoundObjectsOk<Id>(meta: Meta, s: Sys<Id>, id: nat, o: Id)
    requires ObjectsOk(meta, s) && o !in s.heap
    ensures ObjectsOk(meta, Found(meta, s, id, o))
  {
    PieceSizePositive(meta, id);
    NewPieceOk(id, meta.PieceLengthOf(id));
    SetWrittenOk(NewPiece(id, meta.PieceLengthOf(id)));
  }

  lemma SetBitStaysTrimmed(b: Bits, id: nat)
    requires Trimmed(b)
    ensures Trimmed(WithBit(b, id, true))
  {
    var c := WithBit(b, id, true);
    if id < |b| {
      var g :| EndsWithByteOf(b, g);
      assert EndsWithByteOf(c, g);
    } else {
      assert b == [] || |b| % 8 == 0;
      assert EndsWithByteOf(c, id);
    }
  }

  lemma VisitFinds<Id>(meta: Meta, s: Sys<Id>, seen: set<nat>, id: nat, o: Id)
    requires VerifiedFor(meta, s, seen) && id !in seen && o !in s.heap && SliceGood(meta, s.disk, id)
    ensures VerifiedFor(meta, Found(meta, s, id, o), seen + {id})
  {
    var s' := Found(meta, s, id, o);
    FoundObjectsOk(meta, s, id, o);
    SetBitStaysTrimmed(s.client, id);
    assert NotSeen(s, id);
    forall i: nat
      ensures if i in seen + {id} then VerifiedAt(meta, s', i) else NotSeen(s', i)
    {
      if i in seen {
        assert VerifiedAt(meta, s, i);
      } else {
        assert NotSeen(s, i);
      }
    }
  }

  lemma VisitPasses<Id>(meta: Meta, s: Sys<Id>, seen: set<nat>, id: nat)
    requires VerifiedFor(meta, s, seen) && id !in seen && !SliceGood(meta, s.disk, id)
    ensures VerifiedFor(meta, s, seen + {id})
  {
    assert NotSeen(s, id);
  }

  /** After all listed pieces were visited, in any order, the state is that of a verified start, with a trimmed bitfield. */
  lemma AllSeenIsVerified<Id>(meta: Meta, s: Sys<Id>, seen: set<nat>)
    requires VerifiedFor(meta, s, seen) && forall id: nat :: id < meta.PieceCount() ==> id in seen
    ensures Verified(meta, s) && Trimmed(s.client)
  {
    forall id: nat
      ensures VerifiedAt(meta, s, id)
    {
      if id !in seen {
        assert NotSeen(s, id);
      }
    }
  }

  /** The pieces among `ids` that are right on disk. */
  ghost function GoodAmong(meta: Meta, disk: Bytes, ids: set<nat>): set<nat> {
    set id | id in ids && SliceGood(meta, disk, id)
  }

  lemma GoodAmongStep(meta: Meta, disk: Bytes, ids: set<nat>, id: nat)
    requires id !in ids
    ensures |GoodAmong(meta, disk, ids + {id})| == |GoodAmong(meta, disk, ids)| + if SliceGood(meta, disk, id) then 1 else 0
  {
    var g := GoodAmong(meta, disk, ids);
    assert GoodAmong(meta, disk, ids + {id}) == if SliceGood(meta, disk, id) then g + {id} else g;
  }

  /** Two verified starts over the same disk mark and activate the same pieces; if trimmed, with the same bitfield. */
  lemma VerifiedIsDetermined<Id>(meta: Meta, s: Sys<Id>, t: Sys<Id>)
    requires Verified(meta, s) && Verified(meta, t) && s.disk == t.disk
    ensures s.active.Keys == t.active.Keys
    ensures forall id: nat :: BitAt(s.client, id) == BitAt(t.client, id)
    ensures Trimmed(s.client) && Trimmed(t.client) ==> s.client == t.client
  {
    forall id: nat
      ensures (id in s.active <==> id in t.active) && BitAt(s.client, id) == BitAt(t.client, id)
    {
      assert VerifiedAt(meta, s, id) && VerifiedAt(meta, t, id);
    }
    if Trimmed(s.client) && Trimmed(t.client) {
      TrimmedIsDetermined(s.client, t.client);
      TrimmedIsDetermined(t.client, s.client);
      assert forall i :: 0 <= i < |s.client| ==> s.client[i] == BitAt(s.client, i) == t.client[i];
    }
  }

  lemma TrimmedIsDetermined(a: Bits, b: Bits)
    requires Trimmed(a) && Trimmed(b) && forall i: nat :: BitAt(a, i) == BitAt(b, i)
    ensures |a| <= |b|
  {
    if a != [] {
      var g :| EndsWithByteOf(a, g);
      assert BitAt(b, g);
      var h :| EndsWithByteOf(b, h);
    }
  }
}
