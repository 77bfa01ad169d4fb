/** Byte accounting: `downloaded()`, `left()` and what they say about the disk. */
module Accounting {
  import opened Files
  import opened Transfer
  import opened Runs

  function Greatest(ids: set<nat>): (g: nat)
    requires ids != {}
    ensures g in ids && forall i :: i in ids ==> i <= g
  {
    GreatestExists(ids);
    var g :| g in ids && forall i :: i in ids ==> i <= g;
    g
  }

  lemma {:induction false} GreatestExists(ids: set<nat>)
    requires ids != {}
    ensures exists g :: g in ids && forall i :: i in ids ==> i <= g
  {
    var x :| x in ids;
    if ids != {x} {
      var rest := ids - {x};
      assert rest != {};
      GreatestExists(rest);
      var g :| g in rest && forall i :: i in rest ==> i <= g;
      assert forall i :: i in ids ==> i == x || i in rest;
      var m := if g < x then x else g;
      assert m in ids && forall i :: i in ids ==> i <= m;
    }
  }

  /** The lengths of the pieces `ids`, added up. */
  ghost function SizeOf(meta: Meta, ids: set<nat>): nat
    requires meta.WellFormed()
  {
    if ids == {} then 0
    else
      var g := Greatest(ids);
      SizeOf(meta, ids - {g}) + meta.PieceLengthOf(g)
  }

  /** The sum does not depend on the order of the visit. */
  lemma {:induction false} SizeWithout(meta: Meta, ids: set<nat>, x: nat)
    requires meta.WellFormed() && x in ids
    ensures SizeOf(meta, ids) == SizeOf(meta, ids - {x}) + meta.PieceLengthOf(x)
  {
    var g := Greatest(ids);
    if x != g {
      SizeWithout(meta, ids - {g}, x);
      assert ids - {g} - {x} == ids - {x} - {g};
      assert g in ids - {x};
    }
  }

  /** Fewer pieces, fewer bytes; and the same bytes only for the same pieces. */
  lemma {:induction false} SizeMonotone(meta: Meta, a: set<nat>, b: set<nat>)
    requires meta.WellFormed() && a <= b
    ensures SizeOf(meta, a) <= SizeOf(meta, b)
    ensures SizeOf(meta, a) == SizeOf(meta, b) ==> a == b
    decreases |b|
  {
    if x :| x in b && x !in a {
      SizeWithout(meta, b, x);
      SizeMonotone(meta, a, b - {x});
      PieceSizePositive(meta, x);
    } else {
      assert a == b;
    }
  }

  function Below(n: nat): (r: set<nat>)
    ensures forall i: nat :: i in r <==> i < n
  {
    if n == 0 then {} else Below(n - 1) + {n - 1}
  }

  /** The lengths of the first pieces add up to where the next one starts, and all of them to the whole length. */
  lemma {:induction false} LengthsTile(meta: Meta, n: nat)
    requires meta.WellFormed() && n <= meta.PieceCount()
    ensures SizeOf(meta, Below(n)) == if n < meta.PieceCount() then n * meta.pieceLength else meta.Length()
  {
    if n == 0 {
      CeilBounds(meta.Length(), meta.pieceLength);
      assert Below(0) == {};
    } else {
      LengthsTile(meta, n - 1);
      assert Below(n) - {n - 1} == Below(n - 1);
      SizeWithout(meta, Below(n), n - 1);
      PieceBounds(meta, n - 1);
    }
  }

  ghost function WrittenIds<Id>(s: Sys<Id>): set<nat> {
    set id | id in s.active && Written(s, id)
  }

  /** Those of `ids` whose active piece is written. */
  ghost function WrittenAmong<Id>(s: Sys<Id>, ids: set<nat>): set<nat> {
    set id | id in ids && Written(s, id)
  }

  lemma WrittenAmongStep<Id>(meta: Meta, s: Sys<Id>, ids: set<nat>, x: nat)
    requires meta.WellFormed() && x !in ids
    ensures SizeOf(meta, WrittenAmong(s, ids + {x}))
         == SizeOf(meta, WrittenAmong(s, ids)) + if Written(s, x) then meta.PieceLengthOf(x) else 0
  {
    var w := WrittenAmong(s, ids);
    if Written(s, x) {
      assert WrittenAmong(s, ids + {x}) == w + {x} && w + {x} - {x} == w;
      SizeWithout(meta, w + {x}, x);
    } else {
      assert WrittenAmong(s, ids + {x}) == w;
    }
  }

  /** `downloaded()`. */
  ghost function Downloaded<Id>(meta: Meta, s: Sys<Id>): nat
    requires meta.WellFormed()
  {
    SizeOf(meta, WrittenIds(s))
  }

  ghost function Positions(meta: Meta, ids: set<nat>): set<nat>
    requires meta.WellFormed()
  {
    set x: nat | x < meta.Length() && x / meta.pieceLength in ids
  }

  function Interval(n: nat, m: nat): (r: set<nat>)
    requires n <= m
    ensures (forall x: nat :: x in r <==> n <= x < m) && |r| == m - n
    decreases m - n
  {
    if n == m then {} else Interval(n, m - 1) + {m - 1}
  }

  lemma QuotientIff(x: nat, pl: nat, id: nat)
    requires pl > 0
    ensures x / pl == id <==> id * pl <= x < id * pl + pl
  {
    var q := x / pl;
    assert q * pl <= x < q * pl + pl;
    if q < id {
      MulStep(q, id, pl);
    } else if id < q {
      MulStep(id, q, pl);
    }
  }

  lemma PositionInPiece(meta: Meta, id: nat, x: nat)
    requires meta.WellFormed() && id < meta.PieceCount()
    ensures x < meta.Length() && x / meta.pieceLength == id
       <==> id * meta.pieceLength <= x < id * meta.pieceLength + meta.PieceLengthOf(id)
  {
    var pl := meta.pieceLength;
    PieceBounds(meta, id);
    QuotientIff(x, pl, id);
    NextStart(id, pl);
    hide Meta.WellFormed, Meta.PieceCount, Meta.PieceLengthOf, Meta.Length;
  }

  lemma NextStart(id: nat, pl: nat)
    ensures (id + 1) * pl == id * pl + pl
  {}

  /** The lengths of pieces add up to the number of byte positions that fall into them. */
  lemma {:induction false} SizeIsPositions(meta: Meta, ids: set<nat>)
    requires meta.WellFormed() && forall id :: id in ids ==> id < meta.PieceCount()
    ensures SizeOf(meta, ids) == |Positions(meta, ids)|
  {
    if ids == {} {
      assert Positions(meta, ids) == {};
    } else {
      var g := Greatest(ids);
      SizeIsPositions(meta, ids - {g});
      PieceBounds(meta, g);
      var own := Interval(g * meta.pieceLength, g * meta.pieceLength + meta.PieceLengthOf(g));
      forall x: nat
        ensures x in own <==> x < meta.Length() && x / meta.pieceLength == g
      {
        PositionInPiece(meta, g, x);
      }
      assert Positions(meta, ids) == Positions(meta, ids - {g}) + own;
      assert Positions(meta, ids - {g}) !! own;
    }
  }

  lemma WrittenIsListed<Id>(meta: Meta, s: Sys<Id>)
    requires Inv(meta, s)
    ensures meta.WellFormed() && WrittenIds(s) <= Below(meta.PieceCount())
  {
    forall id | id in WrittenIds(s)
      ensures id in Below(meta.PieceCount())
    {
      assert ConservedAt(meta, s, id);
    }
  }

  lemma WrittenPositions<Id>(meta: Meta, s: Sys<Id>)
    requires meta.WellFormed()
    ensures Positions(meta, WrittenIds(s)) == set x: nat | x < meta.Length() && Written(s, x / meta.pieceLength)
  {
    hide Meta.WellFormed, Meta.Length;
    forall id: nat
      ensures id in WrittenIds(s) <==> Written(s, id)
    {
    }
    hide WrittenIds, Written;
  }

  /** `downloaded()` is the number of positions of the torrent whose piece is written. */
  lemma DownloadedIsWrittenBytes<Id>(meta: Meta, s: Sys<Id>)
    requires Inv(meta, s)
    ensures Downloaded(meta, s) == |set x: nat | x < meta.Length() && Written(s, x / meta.pieceLength)|
  {
    hide Inv, SizeOf, Positions, WrittenIds, Written, Meta.WellFormed, Meta.Length, Meta.PieceCount;
    WrittenIsListed(meta, s);
    SizeIsPositions(meta, WrittenIds(s));
    WrittenPositions(meta, s);
  }

  /** `0 <= downloaded() <= length()` in every reachable state; equal, that is nothing left, exactly when all is written. */
  lemma DownloadedBounds<Id>(meta: Meta, s: Sys<Id>)
    requires Inv(meta, s)
    ensures Downloaded(meta, s) <= meta.Length()
    ensures Downloaded(meta, s) == meta.Length() <==> forall id: nat :: id < meta.PieceCount() ==> Written(s, id)
  {
    WrittenIsListed(meta, s);
    hide Inv;
    LengthsTile(meta, meta.PieceCount());
    SizeMonotone(meta, WrittenIds(s), Below(meta.PieceCount()));
    if Downloaded(meta, s) == meta.Length() {
      forall id: nat | id < meta.PieceCount()
        ensures Written(s, id)
      {
        assert id in Below(meta.PieceCount());
        assert id in WrittenIds(s);
      }
    }
    if forall id: nat :: id < meta.PieceCount() ==> Written(s, id) {
      forall id: nat | id in Below(meta.PieceCount())
        ensures id in WrittenIds(s)
      {
        assert Written(s, id);
      }
      assert WrittenIds(s) == Below(meta.PieceCount());
    }
  }

  /** In every state of every run: `done()` leaves nothing to download. */
  lemma RunDoneLeavesNothing<Id>(meta: Meta, r: Run<Id>, k: nat)
    requires IsRun(meta, r) && k < |r.states|
    ensures meta.WellFormed() && Downloaded(meta, r.states[k]) <= meta.Length()
    ensures Done(meta, r.states[k]) ==> Downloaded(meta, r.states[k]) == meta.Length()
  {
    RunKeepsInv(meta, r, k);
    DownloadedBounds(meta, r.states[k]);
    DoneIff(meta, r.states[k]);
  }
}
