/** The torrent bitfield: bits packed in bytes, most significant bit first. */
module Bitfields {
  import opened Bytes

  /** The abstract value of a bitfield. Its length is a multiple of eight. */
  type Bits = seq<bool>

  function ByteCount(count: nat): nat {
    count / 8 + (if count % 8 != 0 then 1 else 0)
  }

  function Falses(n: nat): Bits {
    seq(n, _ => false)
  }

  /** The value of a fresh bitfield for `count` bits: whole bytes, all clear. */
  function NoBits(count: nat): Bits {
    Falses(8 * ByteCount(count))
  }

  function BitAt(b: Bits, i: nat): bool {
    i < |b| && b[i]
  }

  /** The value after an assignment through `Proxy`: it grows to the byte that holds bit `i`. */
  function WithBit(b: Bits, i: nat, val: bool): (r: Bits)
    ensures |r| == (if i < |b| then |b| else 8 * (i / 8 + 1))
  {
    var grown := if i < |b| then b else b + Falses(8 * (i / 8 + 1) - |b|);
    grown[i := val]
  }

  function Min(a: nat, b: nat): nat {
    if a <= b then a else b
  }

  /** Set difference over the common length. */
  function Difference(a: Bits, b: Bits): Bits {
    seq(Min(|a|, |b|), i requires 0 <= i < Min(|a|, |b|) => a[i] && !b[i])
  }

  /** Set union over the common length. */
  function Union(a: Bits, b: Bits): Bits {
    seq(Min(|a|, |b|), i requires 0 <= i < Min(|a|, |b|) => a[i] || b[i])
  }

  function CountTrue(b: Bits): nat {
    if b == [] then 0 else (if b[0] then 1 else 0) + CountTrue(b[1..])
  }

  /** The least index at or after `start` that holds `val`. */
  function FirstAt(b: Bits, val: bool, start: nat): (r: Option<nat>)
    ensures r.Some? ==> start <= r.value < |b| && b[r.value] == val
    ensures forall i :: start <= i < |b| && (r.Some? ==> i < r.value) ==> b[i] != val
    decreases |b| - start
  {
    if start >= |b| then None
    else if b[start] == val then Some(start)
    else FirstAt(b, val, start + 1)
  }

  lemma {:induction false} FirstAtIsUnique(b: Bits, val: bool, start: nat, r: Option<nat>)
    requires r.Some? ==> start <= r.value < |b| && b[r.value] == val
    requires forall i :: start <= i < |b| && (r.Some? ==> i < r.value) ==> b[i] != val
    ensures r == FirstAt(b, val, start)
    decreases |b| - start
  {
    if start < |b| && b[start] != val {
      FirstAtIsUnique(b, val, start + 1, r);
    }
  }

  lemma {:induction false} CountTrueConcat(a: Bits, b: Bits)
    ensures CountTrue(a + b) == CountTrue(a) + CountTrue(b)
  {
    if a == [] {
      assert a + b == b;
    } else {
      assert (a + b)[1..] == a[1..] + b;
      CountTrueConcat(a[1..], b);
    }
  }

  ghost function TrueBits(b: Bits): set<nat> {
    set i | 0 <= i < |b| && b[i]
  }

  /** The count is the number of indices that hold true. */
  lemma {:induction false} CountTrueIsSize(b: Bits)
    ensures CountTrue(b) == |TrueBits(b)|
    decreases |b|
  {
    if b == [] {
      assert TrueBits(b) == {};
    } else {
      var n := |b| - 1;
      CountTrueIsSize(b[..n]);
      assert b == b[..n] + [b[n]];
      CountTrueConcat(b[..n], [b[n]]);
      assert CountTrue([b[n]]) == if b[n] then 1 else 0;
      assert TrueBits(b) == if b[n] then TrueBits(b[..n]) + {n} else TrueBits(b[..n]);
    }
  }

  /** The bits are rounded up to whole bytes, by less than a byte, and all false. */
  lemma NoBitsIs(count: nat)
    ensures count <= |NoBits(count)| < count + 8 && |NoBits(count)| % 8 == 0
    ensures forall i: nat :: !BitAt(NoBits(count), i)
  {}

  // ----- the packed representation -----

  /** `bit_mask`: one bit, `7 - i % 8` places from the right. */
  function Mask(i: nat): bv8 {
    var k := i % 8;
    if k < 4 then
      if k < 2 then (if k == 0 then 0x80 else 0x40) else (if k == 2 then 0x20 else 0x10)
    else
      if k < 6 then (if k == 4 then 0x08 else 0x04) else (if k == 6 then 0x02 else 0x01)
  }

  lemma MaskIsShift(i: nat)
    ensures Mask(i) == (1 as bv8) << (7 - i % 8)
  {}

  /** Bit `k` of a byte, counted from the most significant one. */
  predicate BitOf(b: bv8, k: nat)
    requires k < 8
  {
    if k < 4 then
      if k < 2 then (if k == 0 then b & 0x80 != 0 else b & 0x40 != 0)
      else (if k == 2 then b & 0x20 != 0 else b & 0x10 != 0)
    else
      if k < 6 then (if k == 4 then b & 0x08 != 0 else b & 0x04 != 0)
      else (if k == 6 then b & 0x02 != 0 else b & 0x01 != 0)
  }

  function ByteBits(b: bv8): Bits {
    seq(8, k requires 0 <= k < 8 => BitOf(b, k))
  }

  /** The bits that a byte vector packs. */
  function Unpack(bytes: seq<bv8>): (r: Bits)
    ensures |r| == 8 * |bytes|
  {
    if bytes == [] then [] else Unpack(bytes[..|bytes| - 1]) + ByteBits(bytes[|bytes| - 1])
  }

  lemma {:induction false} UnpackAt(bytes: seq<bv8>, i: nat)
    requires i < 8 * |bytes|
    ensures Unpack(bytes)[i] == BitOf(bytes[i / 8], i % 8)
  {
    var n := |bytes| - 1;
    if i / 8 < n {
      UnpackAt(bytes[..n], i);
    } else {
      assert i == 8 * n + i % 8;
      assert Unpack(bytes)[i] == ByteBits(bytes[n])[i % 8];
    }
  }

  lemma UnpackIs(bytes: seq<bv8>, b: Bits)
    requires |b| == 8 * |bytes|
    requires forall i :: 0 <= i < |b| ==> b[i] == BitOf(bytes[i / 8], i % 8)
    ensures Unpack(bytes) == b
  {
    forall i | 0 <= i < |b|
      ensures Unpack(bytes)[i] == b[i]
    {
      UnpackAt(bytes, i);
    }
  }

  function PutInByte(b: bv8, i: nat, val: bool): bv8 {
    if val then b | Mask(i) else b & !Mask(i)
  }

  lemma MaskTestsBit(b: bv8, i: nat)
    ensures (b & Mask(i) != 0) == BitOf(b, i % 8)
  {}

  lemma PutInByteBits(b: bv8, i: nat, j: nat, val: bool)
    requires j < 8
    ensures BitOf(PutInByte(b, i, val), j) == if i % 8 == j then val else BitOf(b, j)
  {}

  lemma UnpackPut(bytes: seq<bv8>, i: nat, val: bool)
    requires i < 8 * |bytes|
    ensures Unpack(bytes[i / 8 := PutInByte(bytes[i / 8], i, val)]) == Unpack(bytes)[i := val]
  {
    var after := bytes[i / 8 := PutInByte(bytes[i / 8], i, val)];
    var b := Unpack(bytes)[i := val];
    forall k | 0 <= k < |b|
      ensures b[k] == BitOf(after[k / 8], k % 8)
    {
      UnpackAt(bytes, k);
      if k / 8 == i / 8 {
        PutInByteBits(bytes[i / 8], i, k % 8, val);
      }
    }
    UnpackIs(after, b);
  }

  lemma UnpackConcat(a: seq<bv8>, b: seq<bv8>)
    ensures Unpack(a + b) == Unpack(a) + Unpack(b)
  {
    var c := Unpack(a) + Unpack(b);
    forall i | 0 <= i < |c|
      ensures c[i] == BitOf((a + b)[i / 8], i % 8)
    {
      if i < 8 * |a| {
        UnpackAt(a, i);
      } else {
        UnpackAt(b, i - 8 * |a|);
      }
    }
    UnpackIs(a + b, c);
  }

  function ZeroBytes(n: nat): seq<bv8> {
    seq(n, _ => 0)
  }

  lemma UnpackZeros(n: nat)
    ensures Unpack(ZeroBytes(n)) == Falses(8 * n)
  {
    UnpackIs(ZeroBytes(n), Falses(8 * n));
  }

  // ----- lemmas about a filled run -----

  /** The bits `[start, start + count)` set to `val` and no others touched. */
  function Filled(b: Bits, start: nat, count: nat, val: bool): Bits {
    seq(|b|, i requires 0 <= i < |b| => if start <= i < start + count then val else b[i])
  }

  lemma FilledStep(b: Bits, start: nat, count: nat, val: bool)
    requires start + count < |b|
    ensures WithBit(Filled(b, start, count, val), start + count, val) == Filled(b, start, count + 1, val)
  {}

  /** The mask of the first, partly filled byte: its low `8 - k` bits. */
  function FirstMask(k: nat): bv8
    requires k < 8
  {
    if k < 4 then
      if k < 2 then (if k == 0 then 0xFF else 0x7F) else (if k == 2 then 0x3F else 0x1F)
    else
      if k < 6 then (if k == 4 then 0x0F else 0x07) else (if k == 6 then 0x03 else 0x01)
  }

  /** The mask of the last, partly filled byte: its high `k` bits. */
  function LastMask(k: nat): bv8
    requires 0 < k < 8
  {
    !FirstMask(k)
  }

  lemma FillMasksAreShifts(k: nat)
    requires k < 8
    ensures FirstMask(k) == (0xFF as bv8) >> k
    ensures k > 0 ==> LastMask(k) == (0xFF as bv8) << (8 - k)
  {}

  function Masked(b: bv8, mask: bv8, val: bool): bv8 {
    if val then b | mask else b & !mask
  }

  lemma FirstMaskBits(b: bv8, k: nat, j: nat, val: bool)
    requires k < 8 && j < 8
    ensures BitOf(Masked(b, FirstMask(k), val), j) == if j >= k then val else BitOf(b, j)
  {}

  lemma LastMaskBits(b: bv8, k: nat, j: nat, val: bool)
    requires 0 < k < 8 && j < 8
    ensures BitOf(Masked(b, LastMask(k), val), j) == if j < k then val else BitOf(b, j)
  {}

  /** Byte `k` after a run of bits that spans more than one byte was filled. */
  function FilledByte(b: bv8, k: nat, start: nat, bitEnd: nat, val: bool): bv8 {
    if k == start / 8 && start % 8 != 0 then Masked(b, FirstMask(start % 8), val)
    else if k == bitEnd / 8 && bitEnd % 8 != 0 then Masked(b, LastMask(bitEnd % 8), val)
    else if start <= 8 * k && 8 * k + 8 <= bitEnd then (if val then 0xFF else 0x00)
    else b
  }

  lemma FilledByteBits(b: bv8, k: nat, j: nat, start: nat, bitEnd: nat, val: bool)
    requires j < 8 && start < bitEnd && start / 8 != (bitEnd - 1) / 8
    ensures BitOf(FilledByte(b, k, start, bitEnd, val), j) == if start <= 8 * k + j < bitEnd then val else BitOf(b, j)
  {
    if k == start / 8 && start % 8 != 0 {
      FirstMaskBits(b, start % 8, j, val);
    } else if k == bitEnd / 8 && bitEnd % 8 != 0 {
      LastMaskBits(b, bitEnd % 8, j, val);
    }
  }

  /** The first part byte, the last part byte and the whole bytes between them, replaced one after the other. */
  method ReplaceRun<T>(s: seq<T>, start: nat, bitEnd: nat, first: T, last: T, whole: T) returns (r: seq<T>)
    requires start < bitEnd <= 8 * |s| && start / 8 != (bitEnd - 1) / 8
    ensures |r| == |s|
    ensures forall k :: 0 <= k < |s| ==>
              r[k] == if k == start / 8 && start % 8 != 0 then first
                      else if k == bitEnd / 8 && bitEnd % 8 != 0 then last
                      else if start <= 8 * k && 8 * k + 8 <= bitEnd then whole
                      else s[k]
  {
    r := s;
    var byteStart, byteEnd := start / 8, (bitEnd - 1) / 8;
    if start % 8 != 0 {
      r := r[byteStart := first];
      byteStart := byteStart + 1;
    }
    if bitEnd % 8 != 0 {
      r := r[byteEnd := last];
      byteEnd := byteEnd - 1;
    }
    if byteStart <= byteEnd {
      r := r[..byteStart] + seq(byteEnd + 1 - byteStart, _ => whole) + r[byteEnd + 1..];
    }
  }

  lemma FilledIsUnpacked(was: seq<bv8>, now: seq<bv8>, start: nat, bitEnd: nat, val: bool)
    requires start < bitEnd <= 8 * |was| && start / 8 != (bitEnd - 1) / 8 && |now| == |was|
    requires forall k :: 0 <= k < |was| ==> now[k] == FilledByte(was[k], k, start, bitEnd, val)
    ensures Unpack(now) == Filled(Unpack(was), start, bitEnd - start, val)
  {
    var b := Filled(Unpack(was), start, bitEnd - start, val);
    forall i | 0 <= i < |b|
      ensures b[i] == BitOf(now[i / 8], i % 8)
    {
      UnpackAt(was, i);
      FilledByteBits(was[i / 8], i / 8, i % 8, start, bitEnd, val);
    }
    UnpackIs(now, b);
  }

  /** How `fill` ends; it is undefined when it indexes outside its bytes. */
  datatype FillEnd = FillDone | FillThrew | FillUndefined

  function FillOutcome(size: nat, start: nat, count: nat): FillEnd {
    if count == 0 then FillDone
    else if start + count < TWO_TO_THE_64 then
      if start + count <= size then FillDone else FillThrew
    else
      var bitEnd := start + count - TWO_TO_THE_64;
      if bitEnd == 0 || (bitEnd - 1) / 8 >= size / 8 then FillThrew
      else if start / 8 != (bitEnd - 1) / 8 && ((start % 8 != 0 && start >= size) || bitEnd < 8) then FillUndefined
      else FillDone
  }

  /** The 64-bit end of the run, and the byte of the last bit before it. */
  lemma WrapAround(start: nat, count: nat)
    requires start < TWO_TO_THE_64 && 0 < count < TWO_TO_THE_64
    ensures var bitEnd := (start + count) % TWO_TO_THE_64;
            && bitEnd == (if start + count < TWO_TO_THE_64 then start + count else start + count - TWO_TO_THE_64)
            && (bitEnd > start <==> start + count < TWO_TO_THE_64) && bitEnd != start
            && (bitEnd + TWO_TO_THE_64 - 1) % TWO_TO_THE_64 == if bitEnd == 0 then TWO_TO_THE_64 - 1 else bitEnd - 1
  {
    if start + count >= TWO_TO_THE_64 {
      assert start + count == TWO_TO_THE_64 + (start + count - TWO_TO_THE_64);
    }
  }

  lemma FillCases(size: nat, start: nat, count: nat)
    requires start < TWO_TO_THE_64 && 0 < count < TWO_TO_THE_64 && size % 8 == 0 && size < TWO_TO_THE_64
    ensures var wraps := start + count >= TWO_TO_THE_64;
            var bitEnd := if wraps then start + count - TWO_TO_THE_64 else start + count;
            var byteEnd := (if bitEnd == 0 then TWO_TO_THE_64 - 1 else bitEnd - 1) / 8;
            && (byteEnd >= size / 8 ==> FillOutcome(size, start, count) == FillThrew)
            && (byteEnd < size / 8 && (start / 8 == byteEnd || !wraps) ==>
                  FillOutcome(size, start, count) == FillDone && 0 < bitEnd <= size)
            && (byteEnd < size / 8 && start / 8 != byteEnd && wraps ==>
                  && 0 < bitEnd <= size && bitEnd < start && byteEnd < start / 8
                  && FillOutcome(size, start, count) == if (start % 8 != 0 && start >= size) || bitEnd < 8 then FillUndefined else FillDone)
  {}

  lemma WrappedInOneByte(b: Bits, start: nat, bitEnd: nat, val: bool)
    requires bitEnd > 0 && start / 8 == (bitEnd - 1) / 8
    ensures WrappedFill(b, start, bitEnd, val) == b
  {}

  /** The part bytes at both ends of a run that ends before it starts, unless both ends are in one byte. */
  function WrappedFill(b: Bits, start: nat, bitEnd: nat, val: bool): Bits {
    if bitEnd > 0 && start / 8 == (bitEnd - 1) / 8 then b
    else
      var front := if start % 8 != 0 then Filled(b, start, 8 - start % 8, val) else b;
      if bitEnd % 8 != 0 then Filled(front, bitEnd - bitEnd % 8, bitEnd % 8, val) else front
  }

  lemma FirstMaskFills(bytes: seq<bv8>, start: nat, val: bool)
    requires start < 8 * |bytes|
    ensures Unpack(bytes[start / 8 := Masked(bytes[start / 8], FirstMask(start % 8), val)])
         == Filled(Unpack(bytes), start, 8 - start % 8, val)
  {
    var now := bytes[start / 8 := Masked(bytes[start / 8], FirstMask(start % 8), val)];
    var b := Filled(Unpack(bytes), start, 8 - start % 8, val);
    forall i | 0 <= i < |b|
      ensures b[i] == BitOf(now[i / 8], i % 8)
    {
      UnpackAt(bytes, i);
      if i / 8 == start / 8 {
        FirstMaskBits(bytes[start / 8], start % 8, i % 8, val);
      }
    }
    UnpackIs(now, b);
  }

  lemma LastMaskFills(bytes: seq<bv8>, bitEnd: nat, val: bool)
    requires bitEnd % 8 != 0 && bitEnd < 8 * |bytes|
    ensures Unpack(bytes[bitEnd / 8 := Masked(bytes[bitEnd / 8], LastMask(bitEnd % 8), val)])
         == Filled(Unpack(bytes), bitEnd - bitEnd % 8, bitEnd % 8, val)
  {
    var now := bytes[bitEnd / 8 := Masked(bytes[bitEnd / 8], LastMask(bitEnd % 8), val)];
    var b := Filled(Unpack(bytes), bitEnd - bitEnd % 8, bitEnd % 8, val);
    forall i | 0 <= i < |b|
      ensures b[i] == BitOf(now[i / 8], i % 8)
    {
      UnpackAt(bytes, i);
      if i / 8 == bitEnd / 8 {
        LastMaskBits(bytes[bitEnd / 8], bitEnd % 8, i % 8, val);
      }
    }
    UnpackIs(now, b);
  }

  // ----- lemmas about the lookup table -----

  /** The number of one bits of a byte value, by the recurrence that fills the lookup table. */
  function BitsPerByte(i: nat): nat {
    if i == 0 then 0 else BitsPerByte(i / 2) + i % 2
  }

  function Bit01(b: bool): nat {
    if b then 1 else 0
  }

  /** The number whose binary digits are `b`. */
  function Horner(b: Bits): nat {
    if b == [] then 0 else 2 * Horner(b[..|b| - 1]) + Bit01(b[|b| - 1])
  }

  lemma BitsPerByteStep(n: nat, d: bool)
    ensures BitsPerByte(2 * n + Bit01(d)) == BitsPerByte(n) + Bit01(d)
  {}

  lemma {:induction false} HornerCountsBits(b: Bits)
    ensures BitsPerByte(Horner(b)) == CountTrue(b)
  {
    if b != [] {
      var front, last := b[..|b| - 1], b[|b| - 1];
      HornerCountsBits(front);
      BitsPerByteStep(Horner(front), last);
      CountTrueConcat(front, [last]);
      assert b == front + [last];
    }
  }

  lemma HornerOfEight(u: Bits)
    requires |u| == 8
    ensures Horner(u) == 128 * Bit01(u[0]) + 64 * Bit01(u[1]) + 32 * Bit01(u[2]) + 16 * Bit01(u[3])
                         + 8 * Bit01(u[4]) + 4 * Bit01(u[5]) + 2 * Bit01(u[6]) + Bit01(u[7])
  {
    assert u[..8] == u;
    forall k | 0 <= k < 8
      ensures Horner(u[..k + 1]) == 2 * Horner(u[..k]) + Bit01(u[k])
    {
      assert u[..k + 1][..k] == u[..k];
    }
  }

  lemma ByteValue(b: bv8)
    ensures b as int == 128 * Bit01(BitOf(b, 0)) + 64 * Bit01(BitOf(b, 1)) + 32 * Bit01(BitOf(b, 2))
                        + 16 * Bit01(BitOf(b, 3)) + 8 * Bit01(BitOf(b, 4)) + 4 * Bit01(BitOf(b, 5))
                        + 2 * Bit01(BitOf(b, 6)) + Bit01(BitOf(b, 7))
  {}

  lemma HornerIsValue(b: bv8, u: Bits)
    requires |u| == 8 && forall k :: 0 <= k < 8 ==> u[k] == BitOf(b, k)
    ensures Horner(u) == b as int
  {
    HornerOfEight(u);
    ByteValue(b);
  }

  /** The table entry of a byte is the number of its true bits. */
  lemma TableCountsBits(b: bv8)
    ensures BitsPerByte(b as int) == CountTrue(ByteBits(b))
  {
    HornerIsValue(b, ByteBits(b));
    HornerCountsBits(ByteBits(b));
  }

  // ----- lemmas about the search -----

  lemma WholeByte(bytes: seq<bv8>, k: nat, val: bool)
    requires k < |bytes| && !(if val then bytes[k] > 0 else bytes[k] < 255)
    ensures forall i :: 8 * k <= i < 8 * k + 8 ==> Unpack(bytes)[i] != val
  {
    forall i | 8 * k <= i < 8 * k + 8
      ensures Unpack(bytes)[i] != val
    {
      UnpackAt(bytes, i);
      assert bytes[k] == if val then 0 else 255;
    }
  }

  /** A byte that `next` stops at holds the value it looks for. */
  lemma AByteWithABit(bytes: seq<bv8>, k: nat, val: bool) returns (i: nat)
    requires k < |bytes| && if val then bytes[k] > 0 else bytes[k] < 255
    ensures 8 * k <= i < 8 * k + 8 && Unpack(bytes)[i] == val
  {
    var b := bytes[k];
    var j := if BitOf(b, 0) == val then 0 else if BitOf(b, 1) == val then 1 else if BitOf(b, 2) == val then 2
             else if BitOf(b, 3) == val then 3 else if BitOf(b, 4) == val then 4 else if BitOf(b, 5) == val then 5
             else if BitOf(b, 6) == val then 6 else 7;
    assert BitOf(b, j) == val;
    i := 8 * k + j;
    UnpackAt(bytes, i);
  }

  lemma MinusBit(a: bv8, b: bv8, j: nat)
    requires j < 8
    ensures BitOf(a ^ (a & b), j) == (BitOf(a, j) && !BitOf(b, j))
  {
    match j
    case 0 => case 1 => case 2 => case 3 => case 4 => case 5 => case 6 => case _ =>
  }

  lemma PlusBit(a: bv8, b: bv8, j: nat)
    requires j < 8
    ensures BitOf(a | b, j) == (BitOf(a, j) || BitOf(b, j))
  {
    match j
    case 0 => case 1 => case 2 => case 3 => case 4 => case 5 => case 6 => case _ =>
  }

  function MinusBytes(a: seq<bv8>, b: seq<bv8>): seq<bv8> {
    seq(Min(|a|, |b|), k requires 0 <= k < Min(|a|, |b|) => a[k] ^ (a[k] & b[k]))
  }

  function PlusBytes(a: seq<bv8>, b: seq<bv8>): seq<bv8> {
    seq(Min(|a|, |b|), k requires 0 <= k < Min(|a|, |b|) => a[k] | b[k])
  }

  lemma UnpackMinus(a: seq<bv8>, b: seq<bv8>)
    ensures Unpack(MinusBytes(a, b)) == Difference(Unpack(a), Unpack(b))
  {
    var minus := Difference(Unpack(a), Unpack(b));
    hide BitOf;
    forall i | 0 <= i < |minus|
      ensures minus[i] == BitOf(MinusBytes(a, b)[i / 8], i % 8)
    {
      UnpackAt(a, i);
      UnpackAt(b, i);
      MinusBit(a[i / 8], b[i / 8], i % 8);
    }
    UnpackIs(MinusBytes(a, b), minus);
  }

  lemma UnpackPlus(a: seq<bv8>, b: seq<bv8>)
    ensures Unpack(PlusBytes(a, b)) == Union(Unpack(a), Unpack(b))
  {
    var plus := Union(Unpack(a), Unpack(b));
    hide BitOf;
    forall i | 0 <= i < |plus|
      ensures plus[i] == BitOf(PlusBytes(a, b)[i / 8], i % 8)
    {
      UnpackAt(a, i);
      UnpackAt(b, i);
      PlusBit(a[i / 8], b[i / 8], i % 8);
    }
    UnpackIs(PlusBytes(a, b), plus);
  }

  class Bitfield {
    var bytes: seq<bv8>

    ghost function View(): Bits
      reads this
    {
      Unpack(bytes)
    }

    constructor (count: nat)
      ensures View() == NoBits(count)
    {
      bytes := ZeroBytes(ByteCount(count));
      UnpackZeros(ByteCount(count));
    }

    constructor FromRaw(raw: seq<bv8>)
      ensures bytes == raw
    {
      bytes := raw;
    }

    /** Reading throws out_of_range past the last byte. */
    method Get(i: nat) returns (r: Option<bool>)
      ensures r == if i < |View()| then Some(View()[i]) else None
    {
      if i / 8 >= |bytes| {
        return None;
      }
      MaskTestsBit(bytes[i / 8], i);
      UnpackAt(bytes, i);
      return Some(bytes[i / 8] & Mask(i) != 0);
    }

    /** `Proxy::operator=`. */
    method Put(i: nat, val: bool)
      modifies this
      ensures View() == WithBit(old(View()), i, val)
    {
      var byteIndex := i / 8;
      if |bytes| <= byteIndex {
        var more := byteIndex + 1 - |bytes|;
        UnpackZeros(more);
        UnpackConcat(bytes, ZeroBytes(more));
        bytes := bytes + ZeroBytes(more);
      }
      UnpackPut(bytes, i, val);
      bytes := bytes[byteIndex := PutInByte(bytes[byteIndex], i, val)];
    }

    method FillBits(start: nat, bitEnd: nat, val: bool)
      requires start <= bitEnd <= |View()|
      modifies this
      ensures View() == Filled(old(View()), start, bitEnd - start, val)
    {
      ghost var was := View();
      var i := start;
      while i < bitEnd
        invariant start <= i <= bitEnd
        invariant View() == Filled(was, start, i - start, val)
      {
        FilledStep(was, start, i - start, val);
        Put(i, val);
        i := i + 1;
      }
    }

    /** The run of `fill` that spans more than one byte: two masked bytes and the whole bytes between them. */
    method FillSpan(start: nat, bitEnd: nat, val: bool)
      requires start < bitEnd <= 8 * |bytes| && start / 8 != (bitEnd - 1) / 8
      modifies this
      ensures View() == Filled(old(View()), start, bitEnd - start, val)
    {
      var first := Masked(bytes[start / 8], FirstMask(start % 8), val);
      var last := if bitEnd % 8 != 0 then Masked(bytes[bitEnd / 8], LastMask(bitEnd % 8), val) else 0;
      var byteVal: bv8 := if val then 0xFF else 0x00;
      var filled := ReplaceRun(bytes, start, bitEnd, first, last, byteVal);
      FilledIsUnpacked(bytes, filled, start, bitEnd, val);
      bytes := filled;
    }

    /**
     * Fill a run of bits; one that does not lie inside the bytes throws. The end of the run is a 64-bit sum: when it
     * wraps around, only the two part bytes are filled, if any.
     */
    method Fill(count: nat, val: bool, start: nat) returns (r: FillEnd)
      requires start < TWO_TO_THE_64 && count < TWO_TO_THE_64 && |View()| < TWO_TO_THE_64
      modifies this
      ensures r == FillOutcome(|old(View())|, start, count)
      ensures r.FillThrew? ==> View() == old(View())
      ensures r.FillDone? ==> View() == if start + count < TWO_TO_THE_64 then Filled(old(View()), start, count, val)
                                    else WrappedFill(old(View()), start, start + count - TWO_TO_THE_64, val)
    {
      if count == 0 {
        return FillDone;
      }
      var bitEnd := (start + count) % TWO_TO_THE_64;
      var byteStart := start / 8;
      var byteEnd := ((bitEnd + TWO_TO_THE_64 - 1) % TWO_TO_THE_64) / 8;
      WrapAround(start, count);
      FillCases(|View()|, start, count);
      if bitEnd > 0 && start / 8 == (bitEnd - 1) / 8 {
        WrappedInOneByte(View(), start, bitEnd, val);
      }
      hide FillOutcome, WrappedFill, Filled, Unpack;
      if byteEnd >= |bytes| {
        return FillThrew;
      }
      if byteStart == byteEnd {
        if start < bitEnd {
          FillBits(start, bitEnd, val);
        }
        return FillDone;
      }
      if start < bitEnd {
        FillSpan(start, bitEnd, val);
        return FillDone;
      }
      r := FillWrapped(start, bitEnd, val);
    }

    /** What `fill` does past the test for one byte when the run ends before it starts. */
    method FillWrapped(start: nat, bitEnd: nat, val: bool) returns (r: FillEnd)
      requires 0 < bitEnd < start && (bitEnd - 1) / 8 < start / 8 && bitEnd <= 8 * |bytes|
      modifies this
      ensures r == if (start % 8 != 0 && start >= 8 * |old(bytes)|) || bitEnd < 8 then FillUndefined else FillDone
      ensures r.FillDone? ==> View() == WrappedFill(old(View()), start, bitEnd, val)
    {
      hide Unpack, Filled, Masked, FirstMask, LastMask;
      if start % 8 != 0 {
        if start / 8 >= |bytes| {
          return FillUndefined;
        }
        FirstMaskFills(bytes, start, val);
        bytes := bytes[start / 8 := Masked(bytes[start / 8], FirstMask(start % 8), val)];
      }
      if bitEnd % 8 != 0 {
        LastMaskFills(bytes, bitEnd, val);
        bytes := bytes[bitEnd / 8 := Masked(bytes[bitEnd / 8], LastMask(bitEnd % 8), val)];
        if bitEnd / 8 == 0 {
          return FillUndefined;
        }
      }
      return FillDone;
    }

    method Minus(other: Bitfield) returns (r: Bitfield)
      ensures fresh(r) && r.View() == Difference(View(), other.View())
    {
      var len := Min(|bytes|, |other.bytes|);
      var out: seq<bv8> := [];
      for i := 0 to len
        invariant |out| == i && forall k :: 0 <= k < i ==> out[k] == bytes[k] ^ (bytes[k] & other.bytes[k])
      {
        out := out + [bytes[i] ^ (bytes[i] & other.bytes[i])];
      }
      r := new Bitfield.FromRaw(out);
      assert out == MinusBytes(bytes, other.bytes);
      UnpackMinus(bytes, other.bytes);
    }

    method Plus(other: Bitfield) returns (r: Bitfield)
      ensures fresh(r) && r.View() == Union(View(), other.View())
    {
      var len := Min(|bytes|, |other.bytes|);
      var out: seq<bv8> := [];
      for i := 0 to len
        invariant |out| == i && forall k :: 0 <= k < i ==> out[k] == bytes[k] | other.bytes[k]
      {
        out := out + [bytes[i] | other.bytes[i]];
      }
      r := new Bitfield.FromRaw(out);
      assert out == PlusBytes(bytes, other.bytes);
      UnpackPlus(bytes, other.bytes);
    }

    /** The lookup table, filled by its recurrence. */
    static method BuildTable() returns (table: seq<nat>)
      ensures |table| == 256 && forall i :: 0 <= i < 256 ==> table[i] == BitsPerByte(i)
    {
      table := seq(256, _ => 0);
      for i := 0 to 256
        invariant |table| == 256 && forall k :: 0 <= k < i ==> table[k] == BitsPerByte(k)
        invariant i == 0 ==> table[0] == 0
      {
        table := table[i := table[i / 2] + i % 2];
      }
    }

    method Count() returns (c: nat)
      ensures c == CountTrue(View())
    {
      var table := BuildTable();
      c := 0;
      for i := 0 to |bytes|
        invariant c == CountTrue(Unpack(bytes[..i]))
      {
        assert bytes[..i + 1][..i] == bytes[..i];
        CountTrueConcat(Unpack(bytes[..i]), ByteBits(bytes[i]));
        TableCountsBits(bytes[i]);
        c := c + table[bytes[i] as int];
      }
      assert bytes[..|bytes|] == bytes;
    }

    /** The loop of `next` over the bits of one byte. */
    method NextInByte(byteOffset: nat, from: nat, val: bool) returns (r: Option<nat>)
      requires byteOffset < |bytes| && from <= 8
      ensures r.Some? ==> 8 * byteOffset + from <= r.value < 8 * byteOffset + 8 && Unpack(bytes)[r.value] == val
      ensures forall k :: 8 * byteOffset + from <= k < 8 * byteOffset + 8 && (r.Some? ==> k < r.value)
                ==> Unpack(bytes)[k] != val
    {
      for i := from to 8
        invariant forall k :: 8 * byteOffset + from <= k < 8 * byteOffset + i ==> Unpack(bytes)[k] != val
      {
        var bit := Get(8 * byteOffset + i);
        if bit == Some(val) {
          return Some(8 * byteOffset + i);
        }
      }
      return None;
    }

    /** The index of the next bit that holds `val`, skipping whole bytes. */
    method Next(val: bool, start: nat) returns (r: Option<nat>)
      ensures r == FirstAt(View(), val, start)
    {
      ghost var v := Unpack(bytes);
      if start > 8 * |bytes| {
        return None;
      }
      var byteOffset := start / 8;
      var bitOffset := start % 8;
      if bitOffset != 0 {
        r := NextInByte(byteOffset, bitOffset, val);
        if r.Some? {
          FirstAtIsUnique(v, val, start, r);
          return;
        }
        byteOffset := byteOffset + 1;
      }
      while byteOffset < |bytes| && !(if val then bytes[byteOffset] > 0 else bytes[byteOffset] < 255)
        invariant start <= 8 * byteOffset <= 8 * |bytes|
        invariant forall k :: start <= k < 8 * byteOffset ==> v[k] != val
      {
        WholeByte(bytes, byteOffset, val);
        byteOffset := byteOffset + 1;
      }
      if byteOffset < |bytes| {
        ghost var stop := AByteWithABit(bytes, byteOffset, val);
        r := NextInByte(byteOffset, 0, val);
        FirstAtIsUnique(v, val, start, r);
        return;
      }
      FirstAtIsUnique(v, val, start, None);
      return None;
    }
  }
}
