/** Bytes, 32-bit arithmetic, big-endian words and byte-string surgery shared by the model. */
module Bytes {
  newtype byte = x: int | 0 <= x < 256

  type Bytes = seq<byte>

  datatype Option<+T> = None | Some(value: T)

  datatype Result<+T, +E> = Ok(value: T) | Err(error: E)

  const TWO_TO_THE_32: nat := 0x1_0000_0000
  const TWO_TO_THE_64: nat := 0x1_0000_0000_0000_0000

  /** What the program's uint32_t arithmetic keeps of a mathematical value. */
  function U32(x: nat): nat {
    x % TWO_TO_THE_32
  }

  /** `to_big_endian<uint32_t>`: the shifts and masks of an unsigned word, as division and remainder. */
  function ToBigEndian(v: nat): Bytes
    requires v < TWO_TO_THE_32
  {
    [(v / 0x100_0000) as byte, (v / 0x1_0000 % 0x100) as byte, (v / 0x100 % 0x100) as byte, (v % 0x100) as byte]
  }

  /** `from_big_endian<uint32_t>`: it throws out_of_range when the word does not fit in the buffer. */
  function FromBigEndian(buf: Bytes, offset: nat): Option<nat> {
    if offset + 4 > |buf| then None
    else Some(buf[offset] as nat * 0x100_0000 + buf[offset + 1] as nat * 0x1_0000
              + buf[offset + 2] as nat * 0x100 + buf[offset + 3] as nat)
  }

  lemma WordDigits(v: nat)
    ensures v == v / 0x100_0000 * 0x100_0000 + v / 0x1_0000 % 0x100 * 0x1_0000 + v / 0x100 % 0x100 * 0x100 + v % 0x100
  {
    var a, b := v / 0x100, v / 0x1_0000;
    assert b == a / 0x100 && v / 0x100_0000 == b / 0x100;
  }

  /** A word written at any place of a buffer is read back. */
  lemma BigEndianRoundTrip(before: Bytes, v: nat, after: Bytes)
    requires v < TWO_TO_THE_32
    ensures FromBigEndian(before + ToBigEndian(v) + after, |before|) == Some(v)
  {
    var buf := before + ToBigEndian(v) + after;
    var k := |before|;
    assert buf[k..k + 4] == ToBigEndian(v);
    assert buf[k + 0] == ToBigEndian(v)[0];
    WordDigits(v);
  }

  /** `s` with its bytes from position `at` on replaced by `d`. */
  function Overwrite(s: Bytes, at: nat, d: Bytes): Bytes
    requires at + |d| <= |s|
  {
    s[..at] + d + s[at + |d|..]
  }

  /** An overwrite shows where it lands and leaves every slice beside it. */
  lemma OverwriteSlices(s: Bytes, at: nat, d: Bytes, lo: nat, hi: nat)
    requires at + |d| <= |s| && lo <= hi <= |s|
    ensures Overwrite(s, at, d)[at..at + |d|] == d
    ensures hi <= at || at + |d| <= lo ==> Overwrite(s, at, d)[lo..hi] == s[lo..hi]
  {
    var t := Overwrite(s, at, d);
    forall k | 0 <= k < |s|
      ensures t[k] == if k < at then s[k] else if k < at + |d| then d[k - at] else s[k]
    {
      assert k >= at + |d| ==> t[k] == s[at + |d|..][k - (at + |d|)];
    }
    forall k | 0 <= k < |d|
      ensures t[at..at + |d|][k] == d[k]
    {
      assert t[at..at + |d|][k] == t[at + k];
    }
    if hi <= at || at + |d| <= lo {
      forall k | 0 <= k < hi - lo
        ensures t[lo..hi][k] == s[lo..hi][k]
      {
        assert t[lo..hi][k] == t[lo + k] && s[lo..hi][k] == s[lo + k];
      }
    }
  }

  lemma SliceOfSlice<T>(s: seq<T>, lo: nat, hi: nat, a: nat, b: nat)
    requires lo <= hi <= |s| && a <= b <= hi - lo
    ensures s[lo..hi][a..b] == s[lo + a..lo + b]
  {
    forall k | 0 <= k < b - a
      ensures s[lo..hi][a..b][k] == s[lo + a..lo + b][k]
    {
      assert s[lo..hi][a..b][k] == s[lo..hi][a + k] == s[lo + (a + k)];
      assert s[lo + a..lo + b][k] == s[(lo + a) + k];
    }
  }

  function Flatten<T>(parts: seq<seq<T>>): seq<T> {
    if parts == [] then [] else parts[0] + Flatten(parts[1..])
  }

  lemma {:induction false} FlattenAppend<T>(a: seq<seq<T>>, b: seq<seq<T>>)
    ensures Flatten(a + b) == Flatten(a) + Flatten(b)
  {
    if a == [] {
      assert a + b == b;
    } else {
      assert (a + b)[1..] == a[1..] + b;
      FlattenAppend(a[1..], b);
    }
  }

  function Zeros(n: nat): Bytes {
    seq(n, _ => 0)
  }
}
