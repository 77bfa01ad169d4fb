/** Bencoding: the encoder, and the recursive-descent decoder over a stream cursor. */
module Bencode {
  import opened Bytes

  const MAX_STRING_LENGTH: nat := 100_000_000
  const RECURSION_LIMIT: int := 200
  const INT64_MAX: int := 0x7FFF_FFFF_FFFF_FFFF

  /** A dictionary is the ordered sequence of the entries of a `std::map`. */
  datatype Value = Int(i: int) | Str(s: string) | List(items: seq<Value>) | Dict(entries: seq<Entry>)

  datatype Entry = Entry(key: string, val: Value)

  // ----- the order of keys -----

  predicate Less(a: string, b: string) {
    if b == [] then false
    else if a == [] then true
    else if a[0] == b[0] then Less(a[1..], b[1..])
    else a[0] < b[0]
  }

  lemma {:induction false} LessTransitive(a: string, b: string, c: string)
    requires Less(a, b) && Less(b, c)
    ensures Less(a, c)
  {
    if a != [] && a[0] == b[0] && b[0] == c[0] {
      LessTransitive(a[1..], b[1..], c[1..]);
    }
  }

  lemma {:induction false} LessIrreflexive(a: string)
    ensures !Less(a, a)
  {
    if a != [] {
      LessIrreflexive(a[1..]);
    }
  }

  lemma {:induction false} LessTotal(a: string, b: string)
    ensures a == b || Less(a, b) || Less(b, a)
  {
    if a != [] && b != [] && a[0] == b[0] {
      LessTotal(a[1..], b[1..]);
    }
  }

  predicate Ascending(es: seq<Entry>) {
    forall i, j :: 0 <= i < j < |es| ==> Less(es[i].key, es[j].key)
  }

  /** `m[key] = val` on an ordered map. */
  function Insert(es: seq<Entry>, key: string, val: Value): seq<Entry> {
    if es == [] then [Entry(key, val)]
    else if key == es[0].key then [Entry(key, val)] + es[1..]
    else if Less(key, es[0].key) then [Entry(key, val)] + es
    else [es[0]] + Insert(es[1..], key, val)
  }

  /** What a map assignment does: the keys stay ascending, the key has the value and other entries stay. */
  lemma {:induction false} InsertIsAssignment(es: seq<Entry>, key: string, val: Value)
    requires Ascending(es)
    ensures Ascending(Insert(es, key, val))
    ensures forall e :: e in Insert(es, key, val) <==> e == Entry(key, val) || (e in es && e.key != key)
  {
    if es != [] {
      LessTotal(key, es[0].key);
      LessIrreflexive(key);
      var rest := es[1..];
      InsertIsAssignment(rest, key, val);
      assert forall e :: e in es <==> e == es[0] || e in rest;
      if key == es[0].key {
        forall e | e in rest
          ensures e.key != key
        {
          LessIrreflexive(key);
        }
      } else if Less(key, es[0].key) {
        forall e | e in es
          ensures Less(key, e.key) && e.key != key
        {
          if e != es[0] {
            LessTransitive(key, es[0].key, e.key);
          }
        }
      } else {
        var r := Insert(rest, key, val);
        forall j | 0 <= j < |r|
          ensures Less(es[0].key, r[j].key)
        {
          assert r[j] in r;
        }
      }
    }
  }

  /** A key after all others goes to the end. */
  lemma {:induction false} InsertLast(es: seq<Entry>, key: string, val: Value)
    requires forall i :: 0 <= i < |es| ==> Less(es[i].key, key)
    ensures Insert(es, key, val) == es + [Entry(key, val)]
  {
    if es != [] {
      LessIrreflexive(key);
      if Less(key, es[0].key) {
        LessTransitive(key, es[0].key, key);
      }
      InsertLast(es[1..], key, val);
    }
  }

  // ----- encoding -----

  function DigitChar(d: nat): char
    requires d < 10
  {
    '0' + d as char
  }

  function Decimal(n: nat): (s: string)
    ensures |s| > 0
  {
    if n < 10 then [DigitChar(n)] else Decimal(n / 10) + [DigitChar(n % 10)]
  }

  function Numeral(i: int): string {
    if i < 0 then "-" + Decimal(-i) else Decimal(i)
  }

  function EncodeString(s: string): string {
    Decimal(|s|) + ":" + s
  }

  function Encode(v: Value): (s: string)
    ensures |s| > 0
    decreases v, 0
  {
    match v
    case Int(i) => "i" + Numeral(i) + "e"
    case Str(s) => EncodeString(s)
    case List(items) => "l" + EncodeItems(items) + "e"
    case Dict(entries) => "d" + EncodeEntries(entries) + "e"
  }

  function EncodeItems(items: seq<Value>): string
    decreases items
  {
    if items == [] then "" else Encode(items[0]) + EncodeItems(items[1..])
  }

  function EncodeEntries(entries: seq<Entry>): string
    decreases entries
  {
    if entries == [] then ""
    else EncodeString(entries[0].key) + Encode(entries[0].val) + EncodeEntries(entries[1..])
  }

  // ----- reading numbers as `istream >>` does -----

  predicate IsSpace(c: char) {
    c == ' ' || '\t' <= c <= '\r'
  }

  predicate IsDigit(c: char) {
    '0' <= c <= '9'
  }

  function DigitValue(c: char): nat
    requires IsDigit(c)
  {
    c as nat - '0' as nat
  }

  function SkipSpaces(t: string, p: nat): (q: nat)
    requires p <= |t|
    ensures p <= q <= |t|
    decreases |t| - p
  {
    if p < |t| && IsSpace(t[p]) then SkipSpaces(t, p + 1) else p
  }

  function DigitsEnd(t: string, p: nat): (q: nat)
    requires p <= |t|
    ensures p <= q <= |t|
    ensures forall k :: p <= k < q ==> IsDigit(t[k])
    ensures q < |t| ==> !IsDigit(t[q])
    decreases |t| - p
  {
    if p < |t| && IsDigit(t[p]) then DigitsEnd(t, p + 1) else p
  }

  predicate AllDigits(s: string) {
    forall k :: 0 <= k < |s| ==> IsDigit(s[k])
  }

  function NumberOf(s: string): nat
    requires AllDigits(s)
  {
    if s == [] then 0 else 10 * NumberOf(s[..|s| - 1]) + DigitValue(s[|s| - 1])
  }

  /** A number as it stands in the text; `minimal` says that it is written as the encoder writes it. */
  datatype Number = NoNumber | Number(negative: bool, magnitude: nat, next: nat, minimal: bool)

  function Signed(negative: bool, magnitude: nat): int {
    if negative then 0 - magnitude as int else magnitude
  }

  function ReadNumber(t: string, p: nat): (r: Number)
    requires p <= |t|
    ensures r.Number? ==> p < r.next <= |t|
  {
    var q := SkipSpaces(t, p);
    var signed := q < |t| && (t[q] == '-' || t[q] == '+');
    var d := if signed then q + 1 else q;
    var e := DigitsEnd(t, d);
    if e == d then NoNumber
    else
      var n := NumberOf(t[d..e]);
      var negative := signed && t[q] == '-';
      Number(negative, n, e,
             q == p && (signed ==> negative && n != 0) && (t[d] == '0' ==> e == d + 1))
  }

  // ----- decoding -----

  /** `minimal`: every number is written minimally and every dictionary has strictly ascending keys. */
  datatype Parsed<T> = Fail | Parsed(value: T, next: nat, minimal: bool)

  /** After the 'i'. */
  function ParseInt(t: string, p: nat): (r: Parsed<Value>)
    requires p <= |t|
    ensures r.Parsed? ==> p < r.next <= |t|
  {
    var n := ReadNumber(t, p);
    if n.NoNumber? || n.magnitude > INT64_MAX + (if n.negative then 1 else 0) then Fail
    else if n.next == |t| || t[n.next] != 'e' then Fail
    else Parsed(Int(Signed(n.negative, n.magnitude)), n.next + 1, n.minimal)
  }

  /** The length is unsigned: a minus sign wraps it around. */
  function ParseString(t: string, p: nat): (r: Parsed<string>)
    requires p <= |t|
    ensures r.Parsed? ==> p < r.next <= |t|
  {
    var n := ReadNumber(t, p);
    if n.NoNumber? || n.magnitude >= TWO_TO_THE_64 then Fail
    else if n.next == |t| || t[n.next] != ':' then Fail
    else
      var length := if n.negative && n.magnitude != 0 then TWO_TO_THE_64 - n.magnitude else n.magnitude;
      if length > MAX_STRING_LENGTH then Fail
      else
        var start := n.next + 1;
        if start + length > |t| then Fail
        else Parsed(t[start..start + length], start + length, n.minimal && !n.negative)
  }

  function ParseValue(t: string, p: nat, depth: int): (r: Parsed<Value>)
    requires p <= |t|
    ensures r.Parsed? ==> p < r.next <= |t|
    decreases |t| - p, 0
  {
    if depth > RECURSION_LIMIT || p == |t| then Fail
    else if t[p] == 'i' then ParseInt(t, p + 1)
    else if IsDigit(t[p]) then
      var r := ParseString(t, p);
      if r.Fail? then Fail else Parsed(Str(r.value), r.next, r.minimal)
    else if t[p] == 'l' then
      var r := ParseItems(t, p + 1, depth + 1, []);
      if r.Fail? then Fail else Parsed(List(r.value), r.next, r.minimal)
    else if t[p] == 'd' then
      var r := ParseEntries(t, p + 1, depth + 1, []);
      if r.Fail? then Fail else Parsed(Dict(r.value), r.next, r.minimal)
    else Fail
  }

  /** The rest of a list, up to and with its 'e'; `acc` are the items so far. */
  function ParseItems(t: string, p: nat, depth: int, acc: seq<Value>): (r: Parsed<seq<Value>>)
    requires p <= |t|
    ensures r.Parsed? ==> p < r.next <= |t|
    decreases |t| - p, 1
  {
    if p < |t| && t[p] == 'e' then Parsed(acc, p + 1, true)
    else
      var v := ParseValue(t, p, depth);
      if v.Fail? then Fail
      else
        var rest := ParseItems(t, v.next, depth, acc + [v.value]);
        if rest.Fail? then Fail else rest.(minimal := v.minimal && rest.minimal)
  }

  /** The rest of a dictionary, up to and with its 'e'; `acc` is the map so far. */
  function ParseEntries(t: string, p: nat, depth: int, acc: seq<Entry>): (r: Parsed<seq<Entry>>)
    requires p <= |t|
    ensures r.Parsed? ==> p < r.next <= |t|
    decreases |t| - p, 1
  {
    if p < |t| && t[p] == 'e' then Parsed(acc, p + 1, true)
    else
      var k := ParseString(t, p);
      if k.Fail? then Fail
      else
        var v := ParseValue(t, k.next, depth);
        if v.Fail? then Fail
        else
          var rest := ParseEntries(t, v.next, depth, Insert(acc, k.value, v.value));
          var ascends := acc == [] || Less(acc[|acc| - 1].key, k.value);
          if rest.Fail? then Fail else rest.(minimal := k.minimal && v.minimal && ascends && rest.minimal)
  }

  /** `decode`: the whole text is one element. */
  function Decode(t: string): Parsed<Value> {
    var r := ParseValue(t, 0, 0);
    if r.Parsed? && r.next == |t| then r else Fail
  }

  // ----- the decoder as it runs over its stream -----

  class Stream {
    const text: string
    var pos: nat

    constructor (text: string)
      ensures this.text == text && pos == 0
    {
      this.text := text;
      pos := 0;
    }

    method DecodeInt() returns (r: Option<Value>)
      requires pos <= |text|
      modifies this
      ensures var s := ParseInt(text, old(pos));
              if s.Fail? then r.None? else r == Some(s.value) && pos == s.next
    {
      var n := ReadNumber(text, pos);
      if n.NoNumber? || n.magnitude > INT64_MAX + (if n.negative then 1 else 0) {
        return None;
      }
      pos := n.next;
      if pos == |text| || text[pos] != 'e' {
        return None;
      }
      pos := pos + 1;
      return Some(Int(Signed(n.negative, n.magnitude)));
    }

    method DecodeString() returns (r: Option<string>)
      requires pos <= |text|
      modifies this
      ensures var s := ParseString(text, old(pos));
              if s.Fail? then r.None? else r == Some(s.value) && pos == s.next
    {
      var n := ReadNumber(text, pos);
      if n.NoNumber? || n.magnitude >= TWO_TO_THE_64 {
        return None;
      }
      pos := n.next;
      if pos == |text| || text[pos] != ':' {
        return None;
      }
      pos := pos + 1;
      var length := if n.negative && n.magnitude != 0 then TWO_TO_THE_64 - n.magnitude else n.magnitude;
      if length > MAX_STRING_LENGTH {
        return None;
      }
      if pos + length > |text| {
        return None;
      }
      r := Some(text[pos..pos + length]);
      pos := pos + length;
    }

    method DecodeList(depth: int) returns (r: Option<Value>)
      requires pos < |text|
      modifies this
      ensures var s := ParseItems(text, old(pos) + 1, depth, []);
              if s.Fail? then r.None? else r == Some(List(s.value)) && pos == s.next
      decreases |text| - pos, 0
    {
      hide ParseValue;
      pos := pos + 1;
      var v: seq<Value> := [];
      ghost var all := ParseItems(text, pos, depth, []);
      while !(pos < |text| && text[pos] == 'e')
        invariant old(pos) < pos <= |text|
        invariant var s := ParseItems(text, pos, depth, v);
                  s.Fail? == all.Fail? && (s.Parsed? ==> s.value == all.value && s.next == all.next)
        decreases |text| - pos
      {
        var e := DecodeInternal(depth);
        if e.None? {
          return None;
        }
        v := v + [e.value];
      }
      pos := pos + 1;
      return Some(List(v));
    }

    method DecodeDict(depth: int) returns (r: Option<Value>)
      requires pos < |text|
      modifies this
      ensures var s := ParseEntries(text, old(pos) + 1, depth, []);
              if s.Fail? then r.None? else r == Some(Dict(s.value)) && pos == s.next
      decreases |text| - pos, 0
    {
      hide ParseString, ParseValue, Insert, Less;
      pos := pos + 1;
      var m: seq<Entry> := [];
      ghost var all := ParseEntries(text, pos, depth, []);
      while !(pos < |text| && text[pos] == 'e')
        invariant old(pos) < pos <= |text|
        invariant var s := ParseEntries(text, pos, depth, m);
                  s.Fail? == all.Fail? && (s.Parsed? ==> s.value == all.value && s.next == all.next)
        decreases |text| - pos
      {
        var key := DecodeString();
        if key.None? {
          return None;
        }
        var val := DecodeInternal(depth);
        if val.None? {
          return None;
        }
        m := Insert(m, key.value, val.value);
      }
      pos := pos + 1;
      return Some(Dict(m));
    }

    method DecodeInternal(depth: int) returns (r: Option<Value>)
      requires pos <= |text|
      modifies this
      ensures var s := ParseValue(text, old(pos), depth);
              if s.Fail? then r.None? else r == Some(s.value) && pos == s.next
      decreases |text| - pos, 1
    {
      if depth > RECURSION_LIMIT || pos == |text| {
        return None;
      }
      if text[pos] == 'i' {
        pos := pos + 1;
        r := DecodeInt();
        return;
      }
      if IsDigit(text[pos]) {
        var s := DecodeString();
        return if s.None? then None else Some(Str(s.value));
      }
      if text[pos] == 'l' {
        r := DecodeList(depth + 1);
        return;
      }
      if text[pos] == 'd' {
        r := DecodeDict(depth + 1);
        return;
      }
      return None;
    }
  }

  /** The entry point `decode`. */
  method DecodeText(t: string) returns (r: Option<Value>)
    ensures r == if Decode(t).Fail? then None else Some(Decode(t).value)
  {
    var stream := new Stream(t);
    r := stream.DecodeInternal(0);
    if r.Some? && stream.pos != |t| {
      return None;
    }
  }
}
