/** What the decoder accepts beyond encoded values, and what it then means to encode the result again. */
module BencodeCanon {
  import opened Bencode
  import opened BencodeLaws

  // ----- accepted elements -----

  lemma AcceptedInt(t: string, p: nat)
    requires p <= |t| && ParseInt(t, p).Parsed?
    ensures var r := ParseInt(t, p);
            && r.value.Int? && -INT64_MAX - 1 <= r.value.i <= INT64_MAX
            && (r.minimal ==> At(t, p, Numeral(r.value.i) + "e") && r.next == p + |Numeral(r.value.i)| + 1)
  {
    var n := ReadNumber(t, p);
    var s := Numeral(Signed(n.negative, n.magnitude));
    if n.minimal {
      MinimalNumberIsNumeral(t, p);
      assert At(t, n.next, "e");
      hide Numeral, ReadNumber;
      AtParts(t, p, s, "e");
    }
  }

  lemma MinimalNumberSign(t: string, p: nat)
    requires p <= |t| && ReadNumber(t, p).Number? && ReadNumber(t, p).minimal && !ReadNumber(t, p).negative
    ensures var n := ReadNumber(t, p);
            At(t, p, Decimal(n.magnitude)) && n.next == p + |Decimal(n.magnitude)|
  {
    MinimalNumberIsNumeral(t, p);
  }

  lemma AcceptedString(t: string, p: nat)
    requires p <= |t| && ParseString(t, p).Parsed?
    ensures var r := ParseString(t, p);
            && |r.value| <= MAX_STRING_LENGTH
            && (r.minimal ==> At(t, p, EncodeString(r.value)) && r.next == p + |EncodeString(r.value)|)
  {
    var r, n := ParseString(t, p), ReadNumber(t, p);
    if r.minimal {
      MinimalNumberSign(t, p);
      hide ReadNumber, Decimal;
      var digits := Decimal(|r.value|);
      assert At(t, p + |digits|, ":");
      AtParts(t, p, digits, ":");
      AtParts(t, p, digits + ":", r.value);
    }
  }

  /** All values of `es` are well formed and decodable, and the keys ascend. */
  ghost predicate GoodEntries(es: seq<Entry>, depth: int) {
    Ascending(es) && (forall k :: 0 <= k < |es| ==> WellFormed(es[k].val)) && AllEntriesDecodable(es, depth)
  }

  ghost predicate GoodItems(items: seq<Value>, depth: int) {
    (forall k :: 0 <= k < |items| ==> WellFormed(items[k])) && AllDecodable(items, depth)
  }

  /**
   * Every accepted element is a well-formed value within the limits;
   * what was written minimally is, character by character, the encoding of the value.
   */
  lemma {:induction false} Accepted(t: string, p: nat, depth: int)
    requires p <= |t| && ParseValue(t, p, depth).Parsed?
    ensures var r := ParseValue(t, p, depth);
            && WellFormed(r.value) && Decodable(r.value, depth)
            && (r.minimal ==> At(t, p, Encode(r.value)) && r.next == p + |Encode(r.value)|)
    decreases |t| - p, 0
  {
    var r := ParseValue(t, p, depth);
    if t[p] == 'i' {
      AcceptedInt(t, p + 1);
      if r.minimal {
        TextOfInt(t, p, r.value.i);
      }
    } else if IsDigit(t[p]) {
      AcceptedString(t, p);
    } else if t[p] == 'l' {
      AcceptedItems(t, p + 1, depth + 1, []);
      var items := r.value.items;
      assert items[0..] == items;
      if r.minimal {
        TextOfList(t, p, items);
      }
    } else {
      AcceptedEntries(t, p + 1, depth + 1, []);
      var es := r.value.entries;
      assert es[0..] == es;
      if r.minimal {
        TextOfDict(t, p, es);
      }
    }
  }

  lemma {:induction false} AcceptedItems(t: string, p: nat, depth: int, acc: seq<Value>)
    requires p <= |t| && ParseItems(t, p, depth, acc).Parsed? && GoodItems(acc, depth)
    ensures var r := ParseItems(t, p, depth, acc);
            && GoodItems(r.value, depth) && acc <= r.value
            && (r.minimal ==>
                  var s := ItemsText(r.value[|acc|..]);
                  At(t, p, s) && r.next == p + |s|)
    decreases |t| - p, 1
  {
    var r := ParseItems(t, p, depth, acc);
    if p < |t| && t[p] == 'e' {
      assert acc[|acc|..] == [];
      TextEnds(t, p);
    } else {
      var v := ParseValue(t, p, depth);
      hide ParseValue;
      Accepted(t, p, depth);
      hide WellFormed, Decodable, At, Encode, ItemsText;
      AcceptedItems(t, v.next, depth, acc + [v.value]);
      NextOfPrefix(acc, v.value, r.value);
      if r.minimal {
        ItemJoined(t, p, acc, v.value, r.value);
      }
    }
  }

  lemma ItemJoined(t: string, p: nat, acc: seq<Value>, v: Value, all: seq<Value>)
    requires acc + [v] <= all
    requires At(t, p, Encode(v)) && At(t, p + |Encode(v)|, ItemsText(all[|acc + [v]|..]))
    ensures acc <= all && At(t, p, ItemsText(all[|acc|..]))
    ensures |ItemsText(all[|acc|..])| == |Encode(v)| + |ItemsText(all[|acc + [v]|..])|
  {
    NextOfPrefix(acc, v, all);
    hide *;
    TextOfItems(t, p, all[|acc|..]);
  }

  lemma EntryJoined(t: string, p: nat, acc: seq<Entry>, e: Entry, all: seq<Entry>)
    requires acc + [e] <= all
    requires var k, v := EncodeString(e.key), Encode(e.val);
             At(t, p, k) && At(t, p + |k|, v) && At(t, p + |k| + |v|, EntriesText(all[|acc + [e]|..]))
    ensures acc <= all && At(t, p, EntriesText(all[|acc|..]))
    ensures |EntriesText(all[|acc|..])| == |EncodeString(e.key)| + |Encode(e.val)| + |EntriesText(all[|acc + [e]|..])|
  {
    NextOfPrefix(acc, e, all);
    hide *;
    TextOfEntries(t, p, all[|acc|..]);
  }

  /** What holds of the dictionary loop when it ends well. */
  ghost predicate EntriesAccepted(t: string, p: nat, depth: int, acc: seq<Entry>)
    requires p <= |t|
  {
    var r := ParseEntries(t, p, depth, acc);
    && r.Parsed? && GoodEntries(r.value, depth)
    && (r.minimal ==>
          && acc <= r.value
          && var s := EntriesText(r.value[|acc|..]);
             At(t, p, s) && r.next == p + |s|)
  }

  lemma {:induction false} AcceptedEntries(t: string, p: nat, depth: int, acc: seq<Entry>)
    requires p <= |t| && ParseEntries(t, p, depth, acc).Parsed? && GoodEntries(acc, depth)
    ensures EntriesAccepted(t, p, depth, acc)
    decreases |t| - p, 1
  {
    if p < |t| && t[p] == 'e' {
      assert acc[|acc|..] == [];
      TextEnds(t, p);
    } else {
      var k := ParseString(t, p);
      var v := ParseValue(t, k.next, depth);
      hide *;
      AcceptedString(t, p);
      Accepted(t, k.next, depth);
      GoodInsert(acc, k.value, v.value, depth);
      EntriesStep(t, p, depth, acc);
      AcceptedEntries(t, v.next, depth, Insert(acc, k.value, v.value));
      OneMoreEntry(t, p, depth, acc, k, v);
    }
  }

  lemma OneMoreEntry(t: string, p: nat, depth: int, acc: seq<Entry>, k: Parsed<string>, v: Parsed<Value>)
    requires p < |t| && t[p] != 'e' && GoodEntries(acc, depth)
    requires k == ParseString(t, p) && k.Parsed? && v == ParseValue(t, k.next, depth) && v.Parsed?
    requires k.minimal ==> At(t, p, EncodeString(k.value)) && k.next == p + |EncodeString(k.value)|
    requires v.minimal ==> At(t, k.next, Encode(v.value)) && v.next == k.next + |Encode(v.value)|
    requires EntriesAccepted(t, v.next, depth, Insert(acc, k.value, v.value))
    ensures EntriesAccepted(t, p, depth, acc)
  {
    hide ParseString, ParseValue, ParseEntries, Insert, Less, GoodEntries, At, EncodeString, Encode, EntriesText;
    EntriesStep(t, p, depth, acc);
    var r := ParseEntries(t, p, depth, acc);
    var rest := ParseEntries(t, v.next, depth, Insert(acc, k.value, v.value));
    assert r.value == rest.value;
    if r.minimal {
      InsertedLast(acc, k.value, v.value, depth);
      EntryJoined(t, p, acc, Entry(k.value, v.value), r.value);
    }
  }

  lemma GoodInsert(acc: seq<Entry>, key: string, val: Value, depth: int)
    requires GoodEntries(acc, depth) && |key| <= MAX_STRING_LENGTH && WellFormed(val) && Decodable(val, depth)
    ensures GoodEntries(Insert(acc, key, val), depth)
  {
    hide WellFormed, Decodable, Insert;
    InsertIsAssignment(acc, key, val);
    var m := Insert(acc, key, val);
    forall k | 0 <= k < |m|
      ensures WellFormed(m[k].val) && |m[k].key| <= MAX_STRING_LENGTH && Decodable(m[k].val, depth)
    {
      assert m[k] in m;
    }
  }

  lemma InsertedLast(acc: seq<Entry>, key: string, val: Value, depth: int)
    requires GoodEntries(acc, depth) && (acc == [] || Less(acc[|acc| - 1].key, key))
    ensures Insert(acc, key, val) == acc + [Entry(key, val)]
  {
    forall i | 0 <= i < |acc|
      ensures Less(acc[i].key, key)
    {
      if i < |acc| - 1 {
        LessTransitive(acc[i].key, acc[|acc| - 1].key, key);
      }
    }
    InsertLast(acc, key, val);
  }

  // ----- one value at one place -----

  lemma SameInt(t: string, p: nat, i: int, j: int)
    requires At(t, p, Numeral(i) + "e") && At(t, p, Numeral(j) + "e")
    ensures i == j
  {
    NumeralEnds(t, p, i);
    NumeralEnds(t, p, j);
    ReadNumeral(t, p, i);
    ReadNumeral(t, p, j);
  }

  lemma NumeralEnds(t: string, p: nat, i: int)
    requires At(t, p, Numeral(i) + "e")
    ensures At(t, p, Numeral(i)) && p + |Numeral(i)| < |t| && t[p + |Numeral(i)|] == 'e'
  {
    hide Numeral;
    AtParts(t, p, Numeral(i), "e");
    AtChar(t, p + |Numeral(i)|, "e", 0);
  }

  lemma SameString(t: string, p: nat, a: string, b: string)
    requires At(t, p, EncodeString(a)) && At(t, p, EncodeString(b))
    ensures a == b
  {
    LengthEnds(t, p, a);
    LengthEnds(t, p, b);
    ReadDecimal(t, p, |a|);
    ReadDecimal(t, p, |b|);
  }

  lemma LengthEnds(t: string, p: nat, s: string)
    requires At(t, p, EncodeString(s))
    ensures var n := |Decimal(|s|)|;
            && At(t, p, Decimal(|s|)) && p + n < |t| && t[p + n] == ':'
            && At(t, p + n + 1, s)
  {
    var digits := Decimal(|s|);
    hide Decimal;
    AtParts(t, p, digits + ":", s);
    AtParts(t, p, digits, ":");
    AtChar(t, p + |digits|, ":", 0);
  }

  /** Two encodings that stand at one place are those of one value, even if no decoder accepts it. */
  lemma {:induction false} SameValue(t: string, p: nat, v: Value, w: Value)
    requires At(t, p, Encode(v)) && At(t, p, Encode(w))
    ensures v == w
    decreases v, 0
  {
    SameKind(t, p, v, w);
    hide *;
    match (v, w)
    case (Int(i), Int(j)) =>
      TextOfInt(t, p, i);
      TextOfInt(t, p, j);
      SameInt(t, p + 1, i, j);
    case (Str(a), Str(b)) =>
      TextOfString(t, p, a);
      TextOfString(t, p, b);
      SameString(t, p, a, b);
    case (List(a), List(b)) =>
      TextOfList(t, p, a);
      TextOfList(t, p, b);
      SameItems(t, p + 1, a, b);
    case (Dict(a), Dict(b)) =>
      TextOfDict(t, p, a);
      TextOfDict(t, p, b);
      SameEntries(t, p + 1, a, b);
  }

  lemma SameKind(t: string, p: nat, v: Value, w: Value)
    requires At(t, p, Encode(v)) && At(t, p, Encode(w))
    ensures (v.Int? && w.Int?) || (v.Str? && w.Str?) || (v.List? && w.List?) || (v.Dict? && w.Dict?)
  {
    FirstChar(v);
    FirstChar(w);
    AtChar(t, p, Encode(v), 0);
    AtChar(t, p, Encode(w), 0);
  }

  lemma {:induction false} SameItems(t: string, p: nat, a: seq<Value>, b: seq<Value>)
    requires At(t, p, ItemsText(a)) && At(t, p, ItemsText(b))
    ensures a == b
    decreases a, 1
  {
    hide *;
    TextEnds(t, p);
    if a != [] {
      TextOfItems(t, p, a);
      StartsElement(t, p, a[0]);
    }
    if b != [] {
      TextOfItems(t, p, b);
      StartsElement(t, p, b[0]);
    }
    if a != [] && b != [] {
      SameValue(t, p, a[0], b[0]);
      SameItems(t, p + |Encode(a[0])|, a[1..], b[1..]);
      assert a == [a[0]] + a[1..] && b == [b[0]] + b[1..];
    }
  }

  lemma {:induction false} SameEntries(t: string, p: nat, a: seq<Entry>, b: seq<Entry>)
    requires At(t, p, EntriesText(a)) && At(t, p, EntriesText(b))
    ensures a == b
    decreases a, 1
  {
    hide *;
    TextEnds(t, p);
    if a != [] {
      StartsEntry(t, p, a);
    }
    if b != [] {
      StartsEntry(t, p, b);
    }
    if a != [] && b != [] {
      var q := p + |EncodeString(a[0].key)|;
      SameString(t, p, a[0].key, b[0].key);
      SameValue(t, q, a[0].val, b[0].val);
      SameEntries(t, q + |Encode(a[0].val)|, a[1..], b[1..]);
      SameFirst(a, b);
    }
  }

  lemma SameFirst(a: seq<Entry>, b: seq<Entry>)
    requires a != [] && b != [] && a[0].key == b[0].key && a[0].val == b[0].val && a[1..] == b[1..]
    ensures a == b
  {
    assert a == [a[0]] + a[1..] && b == [b[0]] + b[1..];
  }

  lemma StartsEntry(t: string, p: nat, es: seq<Entry>)
    requires es != [] && At(t, p, EntriesText(es))
    ensures p < |t| && t[p] != 'e'
    ensures var k, v := EncodeString(es[0].key), Encode(es[0].val);
            At(t, p, k) && At(t, p + |k|, v) && At(t, p + |k| + |v|, EntriesText(es[1..]))
  {
    TextOfEntries(t, p, es);
    TextOfString(t, p, es[0].key);
    hide At, EncodeString, Encode, EntriesText;
  }

  // ----- the codec as a whole -----

  /** Decoding what was encoded, with anything behind it, gives the value and stops at its end, within the limits only. */
  lemma RoundTripWithSuffix(v: Value, suffix: string)
    requires WellFormed(v)
    ensures ParseValue(Encode(v) + suffix, 0, 0) == if Decodable(v, 0) then Parsed(v, |Encode(v)|, true) else Fail
  {
    hide ParseValue, Encode, Decodable, WellFormed;
    ParseEncoded(Encode(v) + suffix, 0, v, 0);
  }

  lemma RoundTrip(v: Value)
    requires WellFormed(v)
    ensures Decode(Encode(v)) == if Decodable(v, 0) then Parsed(v, |Encode(v)|, true) else Fail
  {
    hide ParseValue, Encode, Decodable, WellFormed;
    RoundTripWithSuffix(v, "");
    assert Encode(v) + "" == Encode(v);
  }

  /** Decoding, encoding and decoding again gives the same value, for every accepted text. */
  lemma Canonical(t: string)
    requires Decode(t).Parsed?
    ensures var v := Decode(t).value; Decode(Encode(v)) == Parsed(v, |Encode(v)|, true)
  {
    hide ParseValue, Encode, Decodable, WellFormed;
    Accepted(t, 0, 0);
    RoundTrip(Decode(t).value);
  }

  /** An accepted text is the encoding of its value exactly when it is written minimally. */
  lemma EncodingIsText(t: string)
    requires Decode(t).Parsed?
    ensures Encode(Decode(t).value) == t <==> Decode(t).minimal
  {
    hide ParseValue, Encode, Decodable, WellFormed;
    var v := Decode(t).value;
    Accepted(t, 0, 0);
    if Decode(t).minimal {
      assert t[0..0 + |Encode(v)|] == t;
    }
    if Encode(v) == t {
      RoundTrip(v);
    }
  }

  /** No encoding is a proper prefix of another, and no two values share one: for every value, decodable or not. */
  lemma PrefixFree(v: Value, w: Value, suffix: string)
    requires Encode(w) == Encode(v) + suffix
    ensures v == w && suffix == ""
  {
    hide Encode;
    var t := Encode(w);
    assert t[0..0 + |Encode(v)|] == Encode(v) && t[0..0 + |t|] == t;
    SameValue(t, 0, v, w);
  }

  /** The values that some text decodes to are exactly the well-formed ones within the limits. */
  lemma DecodedIff(v: Value)
    ensures (exists t :: Decode(t).Parsed? && Decode(t).value == v) <==> WellFormed(v) && Decodable(v, 0)
  {
    hide ParseValue, Encode, Decodable, WellFormed;
    if t :| Decode(t).Parsed? && Decode(t).value == v {
      Accepted(t, 0, 0);
    }
    if WellFormed(v) && Decodable(v, 0) {
      RoundTrip(v);
      assert Decode(Encode(v)).value == v;
    }
  }
}
