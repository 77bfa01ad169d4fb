/** What the bencode codec is for: round trip, depth limit, prefix-freeness and canonical form. */
module BencodeLaws {
  import opened Bencode

  /** `s` stands in `t` at `p`. */
  predicate At(t: string, p: nat, s: string) {
    p + |s| <= |t| && t[p..p + |s|] == s
  }

  lemma AtParts(t: string, p: nat, a: string, b: string)
    ensures At(t, p, a + b) <==> At(t, p, a) && At(t, p + |a|, b)
  {
    if p + |a| + |b| <= |t| {
      var x, y := t[p..p + |a|], t[p + |a|..p + |a| + |b|];
      assert t[p..p + |a + b|] == x + y;
      assert x + y == a + b ==> x == (x + y)[..|a|] && y == (x + y)[|a|..];
    }
  }

  lemma AtChar(t: string, p: nat, s: string, k: nat)
    requires At(t, p, s) && k < |s|
    ensures p + k < |t| && t[p + k] == s[k]
  {
    assert t[p..p + |s|][k] == t[p + k];
  }

  lemma Marked(t: string, p: nat, c: char, s: string)
    ensures At(t, p, [c] + s) <==> p < |t| && t[p] == c && At(t, p + 1, s)
  {
    AtParts(t, p, [c], s);
    if p < |t| && t[p] == c {
      assert t[p..p + 1] == [c];
    }
    if At(t, p, [c]) {
      AtChar(t, p, [c], 0);
    }
  }

  // ----- numerals -----

  lemma {:induction false} DecimalDigits(n: nat)
    ensures AllDigits(Decimal(n)) && NumberOf(Decimal(n)) == n
    ensures (Decimal(n)[0] == '0') <==> n == 0
    ensures n < 10 ==> |Decimal(n)| == 1
  {
    if n >= 10 {
      DecimalDigits(n / 10);
      var front := Decimal(n / 10);
      assert Decimal(n)[..|Decimal(n)| - 1] == front;
      assert forall k :: 0 <= k < |front| ==> Decimal(n)[k] == front[k];
    }
  }

  lemma {:induction false} NumberOfBounds(s: string)
    requires AllDigits(s) && s != []
    ensures NumberOf(s) == 0 ==> s[0] == '0'
    ensures |s| > 1 && s[0] != '0' ==> NumberOf(s) >= 10
  {
    var front := s[..|s| - 1];
    if front != [] {
      NumberOfBounds(front);
    } else {
      assert NumberOf(front) == 0;
    }
  }

  /** Digits without a superfluous leading zero are the decimal form of their number. */
  lemma {:induction false} MinimalDigitsAreDecimal(s: string)
    requires AllDigits(s) && s != [] && (s[0] == '0' ==> |s| == 1)
    ensures Decimal(NumberOf(s)) == s
  {
    var front, last := s[..|s| - 1], s[|s| - 1];
    var d := DigitValue(last);
    assert DigitChar(d) == last;
    if front == [] {
      assert NumberOf(front) == 0;
      assert s == [last];
    } else {
      MinimalDigitsAreDecimal(front);
      NumberOfBounds(s);
      assert (10 * NumberOf(front) + d) / 10 == NumberOf(front) && (10 * NumberOf(front) + d) % 10 == d;
      assert s == front + [last];
    }
  }

  lemma {:induction false} DigitsEndAt(t: string, p: nat, e: nat)
    requires p <= e <= |t| && (forall k :: p <= k < e ==> IsDigit(t[k])) && (e < |t| ==> !IsDigit(t[e]))
    ensures DigitsEnd(t, p) == e
    decreases e - p
  {
    if p < e {
      DigitsEndAt(t, p + 1, e);
    }
  }

  /** Digits that end where they should are read as their number. */
  lemma ReadDigits(t: string, p: nat, s: string)
    requires At(t, p, s) && AllDigits(s) && (p + |s| < |t| ==> !IsDigit(t[p + |s|]))
    ensures DigitsEnd(t, p) == p + |s| && t[p..p + |s|] == s
  {
    forall k | p <= k < p + |s|
      ensures IsDigit(t[k])
    {
      AtChar(t, p, s, k - p);
    }
    DigitsEndAt(t, p, p + |s|);
  }

  lemma ReadDecimal(t: string, p: nat, n: nat)
    requires At(t, p, Decimal(n)) && (p + |Decimal(n)| < |t| ==> !IsDigit(t[p + |Decimal(n)|]))
    ensures ReadNumber(t, p) == Number(false, n, p + |Decimal(n)|, true)
  {
    DecimalDigits(n);
    ReadDigits(t, p, Decimal(n));
    AtChar(t, p, Decimal(n), 0);
  }

  lemma ReadNumeral(t: string, p: nat, i: int)
    requires At(t, p, Numeral(i)) && (p + |Numeral(i)| < |t| ==> !IsDigit(t[p + |Numeral(i)|]))
    ensures ReadNumber(t, p) == Number(i < 0, if i < 0 then -i else i, p + |Numeral(i)|, true)
  {
    if i >= 0 {
      ReadDecimal(t, p, i);
    } else {
      AtParts(t, p, "-", Decimal(-i));
      AtChar(t, p, "-", 0);
      ReadNegative(t, p, -i);
    }
  }

  lemma ReadNegative(t: string, p: nat, n: nat)
    requires p < |t| && t[p] == '-' && n > 0
    requires At(t, p + 1, Decimal(n)) && (p + 1 + |Decimal(n)| < |t| ==> !IsDigit(t[p + 1 + |Decimal(n)|]))
    ensures ReadNumber(t, p) == Number(true, n, p + 1 + |Decimal(n)|, true)
  {
    DecimalDigits(n);
    ReadDigits(t, p + 1, Decimal(n));
    AtChar(t, p + 1, Decimal(n), 0);
    hide At, Decimal, DigitsEnd, NumberOf, AllDigits;
  }

  lemma MinimalNumberParts(t: string, p: nat)
    requires p <= |t| && ReadNumber(t, p).Number? && ReadNumber(t, p).minimal
    ensures var n := ReadNumber(t, p);
            var d := if n.negative then p + 1 else p;
            && d < n.next <= |t| && AllDigits(t[d..n.next]) && NumberOf(t[d..n.next]) == n.magnitude
            && (t[d] == '0' ==> n.next == d + 1)
            && (n.negative ==> t[p] == '-' && n.magnitude != 0)
  {
    hide NumberOf;
  }

  /** A number that is written minimally stands in the text as the encoder writes it. */
  lemma MinimalNumberIsNumeral(t: string, p: nat)
    requires p <= |t| && ReadNumber(t, p).Number? && ReadNumber(t, p).minimal
    ensures var n := ReadNumber(t, p); At(t, p, Numeral(Signed(n.negative, n.magnitude)))
    ensures var n := ReadNumber(t, p); n.next == p + |Numeral(Signed(n.negative, n.magnitude))|
  {
    MinimalNumberParts(t, p);
    hide ReadNumber, NumberOf, Decimal, AllDigits;
    var n := ReadNumber(t, p);
    var d := if n.negative then p + 1 else p;
    var digits := t[d..n.next];
    assert digits[0] == t[d];
    MinimalDigitsAreDecimal(digits);
    assert At(t, d, digits);
    hide At;
    if n.negative {
      Marked(t, p, '-', digits);
    }
  }

  // ----- values -----

  /** The value of a `std::map` has ascending keys, at every level. */
  ghost predicate WellFormed(v: Value) {
    match v
    case Int(i) => true
    case Str(s) => true
    case List(items) => forall k :: 0 <= k < |items| ==> WellFormed(items[k])
    case Dict(es) => Ascending(es) && forall k :: 0 <= k < |es| ==> WellFormed(es[k].val)
  }

  /** What the decoder can give back: 64-bit integers, bounded strings, and no element deeper than the limit. */
  ghost predicate Decodable(v: Value, depth: int) {
    && depth <= RECURSION_LIMIT
    && match v
       case Int(i) => -INT64_MAX - 1 <= i <= INT64_MAX
       case Str(s) => |s| <= MAX_STRING_LENGTH
       case List(items) => AllDecodable(items, depth + 1)
       case Dict(es) => AllEntriesDecodable(es, depth + 1)
  }

  ghost predicate AllDecodable(items: seq<Value>, depth: int) {
    forall k :: 0 <= k < |items| ==> Decodable(items[k], depth)
  }

  ghost predicate AllEntriesDecodable(es: seq<Entry>, depth: int) {
    forall k :: 0 <= k < |es| ==> |es[k].key| <= MAX_STRING_LENGTH && Decodable(es[k].val, depth)
  }

  // ----- decoding what was encoded -----

  /** The first character tells the kind of an element. */
  lemma FirstChar(v: Value)
    ensures match v
            case Int(_) => Encode(v)[0] == 'i'
            case Str(_) => IsDigit(Encode(v)[0])
            case List(_) => Encode(v)[0] == 'l'
            case Dict(_) => Encode(v)[0] == 'd'
  {
    if v.Str? {
      DecimalDigits(|v.s|);
    }
  }

  lemma ParseEncodedString(t: string, p: nat, s: string)
    requires At(t, p, EncodeString(s))
    ensures p + |EncodeString(s)| <= |t|
    ensures ParseString(t, p) == if |s| <= MAX_STRING_LENGTH then Parsed(s, p + |EncodeString(s)|, true) else Fail
  {
    var digits := Decimal(|s|);
    AtParts(t, p, digits + ":", s);
    AtParts(t, p, digits, ":");
    AtChar(t, p + |digits|, ":", 0);
    ReadDecimal(t, p, |s|);
  }

  lemma ParseEncodedInt(t: string, p: nat, i: int)
    requires At(t, p, Numeral(i) + "e")
    ensures ParseInt(t, p) == if -INT64_MAX - 1 <= i <= INT64_MAX then Parsed(Int(i), p + |Numeral(i)| + 1, true) else Fail
  {
    AtParts(t, p, Numeral(i), "e");
    AtChar(t, p + |Numeral(i)|, "e", 0);
    ReadNumeral(t, p, i);
  }

  /** What follows the first character of a list and of a dictionary. */
  function ItemsText(items: seq<Value>): (s: string)
    ensures |s| > 0
  {
    EncodeItems(items) + "e"
  }

  function EntriesText(es: seq<Entry>): (s: string)
    ensures |s| > 0
  {
    EncodeEntries(es) + "e"
  }

  /** How the text of an element splits behind its first character. */
  lemma TextOfInt(t: string, p: nat, i: int)
    ensures At(t, p, Encode(Int(i))) <==> p < |t| && t[p] == 'i' && At(t, p + 1, Numeral(i) + "e")
    ensures |Encode(Int(i))| == |Numeral(i)| + 2
  {
    hide Numeral;
    assert Encode(Int(i)) == ['i'] + (Numeral(i) + "e");
    Marked(t, p, 'i', Numeral(i) + "e");
  }

  lemma TextOfList(t: string, p: nat, items: seq<Value>)
    ensures At(t, p, Encode(List(items))) <==> p < |t| && t[p] == 'l' && At(t, p + 1, ItemsText(items))
    ensures |Encode(List(items))| == 1 + |ItemsText(items)|
  {
    hide EncodeItems;
    assert Encode(List(items)) == ['l'] + ItemsText(items);
    Marked(t, p, 'l', ItemsText(items));
  }

  lemma TextOfDict(t: string, p: nat, es: seq<Entry>)
    ensures At(t, p, Encode(Dict(es))) <==> p < |t| && t[p] == 'd' && At(t, p + 1, EntriesText(es))
    ensures |Encode(Dict(es))| == 1 + |EntriesText(es)|
  {
    hide EncodeEntries;
    assert Encode(Dict(es)) == ['d'] + EntriesText(es);
    Marked(t, p, 'd', EntriesText(es));
  }

  lemma TextOfString(t: string, p: nat, s: string)
    ensures Encode(Str(s)) == EncodeString(s)
    ensures At(t, p, EncodeString(s)) ==> p < |t| && IsDigit(t[p])
  {
    DecimalDigits(|s|);
    if At(t, p, EncodeString(s)) {
      AtChar(t, p, EncodeString(s), 0);
    }
  }

  lemma TextEnds(t: string, p: nat)
    ensures At(t, p, ItemsText([])) <==> p < |t| && t[p] == 'e'
    ensures At(t, p, EntriesText([])) <==> p < |t| && t[p] == 'e'
    ensures |ItemsText([])| == |EntriesText([])| == 1
  {
    Marked(t, p, 'e', "");
    assert ItemsText([]) == EntriesText([]) == ['e'] + "";
    assert p < |t| ==> t[p + 1..p + 1] == "";
  }

  lemma Regroup(a: string, b: string, c: string, d: string)
    ensures (a + b) + d == a + (b + d) && (a + b + c) + d == a + (b + (c + d))
  {}

  lemma TextOfItems(t: string, p: nat, items: seq<Value>)
    requires items != []
    ensures At(t, p, ItemsText(items)) <==> At(t, p, Encode(items[0])) && At(t, p + |Encode(items[0])|, ItemsText(items[1..]))
    ensures |ItemsText(items)| == |Encode(items[0])| + |ItemsText(items[1..])|
  {
    hide Encode, At;
    Regroup(Encode(items[0]), EncodeItems(items[1..]), "", "e");
    AtParts(t, p, Encode(items[0]), ItemsText(items[1..]));
  }

  lemma TextOfEntries(t: string, p: nat, es: seq<Entry>)
    requires es != []
    ensures var k, v := EncodeString(es[0].key), Encode(es[0].val);
            && (At(t, p, EntriesText(es)) <==>
                  At(t, p, k) && At(t, p + |k|, v) && At(t, p + |k| + |v|, EntriesText(es[1..])))
            && |EntriesText(es)| == |k| + |v| + |EntriesText(es[1..])|
  {
    hide EncodeString, Encode, At;
    var k, v, rest := EncodeString(es[0].key), Encode(es[0].val), EntriesText(es[1..]);
    Regroup(k, v, EncodeEntries(es[1..]), "e");
    assert EntriesText(es) == k + (v + rest);
    AtParts(t, p, k, v + rest);
    AtParts(t, p + |k|, v, rest);
  }

  /** Decoding an encoded value gives it back and stops behind it, exactly when the value is decodable. */
  lemma {:induction false} ParseEncoded(t: string, p: nat, v: Value, depth: int)
    requires At(t, p, Encode(v)) && WellFormed(v)
    ensures ParseValue(t, p, depth) == if Decodable(v, depth) then Parsed(v, p + |Encode(v)|, true) else Fail
    decreases v, 0
  {
    hide At, ParseInt, ParseString, ParseItems, ParseEntries, Encode;
    if depth <= RECURSION_LIMIT {
      match v
      case Int(i) =>
        TextOfInt(t, p, i);
        ParseEncodedInt(t, p + 1, i);
      case Str(s) =>
        TextOfString(t, p, s);
        ParseEncodedString(t, p, s);
      case List(items) =>
        TextOfList(t, p, items);
        ParseEncodedItems(t, p + 1, items, depth + 1, []);
        assert [] + items == items;
      case Dict(es) =>
        TextOfDict(t, p, es);
        assert [] + es == es;
        hide Ascending;
        ParseEncodedEntries(t, p + 1, es, depth + 1, []);
        assert ReadsEntries(t, p + 1, es, depth + 1, []);
    }
  }

  lemma {:induction false} ParseEncodedItems(t: string, p: nat, items: seq<Value>, depth: int, acc: seq<Value>)
    requires At(t, p, ItemsText(items))
    requires forall k :: 0 <= k < |items| ==> WellFormed(items[k])
    ensures p < |t|
    ensures ParseItems(t, p, depth, acc)
         == if AllDecodable(items, depth) then Parsed(acc + items, p + |ItemsText(items)|, true) else Fail
    decreases items, 1
  {
    hide At, ParseValue, Encode, Decodable, WellFormed, ItemsText;
    if items == [] {
      TextEnds(t, p);
      assert acc + items == acc;
    } else {
      var v, rest := items[0], items[1..];
      TextOfItems(t, p, items);
      StartsElement(t, p, v);
      ParseEncoded(t, p, v, depth);
      assert AllDecodable(items, depth) <==> Decodable(v, depth) && AllDecodable(rest, depth);
      if Decodable(v, depth) {
        ParseEncodedItems(t, p + |Encode(v)|, rest, depth, acc + [v]);
        assert acc + [v] + rest == acc + items;
      }
    }
  }

  lemma StartsElement(t: string, p: nat, v: Value)
    requires At(t, p, Encode(v))
    ensures p < |t| && t[p] != 'e'
  {
    FirstChar(v);
    AtChar(t, p, Encode(v), 0);
  }

  /** At `p` the dictionary loop reads the entries `es` and adds them to `acc`, exactly when they are decodable. */
  ghost predicate ReadsEntries(t: string, p: nat, es: seq<Entry>, depth: int, acc: seq<Entry>)
    requires p <= |t|
  {
    ParseEntries(t, p, depth, acc)
    == if AllEntriesDecodable(es, depth) then Parsed(acc + es, p + |EntriesText(es)|, true) else Fail
  }

  lemma {:induction false} ParseEncodedEntries(t: string, p: nat, es: seq<Entry>, depth: int, acc: seq<Entry>)
    requires At(t, p, EntriesText(es)) && Ascending(acc + es)
    requires forall k :: 0 <= k < |es| ==> WellFormed(es[k].val)
    ensures p < |t| && ReadsEntries(t, p, es, depth, acc)
    decreases es, 1
  {
    hide *;
    if es == [] {
      TextEnds(t, p);
      NoMoreEntries(t, p, depth, acc);
    } else {
      var e := es[0];
      var q := p + |EncodeString(e.key)|;
      var r := q + |Encode(e.val)|;
      TextOfEntries(t, p, es);
      TextOfString(t, p, e.key);
      assert IsDigit(t[p]) && t[p] != 'e';
      ParseEncodedString(t, p, e.key);
      ParseEncoded(t, q, e.val, depth);
      if |e.key| <= MAX_STRING_LENGTH && Decodable(e.val, depth) {
        EntryAppended(acc, es);
        EntryMoved(acc, es);
        ParseEncodedEntries(t, r, es[1..], depth, acc + [e]);
        OneEntry(t, p, es, depth, acc, q, r);
      } else {
        UndecodableEntry(t, p, es, depth, acc, q);
      }
    }
  }

  lemma NoMoreEntries(t: string, p: nat, depth: int, acc: seq<Entry>)
    requires p < |t| && t[p] == 'e'
    ensures ReadsEntries(t, p, [], depth, acc)
  {
    assert acc + [] == acc;
  }

  lemma OneEntry(t: string, p: nat, es: seq<Entry>, depth: int, acc: seq<Entry>, q: nat, r: nat)
    requires p < |t| && t[p] != 'e' && q <= |t| && r < |t| && es != [] && r == p + (|EntriesText(es)| - |EntriesText(es[1..])|)
    requires ParseString(t, p) == Parsed(es[0].key, q, true) && ParseValue(t, q, depth) == Parsed(es[0].val, r, true)
    requires |es[0].key| <= MAX_STRING_LENGTH && Decodable(es[0].val, depth)
    requires Insert(acc, es[0].key, es[0].val) == acc + [es[0]] && (acc == [] || Less(acc[|acc| - 1].key, es[0].key))
    requires ReadsEntries(t, r, es[1..], depth, acc + [es[0]])
    ensures ReadsEntries(t, p, es, depth, acc)
  {
    EntriesStep(t, p, depth, acc);
    AllEntriesStep(es, depth);
    EntryMoved(acc, es);
    hide ParseString, ParseValue, ParseEntries, Insert, Less, AllEntriesDecodable, Decodable, EntriesText;
  }

  lemma UndecodableEntry(t: string, p: nat, es: seq<Entry>, depth: int, acc: seq<Entry>, q: nat)
    requires p < |t| && t[p] != 'e' && q <= |t| && es != []
    requires if |es[0].key| <= MAX_STRING_LENGTH
             then ParseString(t, p) == Parsed(es[0].key, q, true) && ParseValue(t, q, depth).Fail? && !Decodable(es[0].val, depth)
             else ParseString(t, p).Fail?
    ensures ReadsEntries(t, p, es, depth, acc)
  {
    EntriesStep(t, p, depth, acc);
    AllEntriesStep(es, depth);
    hide ParseString, ParseValue, ParseEntries, Insert, Less, AllEntriesDecodable, Decodable, EntriesText;
  }

  lemma AllEntriesStep(es: seq<Entry>, depth: int)
    ensures AllEntriesDecodable(es, depth)
       <==> es == [] || (|es[0].key| <= MAX_STRING_LENGTH && Decodable(es[0].val, depth) && AllEntriesDecodable(es[1..], depth))
  {
    hide Decodable;
    assert es != [] ==> es == [es[0]] + es[1..];
  }

  /** One round of the dictionary loop. */
  lemma EntriesStep(t: string, p: nat, depth: int, acc: seq<Entry>)
    requires p < |t| && t[p] != 'e'
    ensures var k := ParseString(t, p);
            k.Fail? ==> ParseEntries(t, p, depth, acc).Fail?
    ensures var k := ParseString(t, p);
            k.Parsed? && ParseValue(t, k.next, depth).Fail? ==> ParseEntries(t, p, depth, acc).Fail?
    ensures var k := ParseString(t, p);
            k.Parsed? && ParseValue(t, k.next, depth).Parsed? ==>
              var v := ParseValue(t, k.next, depth);
              var rest := ParseEntries(t, v.next, depth, Insert(acc, k.value, v.value));
              var all := ParseEntries(t, p, depth, acc);
              && all.Parsed? == rest.Parsed?
              && (rest.Parsed? ==>
                    && all.value == rest.value && all.next == rest.next
                    && all.minimal == (k.minimal && v.minimal && rest.minimal
                                       && (acc == [] || Less(acc[|acc| - 1].key, k.value))))
  {
    hide ParseString, ParseValue, Insert, Less;
  }

  /** In ascending order the next entry comes after all that the map has. */
  lemma NextIsGreater(acc: seq<Entry>, es: seq<Entry>, i: nat)
    requires es != [] && Ascending(acc + es) && i < |acc|
    ensures Less(acc[i].key, es[0].key)
  {
    assert (acc + es)[i] == acc[i] && (acc + es)[|acc|] == es[0];
  }

  lemma EntryAppended(acc: seq<Entry>, es: seq<Entry>)
    requires es != [] && Ascending(acc + es)
    ensures Insert(acc, es[0].key, es[0].val) == acc + [es[0]]
    ensures acc == [] || Less(acc[|acc| - 1].key, es[0].key)
  {
    forall i | 0 <= i < |acc|
      ensures Less(acc[i].key, es[0].key)
    {
      NextIsGreater(acc, es, i);
    }
    InsertLast(acc, es[0].key, es[0].val);
  }

  lemma EntryMoved(acc: seq<Entry>, es: seq<Entry>)
    requires es != []
    ensures acc + [es[0]] + es[1..] == acc + es
  {}

  lemma NextOfPrefix<T>(front: seq<T>, x: T, all: seq<T>)
    requires front + [x] <= all
    ensures front <= all && |front| < |all| && all[|front|..][0] == x
    ensures all[|front|..][1..] == all[|front + [x]|..]
  {
    var both := front + [x];
    assert both[|front|] == x && all[|front|] == both[|front|];
    assert both[..|front|] == front && all[..|front|] == both[..|front|];
  }
}
