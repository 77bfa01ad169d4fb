/** What the numerals, the order of keys and the limits of the codec mean, told without the codec's own functions. */
module BencodeNumbers {
  import opened Bencode
  import opened BencodeLaws
  import opened BencodeCanon

  // ----- digits -----

  lemma DigitsAre()
    ensures DigitValue('0') == 0 && DigitValue('1') == 1 && DigitValue('2') == 2 && DigitValue('3') == 3
    ensures DigitValue('4') == 4 && DigitValue('5') == 5 && DigitValue('6') == 6 && DigitValue('7') == 7
    ensures DigitValue('8') == 8 && DigitValue('9') == 9
    ensures forall d: nat :: d < 10 ==> IsDigit(DigitChar(d)) && DigitValue(DigitChar(d)) == d
  {}

  function Pow10(n: nat): nat {
    if n == 0 then 1 else 10 * Pow10(n - 1)
  }

  lemma NumberSnoc(s: string, c: char)
    requires AllDigits(s) && IsDigit(c)
    ensures AllDigits(s + [c]) && NumberOf(s + [c]) == 10 * NumberOf(s) + DigitValue(c)
  {
    assert (s + [c])[..|s|] == s;
  }

  lemma ShiftedSum(d: nat, p: nat, u: nat, c: nat)
    ensures 10 * (d * p + u) + c == d * (10 * p) + (10 * u + c)
  {
    assert 10 * (d * p) == d * (10 * p);
  }

  /** The first digit counts for the power of ten of the digits behind it. */
  lemma {:induction false} FirstDigit(s: string)
    requires s != [] && AllDigits(s)
    ensures NumberOf(s) == DigitValue(s[0]) * Pow10(|s| - 1) + NumberOf(s[1..])
    decreases |s|, 1
  {
    hide DigitValue;
    if |s| > 1 {
      FirstDigitStep(s, |s| - 1);
    }
  }

  lemma {:induction false} FirstDigitStep(s: string, n: nat)
    requires |s| == n + 1 > 1 && AllDigits(s)
    ensures NumberOf(s) == DigitValue(s[0]) * Pow10(n) + NumberOf(s[1..])
    decreases n + 1, 0
  {
    hide NumberOf, DigitValue;
    var front, c := s[..n], s[n];
    FirstDigit(front);
    NumberSnoc(front, c);
    NumberSnoc(front[1..], c);
    assert s == front + [c] && s[1..] == front[1..] + [c];
    ShiftedSum(DigitValue(s[0]), Pow10(n - 1), NumberOf(front[1..]), DigitValue(c));
  }

  lemma {:induction false} NumberIsBelow(s: string)
    requires AllDigits(s)
    ensures NumberOf(s) < Pow10(|s|)
  {
    if s != [] {
      NumberIsBelow(s[..|s| - 1]);
    }
  }

  lemma DigitOrder(x: nat, y: nat, p: nat, u: nat, v: nat)
    requires u < p && v < p
    ensures x < y ==> x * p + u < y * p + v
    ensures x == y ==> (x * p + u < y * p + v <==> u < v)
  {
    if x < y {
      assert (x + 1) * p <= y * p;
    }
  }

  /** Among numerals of one length the order of the numbers is that of the characters. */
  lemma {:induction false} NumbersAscend(a: string, b: string)
    requires |a| == |b| && AllDigits(a) && AllDigits(b)
    ensures NumberOf(a) < NumberOf(b) <==> Less(a, b)
  {
    if a != [] {
      FirstDigit(a);
      FirstDigit(b);
      NumberIsBelow(a[1..]);
      NumberIsBelow(b[1..]);
      NumbersAscend(a[1..], b[1..]);
      var x, y, p := DigitValue(a[0]), DigitValue(b[0]), Pow10(|a| - 1);
      DigitOrder(x, y, p, NumberOf(a[1..]), NumberOf(b[1..]));
      DigitOrder(y, x, p, NumberOf(b[1..]), NumberOf(a[1..]));
    }
  }

  /** The order of keys: at the first difference the smaller character, or the shorter key if there is none. */
  lemma {:induction false} LessIff(a: string, b: string)
    ensures Less(a, b) <==> exists k: nat :: DiffersAt(a, b, k)
  {
    if a != [] && b != [] && a[0] == b[0] {
      LessIff(a[1..], b[1..]);
      if k: nat :| DiffersAt(a[1..], b[1..], k) {
        assert DiffersAt(a, b, k + 1);
      }
      if k: nat :| DiffersAt(a, b, k) {
        assert DiffersAt(a[1..], b[1..], k - 1);
      }
    } else if Less(a, b) {
      assert DiffersAt(a, b, 0);
    }
  }

  /** `a` and `b` agree in the first `k` characters, and then `a` ends or has the smaller one. */
  ghost predicate DiffersAt(a: string, b: string, k: nat) {
    && k <= |a| && k < |b| && (forall i :: 0 <= i < k ==> a[i] == b[i])
    && (k < |a| ==> a[k] < b[k])
  }

  // ----- numbers that are not minimal -----

  lemma SpacesAre(c: char)
    ensures IsSpace(c) <==> c as int == 32 || 9 <= c as int <= 13
  {}

  lemma {:induction false} SpacesSkipped(t: string, p: nat, n: nat)
    requires p + n <= |t| && (forall k :: p <= k < p + n ==> IsSpace(t[k])) && (p + n < |t| ==> !IsSpace(t[p + n]))
    ensures SkipSpaces(t, p) == p + n
    decreases n
  {
    if n > 0 {
      SpacesSkipped(t, p + 1, n - 1);
    }
  }

  lemma {:induction false} ZerosCountNothing(zeros: string, s: string)
    requires AllDigits(s) && forall k :: 0 <= k < |zeros| ==> zeros[k] == '0'
    ensures AllDigits(zeros + s) && NumberOf(zeros + s) == NumberOf(s)
  {
    if zeros == [] {
      assert zeros + s == s;
    } else {
      ZerosCountNothing(zeros[1..], s);
      var all := zeros + s;
      assert all[1..] == zeros[1..] + s && all[0] == '0';
      FirstDigit(all);
    }
  }

  /** How a number may be written: spaces, at most one sign, and zeros before its decimal form. */
  ghost predicate Lenient(spaces: string, sign: string, zeros: string) {
    && (forall k :: 0 <= k < |spaces| ==> IsSpace(spaces[k]))
    && (sign == "" || sign == "+" || sign == "-")
    && (forall k :: 0 <= k < |zeros| ==> zeros[k] == '0')
  }

  /** It is read as that number, negative if the sign is. */
  lemma LenientNumber(t: string, p: nat, spaces: string, sign: string, zeros: string, n: nat)
    requires Lenient(spaces, sign, zeros) && At(t, p, spaces + (sign + (zeros + Decimal(n))))
    requires var end := p + |spaces| + |sign| + |zeros| + |Decimal(n)|; end < |t| ==> !IsDigit(t[end])
    ensures ReadNumber(t, p).Number?
    ensures var r := ReadNumber(t, p);
            && r.negative == (sign == "-") && r.magnitude == n
            && r.next == p + |spaces| + |sign| + |zeros| + |Decimal(n)|
  {
    hide Decimal, NumberOf, DigitsEnd, SkipSpaces, At, ReadNumber;
    var digits := zeros + Decimal(n);
    DecimalDigits(n);
    ZerosCountNothing(zeros, Decimal(n));
    AtParts(t, p, spaces, sign + digits);
    var q := p + |spaces|;
    AtParts(t, q, sign, digits);
    var d := q + |sign|;
    ReadDigits(t, d, digits);
    AtChar(t, d, digits, 0);
    if sign != "" {
      AtChar(t, q, sign, 0);
    }
    SpacesAt(t, p, spaces);
    NumberAt(t, p, q, d, d + |digits|);
  }

  lemma SpacesAt(t: string, p: nat, spaces: string)
    requires At(t, p, spaces) && (forall k :: 0 <= k < |spaces| ==> IsSpace(spaces[k]))
    requires p + |spaces| < |t| ==> !IsSpace(t[p + |spaces|])
    ensures p + |spaces| <= |t| && SkipSpaces(t, p) == p + |spaces|
  {
    forall k | p <= k < p + |spaces|
      ensures IsSpace(t[k])
    {
      AtChar(t, p, spaces, k - p);
    }
    SpacesSkipped(t, p, |spaces|);
  }

  /** A number from its parts. */
  lemma NumberAt(t: string, p: nat, q: nat, d: nat, e: nat)
    requires p <= |t| && SkipSpaces(t, p) == q < |t| && d < e <= |t|
    requires d == if t[q] == '-' || t[q] == '+' then q + 1 else q
    requires DigitsEnd(t, d) == e
    ensures AllDigits(t[d..e]) && ReadNumber(t, p).Number?
    ensures var r := ReadNumber(t, p);
            r.negative == (t[q] == '-') && r.magnitude == NumberOf(t[d..e]) && r.next == e
  {
    hide NumberOf, SkipSpaces;
  }

  /** An integer so written, behind its 'i': the signed number, if it fits 64 bits. */
  lemma LenientInt(t: string, p: nat, spaces: string, sign: string, zeros: string, n: nat)
    requires Lenient(spaces, sign, zeros) && At(t, p, spaces + (sign + (zeros + Decimal(n))))
    requires var end := p + |spaces| + |sign| + |zeros| + |Decimal(n)|; end < |t| && t[end] == 'e'
    ensures p <= |t|
    ensures var i := if sign == "-" then -(n as int) else n;
            var r := ParseInt(t, p);
            if -0x8000_0000_0000_0000 <= i < 0x8000_0000_0000_0000
            then r.Parsed? && r.value == Int(i) && r.next == p + |spaces| + |sign| + |zeros| + |Decimal(n)| + 1
            else r.Fail?
  {
    LenientNumber(t, p, spaces, sign, zeros, n);
    hide ReadNumber, Decimal, Lenient;
  }

  /** A string whose length is so written, without a minus: that many characters behind the colon, up to 10^8. */
  lemma LenientString(t: string, p: nat, spaces: string, sign: string, zeros: string, n: nat)
    requires Lenient(spaces, sign, zeros) && sign != "-" && At(t, p, spaces + (sign + (zeros + Decimal(n))))
    requires var end := p + |spaces| + |sign| + |zeros| + |Decimal(n)|; end < |t| && t[end] == ':'
    ensures p <= |t|
    ensures var start := p + |spaces| + |sign| + |zeros| + |Decimal(n)| + 1;
            var r := ParseString(t, p);
            if n <= 100_000_000 && start + n <= |t|
            then r.Parsed? && r.value == t[start..start + n] && r.next == start + n
            else r.Fail?
  {
    LenientNumber(t, p, spaces, sign, zeros, n);
    hide ReadNumber, Decimal, Lenient;
  }

  // ----- the limits -----

  function Nested(n: nat): Value {
    if n == 0 then List([]) else List([Nested(n - 1)])
  }

  lemma {:induction false} NestedDepth(n: nat, depth: int)
    ensures WellFormed(Nested(n)) && (Decodable(Nested(n), depth) <==> depth + n <= 200)
  {
    if n > 0 {
      NestedDepth(n - 1, depth + 1);
      assert [Nested(n - 1)][0] == Nested(n - 1);
    }
  }

  /** Exactly up to which size a value that was encoded can be decoded again. */
  lemma LimitsAre(i: int, s: string, n: nat)
    ensures Decode(Encode(Int(i))).Parsed? <==> -0x8000_0000_0000_0000 <= i < 0x8000_0000_0000_0000
    ensures Decode(Encode(Str(s))).Parsed? <==> |s| <= 100_000_000
    ensures Decode(Encode(Nested(n))).Parsed? <==> n <= 200
  {
    NestedDepth(n, 0);
    hide Encode, Decode;
    RoundTrip(Int(i));
    RoundTrip(Str(s));
    RoundTrip(Nested(n));
  }

  /** A few texts and their values. */
  lemma Examples()
    ensures Decode("i3e") == Parsed(Int(3), 3, true)
    ensures Decode("i-42e") == Parsed(Int(-42), 5, true)
    ensures Decode("4:spam") == Parsed(Str("spam"), 6, true)
    ensures Decode("l4:spam3:egge") == Parsed(List([Str("spam"), Str("egg")]), 13, true)
    ensures Decode("d3:cow3:mooe") == Parsed(Dict([Entry("cow", Str("moo"))]), 12, true)
  {
    EncodedExamples();
    hide Encode, Decode;
    RoundTrip(Int(3));
    RoundTrip(Int(-42));
    RoundTrip(Str("spam"));
    RoundTrip(List([Str("spam"), Str("egg")]));
    RoundTrip(Dict([Entry("cow", Str("moo"))]));
  }

  lemma EncodedExamples()
    ensures Encode(Int(3)) == "i3e" && Encode(Int(-42)) == "i-42e" && Encode(Str("spam")) == "4:spam"
    ensures Encode(List([Str("spam"), Str("egg")])) == "l4:spam3:egge"
    ensures Encode(Dict([Entry("cow", Str("moo"))])) == "d3:cow3:mooe"
  {
    NumeralExamples();
    StringExamples();
    hide EncodeString, Numeral;
    var spam, egg, e := Str("spam"), Str("egg"), Entry("cow", Str("moo"));
    assert [spam, egg][1..] == [egg] && [egg][1..] == [] && [e][1..] == [];
    assert EncodeItems([egg]) == "3:egg" && EncodeItems([spam, egg]) == "4:spam" + "3:egg";
    assert EncodeEntries([e]) == "3:cow" + "3:moo";
  }

  lemma NumeralExamples()
    ensures Decimal(3) == "3" && Decimal(4) == "4" && Numeral(3) == "3" && Numeral(-42) == "-42"
  {
    assert Decimal(42) == Decimal(4) + ['2'];
  }

  lemma StringExamples()
    ensures EncodeString("spam") == "4:spam" && EncodeString("egg") == "3:egg"
    ensures EncodeString("cow") == "3:cow" && EncodeString("moo") == "3:moo"
  {
    NumeralExamples();
    hide Decimal;
  }
}
