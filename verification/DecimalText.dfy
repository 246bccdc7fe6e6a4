/**
 Decimal text is a faithful rendering of field elements: printing is injective and inverted by
 parsing, and parsing forgets nothing but leading zeros.
 Source: crates/protocol/src/field.rs.
 */
module DecimalText {
  import opened Machine
  import opened Positional
  import opened Protocol
  import opened FieldElement

  /** No digit is spent on a leading zero. */
  predicate Unpadded(text: string)
  {
    !(|text| > 1 && text[0] == '0')
  }

  lemma {:induction false} DigitsDenoteNumber(n: nat)
    ensures DecimalValue(DecimalDigits(n)) == n
    ensures n > 0 ==> DecimalDigits(n)[0] != '0'
  {
    if n == 0 {
    } else {
      DigitsDenoteNumber(n / 10);
      assert DecimalDigits(n)[..|DecimalDigits(n)| - 1] == DecimalDigits(n / 10);
    }
  }

  /** A nonzero number has exactly one digit string without leading zeros. */
  lemma {:induction false} UnpaddedIsUnique(text: string)
    requires IsDecimal(text) && text[0] != '0'
    ensures DecimalValue(text) > 0 && DecimalDigits(DecimalValue(text)) == text
  {
    var front, c := text[..|text| - 1], text[|text| - 1];
    assert text == front + [c];
    if front == "" {
      assert DecimalDigits(0) == "";
      DigitPush(front, c, 0);
    } else {
      UnpaddedIsUnique(front);
      DigitPush(front, c, DecimalValue(front));
    }
  }

  /** One more digit, on the text and on the number. */
  lemma DigitPush(front: string, c: char, v: nat)
    requires IsDigit(c) && forall i :: 0 <= i < |front| ==> IsDigit(front[i])
    requires DecimalValue(front) == v && DecimalDigits(v) == front && 0 < 10 * v + DigitValue(c)
    ensures DecimalValue(front + [c]) == 10 * v + DigitValue(c)
    ensures DecimalDigits(10 * v + DigitValue(c)) == front + [c]
  {
    assert (front + [c])[..|front|] == front;
    DigitOfValue(c);
    DigitsPush(v, DigitValue(c));
  }

  lemma DigitOfValue(c: char)
    requires IsDigit(c)
    ensures DigitChar(DigitValue(c)) == c
  {
  }

  lemma DigitsPush(v: nat, d: nat)
    requires d < 10 && 0 < 10 * v + d
    ensures DecimalDigits(10 * v + d) == DecimalDigits(v) + [DigitChar(d)]
  {
    assert (10 * v + d) / 10 == v && (10 * v + d) % 10 == d;
  }

  lemma {:induction false} LeadingZeroValue(text: string)
    requires forall i :: 0 <= i < |text| ==> IsDigit(text[i])
    ensures DecimalValue("0" + text) == DecimalValue(text)
  {
    if text == "" {
      assert ("0" + text)[..0] == "";
      assert DecimalValue("") == 0;
    } else {
      var n := |text| - 1;
      assert ("0" + text)[..n + 1] == "0" + text[..n];
      LeadingZeroValue(text[..n]);
    }
  }

  lemma {:induction false} StripKeepsValue(text: string)
    requires IsDecimal(text)
    ensures IsDecimal(StripLeadingZeros(text)) && Unpadded(StripLeadingZeros(text))
    ensures DecimalValue(StripLeadingZeros(text)) == DecimalValue(text)
  {
    if Unpadded(text) {
    } else {
      assert text == "0" + text[1..];
      LeadingZeroValue(text[1..]);
      StripKeepsValue(text[1..]);
    }
  }

  // ---------- which number a text denotes ----------

  /** The digits of a text as offsets from the character '0', whose code is 48. */
  function Offsets(text: string): (s: seq<int>)
    ensures |s| == |text|
  {
    if text == "" then [] else Offsets(text[..|text| - 1]) + [text[|text| - 1] as int - 48]
  }

  lemma {:induction false} OffsetAt(text: string, i: nat)
    requires i < |text|
    ensures Offsets(text)[i] == text[i] as int - 48
    decreases |text|
  {
    if i == |text| - 1 {
    } else {
      OffsetAt(text[..|text| - 1], i);
    }
  }

  /** Decimal notation: the digit string read in base ten, most significant digit first. */
  lemma {:induction false} DecimalIsPositional(text: string)
    requires forall i :: 0 <= i < |text| ==> IsDigit(text[i])
    ensures DecimalValue(text) == BeVal(Offsets(text), 10)
  {
    if text == "" {
    } else {
      var front := text[..|text| - 1];
      DecimalIsPositional(front);
      assert Offsets(text)[..|text| - 1] == Offsets(front);
    }
  }

  /** The parser's four outcomes, decided by the number the text denotes in base ten. */
  lemma ParseExactly(text: string)
    ensures var n, r := BeVal(Offsets(text), 10), ParseDecimal(text);
      if !IsDecimal(text) then r == Err(InvalidFieldEncoding(NotDecimal))
      else if n >= TWO_256 then r == Err(InvalidFieldEncoding(DecimalOverflow))
      else if n >= MODULUS then r == Err(InvalidFieldEncoding(NotReduced))
      else r.Ok? && Value(r.value) == n
  {
    if IsDecimal(text) {
      DecimalIsPositional(text);
      ParsedValue(text, DecimalValue(text));
    }
  }

  lemma ParsedValue(text: string, n: nat)
    requires IsDecimal(text) && DecimalValue(text) == n
    ensures n < MODULUS ==> ParseDecimal(text).Ok? && Value(ParseDecimal(text).value) == n
  {
    if n < MODULUS {
      ValueIsBijective(OfValue(0), n);
    }
  }

  /** The printed text is the unpadded base-ten notation of the value. */
  lemma PrintExactly(f: FieldElement)
    ensures IsDecimal(PrintDecimal(f)) && Unpadded(PrintDecimal(f))
    ensures BeVal(Offsets(PrintDecimal(f)), 10) == Value(f)
  {
    ParsePrinted(f);
    ParseExactly(PrintDecimal(f));
  }

  /** Character order of equally long texts, the first difference deciding. */
  predicate TextLess(s: string, t: string)
    requires |s| == |t|
  {
    s != "" && (s[0] < t[0] || (s[0] == t[0] && TextLess(s[1..], t[1..])))
  }

  lemma OffsetsCons(text: string)
    requires text != ""
    ensures Offsets(text)[0] == text[0] as int - 48 && Offsets(text)[1..] == Offsets(text[1..])
  {
    OffsetAt(text, 0);
    forall i | 0 <= i < |text| - 1
      ensures Offsets(text)[1..][i] == Offsets(text[1..])[i]
    {
      OffsetAt(text, i + 1);
      OffsetAt(text[1..], i);
    }
  }

  lemma {:induction false} TextOrderIsOffsetOrder(s: string, t: string)
    requires |s| == |t|
    ensures TextLess(s, t) <==> LexLess(Offsets(s), Offsets(t))
  {
    if s == "" {
    } else {
      OffsetsCons(s);
      OffsetsCons(t);
      TextOrderIsOffsetOrder(s[1..], t[1..]);
    }
  }

  /** Equally long texts that parse are ordered as characters exactly as their elements are as numbers. */
  lemma ParseKeepsOrder(s: string, t: string, f: FieldElement, g: FieldElement)
    requires |s| == |t| && ParseDecimal(s) == Ok(f) && ParseDecimal(t) == Ok(g)
    ensures TextLess(s, t) <==> Value(f) < Value(g)
  {
    ParseExactly(s);
    ParseExactly(t);
    OffsetsAreDigits(s);
    OffsetsAreDigits(t);
    TextOrderIsOffsetOrder(s, t);
    LexIsNumeric(Offsets(s), Offsets(t), 10);
  }

  lemma OffsetsAreDigits(text: string)
    requires forall i :: 0 <= i < |text| ==> IsDigit(text[i])
    ensures AllBelow(Offsets(text), 10)
  {
    forall i | 0 <= i < |text|
      ensures 0 <= Offsets(text)[i] < 10
    {
      OffsetAt(text, i);
    }
  }

  // ---------- round trips ----------

  /** Parsing the printed form of any field element gives the element back. */
  lemma ParsePrinted(f: FieldElement)
    ensures IsDecimal(PrintDecimal(f)) && Unpadded(PrintDecimal(f))
    ensures ParseDecimal(PrintDecimal(f)) == Ok(f)
  {
    DigitsDenoteNumber(Value(f));
    ValueIsBijective(f, Value(f));
    assert DecimalValue("0") == 0 by { assert "0"[..0] == ""; }
    assert MODULUS < TWO_256;
  }

  /**
   Printing what was parsed gives the text without its leading zeros. The parser is documented
   as taking the unpadded form only; it accepts padding, and the text survives the round trip
   exactly when there was none.
   */
  lemma PrintParsed(text: string, f: FieldElement)
    requires ParseDecimal(text) == Ok(f)
    ensures PrintDecimal(f) == StripLeadingZeros(text)
    ensures PrintDecimal(f) == text <==> Unpadded(text)
  {
    var t := StripLeadingZeros(text);
    StripKeepsValue(text);
    ValueIsBijective(f, DecimalValue(text));
    if t[0] != '0' {
      UnpaddedIsUnique(t);
    } else {
      assert t[..0] == "" && t == "0";
    }
    StripIsIdentity(text);
  }

  lemma StripIsIdentity(text: string)
    ensures StripLeadingZeros(text) == text <==> Unpadded(text)
  {
    if |text| > 1 && text[0] == '0' {
      StripShrinks(text[1..]);
    }
  }

  lemma {:induction false} StripShrinks(text: string)
    ensures |StripLeadingZeros(text)| <= |text|
  {
    if Unpadded(text) {
    } else {
      StripShrinks(text[1..]);
    }
  }

  /** The padding the documentation excludes is accepted: every decimal text may be padded freely. */
  lemma PaddingIsAccepted(text: string)
    requires IsDecimal(text)
    ensures ParseDecimal("0" + text) == ParseDecimal(text)
    ensures !Unpadded("0" + text)
  {
    LeadingZeroValue(text);
  }

  lemma {:induction false} DigitCount(n: nat, k: nat)
    requires n < Pow(10, k)
    ensures |DecimalDigits(n)| <= k
  {
    if n == 0 {
    } else {
      DigitCount(n / 10, k - 1);
    }
  }

  lemma PowerOfTen()
    ensures MODULUS < Pow(10, 77)
  {
    assert Pow(10, 7) == 10_000_000 by {
      assert Pow(10, 3) == 1000;
      PowAdd(10, 3, 4);
    }
    assert Pow(10, 14) == 100_000_000_000_000 by { PowAdd(10, 7, 7); }
    assert Pow(10, 21) == 1_000_000_000_000_000_000_000 by { PowAdd(10, 7, 14); }
    assert Pow(10, 42) == 1_000_000_000_000_000_000_000_000_000_000_000_000_000_000 by { PowAdd(10, 21, 21); }
    assert Pow(10, 63) == 1_000_000_000_000_000_000_000_000_000_000_000_000_000_000_000_000_000_000_000_000_000 by {
      PowAdd(10, 21, 42);
    }
    PowAdd(10, 63, 14);
  }

  /** A printed field element has at most 77 digits. */
  lemma PrintedLength(f: FieldElement)
    ensures 1 <= |PrintDecimal(f)| <= 77
  {
    PowerOfTen();
    DigitCount(Value(f), 77);
  }
}
