/**
 Canonical BN254 scalars: 32 big-endian bytes, 256-bit limb arithmetic and decimal text.
 Source: crates/protocol/src/field.rs.
 */
module FieldElement {
  import opened Machine
  import opened Positional
  import opened Protocol

  const FIELD_BYTES: nat := 32

  const MODULUS_BE: seq<byte> :=
    [0x30, 0x64, 0x4e, 0x72, 0xe1, 0x31, 0xa0, 0x29] + [0xb8, 0x50, 0x45, 0xb6, 0x81, 0x81, 0x58, 0x5d] +
    [0x28, 0x33, 0xe8, 0x48, 0x79, 0xb9, 0x70, 0x91] + [0x43, 0xe1, 0xf5, 0x93, 0xf0, 0x00, 0x00, 0x01]

  /** Construction always validates, so an unreduced representative cannot exist. */
  type FieldElement = s: seq<byte> | |s| == FIELD_BYTES && LexLess(s, MODULUS_BE)
    witness seq(32, _ => 0)

  // ---------- the modulus as bytes and as a number ----------

  lemma BeValOf8(s: seq<int>)
    requires |s| == 8
    ensures BeVal(s, 256) ==
      ((((((s[0] * 256 + s[1]) * 256 + s[2]) * 256 + s[3]) * 256 + s[4]) * 256 + s[5]) * 256 + s[6]) * 256 + s[7]
  {
    BeValOf4(s[..4]);
    BeValOf4(s[4..]);
    assert s == s[..4] + s[4..];
    BeAppend(s[..4], s[4..], 256);
    assert Pow(256, 4) == 0x1_0000_0000 by { PowAdd(256, 2, 2); }
  }

  lemma BeValOf4(s: seq<int>)
    requires |s| == 4
    ensures BeVal(s, 256) == ((s[0] * 256 + s[1]) * 256 + s[2]) * 256 + s[3]
  {
    assert s[..3][..2] == s[..2] && s[..2][..1] == s[..1] && s[..1][..0] == [];
    assert BeVal(s[..1], 256) == s[0];
    assert BeVal(s[..2], 256) == s[0] * 256 + s[1];
    assert BeVal(s[..3], 256) == (s[0] * 256 + s[1]) * 256 + s[2];
  }

  lemma ModulusLimbs()
    ensures BeVal(MODULUS_BE[..8], 256) == 0x30644e72e131a029
    ensures BeVal(MODULUS_BE[8..16], 256) == 0xb85045b68181585d
    ensures BeVal(MODULUS_BE[16..24], 256) == 0x2833e84879b97091
    ensures BeVal(MODULUS_BE[24..], 256) == 0x43e1f593f0000001
  {
    var m := MODULUS_BE;
    BeValOf8(m[..8]);
    BeValOf8(m[8..16]);
    BeValOf8(m[16..24]);
    BeValOf8(m[24..]);
  }

  /** The byte constant and the decimal literal of the JavaScript schema are the same number. */
  lemma ModulusBytes()
    ensures BeVal(MODULUS_BE, 256) == MODULUS
  {
    var m := MODULUS_BE;
    ModulusLimbs();
    assert Pow(256, 8) == TWO_64 by { PowersOf256(); }
    BeAppend(m[..8], m[8..16], 256);
    BeAppend(m[..16], m[16..24], 256);
    BeAppend(m[..24], m[24..], 256);
    assert m[..16] == m[..8] + m[8..16] && m[..24] == m[..16] + m[16..24] && m == m[..24] + m[24..];
  }

  /** The comparison of byte arrays in `from_be_bytes` decides exactly whether the value is reduced. */
  lemma ReducedIffBelowModulus(s: seq<byte>)
    requires |s| == FIELD_BYTES
    ensures LexLess(s, MODULUS_BE) <==> BeVal(s, 256) < MODULUS
    ensures 0 <= BeVal(s, 256) < TWO_256
  {
    ModulusBytes();
    LexIsNumeric(s, MODULUS_BE, 256);
    BeBound(s, 256);
    PowersOf256();
  }

  // ---------- the numeric view of a field element ----------

  function Value(f: FieldElement): Field
  {
    ReducedIffBelowModulus(f);
    BeVal(f, 256)
  }

  function OfValue(v: Field): FieldElement
  {
    PowersOf256();
    BeBytesValue(v, 32);
    var s: seq<byte> := BeBytes(v, 32);
    ReducedIffBelowModulus(s);
    s
  }

  /** The bytes and the number carry the same information. */
  lemma ValueIsBijective(f: FieldElement, v: Field)
    ensures OfValue(Value(f)) == f
    ensures Value(OfValue(v)) == v
  {
    BeValueBytes(f);
    PowersOf256();
    BeBytesValue(v, 32);
  }

  // ---------- byte and integer constructors ----------

  function FromBeBytes(bytes: seq<byte>): (r: Result<FieldElement>)
    requires |bytes| == FIELD_BYTES
  {
    if !LexLess(bytes, MODULUS_BE) then Err(InvalidFieldEncoding(NotReduced)) else Ok(bytes)
  }

  function FromBeSlice(bytes: seq<byte>): (r: Result<FieldElement>)
  {
    if |bytes| != FIELD_BYTES then Err(InvalidFieldEncoding(WrongLength)) else FromBeBytes(bytes)
  }

  /**
   A slice decodes exactly when it is the 32-byte encoding of a reduced number; the errors tell
   the two failures apart.
   */
  lemma FromBeSliceExact(bytes: seq<byte>, v: Field)
    ensures FromBeSlice(bytes).Ok? <==> |bytes| == FIELD_BYTES && BeVal(bytes, 256) < MODULUS
    ensures FromBeSlice(bytes) == Err(InvalidFieldEncoding(WrongLength)) <==> |bytes| != FIELD_BYTES
    ensures FromBeSlice(bytes) == Err(InvalidFieldEncoding(NotReduced)) <==>
      |bytes| == FIELD_BYTES && BeVal(bytes, 256) >= MODULUS
    ensures FromBeSlice(bytes) == Ok(OfValue(v)) <==> |bytes| == FIELD_BYTES && BeVal(bytes, 256) == v
  {
    if |bytes| == FIELD_BYTES {
      ReducedIffBelowModulus(bytes);
      ValueIsBijective(OfValue(v), v);
      BeValueBytes(bytes);
    }
  }

  function FromU64(value: u64): (f: FieldElement)
    ensures Value(f) == value
  {
    PowersOf256();
    PaddedValue(value, 8);
    var s: seq<byte> := seq(24, _ => 0) + BeBytes(value, 8);
    ReducedIffBelowModulus(s);
    s
  }

  function FromU128(value: u128): (f: FieldElement)
    ensures Value(f) == value
  {
    PowersOf256();
    PaddedValue(value, 16);
    var s: seq<byte> := seq(16, _ => 0) + BeBytes(value, 16);
    ReducedIffBelowModulus(s);
    s
  }

  lemma PaddedValue(v: nat, width: nat)
    requires width <= 32 && v < Pow(256, width)
    ensures BeVal(seq(32 - width, _ => 0) + BeBytes(v, width), 256) == v
  {
    BeBytesValue(v, width);
    BePad(32 - width, BeBytes(v, width), 256);
  }

  // ---------- the 256-bit limb kernel ----------

  ghost function LimbValue(limbs: seq<u64>): int
  {
    LeVal(limbs, TWO_64)
  }

  lemma LimbPowers()
    ensures Pow(TWO_64, 0) == 1 && Pow(TWO_64, 1) == TWO_64
    ensures Pow(TWO_64, 2) == TWO_128 && Pow(TWO_64, 4) == TWO_256
  {
    PowAdd(TWO_64, 1, 1);
    PowAdd(TWO_64, 2, 2);
  }

  lemma LimbBound(limbs: seq<u64>)
    requires |limbs| == 4
    ensures 0 <= LimbValue(limbs) < TWO_256
  {
    LeBound(limbs, TWO_64);
    LimbPowers();
  }

  lemma LimbPush(s: seq<u64>, x: u64)
    ensures LimbValue(s + [x]) == LimbValue(s) + Pow(TWO_64, |s|) * x
  {
    LeAppend(s, [x], TWO_64);
    assert LeVal([x], TWO_64) == x;
  }

  /** The 128-bit intermediate of `mul_add_small` cannot overflow. */
  lemma ProductFits(limb: u64, multiplier: u64, carry: u64)
    ensures 0 <= limb * multiplier + carry < TWO_128
  {
    MulBound(limb, multiplier, TWO_64 - 1);
  }

  lemma MulAddStep(low: int, product: int, limb: int, m: int, a: int, carry: int, p: int, lo: int, hi: int)
    requires low + p * carry == product * m + a
    requires limb * m + carry == lo + TWO_64 * hi
    ensures (low + p * lo) + (TWO_64 * p) * hi == (product + p * limb) * m + a
  {
    assert p * (limb * m + carry) == p * (lo + TWO_64 * hi);
    MulDistributive(p, limb * m, carry);
    MulDistributive(p, lo, TWO_64 * hi);
    assert p * (TWO_64 * hi) == (TWO_64 * p) * hi;
    MulAssociative(p, limb, m);
    MulDistributive(m, product, p * limb);
  }

  /** The limbs done so far, with the pending carry, hold the product of the low part. */
  ghost predicate PartialProduct(before: seq<u64>, done: seq<u64>, m: u64, a: u64, carry: int)
    requires |done| <= |before|
  {
    LimbValue(done) + Pow(TWO_64, |done|) * carry == LimbValue(before[..|done|]) * m + a
  }

  lemma PartialPush(before: seq<u64>, done: seq<u64>, m: u64, a: u64, carry: u64, product: u128)
    requires |done| < |before| && PartialProduct(before, done, m, a, carry)
    requires product == before[|done|] * m + carry
    ensures PartialProduct(before, done + [product % TWO_64], m, a, product / TWO_64)
  {
    DivFacts(product, TWO_64);
    PartialExtend(before, done, m, a, carry, product % TWO_64, product / TWO_64);
  }

  lemma PartialExtend(before: seq<u64>, done: seq<u64>, m: u64, a: u64, carry: u64, lo: u64, hi: int)
    requires |done| < |before| && PartialProduct(before, done, m, a, carry)
    requires before[|done|] * m + carry == lo + TWO_64 * hi
    ensures PartialProduct(before, done + [lo], m, a, hi)
  {
    var i := |done|;
    LimbPush(before[..i], before[i]);
    LimbPush(done, lo);
    assert before[..i + 1] == before[..i] + [before[i]];
    MulAddStep(LimbValue(done), LimbValue(before[..i]), before[i], m, a, carry, Pow(TWO_64, i), lo, hi);
  }

  lemma PartialComplete(before: seq<u64>, done: seq<u64>, m: u64, a: u64, carry: nat)
    requires |done| == |before| == 4 && PartialProduct(before, done, m, a, carry)
    ensures LimbValue(done) == (LimbValue(before) * m + a) % TWO_256
    ensures carry == 0 <==> LimbValue(before) * m + a < TWO_256
  {
    assert before[..4] == before;
    LimbBound(done);
    LimbPowers();
    LowPart(LimbValue(before) * m + a, LimbValue(done), carry);
  }

  lemma LowPart(n: int, low: int, carry: nat)
    requires 0 <= low < TWO_256 && low + TWO_256 * carry == n
    ensures low == n % TWO_256
    ensures carry == 0 <==> n < TWO_256
  {
  }

  /** Multiplies by `multiplier` and adds `addend`, in place; reports whether 256 bits sufficed. */
  method MulAddSmall(limbs: array<u64>, multiplier: u64, addend: u64) returns (fits: bool)
    requires limbs.Length == 4
    modifies limbs
    ensures LimbValue(limbs[..]) == (old(LimbValue(limbs[..])) * multiplier + addend) % TWO_256
    ensures fits <==> old(LimbValue(limbs[..])) * multiplier + addend < TWO_256
  {
    ghost var before: seq<u64> := limbs[..];
    var carry: u128 := addend;
    LimbPowers();
    for i := 0 to 4
      invariant carry < TWO_64
      invariant limbs[i..] == before[i..]
      invariant PartialProduct(before, limbs[..i], multiplier, addend, carry)
    {
      ghost var done, rest := limbs[..i], limbs[i + 1..];
      assert limbs[i] == limbs[i..][0] == before[i] && rest == limbs[i..][1..] == before[i + 1..];
      ProductFits(limbs[i], multiplier, carry);
      var product: u128 := limbs[i] * multiplier + carry;
      PartialPush(before, done, multiplier, addend, carry, product);
      limbs[i] := product % TWO_64;
      carry := product / TWO_64;
      assert limbs[..i + 1] == done + [limbs[i]] && limbs[i + 1..] == rest;
    }
    assert limbs[..4] == limbs[..];
    PartialComplete(before, limbs[..], multiplier, addend, carry);
    fits := carry == 0;
  }

  lemma QuotientBelow(q: int, r: int, d: nat, hi: nat, lo: u64)
    requires 0 <= r && hi < d && q * d + r == hi * TWO_64 + lo
    ensures q < TWO_64
  {
    if q >= TWO_64 {
      MulMonotone(TWO_64, q, d);
    }
  }

  lemma QuotientFits(current: nat, d: u64, hi: nat, lo: u64)
    requires hi < d && current == hi * TWO_64 + lo
    ensures 0 <= current / d < TWO_64
    ensures 0 <= current % d < d
    ensures current == (current / d) * d + current % d
  {
    DivFacts(current, d);
    QuotientBelow(current / d, current % d, d, hi, lo);
  }

  lemma DivStep(high: int, quotient: int, d: int, rem: int, limb: int, q: int, r: int)
    requires high == quotient * d + rem
    requires rem * TWO_64 + limb == q * d + r
    ensures limb + TWO_64 * high == (q + TWO_64 * quotient) * d + r
  {
    MulDistributive(d, q, TWO_64 * quotient);
    MulAssociative(TWO_64, quotient, d);
  }

  /** The limbs divided so far, from the high end, with the pending remainder. */
  ghost predicate PartialQuotient(high: seq<u64>, quotient: seq<u64>, d: u64, rem: int)
  {
    LimbValue(high) == LimbValue(quotient) * d + rem
  }

  lemma QuotientPush(limb: u64, high: seq<u64>, quotient: seq<u64>, d: u64, rem: u64, q: u64, r: u64)
    requires PartialQuotient(high, quotient, d, rem)
    requires rem * TWO_64 + limb == q * d + r
    ensures PartialQuotient([limb] + high, [q] + quotient, d, r)
  {
    LimbCons(limb, high);
    LimbCons(q, quotient);
    DivStep(LimbValue(high), LimbValue(quotient), d, rem, limb, q, r);
  }

  /** Neither the 128-bit intermediate nor the two narrowing casts of `div_rem_small` lose anything. */
  lemma DivisionFits(rem: u64, limb: u64, d: u64)
    requires rem < d
    ensures var current := rem * TWO_64 + limb;
      && 0 <= current < TWO_128
      && 0 <= current / d < TWO_64 && (current / d) % TWO_64 == current / d
      && 0 <= current % d < d && current == (current / d) * d + current % d
  {
    var current := rem * TWO_64 + limb;
    QuotientFits(current, d, rem, limb);
    ProductFits(rem, TWO_64 - 1, rem);
    assert current <= rem * TWO_64 + TWO_64 - 1 < TWO_128;
  }

  lemma LimbCons(x: u64, s: seq<u64>)
    ensures LimbValue([x] + s) == x + TWO_64 * LimbValue(s)
  {
    assert ([x] + s)[1..] == s;
  }

  /** Divides in place and returns the remainder; neither narrowing cast discards anything. */
  method DivRemSmall(limbs: array<u64>, divisor: u64) returns (rem: u64)
    requires limbs.Length == 4 && 0 < divisor
    modifies limbs
    ensures rem < divisor
    ensures old(LimbValue(limbs[..])) == LimbValue(limbs[..]) * divisor + rem
  {
    ghost var before: seq<u64> := limbs[..];
    var remainder: u128 := 0;
    for i := 4 downto 0
      invariant remainder < divisor
      invariant limbs[..i] == before[..i]
      invariant PartialQuotient(before[i..], limbs[i..], divisor, remainder)
    {
      ghost var quotient := limbs[i + 1..];
      assert limbs[..i + 1][i] == before[i];
      DivisionFits(remainder, limbs[i], divisor);
      var current: u128 := remainder * TWO_64 + limbs[i];
      QuotientPush(before[i], before[i + 1..], quotient, divisor, remainder, current / divisor, current % divisor);
      limbs[i] := (current / divisor) % TWO_64;
      remainder := current % divisor;
      assert before[i..] == [before[i]] + before[i + 1..];
      assert limbs[i..] == [limbs[i]] + quotient;
    }
    assert limbs[0..] == limbs[..] && before[0..] == before;
    rem := remainder % TWO_64;
  }

  /** `div_rem_small` undoes `mul_add_small`: the pair (x, a) is recovered from x * m + a. */
  method MulAddThenDivRem(limbs: array<u64>, m: u64, a: u64) returns (fits: bool, rem: u64)
    requires limbs.Length == 4 && a < m
    modifies limbs
    ensures fits <==> old(LimbValue(limbs[..])) * m + a < TWO_256
    ensures fits ==> limbs[..] == old(limbs[..]) && rem == a
  {
    ghost var before: seq<u64> := limbs[..];
    LimbBound(before);
    fits := MulAddSmall(limbs, m, a);
    FittingProduct(LimbValue(before), m, a);
    rem := DivRemSmall(limbs, m);
    if fits {
      Recovered(before, limbs[..], m, a, rem);
    }
  }

  lemma FittingProduct(x: nat, m: u64, a: u64)
    ensures x * m + a < TWO_256 ==> (x * m + a) % TWO_256 == x * m + a
  {
    MulMonotone(0, x, m);
  }

  lemma Recovered(before: seq<u64>, after: seq<u64>, m: u64, a: u64, rem: u64)
    requires |before| == |after| && a < m && rem < m
    requires LimbValue(before) * m + a == LimbValue(after) * m + rem
    ensures before == after && a == rem
  {
    SameDigitSameRest(a, LimbValue(before), rem, LimbValue(after), m);
    LeInjective(before, after, TWO_64);
  }

  // ---------- decimal text ----------

  predicate IsDigit(c: char)
  {
    '0' <= c <= '9'
  }

  predicate IsDecimal(text: string)
  {
    text != "" && forall i :: 0 <= i < |text| ==> IsDigit(text[i])
  }

  function DigitValue(c: char): (d: nat)
    requires IsDigit(c)
    ensures d < 10
  {
    c as int - '0' as int
  }

  function DigitChar(d: nat): (c: char)
    requires d < 10
    ensures IsDigit(c) && DigitValue(c) == d
  {
    ('0' as int + d) as char
  }

  /** The number a digit string denotes, however long and however padded. */
  function DecimalValue(text: string): nat
    requires forall i :: 0 <= i < |text| ==> IsDigit(text[i])
  {
    if text == "" then 0 else 10 * DecimalValue(text[..|text| - 1]) + DigitValue(text[|text| - 1])
  }

  /** The digits of `n` without leading zeros; empty for zero. */
  function DecimalDigits(n: nat): (s: string)
    ensures forall i :: 0 <= i < |s| ==> IsDigit(s[i])
    ensures s == "" <==> n == 0
  {
    if n == 0 then "" else DecimalDigits(n / 10) + [DigitChar(n % 10)]
  }

  function ParseDecimal(text: string): (r: Result<FieldElement>)
  {
    if !IsDecimal(text) then Err(InvalidFieldEncoding(NotDecimal))
    else if DecimalValue(text) >= TWO_256 then Err(InvalidFieldEncoding(DecimalOverflow))
    else if DecimalValue(text) >= MODULUS then Err(InvalidFieldEncoding(NotReduced))
    else Ok(OfValue(DecimalValue(text)))
  }

  function PrintDecimal(f: FieldElement): (s: string)
  {
    if Value(f) == 0 then "0" else DecimalDigits(Value(f))
  }

  function StripLeadingZeros(text: string): string
  {
    if |text| > 1 && text[0] == '0' then StripLeadingZeros(text[1..]) else text
  }

  lemma {:induction false} DecimalPrefix(text: string, i: nat)
    requires i <= |text| && forall k :: 0 <= k < |text| ==> IsDigit(text[k])
    ensures DecimalValue(text[..i]) <= DecimalValue(text)
  {
    if i < |text| {
      DecimalPrefix(text[..|text| - 1], i);
      assert text[..|text| - 1][..i] == text[..i];
    } else {
      assert text[..i] == text;
    }
  }

  lemma ZeroLimbs(limbs: seq<u64>)
    requires |limbs| == 4
    ensures LimbValue(limbs) == 0 <==> limbs == [0, 0, 0, 0]
  {
    var z: seq<u64> := [0, 0, 0, 0];
    assert z == seq(4, _ => 0);
    LeZeros(4, TWO_64);
    if LimbValue(limbs) == 0 {
      LeInjective(limbs, z, TWO_64);
    }
  }

  /** One more digit: the value grows tenfold, and an overflowing prefix makes the whole overflow. */
  lemma PushDigit(text: string, i: nat, v: int)
    requires i < |text| && forall k :: 0 <= k < |text| ==> IsDigit(text[k])
    requires DecimalValue(text[..i]) == v
    ensures v * 10 + DigitValue(text[i]) == DecimalValue(text[..i + 1]) <= DecimalValue(text)
  {
    assert text[..i + 1][..i] == text[..i];
    DecimalPrefix(text, i + 1);
  }

  lemma FromBeBytesByValue(bytes: seq<byte>)
    requires |bytes| == FIELD_BYTES
    ensures 0 <= BeVal(bytes, 256) < TWO_256
    ensures FromBeBytes(bytes) ==
      if BeVal(bytes, 256) >= MODULUS then Err(InvalidFieldEncoding(NotReduced)) else Ok(OfValue(BeVal(bytes, 256)))
  {
    ReducedIffBelowModulus(bytes);
    BeValueBytes(bytes);
  }

  lemma ParsedBytes(text: string, bytes: seq<byte>)
    requires IsDecimal(text) && |bytes| == FIELD_BYTES && BeVal(bytes, 256) == DecimalValue(text)
    ensures FromBeBytes(bytes) == ParseDecimal(text)
  {
    FromBeBytesByValue(bytes);
  }

  /** One more digit either keeps the limbs exact or decides that the whole text overflows. */
  lemma DigitConsumed(text: string, i: nat, before: nat, after: int)
    requires IsDecimal(text) && i < |text| && before == DecimalValue(text[..i])
    requires after == (before * 10 + DigitValue(text[i])) % TWO_256
    ensures before * 10 + DigitValue(text[i]) < TWO_256 ==> after == DecimalValue(text[..i + 1])
    ensures before * 10 + DigitValue(text[i]) >= TWO_256 ==>
      ParseDecimal(text) == Err(InvalidFieldEncoding(DecimalOverflow))
  {
    PushDigit(text, i, before);
    FittingProduct(before, 10, DigitValue(text[i]));
  }

  /**
   Parses decimal text digit by digit. The per-prefix overflow test coincides with overflow of
   the whole number, and the byte comparison with the modulus with numeric comparison.
   */
  method FromDecimalStr(text: string) returns (r: Result<FieldElement>)
    ensures r == ParseDecimal(text)
  {
    if !IsDecimal(text) {
      return Err(InvalidFieldEncoding(NotDecimal));
    }
    var limbs := new u64[4](_ => 0);
    ZeroLimbs(limbs[..]);
    for i := 0 to |text|
      invariant LimbValue(limbs[..]) == DecimalValue(text[..i])
    {
      ghost var value := LimbValue(limbs[..]);
      var ok := MulAddSmall(limbs, 10, DigitValue(text[i]));
      DigitConsumed(text, i, value, LimbValue(limbs[..]));
      if !ok {
        return Err(InvalidFieldEncoding(DecimalOverflow));
      }
    }
    assert text[..|text|] == text;
    var bytes := LimbsToBeBytes(limbs);
    ParsedBytes(text, bytes);
    r := FromBeBytes(bytes);
  }

  function Reversed(s: string): (r: string)
    ensures |r| == |s|
  {
    if s == "" then "" else Reversed(s[1..]) + [s[0]]
  }

  lemma {:induction false} ReversedPush(s: string, c: char)
    ensures Reversed(s + [c]) == [c] + Reversed(s)
  {
    if s == "" {
    } else {
      assert (s + [c])[1..] == s[1..] + [c];
      ReversedPush(s[1..], c);
    }
  }

  lemma PrintStep(n: nat, q: nat, r: nat, digits: string)
    requires 0 < n == q * 10 + r && r < 10
    ensures DecimalDigits(n) + Reversed(digits) == DecimalDigits(q) + Reversed(digits + [DigitChar(r)])
    ensures q < n
  {
    assert n / 10 == q && n % 10 == r;
    ReversedPush(digits, DigitChar(r));
  }

  /** Prints by repeated division; the limb value strictly falls, so the loop ends. */
  method ToDecimalString(f: FieldElement) returns (text: string)
    ensures text == PrintDecimal(f)
  {
    var limbs := BeBytesToLimbs(f);
    ZeroLimbs(limbs[..]);
    if limbs[..] == [0, 0, 0, 0] {
      return "0";
    }
    var digits := "";
    LimbBound(limbs[..]);
    while limbs[..] != [0, 0, 0, 0]
      invariant limbs.Length == 4 && fresh(limbs)
      invariant 0 <= LimbValue(limbs[..])
      invariant DecimalDigits(Value(f)) == DecimalDigits(LimbValue(limbs[..])) + Reversed(digits)
      decreases LimbValue(limbs[..])
    {
      ghost var n := LimbValue(limbs[..]);
      ZeroLimbs(limbs[..]);
      var remainder := DivRemSmall(limbs, 10);
      LimbBound(limbs[..]);
      PrintStep(n, LimbValue(limbs[..]), remainder, digits);
      digits := digits + [DigitChar(remainder)];
    }
    ZeroLimbs(limbs[..]);
    assert DecimalDigits(0) == "";
    text := Reversed(digits);
  }

  // ---------- bytes to limbs and back ----------

  lemma {:induction false} LimbPowerInBytes(i: nat)
    ensures Pow(256, 8 * i) == Pow(TWO_64, i)
  {
    PowersOf256();
    if i == 0 {
    } else {
      LimbPowerInBytes(i - 1);
      PowAdd(256, 8, 8 * (i - 1));
    }
  }

  /** Prepending an eight-byte chunk on the big end pushes one limb on the high end. */
  lemma ChunkIsLimb(chunk: seq<byte>, rest: seq<byte>, limbs: seq<u64>, limb: u64)
    requires |chunk| == 8 && BeVal(chunk, 256) == limb
    requires |rest| == 8 * |limbs| && BeVal(rest, 256) == LimbValue(limbs)
    ensures BeVal(chunk + rest, 256) == LimbValue(limbs + [limb])
  {
    BeAppend(chunk, rest, 256);
    LimbPowerInBytes(|limbs|);
    LimbPush(limbs, limb);
    var p := Pow(TWO_64, |limbs|);
    assert Pow(256, |rest|) == p;
    assert BeVal(chunk, 256) * p == p * limb;
  }

  lemma ChunkFits(chunk: seq<byte>)
    requires |chunk| == 8
    ensures 0 <= BeVal(chunk, 256) < TWO_64
  {
    BeBound(chunk, 256);
    PowersOf256();
  }

  /** The bytes from `start` on are one chunk and the bytes of the limbs read so far. */
  lemma ChunkStep(bytes: seq<byte>, start: nat, limbs: seq<u64>, limb: u64)
    requires start + 8 + 8 * |limbs| == |bytes|
    requires BeVal(bytes[start + 8..], 256) == LimbValue(limbs) && BeVal(bytes[start..start + 8], 256) == limb
    ensures BeVal(bytes[start..], 256) == LimbValue(limbs + [limb])
  {
    ChunkIsLimb(bytes[start..start + 8], bytes[start + 8..], limbs, limb);
    assert bytes[start..] == bytes[start..start + 8] + bytes[start + 8..];
  }

  method BeBytesToLimbs(bytes: seq<byte>) returns (limbs: array<u64>)
    requires |bytes| == FIELD_BYTES
    ensures fresh(limbs) && limbs.Length == 4
    ensures LimbValue(limbs[..]) == BeVal(bytes, 256)
  {
    limbs := new u64[4](_ => 0);
    assert bytes[32..] == [];
    for index := 0 to 4
      invariant LimbValue(limbs[..index]) == BeVal(bytes[32 - 8 * index..], 256)
    {
      var start := FIELD_BYTES - 8 * (index + 1);
      var chunk := bytes[start..start + 8];
      ChunkFits(chunk);
      limbs[index] := BeVal(chunk, 256);
      ChunkStep(bytes, start, limbs[..index], limbs[index]);
      assert limbs[..index + 1] == limbs[..index] + [limbs[index]];
    }
    assert bytes[0..] == bytes && limbs[..4] == limbs[..];
  }

  function U64ToBeBytes(x: u64): (s: seq<byte>)
    ensures |s| == 8 && BeVal(s, 256) == x
  {
    PowersOf256();
    BeBytesValue(x, 8);
    BeBytes(x, 8)
  }

  /** `copy_from_slice` into the window of a buffer starting at `start`. */
  method CopyChunk(buffer: array<byte>, start: nat, chunk: seq<byte>)
    requires start + |chunk| <= buffer.Length
    modifies buffer
    ensures buffer[..start] == old(buffer[..start])
    ensures buffer[start..] == chunk + old(buffer[start + |chunk|..])
  {
    forall k | 0 <= k < |chunk| {
      buffer[start + k] := chunk[k];
    }
  }

  method LimbsToBeBytes(limbs: array<u64>) returns (bytes: seq<byte>)
    requires limbs.Length == 4
    ensures |bytes| == FIELD_BYTES && BeVal(bytes, 256) == LimbValue(limbs[..])
  {
    var buffer := new byte[32](_ => 0);
    ghost var written: seq<byte> := [];
    for index := 0 to 4
      invariant |written| == 8 * index && buffer[32 - |written|..] == written
      invariant BeVal(written, 256) == LimbValue(limbs[..index])
    {
      var start := FIELD_BYTES - 8 * (index + 1);
      var chunk := U64ToBeBytes(limbs[index]);
      ChunkIsLimb(chunk, written, limbs[..index], limbs[index]);
      CopyChunk(buffer, start, chunk);
      written := chunk + written;
      assert limbs[..index + 1] == limbs[..index] + [limbs[index]];
    }
    assert buffer[..] == buffer[0..] == written && limbs[..4] == limbs[..];
    bytes := buffer[..];
  }
}
