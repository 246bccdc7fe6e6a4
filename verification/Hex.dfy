/**
 Hexadecimal text as the JavaScript schema reads and writes it: either case in, lower case out.
 Source: circuits/shared/trade-commitment-v1.js (assertHexBytes and its uses of Buffer).
 */
module Hex {
  import opened Machine

  predicate IsHexDigit(c: char)
  {
    '0' <= c <= '9' || 'a' <= c <= 'f' || 'A' <= c <= 'F'
  }

  /** Whole bytes of hexadecimal digits. */
  predicate IsHex(text: string)
  {
    |text| % 2 == 0 && forall i :: 0 <= i < |text| ==> IsHexDigit(text[i])
  }

  function DigitOf(c: char): (d: nat)
    requires IsHexDigit(c)
    ensures d < 16
  {
    if c <= '9' then c as int - '0' as int
    else if c <= 'F' then c as int - 'A' as int + 10
    else c as int - 'a' as int + 10
  }

  function CharOf(d: nat): (c: char)
    requires d < 16
    ensures IsHexDigit(c) && DigitOf(c) == d
  {
    if d < 10 then ('0' as int + d) as char else ('a' as int + d - 10) as char
  }

  function LowerChar(c: char): char
  {
    if 'A' <= c <= 'F' then (c as int + 32) as char else c
  }

  /** The digits of whole bytes in lower case. */
  function Lower(text: string): (r: string)
    requires |text| % 2 == 0
    ensures |r| == |text|
    decreases |text|
  {
    if text == "" then "" else [LowerChar(text[0]), LowerChar(text[1])] + Lower(text[2..])
  }

  function HexBytes(text: string): (bytes: seq<byte>)
    requires IsHex(text)
    ensures |bytes| == |text| / 2
    decreases |text|
  {
    if text == "" then [] else [16 * DigitOf(text[0]) + DigitOf(text[1])] + HexBytes(text[2..])
  }

  function HexText(bytes: seq<byte>): (text: string)
    ensures |text| == 2 * |bytes|
  {
    if bytes == [] then "" else [CharOf(bytes[0] / 16), CharOf(bytes[0] % 16)] + HexText(bytes[1..])
  }

  /** The value of each digit, from its ASCII code. */
  lemma DigitValues(c: char)
    requires IsHexDigit(c)
    ensures '0' <= c <= '9' ==> DigitOf(c) == c as int - 48
    ensures 'a' <= c <= 'f' ==> DigitOf(c) == c as int - 87
    ensures 'A' <= c <= 'F' ==> DigitOf(c) == c as int - 55
  {
  }

  /** Byte `i` is the two digits at 2 * i, the high half first. */
  lemma {:induction false} ByteAt(text: string, i: nat)
    requires IsHex(text) && 2 * i < |text|
    ensures HexBytes(text)[i] == 16 * DigitOf(text[2 * i]) + DigitOf(text[2 * i + 1])
    decreases i
  {
    if i == 0 {
    } else {
      ByteAt(text[2..], i - 1);
    }
  }

  /** Text is written with the high half of each byte first and without capital letters. */
  lemma {:induction false} WrittenAt(bytes: seq<byte>, i: nat)
    requires i < |bytes|
    ensures var high, low := HexText(bytes)[2 * i], HexText(bytes)[2 * i + 1];
      && IsHexDigit(high) && IsHexDigit(low) && !('A' <= high <= 'F') && !('A' <= low <= 'F')
      && bytes[i] == 16 * DigitOf(high) + DigitOf(low)
    decreases i
  {
    if i == 0 {
    } else {
      WrittenAt(bytes[1..], i - 1);
    }
  }

  lemma CharOfDigit(c: char)
    requires IsHexDigit(c)
    ensures CharOf(DigitOf(c)) == LowerChar(c)
  {
  }

  /** Reading what was written gives the bytes back. */
  lemma {:induction false} ReadWritten(bytes: seq<byte>)
    ensures IsHex(HexText(bytes)) && HexBytes(HexText(bytes)) == bytes
  {
    if bytes == [] {
    } else {
      ReadWritten(bytes[1..]);
      assert HexText(bytes)[2..] == HexText(bytes[1..]);
    }
  }

  /** Writing what was read gives the text back in lower case. */
  lemma {:induction false} WriteRead(text: string)
    requires IsHex(text)
    ensures HexText(HexBytes(text)) == Lower(text)
    decreases |text|
  {
    if text == "" {
    } else {
      var rest := text[2..];
      WriteRead(rest);
      CharOfDigit(text[0]);
      CharOfDigit(text[1]);
      WritePair(DigitOf(text[0]), DigitOf(text[1]), HexBytes(rest));
    }
  }

  lemma WritePair(a: nat, b: nat, bytes: seq<byte>)
    requires a < 16 && b < 16
    ensures HexText([16 * a + b] + bytes) == [CharOf(a), CharOf(b)] + HexText(bytes)
  {
    assert (16 * a + b) / 16 == a && (16 * a + b) % 16 == b;
    assert ([16 * a + b] + bytes)[1..] == bytes;
  }
}
