/**
 Lossless limb encodings of the 32-byte AssetBase and the 43-byte Orchard receiver.
 Sources: crates/commitments/src/{asset_base,receiver}.rs circuits/shared/trade-commitment-v1.js,
 circuits/shared/eligibility-v1.js.
 */
module Encoding {
  import opened Machine
  import opened Positional
  import opened Protocol
  import opened Hex
  import FieldElement

  const RECEIVER_LIMB2_BITS: u32 := 88
  const RECEIVER_LIMB2_MAX: u128 := 0xFFFF_FFFF_FFFF_FFFF_FFFF_FF

  datatype AssetLimbs = AssetLimbs(hi: u128, lo: u128)

  datatype RawReceiverLimbs = ReceiverLimbs(limb0: u128, limb1: u128, limb2: u128)

  /** Construction enforces the circuit's bound on the third limb. */
  type ReceiverLimbs = l: RawReceiverLimbs | l.limb2 <= RECEIVER_LIMB2_MAX witness ReceiverLimbs(0, 0, 0)

  function NewReceiverLimbs(limb0: u128, limb1: u128, limb2: u128): Result<ReceiverLimbs>
  {
    if limb2 > RECEIVER_LIMB2_MAX then Err(LimbOutOfRange(RECEIVER_LIMB2_BITS))
    else Ok(ReceiverLimbs(limb0, limb1, limb2))
  }

  // ---------- little-endian chunks ----------

  /** The number a chunk of at most 16 bytes denotes. */
  function Le(bytes: seq<byte>): (v: u128)
    requires |bytes| <= 16
  {
    ChunkBound(bytes);
    LeVal(bytes, 256)
  }

  lemma ChunkBound(bytes: seq<byte>)
    requires |bytes| <= 16
    ensures 0 <= LeVal(bytes, 256) < TWO_128
    ensures |bytes| == 11 ==> LeVal(bytes, 256) <= RECEIVER_LIMB2_MAX
  {
    LeBound(bytes, 256);
    PowersOf256();
    PowMonotone(256, |bytes|, 16);
  }

  lemma ChunkRoundTrip(bytes: seq<byte>, len: nat)
    requires |bytes| == len <= 16
    ensures LeBytes(Le(bytes), len) == bytes
  {
    LeValueBytes(bytes);
  }

  /** Copies up to 16 bytes into a zeroed buffer and reads it back as a little-endian integer. */
  method LittleEndianU128(bytes: seq<byte>) returns (v: u128)
    ensures |bytes| <= 16 ==> v == Le(bytes)
    ensures |bytes| > 16 ==> v == Le(bytes[..16])
  {
    var padded := new byte[16](_ => 0);
    var width := if |bytes| < 16 then |bytes| else 16;
    ghost var zeros := padded[width..];
    assert zeros == seq(16 - width, _ => 0);
    FieldElement.CopyChunk(padded, 0, bytes[..width]);
    assert padded[..] == padded[0..] == bytes[..width] + zeros;
    LePad(bytes[..width], 16 - width, 256);
    ChunkBound(bytes[..width]);
    assert |bytes| <= 16 ==> bytes[..width] == bytes;
    v := LeVal(padded[..], 256);
  }

  // ---------- AssetBase ----------

  function EncodeAssetBase(asset: AssetBase): AssetLimbs
  {
    AssetLimbs(Le(asset[16..]), Le(asset[..16]))
  }

  function AssetBaseOf(limbs: AssetLimbs): AssetBase
  {
    LeBytes(limbs.lo, 16) + LeBytes(limbs.hi, 16)
  }

  method DecodeAssetBase(limbs: AssetLimbs) returns (asset: AssetBase)
    ensures asset == AssetBaseOf(limbs)
  {
    var bytes := new byte[32](_ => 0);
    FieldElement.CopyChunk(bytes, 0, LeBytes(limbs.lo, 16));
    ghost var low := bytes[..16];
    assert bytes[..] == bytes[0..];
    assert low == LeBytes(limbs.lo, 16);
    FieldElement.CopyChunk(bytes, 16, LeBytes(limbs.hi, 16));
    assert bytes[..] == bytes[..16] + bytes[16..];
    asset := bytes[..];
  }

  /** Any pair of 128-bit limbs describes one encoding, and every encoding has one pair of limbs. */
  lemma AssetRoundTrip(asset: AssetBase, limbs: AssetLimbs)
    ensures AssetBaseOf(EncodeAssetBase(asset)) == asset
    ensures EncodeAssetBase(AssetBaseOf(limbs)) == limbs
  {
    ChunkRoundTrip(asset[..16], 16);
    ChunkRoundTrip(asset[16..], 16);
    assert asset == asset[..16] + asset[16..];
    PowersOf256();
    LeBytesValue(limbs.lo, 16);
    LeBytesValue(limbs.hi, 16);
    assert AssetBaseOf(limbs)[..16] == LeBytes(limbs.lo, 16);
    assert AssetBaseOf(limbs)[16..] == LeBytes(limbs.hi, 16);
  }

  // ---------- Orchard receiver ----------

  function EncodeReceiver(receiver: Receiver): ReceiverLimbs
  {
    ChunkBound(receiver[32..]);
    ReceiverLimbs(Le(receiver[..16]), Le(receiver[16..32]), Le(receiver[32..]))
  }

  function ReceiverOf(limbs: ReceiverLimbs): Receiver
  {
    LeBytes(limbs.limb0, 16) + LeBytes(limbs.limb1, 16) + LeBytes(limbs.limb2, 11)
  }

  lemma {:induction false} LeBytesPrefix(v: nat, len: nat, k: nat)
    requires k <= len
    ensures LeBytes(v, len)[..k] == LeBytes(v, k)
  {
    if k == 0 {
    } else {
      LeBytesPrefix(v / 256, len - 1, k - 1);
      assert LeBytes(v, len)[1..][..k - 1] == LeBytes(v, len)[..k][1..];
    }
  }

  /** Writes the third limb from the low 11 of its 16 bytes; the bound on the limb makes that lossless. */
  method DecodeReceiver(limbs: ReceiverLimbs) returns (receiver: Receiver)
    ensures receiver == ReceiverOf(limbs)
  {
    var bytes := new byte[43](_ => 0);
    FieldElement.CopyChunk(bytes, 0, LeBytes(limbs.limb0, 16));
    assert bytes[..16] == LeBytes(limbs.limb0, 16) by { assert bytes[0..] == bytes[..]; }
    FieldElement.CopyChunk(bytes, 16, LeBytes(limbs.limb1, 16));
    assert bytes[..32] == LeBytes(limbs.limb0, 16) + LeBytes(limbs.limb1, 16) by {
      assert bytes[..32] == bytes[..16] + bytes[16..][..16];
    }
    var narrow := LeBytes(limbs.limb2, 16);
    LeBytesPrefix(limbs.limb2, 16, 11);
    FieldElement.CopyChunk(bytes, 32, narrow[..11]);
    assert bytes[..] == bytes[..32] + bytes[32..];
    receiver := bytes[..];
  }

  lemma ReceiverEncodeDecode(receiver: Receiver)
    ensures ReceiverOf(EncodeReceiver(receiver)) == receiver
  {
    ReceiverChunks(receiver, receiver[..16], receiver[16..32], receiver[32..]);
  }

  lemma ReceiverChunks(receiver: Receiver, first: seq<byte>, second: seq<byte>, third: seq<byte>)
    requires |first| == |second| == 16 && |third| == 11
    requires first == receiver[..16] && second == receiver[16..32] && third == receiver[32..]
    ensures receiver == LeBytes(Le(first), 16) + LeBytes(Le(second), 16) + LeBytes(Le(third), 11)
  {
    Join(receiver, 16, 32);
    ChunkRoundTrip(first, 16);
    ChunkRoundTrip(second, 16);
    ChunkRoundTrip(third, 11);
  }

  lemma Join(s: seq<byte>, i: nat, j: nat)
    requires i <= j <= |s|
    ensures s == s[..i] + s[i..j] + s[j..]
  {
  }

  lemma ReceiverDecodeEncode(limbs: ReceiverLimbs)
    ensures EncodeReceiver(ReceiverOf(limbs)) == limbs
  {
    PowersOf256();
    LeBytesValue(limbs.limb0, 16);
    LeBytesValue(limbs.limb1, 16);
    LeBytesValue(limbs.limb2, 11);
    var r := ReceiverOf(limbs);
    assert r[..16] == LeBytes(limbs.limb0, 16);
    assert r[16..32] == LeBytes(limbs.limb1, 16);
    assert r[32..] == LeBytes(limbs.limb2, 11);
  }

  /** Receivers and in-range limb triples correspond one to one. */
  lemma ReceiverRoundTrip(receiver: Receiver, limbs: ReceiverLimbs)
    ensures ReceiverOf(EncodeReceiver(receiver)) == receiver
    ensures EncodeReceiver(ReceiverOf(limbs)) == limbs
  {
    ReceiverEncodeDecode(receiver);
    ReceiverDecodeEncode(limbs);
  }

  /** A third limb over 88 bits is refused; it would not survive an 11-byte encoding. */
  lemma ReceiverLimbBoundIsNeeded(limb0: u128, limb1: u128, limb2: u128)
    ensures NewReceiverLimbs(limb0, limb1, limb2).Ok? <==> LeVal(LeBytes(limb2, 11), 256) == limb2
    ensures NewReceiverLimbs(limb0, limb1, limb2) ==
      if limb2 < 0x1_0000_0000_0000_0000_0000_00 then Ok(ReceiverLimbs(limb0, limb1, limb2))
      else Err(LimbOutOfRange(88))
  {
    PowersOf256();
    LeBound(LeBytes(limb2, 11), 256);
    if limb2 <= RECEIVER_LIMB2_MAX {
      LeBytesValue(limb2, 11);
    }
  }

  // ---------- the JavaScript codecs ----------

  function AssetIdToLimbs(hex: string): Js<AssetLimbs>
  {
    if !IsHex(hex) || |hex| != 64 then
      Throws("canonical AssetBase encoding must be exactly 32 bytes of hexadecimal")
    else
      var bytes := HexBytes(hex);
      var lo, hi := Le(bytes[..16]), Le(bytes[16..]);
      Returned(AssetLimbs(hi, lo))
  }

  function LimbsToAssetId(hi: int, lo: int): Js<string>
  {
    if hi < 0 || hi >= TWO_128 || lo < 0 || lo >= TWO_128 then
      Throws("AssetBase limbs must be unsigned 128-bit integers")
    else
      Returned(HexText(LeBytes(lo, 16) + LeBytes(hi, 16)))
  }

  function ReceiverToLimbs(hex: string): Js<ReceiverLimbs>
  {
    if !IsHex(hex) || |hex| != 86 then
      Throws("Orchard raw payment address must be exactly 43 bytes of hexadecimal")
    else
      var bytes := HexBytes(hex);
      ChunkBound(bytes[32..]);
      var limbs: ReceiverLimbs := ReceiverLimbs(Le(bytes[..16]), Le(bytes[16..32]), Le(bytes[32..]));
      Returned(limbs)
  }

  function LimbsToReceiver(limb0: int, limb1: int, limb2: int): Js<string>
  {
    if limb0 < 0 || limb0 >= TWO_128 || limb1 < 0 || limb1 >= TWO_128 || limb2 < 0 || limb2 > RECEIVER_LIMB2_MAX then
      Throws("receiver limbs exceed 128/128/88-bit bounds")
    else
      Returned(HexText(LeBytes(limb0, 16) + LeBytes(limb1, 16) + LeBytes(limb2, 11)))
  }

  /** Text that both implementations take for an AssetBase denotes the same limbs in both. */
  lemma AssetIdIsEncoding(hex: string)
    requires IsHex(hex) && |hex| == 64
    ensures AssetIdToLimbs(hex) == Returned(EncodeAssetBase(HexBytes(hex)))
  {
  }

  lemma AssetIdIsDecoding(limbs: AssetLimbs)
    ensures LimbsToAssetId(limbs.hi, limbs.lo) == Returned(HexText(AssetBaseOf(limbs)))
  {
  }

  lemma ReceiverHexIsDecoding(limbs: ReceiverLimbs)
    ensures LimbsToReceiver(limbs.limb0, limbs.limb1, limbs.limb2) == Returned(HexText(ReceiverOf(limbs)))
  {
  }

  lemma ReceiverHexIsEncoding(hex: string)
    requires IsHex(hex) && |hex| == 86
    ensures ReceiverToLimbs(hex) == Returned(EncodeReceiver(HexBytes(hex)))
  {
  }

  /**
   The JavaScript AssetBase codecs throw exactly on text that is not 32 hexadecimal bytes and on
   limbs out of range, and otherwise invert each other up to the case of the digits.
   */
  lemma JsAssetCodecs(hex: string, hi: int, lo: int)
    ensures AssetIdToLimbs(hex).Returned? <==> IsHex(hex) && |hex| == 64
    ensures AssetIdToLimbs(hex).Returned? ==>
      var l := AssetIdToLimbs(hex).value; LimbsToAssetId(l.hi, l.lo) == Returned(Lower(hex))
    ensures LimbsToAssetId(hi, lo).Returned? <==> 0 <= hi < TWO_128 && 0 <= lo < TWO_128
    ensures LimbsToAssetId(hi, lo).Returned? ==>
      AssetIdToLimbs(LimbsToAssetId(hi, lo).value) == Returned(AssetLimbs(hi, lo))
  {
    if IsHex(hex) && |hex| == 64 {
      AssetIdRead(hex);
    }
    if LimbsToAssetId(hi, lo).Returned? {
      AssetIdWritten(AssetLimbs(hi, lo));
    }
  }

  lemma AssetIdRead(hex: string)
    requires IsHex(hex) && |hex| == 64
    ensures AssetIdToLimbs(hex).Returned?
    ensures var l := AssetIdToLimbs(hex).value; LimbsToAssetId(l.hi, l.lo) == Returned(Lower(hex))
  {
    var asset, limbs := HexBytes(hex), EncodeAssetBase(HexBytes(hex));
    AssetIdIsEncoding(hex);
    AssetIdIsDecoding(limbs);
    AssetRoundTrip(asset, limbs);
    WriteRead(hex);
  }

  lemma AssetIdWritten(limbs: AssetLimbs)
    ensures LimbsToAssetId(limbs.hi, limbs.lo).Returned?
    ensures AssetIdToLimbs(LimbsToAssetId(limbs.hi, limbs.lo).value) == Returned(limbs)
  {
    var asset := AssetBaseOf(limbs);
    AssetIdIsDecoding(limbs);
    ReadWritten(asset);
    AssetIdIsEncoding(HexText(asset));
    AssetRoundTrip(asset, limbs);
  }

  /** The same for the receiver codecs and their 128/128/88-bit bounds. */
  lemma JsReceiverCodecs(hex: string, limb0: int, limb1: int, limb2: int)
    ensures ReceiverToLimbs(hex).Returned? <==> IsHex(hex) && |hex| == 86
    ensures ReceiverToLimbs(hex).Returned? ==>
      var l := ReceiverToLimbs(hex).value; LimbsToReceiver(l.limb0, l.limb1, l.limb2) == Returned(Lower(hex))
    ensures LimbsToReceiver(limb0, limb1, limb2).Returned? <==>
      0 <= limb0 < TWO_128 && 0 <= limb1 < TWO_128 && 0 <= limb2 <= RECEIVER_LIMB2_MAX
    ensures LimbsToReceiver(limb0, limb1, limb2).Returned? ==>
      ReceiverToLimbs(LimbsToReceiver(limb0, limb1, limb2).value) == Returned(ReceiverLimbs(limb0, limb1, limb2))
  {
    if IsHex(hex) && |hex| == 86 {
      ReceiverHexRead(hex);
    }
    if LimbsToReceiver(limb0, limb1, limb2).Returned? {
      ReceiverHexWritten(ReceiverLimbs(limb0, limb1, limb2));
    }
  }

  lemma ReceiverHexRead(hex: string)
    requires IsHex(hex) && |hex| == 86
    ensures ReceiverToLimbs(hex).Returned?
    ensures var l := ReceiverToLimbs(hex).value; LimbsToReceiver(l.limb0, l.limb1, l.limb2) == Returned(Lower(hex))
  {
    var receiver, limbs := HexBytes(hex), EncodeReceiver(HexBytes(hex));
    ReceiverHexIsEncoding(hex);
    ReceiverHexIsDecoding(limbs);
    ReceiverEncodeDecode(receiver);
    WriteRead(hex);
  }

  lemma ReceiverHexWritten(limbs: ReceiverLimbs)
    ensures LimbsToReceiver(limbs.limb0, limbs.limb1, limbs.limb2).Returned?
    ensures ReceiverToLimbs(LimbsToReceiver(limbs.limb0, limbs.limb1, limbs.limb2).value) == Returned(limbs)
  {
    var receiver := ReceiverOf(limbs);
    ReceiverHexIsDecoding(limbs);
    ReadWritten(receiver);
    ReceiverHexIsEncoding(HexText(receiver));
    ReceiverDecodeEncode(limbs);
  }
}
