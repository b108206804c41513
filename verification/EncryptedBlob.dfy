/**
 `EncryptedData` and its flat form (src/crypto/crypto.cpp): three 32-bit sizes, then
 initialisation vector, tag and ciphertext.

 The decoder adds the sizes in 32 bits but only requires twelve bytes. `DecodeBlobCases` says for
 every buffer which of three things happens, and `BlobIff` that on buffers of at least forty bytes
 the decoder is the exact inverse of the encoder.
 */
module EncryptedBlob {
  import opened Machine
  import opened Buffers

  const AES_IV_SIZE: nat := 12
  const AES_TAG_SIZE: nat := 16

  /** Twelve bytes of sizes, the vector and the tag. */
  const OVERHEAD: nat := 40

  type Iv = s: Bytes | |s| == 12 witness seq(12, _ => 0)
  type Tag = s: Bytes | |s| == 16 witness seq(16, _ => 0)

  datatype EncryptedData = EncryptedData(ciphertext: Bytes, iv: Iv, tag: Tag)

  /** What `EncryptedData::Deserialize` does; in the last case its copies leave the buffer. */
  datatype BlobResult = Rejected | Decoded(blob: EncryptedData) | CopiesPastEnd

  function EncodeBlob(e: EncryptedData): (bytes: Bytes)
    ensures |bytes| == OVERHEAD + |e.ciphertext|
  {
    ToBytes(|e.iv|, 4) + ToBytes(|e.tag|, 4) + ToBytes(|e.ciphertext| % TWO_32, 4) +
    e.iv + e.tag + e.ciphertext
  }

  function SizesAt(data: Bytes): (nat, nat, nat)
    requires 12 <= |data|
  {
    (FromBytes(data[0..4]), FromBytes(data[4..8]), FromBytes(data[8..12]))
  }

  function DecodeBlob(data: Bytes): BlobResult {
    if |data| < 12 then Rejected
    else
      var (ivSize, tagSize, ctSize) := SizesAt(data);
      if ivSize != AES_IV_SIZE || tagSize != AES_TAG_SIZE then Rejected
      else if |data| != (12 + ivSize + tagSize + ctSize) % TWO_32 then Rejected
      else if |data| < OVERHEAD then CopiesPastEnd
      else Decoded(EncryptedData(data[40..], data[12..24], data[24..40]))
  }

  method SerializeBlob(e: EncryptedData) returns (result: Bytes)
    ensures result == EncodeBlob(e)
  {
    hide ToBytes;
    var ivSize: uint32 := |e.iv|;
    var tagSize: uint32 := |e.tag|;
    var ctSize: uint32 := |e.ciphertext| % TWO_32;
    var vec := new ByteVector();
    vec.WriteUInt32(ivSize);
    vec.WriteUInt32(tagSize);
    vec.WriteUInt32(ctSize);
    vec.Insert(e.iv);
    vec.Insert(e.tag);
    vec.Insert(e.ciphertext);
    return vec.bytes;
  }

  method DeserializeBlob(data: Bytes) returns (out: BlobResult)
    ensures out == DecodeBlob(data)
  {
    if |data| < 12 {
      return Rejected;
    }
    var ivSize := FromBytes(data[0..4]);
    var tagSize := FromBytes(data[4..8]);
    var ctSize := FromBytes(data[8..12]);
    if ivSize != AES_IV_SIZE || tagSize != AES_TAG_SIZE {
      return Rejected;
    }
    if |data| != (12 + ivSize + tagSize + ctSize) % TWO_32 {
      return Rejected;
    }
    var offset := 12;
    if offset + AES_IV_SIZE > |data| {
      return CopiesPastEnd;
    }
    var iv := data[offset..offset + AES_IV_SIZE];
    offset := offset + AES_IV_SIZE;
    if offset + AES_TAG_SIZE > |data| {
      return CopiesPastEnd;
    }
    var tag := data[offset..offset + AES_TAG_SIZE];
    offset := offset + AES_TAG_SIZE;
    return Decoded(EncryptedData(data[offset..], iv, tag));
  }

  // ---- Laws ----------------------------------------------------------------------------

  lemma BlobParts(e: EncryptedData)
    ensures var d := EncodeBlob(e);
            d[0..4] == ToBytes(12, 4) && d[4..8] == ToBytes(16, 4) &&
            d[8..12] == ToBytes(|e.ciphertext| % TWO_32, 4) &&
            d[12..24] == e.iv && d[24..40] == e.tag && d[40..] == e.ciphertext
  {
    hide ToBytes;
  }

  lemma SizesOfEncoding(e: EncryptedData)
    ensures SizesAt(EncodeBlob(e)) == (12, 16, |e.ciphertext| % TWO_32)
  {
    hide ToBytes, FromBytes, EncodeBlob;
    BlobParts(e);
    ValuesOfWidths();
    WriteThenRead(12, 4);
    WriteThenRead(16, 4);
    WriteThenRead(|e.ciphertext| % TWO_32, 4);
  }

  lemma Rejoin(d: Bytes)
    requires 40 <= |d|
    ensures d == d[0..4] + d[4..8] + d[8..12] + d[12..24] + d[24..40] + d[40..]
  {}

  /** Decoding yields `e` exactly from the encoding of `e`, while it is shorter than 2^32 bytes. */
  lemma BlobIff(d: Bytes, e: EncryptedData)
    ensures DecodeBlob(d) == Decoded(e) <==> EncodeBlob(e) == d && |d| < TWO_32
  {
    hide ToBytes, FromBytes;
    BlobParts(e);
    SizesOfEncoding(e);
    if DecodeBlob(d) == Decoded(e) {
      ReadThenWrite(d[0..4]);
      ReadThenWrite(d[4..8]);
      ReadThenWrite(d[8..12]);
      Rejoin(d);
    }
  }

  /** The round trip holds exactly for ciphertexts of at most 2^32 - 41 bytes. */
  lemma BlobRoundTrip(e: EncryptedData)
    ensures DecodeBlob(EncodeBlob(e)) == Decoded(e) <==> |e.ciphertext| <= TWO_32 - 41
  {
    BlobIff(EncodeBlob(e), e);
    hide EncodeBlob, DecodeBlob;
  }

  /**
   On buffers of at least forty bytes the wrapped length check is exact below 2^32 and every copy
   stays inside; on shorter buffers a wrapped sum can match, and then the copies leave the buffer.
   */
  lemma DecodeBlobCases(d: Bytes)
    ensures DecodeBlob(d).Decoded? <==>
            40 <= |d| < TWO_32 && SizesAt(d) == (12, 16, |d| - 40)
    ensures DecodeBlob(d).CopiesPastEnd? <==>
            12 <= |d| < 40 && SizesAt(d) == (12, 16, TWO_32 + |d| - 40)
  {
    if 12 <= |d| {
      ValuesOfWidths();
      assert FromBytes(d[8..12]) < Values(4);
      hide FromBytes;
    }
  }

  /** A twelve-byte buffer whose sizes wrap: the length check passes and the copies leave it. */
  lemma WrappedSizesExample()
    ensures DecodeBlob(ToBytes(12, 4) + ToBytes(16, 4) + ToBytes(TWO_32 - 28, 4)).CopiesPastEnd?
  {
    hide ToBytes, FromBytes;
    var d := ToBytes(12, 4) + ToBytes(16, 4) + ToBytes(TWO_32 - 28, 4);
    assert d[0..4] == ToBytes(12, 4) && d[4..8] == ToBytes(16, 4) && d[8..12] == ToBytes(TWO_32 - 28, 4);
    ValuesOfWidths();
    WriteThenRead(12, 4);
    WriteThenRead(16, 4);
    WriteThenRead(TWO_32 - 28, 4);
  }
}
