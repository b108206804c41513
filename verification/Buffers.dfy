/**
 The write and read helpers of src/core/protocol.cpp: a vector that grows at its end, and a
 cursor that moves over one. The host is little-endian, so `memcpy` of an integer is `ToBytes` and `FromBytes`.
 */
module Buffers {
  import opened Machine

  const MAX_STRING: nat := 1024 * 1024
  const MAX_BYTES: nat := 10 * 1024 * 1024

  /** A length-prefixed field; the length is truncated to 32 bits. */
  function EncodeField(field: Bytes): Bytes {
    ToBytes(|field| % TWO_32, 4) + field
  }

  /** The field that starts at `offset`, if it is complete and no longer than `limit`. */
  function FieldAt(data: Bytes, offset: nat, limit: nat): Option<Bytes> {
    if offset + 4 > |data| then None
    else
      var length := FromBytes(data[offset..offset + 4]);
      if length > limit then None
      else if offset + 4 + length > |data| then None
      else Some(data[offset + 4..offset + 4 + length])
  }

  class ByteVector {
    var bytes: Bytes

    constructor ()
      ensures bytes == []
    {
      bytes := [];
    }

    method WriteUInt32(value: uint32)
      modifies this
      ensures bytes == old(bytes) + ToBytes(value, 4)
    {
      bytes := bytes + ToBytes(value, 4);
    }

    method WriteUInt16(value: uint16)
      modifies this
      ensures bytes == old(bytes) + ToBytes(value, 2)
    {
      bytes := bytes + ToBytes(value, 2);
    }

    method WriteUInt8(value: uint8)
      modifies this
      ensures bytes == old(bytes) + [value]
    {
      bytes := bytes + [value];
    }

    method WriteUInt64(value: uint64)
      modifies this
      ensures bytes == old(bytes) + ToBytes(value, 8)
    {
      bytes := bytes + ToBytes(value, 8);
    }

    method Insert(more: Bytes)
      modifies this
      ensures bytes == old(bytes) + more
    {
      bytes := bytes + more;
    }

    method WriteString(str: Bytes)
      modifies this
      ensures bytes == old(bytes) + EncodeField(str)
    {
      var length := |str| % TWO_32;
      WriteUInt32(length);
      Insert(str);
    }

    method WriteBytes(data: Bytes)
      modifies this
      ensures bytes == old(bytes) + EncodeField(data)
    {
      var length := |data| % TWO_32;
      WriteUInt32(length);
      Insert(data);
    }
  }

  class Cursor {
    const data: Bytes
    var offset: nat

    constructor (data: Bytes)
      ensures this.data == data && offset == 0
    {
      this.data := data;
      offset := 0;
    }

    method ReadUInt32() returns (ok: bool, value: uint32)
      modifies this
      ensures ok <==> old(offset) + 4 <= |data|
      ensures ok ==> offset == old(offset) + 4 && value == FromBytes(data[old(offset)..offset])
      ensures !ok ==> offset == old(offset)
    {
      value := 0;
      if offset + 4 > |data| {
        return false, value;
      }
      ValuesOfWidths();
      value := FromBytes(data[offset..offset + 4]);
      offset := offset + 4;
      return true, value;
    }

    method ReadUInt16() returns (ok: bool, value: uint16)
      modifies this
      ensures ok <==> old(offset) + 2 <= |data|
      ensures ok ==> offset == old(offset) + 2 && value == FromBytes(data[old(offset)..offset])
      ensures !ok ==> offset == old(offset)
    {
      value := 0;
      if offset + 2 > |data| {
        return false, value;
      }
      ValuesOfWidths();
      value := FromBytes(data[offset..offset + 2]);
      offset := offset + 2;
      return true, value;
    }

    method ReadUInt8() returns (ok: bool, value: uint8)
      modifies this
      ensures ok <==> old(offset) < |data|
      ensures ok ==> offset == old(offset) + 1 && value == data[old(offset)]
      ensures !ok ==> offset == old(offset)
    {
      value := 0;
      if offset >= |data| {
        return false, value;
      }
      value := data[offset];
      offset := offset + 1;
      return true, value;
    }

    /** On failure the length may already have been consumed. */
    method ReadString() returns (ok: bool, str: Bytes)
      modifies this
      ensures var field := FieldAt(data, old(offset), MAX_STRING);
              if field.Some?
              then ok && str == field.value && offset == old(offset) + 4 + |str|
              else !ok && offset == old(offset) + if old(offset) + 4 <= |data| then 4 else 0
    {
      str := [];
      var read, length := ReadUInt32();
      if !read {
        return false, str;
      }
      if length > 1024 * 1024 {
        return false, str;
      }
      if offset + length > |data| {
        return false, str;
      }
      str := data[offset..offset + length];
      offset := offset + length;
      return true, str;
    }

    method ReadBytes() returns (ok: bool, field: Bytes)
      modifies this
      ensures var spec := FieldAt(data, old(offset), MAX_BYTES);
              if spec.Some?
              then ok && field == spec.value && offset == old(offset) + 4 + |field|
              else !ok && offset == old(offset) + if old(offset) + 4 <= |data| then 4 else 0
    {
      field := [];
      var read, length := ReadUInt32();
      if !read {
        return false, field;
      }
      if length > 10 * 1024 * 1024 {
        return false, field;
      }
      if offset + length > |data| {
        return false, field;
      }
      field := data[offset..offset + length];
      offset := offset + length;
      return true, field;
    }
  }

  // ---- The language of one field -------------------------------------------------------

  lemma FieldAtFindsEncoding(data: Bytes, offset: nat, limit: nat, field: Bytes)
    requires offset <= |data| && limit < TWO_32
    requires |field| <= limit && EncodeField(field) <= data[offset..]
    ensures FieldAt(data, offset, limit) == Some(field)
  {
    hide ToBytes, FromBytes, Values;
    ValuesOfWidths();
    WriteThenRead(|field|, 4);
    var prefix := ToBytes(|field|, 4);
    assert data[offset..offset + 4] == prefix by {
      assert EncodeField(field)[..4] == prefix;
    }
    assert data[offset + 4..offset + 4 + |field|] == field by {
      assert EncodeField(field)[4..] == field;
    }
  }

  lemma FieldAtIsEncoding(data: Bytes, offset: nat, limit: nat, field: Bytes)
    requires offset <= |data| && limit < TWO_32
    requires FieldAt(data, offset, limit) == Some(field)
    ensures |field| <= limit && EncodeField(field) <= data[offset..]
  {
    hide ToBytes, FromBytes, Values;
    var prefix := data[offset..offset + 4];
    ReadThenWrite(prefix);
    assert EncodeField(field) == prefix + field;
    hide EncodeField, FieldAt;
    assert field == data[offset + 4..offset + 4 + |field|];
    assert prefix + field == data[offset..offset + 4 + |field|];
    assert data[offset..] == data[offset..offset + 4 + |field|] + data[offset + 4 + |field|..];
  }

  /** A field is read from `offset` exactly when its encoding stands there and it is within the limit. */
  lemma FieldAtIff(data: Bytes, offset: nat, limit: nat, field: Bytes)
    requires offset <= |data| && limit < TWO_32
    ensures FieldAt(data, offset, limit) == Some(field) <==>
            |field| <= limit && EncodeField(field) <= data[offset..]
  {
    if FieldAt(data, offset, limit) == Some(field) {
      FieldAtIsEncoding(data, offset, limit, field);
    } else if |field| <= limit && EncodeField(field) <= data[offset..] {
      FieldAtFindsEncoding(data, offset, limit, field);
    }
  }
}
