/**
 The five payload formats of src/core/protocol.cpp.

 Each decoder is characterised by one lemma, `...Iff`: it returns `v` from `d` exactly when `v` is
 within the size limits and the encoding of `v` is a prefix of `d`. Hence a decoder accepts
 trailing bytes, at most one value fits, and decoding inverts encoding exactly within the limits.
 */
module Payloads {
  import opened Machine
  import opened Buffers

  datatype LoadModuleRequest = LoadModuleRequest(moduleData: Bytes)

  datatype LoadModuleResponse = LoadModuleResponse(moduleHandle: uint64)

  datatype InvokeFunctionRequest = InvokeFunctionRequest(moduleHandle: uint64, functionName: Bytes, params: Bytes)

  datatype StoreDataRequest = StoreDataRequest(key: Bytes, data: Bytes)

  datatype RetrieveDataRequest = RetrieveDataRequest(key: Bytes)

  // ---- Encodings -----------------------------------------------------------------------

  function EncodeLoad(v: LoadModuleRequest): Bytes {
    EncodeField(v.moduleData)
  }

  function EncodeLoadResponse(v: LoadModuleResponse): Bytes {
    ToBytes(v.moduleHandle, 8)
  }

  function EncodeInvoke(v: InvokeFunctionRequest): Bytes {
    ToBytes(v.moduleHandle, 8) + (EncodeField(v.functionName) + EncodeField(v.params))
  }

  function EncodeStore(v: StoreDataRequest): Bytes {
    EncodeField(v.key) + EncodeField(v.data)
  }

  function EncodeRetrieve(v: RetrieveDataRequest): Bytes {
    EncodeField(v.key)
  }

  method SerializeLoad(v: LoadModuleRequest) returns (result: Bytes)
    ensures result == EncodeLoad(v)
  {
    var vec := new ByteVector();
    vec.WriteBytes(v.moduleData);
    return vec.bytes;
  }

  method SerializeLoadResponse(v: LoadModuleResponse) returns (result: Bytes)
    ensures result == EncodeLoadResponse(v)
  {
    var vec := new ByteVector();
    vec.WriteUInt64(v.moduleHandle);
    return vec.bytes;
  }

  method SerializeInvoke(v: InvokeFunctionRequest) returns (result: Bytes)
    ensures result == EncodeInvoke(v)
  {
    hide ToBytes, EncodeField;
    var vec := new ByteVector();
    vec.WriteUInt64(v.moduleHandle);
    vec.WriteString(v.functionName);
    vec.WriteBytes(v.params);
    return vec.bytes;
  }

  method SerializeStore(v: StoreDataRequest) returns (result: Bytes)
    ensures result == EncodeStore(v)
  {
    var vec := new ByteVector();
    vec.WriteString(v.key);
    vec.WriteBytes(v.data);
    return vec.bytes;
  }

  method SerializeRetrieve(v: RetrieveDataRequest) returns (result: Bytes)
    ensures result == EncodeRetrieve(v)
  {
    var vec := new ByteVector();
    vec.WriteString(v.key);
    return vec.bytes;
  }

  // ---- Decoders ------------------------------------------------------------------------

  /** Two consecutive fields, a string and a byte field. */
  function TwoFields(data: Bytes, offset: nat): Option<(Bytes, Bytes)> {
    var first := FieldAt(data, offset, MAX_STRING);
    if first.None? then None
    else
      var second := FieldAt(data, offset + 4 + |first.value|, MAX_BYTES);
      if second.None? then None else Some((first.value, second.value))
  }

  function DecodeLoad(data: Bytes): Option<LoadModuleRequest> {
    var field := FieldAt(data, 0, MAX_BYTES);
    if field.None? then None else Some(LoadModuleRequest(field.value))
  }

  function DecodeLoadResponse(data: Bytes): Option<LoadModuleResponse> {
    if |data| < 8 then None
    else
      ValuesOfWidths();
      Some(LoadModuleResponse(FromBytes(data[..8])))
  }

  function DecodeInvoke(data: Bytes): Option<InvokeFunctionRequest> {
    if |data| < 8 then None
    else
      ValuesOfWidths();
      var fields := TwoFields(data, 8);
      if fields.None? then None
      else Some(InvokeFunctionRequest(FromBytes(data[..8]), fields.value.0, fields.value.1))
  }

  function DecodeStore(data: Bytes): Option<StoreDataRequest> {
    var fields := TwoFields(data, 0);
    if fields.None? then None else Some(StoreDataRequest(fields.value.0, fields.value.1))
  }

  function DecodeRetrieve(data: Bytes): Option<RetrieveDataRequest> {
    var field := FieldAt(data, 0, MAX_STRING);
    if field.None? then None else Some(RetrieveDataRequest(field.value))
  }

  method DeserializeLoad(data: Bytes) returns (out: Option<LoadModuleRequest>)
    ensures out == DecodeLoad(data)
  {
    var cursor := new Cursor(data);
    var ok, moduleData := cursor.ReadBytes();
    if !ok {
      return None;
    }
    return Some(LoadModuleRequest(moduleData));
  }

  method DeserializeLoadResponse(data: Bytes) returns (out: Option<LoadModuleResponse>)
    ensures out == DecodeLoadResponse(data)
  {
    if |data| < 8 {
      return None;
    }
    ValuesOfWidths();
    return Some(LoadModuleResponse(FromBytes(data[..8])));
  }

  method DeserializeInvoke(data: Bytes) returns (out: Option<InvokeFunctionRequest>)
    ensures out == DecodeInvoke(data)
  {
    if |data| < 8 {
      return None;
    }
    ValuesOfWidths();
    var cursor := new Cursor(data);
    var moduleHandle: uint64 := FromBytes(data[..8]);
    cursor.offset := cursor.offset + 8;
    var ok, functionName := cursor.ReadString();
    if !ok {
      return None;
    }
    var okToo, params := cursor.ReadBytes();
    if !okToo {
      return None;
    }
    return Some(InvokeFunctionRequest(moduleHandle, functionName, params));
  }

  method DeserializeStore(data: Bytes) returns (out: Option<StoreDataRequest>)
    ensures out == DecodeStore(data)
  {
    var cursor := new Cursor(data);
    var ok, key := cursor.ReadString();
    if !ok {
      return None;
    }
    var okToo, value := cursor.ReadBytes();
    if !okToo {
      return None;
    }
    return Some(StoreDataRequest(key, value));
  }

  method DeserializeRetrieve(data: Bytes) returns (out: Option<RetrieveDataRequest>)
    ensures out == DecodeRetrieve(data)
  {
    var cursor := new Cursor(data);
    var ok, key := cursor.ReadString();
    if !ok {
      return None;
    }
    return Some(RetrieveDataRequest(key));
  }

  // ---- Accepted languages --------------------------------------------------------------

  /** Two fields stand at `offset` exactly when both are within their limits and encoded there. */
  lemma TwoFieldsIff(data: Bytes, offset: nat, str: Bytes, field: Bytes)
    requires offset <= |data|
    ensures TwoFields(data, offset) == Some((str, field)) <==>
            |str| <= MAX_STRING && |field| <= MAX_BYTES &&
            EncodeField(str) + EncodeField(field) <= data[offset..]
  {
    FieldAtIff(data, offset, MAX_STRING, str);
    var next := offset + 4 + |str|;
    if next <= |data| {
      FieldAtIff(data, next, MAX_BYTES, field);
      PrefixOfBoth(EncodeField(str), EncodeField(field), data[offset..]);
      assert data[offset..][4 + |str|..] == data[next..];
    }
    hide EncodeField;
    EncodedLength(str);
  }

  lemma EncodedLength(field: Bytes)
    ensures |EncodeField(field)| == 4 + |field|
  {}

  lemma PrefixOfBoth(a: Bytes, b: Bytes, d: Bytes)
    ensures a + b <= d <==> a <= d && b <= d[|a|..]
  {
    if a + b <= d {
      assert a == (a + b)[..|a|] == d[..|a|];
      assert b == (a + b)[|a|..];
    }
    if a <= d && b <= d[|a|..] {
      assert d == d[..|a|] + d[|a|..];
    }
  }

  lemma LoadIff(d: Bytes, v: LoadModuleRequest)
    ensures DecodeLoad(d) == Some(v) <==> |v.moduleData| <= MAX_BYTES && EncodeLoad(v) <= d
  {
    FieldAtIff(d, 0, MAX_BYTES, v.moduleData);
    assert d[0..] == d;
    hide FieldAt, EncodeField;
  }

  /** The first eight bytes hold `handle` exactly when its encoding is a prefix. */
  lemma HandleIff(d: Bytes, handle: uint64)
    requires 8 <= |d|
    ensures FromBytes(d[..8]) == handle <==> ToBytes(handle, 8) <= d
  {
    hide ToBytes, FromBytes, Values;
    ValuesOfWidths();
    ReadThenWrite(d[..8]);
    WriteThenRead(handle, 8);
    if ToBytes(handle, 8) <= d {
      assert d[..8] == ToBytes(handle, 8);
    }
  }

  lemma LoadResponseIff(d: Bytes, v: LoadModuleResponse)
    ensures DecodeLoadResponse(d) == Some(v) <==> EncodeLoadResponse(v) <= d
  {
    if 8 <= |d| {
      HandleIff(d, v.moduleHandle);
    }
  }

  lemma InvokeIff(d: Bytes, v: InvokeFunctionRequest)
    ensures DecodeInvoke(d) == Some(v) <==>
            |v.functionName| <= MAX_STRING && |v.params| <= MAX_BYTES && EncodeInvoke(v) <= d
  {
    var handle := ToBytes(v.moduleHandle, 8);
    var fields := EncodeField(v.functionName) + EncodeField(v.params);
    PrefixOfBoth(handle, fields, d);
    assert |handle| == 8;
    if 8 <= |d| {
      TwoFieldsIff(d, 8, v.functionName, v.params);
      HandleIff(d, v.moduleHandle);
      hide EncodeField, TwoFields, ToBytes, FromBytes;
    }
  }

  lemma StoreIff(d: Bytes, v: StoreDataRequest)
    ensures DecodeStore(d) == Some(v) <==>
            |v.key| <= MAX_STRING && |v.data| <= MAX_BYTES && EncodeStore(v) <= d
  {
    TwoFieldsIff(d, 0, v.key, v.data);
    assert d[0..] == d;
    hide TwoFields, EncodeField;
  }

  lemma RetrieveIff(d: Bytes, v: RetrieveDataRequest)
    ensures DecodeRetrieve(d) == Some(v) <==> |v.key| <= MAX_STRING && EncodeRetrieve(v) <= d
  {
    FieldAtIff(d, 0, MAX_STRING, v.key);
    assert d[0..] == d;
    hide FieldAt, EncodeField;
  }

  // ---- Layout --------------------------------------------------------------------------

  /** Four bytes of length, then the bytes. */
  ghost predicate IsField(d: Bytes, field: Bytes) {
    |d| == 4 + |field| && d[..4] == ToBytes(|field| % TWO_32, 4) && d[4..] == field
  }

  lemma LoadLayout(v: LoadModuleRequest)
    ensures IsField(EncodeLoad(v), v.moduleData)
  {
    hide ToBytes;
  }

  /** The eight bytes of the handle, least significant first. */
  lemma LoadResponseLayout(v: LoadModuleResponse)
    ensures var d := EncodeLoadResponse(v);
            |d| == 8 && forall i: nat | i < 8 :: d[i] == (v.moduleHandle / Values(i)) % 0x100
  {
    forall i: nat | i < 8 ensures EncodeLoadResponse(v)[i] == (v.moduleHandle / Values(i)) % 0x100 {
      ByteAt(v.moduleHandle, 8, i);
    }
  }

  /** Handle, then name, then parameters. */
  lemma InvokeLayout(v: InvokeFunctionRequest)
    ensures var d, n := EncodeInvoke(v), |v.functionName|;
            |d| == 16 + n + |v.params| &&
            d[..8] == ToBytes(v.moduleHandle, 8) &&
            d[8..12] == ToBytes(n % TWO_32, 4) && d[12..12 + n] == v.functionName &&
            d[12 + n..16 + n] == ToBytes(|v.params| % TWO_32, 4) && d[16 + n..] == v.params
  {
    hide ToBytes;
  }

  /** Key, then data. */
  lemma StoreLayout(v: StoreDataRequest)
    ensures var d, k := EncodeStore(v), |v.key|;
            |d| == 8 + k + |v.data| &&
            d[..4] == ToBytes(k % TWO_32, 4) && d[4..4 + k] == v.key &&
            d[4 + k..8 + k] == ToBytes(|v.data| % TWO_32, 4) && d[8 + k..] == v.data
  {
    hide ToBytes;
  }

  lemma RetrieveLayout(v: RetrieveDataRequest)
    ensures IsField(EncodeRetrieve(v), v.key)
  {
    hide ToBytes;
  }

  // ---- Round trips ---------------------------------------------------------------------

  /** Decoding inverts encoding exactly for the values within 1 MB and 10 MB. */
  lemma RoundTrips(load: LoadModuleRequest, response: LoadModuleResponse, invoke: InvokeFunctionRequest,
                   store: StoreDataRequest, retrieve: RetrieveDataRequest)
    ensures DecodeLoad(EncodeLoad(load)) == Some(load) <==> |load.moduleData| <= 10_485_760
    ensures DecodeLoadResponse(EncodeLoadResponse(response)) == Some(response)
    ensures DecodeInvoke(EncodeInvoke(invoke)) == Some(invoke) <==>
            |invoke.functionName| <= 1_048_576 && |invoke.params| <= 10_485_760
    ensures DecodeStore(EncodeStore(store)) == Some(store) <==>
            |store.key| <= 1_048_576 && |store.data| <= 10_485_760
    ensures DecodeRetrieve(EncodeRetrieve(retrieve)) == Some(retrieve) <==> |retrieve.key| <= 1_048_576
  {
    assert MAX_STRING == 1_048_576 && MAX_BYTES == 10_485_760;
    LoadIff(EncodeLoad(load), load);
    LoadResponseIff(EncodeLoadResponse(response), response);
    InvokeIff(EncodeInvoke(invoke), invoke);
    StoreIff(EncodeStore(store), store);
    RetrieveIff(EncodeRetrieve(retrieve), retrieve);
    hide *;
  }

  /** A field whose length fits in 32 bits is read back where it stands, or rejected for its length. */
  lemma FieldInContext(before: Bytes, field: Bytes, after: Bytes, limit: nat)
    requires |field| < TWO_32 && limit < TWO_32
    ensures FieldAt(before + (EncodeField(field) + after), |before|, limit) ==
            if |field| <= limit then Some(field) else None
  {
    hide ToBytes, FromBytes;
    var data := before + (EncodeField(field) + after);
    ValuesOfWidths();
    WriteThenRead(|field|, 4);
    assert data[|before|..|before| + 4] == ToBytes(|field|, 4);
    assert data[|before| + 4..|before| + 4 + |field|] == field;
  }

  lemma TwoFieldsInContext(before: Bytes, str: Bytes, field: Bytes)
    requires |str| < TWO_32 && |field| < TWO_32
    ensures TwoFields(before + (EncodeField(str) + EncodeField(field)), |before|) ==
            if |str| <= MAX_STRING && |field| <= MAX_BYTES then Some((str, field)) else None
  {
    hide EncodeField, FieldAt;
    FieldInContext(before, str, EncodeField(field), MAX_STRING);
    FieldInContext(before + EncodeField(str), field, [], MAX_BYTES);
    EncodedLength(str);
    assert before + EncodeField(str) + (EncodeField(field) + []) == before + (EncodeField(str) + EncodeField(field));
  }

  /** What the decoders make of an encoding whose lengths fit in 32 bits. */
  lemma DecodeOwnLoad(v: LoadModuleRequest)
    requires |v.moduleData| < TWO_32
    ensures DecodeLoad(EncodeLoad(v)) == if |v.moduleData| <= MAX_BYTES then Some(v) else None
  {
    FieldInContext([], v.moduleData, [], MAX_BYTES);
    assert [] + (EncodeField(v.moduleData) + []) == EncodeField(v.moduleData);
    hide FieldAt, EncodeField;
  }

  lemma DecodeOwnInvoke(v: InvokeFunctionRequest)
    requires |v.functionName| < TWO_32 && |v.params| < TWO_32
    ensures DecodeInvoke(EncodeInvoke(v)) ==
            if |v.functionName| <= MAX_STRING && |v.params| <= MAX_BYTES then Some(v) else None
  {
    hide TwoFields, EncodeField, ToBytes, FromBytes;
    ValuesOfWidths();
    WriteThenRead(v.moduleHandle, 8);
    TwoFieldsInContext(ToBytes(v.moduleHandle, 8), v.functionName, v.params);
    assert EncodeInvoke(v)[..8] == ToBytes(v.moduleHandle, 8);
  }

  lemma DecodeOwnStore(v: StoreDataRequest)
    requires |v.key| < TWO_32 && |v.data| < TWO_32
    ensures DecodeStore(EncodeStore(v)) ==
            if |v.key| <= MAX_STRING && |v.data| <= MAX_BYTES then Some(v) else None
  {
    TwoFieldsInContext([], v.key, v.data);
    assert [] + EncodeStore(v) == EncodeStore(v);
    hide TwoFields, EncodeField;
  }

  lemma DecodeOwnRetrieve(v: RetrieveDataRequest)
    requires |v.key| < TWO_32
    ensures DecodeRetrieve(EncodeRetrieve(v)) == if |v.key| <= MAX_STRING then Some(v) else None
  {
    FieldInContext([], v.key, [], MAX_STRING);
    assert [] + (EncodeField(v.key) + []) == EncodeField(v.key);
    hide FieldAt, EncodeField;
  }
}
