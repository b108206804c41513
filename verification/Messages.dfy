/**
 Message headers, requests and responses (src/core/protocol.cpp), and their validation.

 `RequestFraming` and `ResponseFraming` prove that the frame decoders are exact inverses of the
 encoders, although the length check adds in 32 bits: the minimum size makes a wrapped sum harmless.
 */
module Messages {
  import opened Machine
  import opened Buffers
  import opened Crc32
  import opened CrcDetection
  import opened Primes

  const MAGIC: uint32 := 0x4F45_534B
  const VERSION: uint16 := 1

  datatype MessageHeader = MessageHeader(
    magic: uint32, version: uint16, commandType: uint8, flags: uint8, payloadSize: uint32, checksum: uint32)

  datatype Request = Request(header: MessageHeader, payload: Bytes)

  /** The status is the byte on the wire: the cast to the enumeration checks nothing. */
  datatype Response = Response(header: MessageHeader, status: uint8, payload: Bytes)

  // ---- Headers -------------------------------------------------------------------------

  function EncodeHeader(h: MessageHeader): (bytes: Bytes)
    ensures |bytes| == 16
  {
    ToBytes(h.magic, 4) + ToBytes(h.version, 2) + [h.commandType] + [h.flags] +
    ToBytes(h.payloadSize, 4) + ToBytes(h.checksum, 4)
  }

  function DecodeHeader(data: Bytes): MessageHeader
    requires 16 <= |data|
  {
    ValuesOfWidths();
    MessageHeader(FromBytes(data[0..4]), FromBytes(data[4..6]), data[6], data[7],
                  FromBytes(data[8..12]), FromBytes(data[12..16]))
  }

  method SerializeHeader(h: MessageHeader) returns (result: Bytes)
    ensures result == EncodeHeader(h)
  {
    hide ToBytes;
    var vec := new ByteVector();
    vec.WriteUInt32(h.magic);
    vec.WriteUInt16(h.version);
    vec.WriteUInt8(h.commandType);
    vec.WriteUInt8(h.flags);
    vec.WriteUInt32(h.payloadSize);
    vec.WriteUInt32(h.checksum);
    return vec.bytes;
  }

  method DeserializeHeader(data: Bytes) returns (out: Option<MessageHeader>)
    ensures out == if |data| < 16 then None else Some(DecodeHeader(data))
  {
    hide FromBytes;
    if |data| < 16 {
      return None;
    }
    var cursor := new Cursor(data);
    var ok0, magic := cursor.ReadUInt32();
    if !ok0 { return None; }
    var ok1, version := cursor.ReadUInt16();
    if !ok1 { return None; }
    var ok2, commandType := cursor.ReadUInt8();
    if !ok2 { return None; }
    var ok3, flags := cursor.ReadUInt8();
    if !ok3 { return None; }
    var ok4, payloadSize := cursor.ReadUInt32();
    if !ok4 { return None; }
    var ok5, checksum := cursor.ReadUInt32();
    if !ok5 { return None; }
    return Some(MessageHeader(magic, version, commandType, flags, payloadSize, checksum));
  }

  lemma HeaderParts(h: MessageHeader)
    ensures EncodeHeader(h)[0..4] == ToBytes(h.magic, 4)
    ensures EncodeHeader(h)[4..6] == ToBytes(h.version, 2)
    ensures EncodeHeader(h)[6] == h.commandType && EncodeHeader(h)[7] == h.flags
    ensures EncodeHeader(h)[8..12] == ToBytes(h.payloadSize, 4)
    ensures EncodeHeader(h)[12..16] == ToBytes(h.checksum, 4)
  {
    hide ToBytes;
  }

  lemma HeaderRoundTrip(h: MessageHeader)
    ensures DecodeHeader(EncodeHeader(h)) == h
  {
    hide EncodeHeader, ToBytes, FromBytes, Values;
    HeaderParts(h);
    ValuesOfWidths();
    WriteThenRead(h.magic, 4);
    WriteThenRead(h.version, 2);
    WriteThenRead(h.payloadSize, 4);
    WriteThenRead(h.checksum, 4);
  }

  /** Every 16 bytes are the encoding of the header they decode to. */
  lemma HeaderOnto(data: Bytes)
    requires |data| == 16
    ensures EncodeHeader(DecodeHeader(data)) == data
  {
    ReadThenWrite(data[0..4]);
    ReadThenWrite(data[4..6]);
    ReadThenWrite(data[8..12]);
    ReadThenWrite(data[12..16]);
    hide ToBytes, FromBytes;
    SplitSixteen(data);
  }

  lemma SplitSixteen(data: Bytes)
    requires |data| == 16
    ensures data == data[0..4] + data[4..6] + [data[6]] + [data[7]] + data[8..12] + data[12..16]
  {}

  // ---- Frames --------------------------------------------------------------------------

  function EncodeRequest(r: Request): Bytes {
    EncodeHeader(r.header) + r.payload
  }

  function EncodeResponse(r: Response): Bytes {
    EncodeHeader(r.header) + [r.status] + r.payload
  }

  function DecodeRequest(data: Bytes): Option<Request> {
    if |data| < 16 then None
    else
      var header := DecodeHeader(data[..16]);
      if |data| != (16 + header.payloadSize) % TWO_32 then None
      else Some(Request(header, data[16..]))
  }

  function DecodeResponse(data: Bytes): Option<Response> {
    if |data| < 17 then None
    else
      var header := DecodeHeader(data[..16]);
      if |data| != (17 + header.payloadSize) % TWO_32 then None
      else Some(Response(header, data[16], data[17..]))
  }

  method SerializeRequest(r: Request) returns (result: Bytes)
    ensures result == EncodeRequest(r)
  {
    var headerBytes := SerializeHeader(r.header);
    var vec := new ByteVector();
    vec.Insert(headerBytes);
    vec.Insert(r.payload);
    return vec.bytes;
  }

  method DeserializeRequest(data: Bytes) returns (out: Option<Request>)
    ensures out == DecodeRequest(data)
  {
    if |data| < 16 {
      return None;
    }
    var header := DeserializeHeader(data[..16]);
    if header.None? {
      return None;
    }
    if |data| != (16 + header.value.payloadSize) % TWO_32 {
      return None;
    }
    return Some(Request(header.value, data[16..]));
  }

  method SerializeResponse(r: Response) returns (result: Bytes)
    ensures result == EncodeResponse(r)
  {
    var headerBytes := SerializeHeader(r.header);
    var vec := new ByteVector();
    vec.Insert(headerBytes);
    vec.WriteUInt8(r.status);
    vec.Insert(r.payload);
    return vec.bytes;
  }

  method DeserializeResponse(data: Bytes) returns (out: Option<Response>)
    ensures out == DecodeResponse(data)
  {
    if |data| < 17 {
      return None;
    }
    var header := DeserializeHeader(data[..16]);
    if header.None? {
      return None;
    }
    var status := data[16];
    if |data| != (17 + header.value.payloadSize) % TWO_32 {
      return None;
    }
    return Some(Response(header.value, status, data[17..]));
  }

  lemma EncodedRequestParts(r: Request)
    ensures |EncodeRequest(r)| == 16 + |r.payload|
    ensures EncodeRequest(r)[..16] == EncodeHeader(r.header) && EncodeRequest(r)[16..] == r.payload
  {
    hide EncodeHeader;
  }

  lemma EncodedResponseParts(r: Response)
    ensures |EncodeResponse(r)| == 17 + |r.payload|
    ensures EncodeResponse(r)[..16] == EncodeHeader(r.header)
    ensures EncodeResponse(r)[16] == r.status && EncodeResponse(r)[17..] == r.payload
  {
    hide EncodeHeader;
  }

  lemma RejoinRequest(r: Request, d: Bytes)
    requires 16 <= |d| && EncodeHeader(r.header) == d[..16] && r.payload == d[16..]
    ensures EncodeRequest(r) == d
  {
    hide EncodeHeader;
  }

  lemma RejoinResponse(r: Response, d: Bytes)
    requires 17 <= |d| && EncodeHeader(r.header) == d[..16] && r.status == d[16] && r.payload == d[17..]
    ensures EncodeResponse(r) == d
  {
    hide EncodeHeader;
  }

  /**
   The request decoder returns `r` from `d` exactly when `d` is the encoding of `r`, the header
   states the size of the payload, and the frame is shorter than 2^32 bytes.
   */
  lemma RequestFraming(d: Bytes, r: Request)
    ensures DecodeRequest(d) == Some(r) <==>
            EncodeRequest(r) == d && r.header.payloadSize == |r.payload| && |d| < TWO_32
  {
    EncodedRequestParts(r);
    HeaderRoundTrip(r.header);
    hide EncodeHeader, EncodeRequest, DecodeHeader;
    if DecodeRequest(d) == Some(r) {
      HeaderOnto(d[..16]);
      RejoinRequest(r, d);
    }
  }

  lemma ResponseFraming(d: Bytes, r: Response)
    ensures DecodeResponse(d) == Some(r) <==>
            EncodeResponse(r) == d && r.header.payloadSize == |r.payload| && |d| < TWO_32
  {
    EncodedResponseParts(r);
    HeaderRoundTrip(r.header);
    hide EncodeHeader, EncodeResponse, DecodeHeader;
    if DecodeResponse(d) == Some(r) {
      HeaderOnto(d[..16]);
      RejoinResponse(r, d);
    }
  }

  /** The wrapped length check accepts exactly the frames whose true length is as stated, below 2^32. */
  lemma WrappedLengthCheck(d: Bytes)
    ensures DecodeRequest(d).Some? <==>
            16 <= |d| < TWO_32 && |d| == 16 + DecodeHeader(d[..16]).payloadSize
    ensures DecodeResponse(d).Some? <==>
            17 <= |d| < TWO_32 && |d| == 17 + DecodeHeader(d[..16]).payloadSize
  {
    hide DecodeHeader;
  }

  /** Serialising and deserialising is the identity exactly for consistent messages below 2^32 bytes. */
  lemma FrameRoundTrips(q: Request, p: Response)
    ensures DecodeRequest(EncodeRequest(q)) == Some(q) <==>
            q.header.payloadSize == |q.payload| && |q.payload| <= TWO_32 - 17
    ensures DecodeResponse(EncodeResponse(p)) == Some(p) <==>
            p.header.payloadSize == |p.payload| && |p.payload| <= TWO_32 - 18
  {
    RequestFraming(EncodeRequest(q), q);
    ResponseFraming(EncodeResponse(p), p);
    EncodedRequestParts(q);
    EncodedResponseParts(p);
    hide EncodeRequest, EncodeResponse, DecodeRequest, DecodeResponse;
  }

  lemma ResponseRoundTrip(p: Response)
    requires p.header.payloadSize == |p.payload| && |p.payload| <= TWO_32 - 18
    ensures DecodeResponse(EncodeResponse(p)) == Some(p)
  {
    ResponseFraming(EncodeResponse(p), p);
    EncodedResponseParts(p);
    hide EncodeResponse, DecodeResponse;
  }

  // ---- Validation ----------------------------------------------------------------------

  predicate IsValidPayload(h: MessageHeader, payload: Bytes) {
    h.magic == MAGIC && h.version == VERSION && |payload| == h.payloadSize && Checksum(payload) == h.checksum
  }

  predicate IsValidRequest(r: Request) { IsValidPayload(r.header, r.payload) }

  predicate IsValidResponse(r: Response) { IsValidPayload(r.header, r.payload) }

  method ValidateRequest(r: Request) returns (valid: bool)
    ensures valid <==> IsValidRequest(r)
  {
    if r.header.magic != MAGIC { return false; }
    if r.header.version != VERSION { return false; }
    if |r.payload| != r.header.payloadSize { return false; }
    var computed := CalculateCRC32(r.payload);
    if computed != r.header.checksum { return false; }
    return true;
  }

  method ValidateResponse(r: Response) returns (valid: bool)
    ensures valid <==> IsValidResponse(r)
  {
    if r.header.magic != MAGIC { return false; }
    if r.header.version != VERSION { return false; }
    if |r.payload| != r.header.payloadSize { return false; }
    var computed := CalculateCRC32(r.payload);
    if computed != r.header.checksum { return false; }
    return true;
  }

  /** A payload damaged within 32 consecutive bits never validates under the old header. */
  lemma DamagedBurstRejected(q: Request, p: Response, damaged: Bytes, start: nat)
    ensures IsValidRequest(q) && BurstAt(q.payload, damaged, start) && damaged != q.payload
            ==> !IsValidRequest(q.(payload := damaged))
    ensures IsValidResponse(p) && BurstAt(p.payload, damaged, start) && damaged != p.payload
            ==> !IsValidResponse(p.(payload := damaged))
  {
    hide BurstAt, Checksum;
    if BurstAt(q.payload, damaged, start) && damaged != q.payload {
      BurstDetected(q.payload, damaged, start);
    }
    if BurstAt(p.payload, damaged, start) && damaged != p.payload {
      BurstDetected(p.payload, damaged, start);
    }
  }

  /**
   Two flipped payload bits leave a message valid exactly when their distance is a multiple of
   2^32 - 1; so a payload within the server's 16 MB never validates.
   */
  lemma TwoFlippedBits(q: Request, p: Response, damaged: Bytes, i: nat, j: nat)
    ensures IsValidRequest(q) && TwoBitsDiffer(q.payload, damaged, i, j)
            ==> (IsValidRequest(q.(payload := damaged)) <==> (j - i) % PERIOD == 0)
    ensures IsValidResponse(p) && TwoBitsDiffer(p.payload, damaged, i, j)
            ==> (IsValidResponse(p.(payload := damaged)) <==> (j - i) % PERIOD == 0)
    ensures IsValidRequest(q) && TwoBitsDiffer(q.payload, damaged, i, j) && |q.payload| <= 16 * 1024 * 1024
            ==> !IsValidRequest(q.(payload := damaged))
  {
    hide TwoBitsDiffer, Checksum;
    if TwoBitsDiffer(q.payload, damaged, i, j) {
      DistinctPositions(q.payload, damaged, i, j);
      TwoBitsUndetectedIff(q.payload, damaged, i, j);
      if |q.payload| <= 16 * 1024 * 1024 {
        TwoBitsDetected(q.payload, damaged, i, j);
      }
    }
    if TwoBitsDiffer(p.payload, damaged, i, j) {
      DistinctPositions(p.payload, damaged, i, j);
      TwoBitsUndetectedIff(p.payload, damaged, i, j);
    }
  }

  // ---- The bytes of valid frames -------------------------------------------------------

  lemma MagicBytes()
    ensures ToBytes(MAGIC, 4) == [0x4B, 0x53, 0x45, 0x4F] && ToBytes(VERSION, 2) == [1, 0]
  {
    assert ToBytes(0x4F45, 2) == [0x45, 0x4F];
    assert ToBytes(0x4F45_534B, 4) == [0x4B, 0x53] + ToBytes(0x4F45, 2);
  }

  /** Sixteen bytes that announce a payload of `size` bytes with checksum `sum`. */
  ghost predicate Announces(d: Bytes, size: nat, sum: uint32)
    requires 16 <= |d|
  {
    d[0..4] == [0x4B, 0x53, 0x45, 0x4F] && d[4..6] == [1, 0] &&
    d[8..12] == ToBytes(size, 4) && d[12..16] == ToBytes(sum, 4)
  }

  lemma HeaderInFrame(d: Bytes, h: MessageHeader)
    requires 16 <= |d| && d[..16] == EncodeHeader(h)
    ensures d[0..4] == ToBytes(h.magic, 4) && d[4..6] == ToBytes(h.version, 2)
    ensures d[6] == h.commandType && d[7] == h.flags
    ensures d[8..12] == ToBytes(h.payloadSize, 4) && d[12..16] == ToBytes(h.checksum, 4)
  {
    HeaderParts(h);
    hide EncodeHeader, ToBytes;
    var t := d[..16];
    assert t[0..4] == d[0..4] && t[4..6] == d[4..6] && t[8..12] == d[8..12] && t[12..16] == d[12..16];
  }

  lemma AnnouncesIff(d: Bytes, payload: Bytes)
    requires 16 <= |d| && |payload| < TWO_32
    ensures IsValidPayload(DecodeHeader(d[..16]), payload) <==> Announces(d, |payload|, Checksum(payload))
  {
    var h, t := DecodeHeader(d[..16]), d[..16];
    HeaderOnto(t);
    HeaderParts(h);
    MagicBytes();
    hide EncodeHeader, DecodeHeader, ToBytes, Checksum;
    assert t[0..4] == d[0..4] && t[4..6] == d[4..6] && t[8..12] == d[8..12] && t[12..16] == d[12..16];
    SameBytes(h.magic, MAGIC, 4);
    SameBytes(h.version, VERSION, 2);
    SameBytes(h.payloadSize, |payload|, 4);
    SameBytes(h.checksum, Checksum(payload), 4);
  }

  lemma SameBytes(a: nat, b: nat, width: nat)
    requires a < Values(width) && b < Values(width)
    ensures ToBytes(a, width) == ToBytes(b, width) <==> a == b
  {
    WriteThenRead(a, width);
    WriteThenRead(b, width);
  }

  /** Which bytes are valid requests, and which valid responses. */
  lemma ValidFrames(d: Bytes)
    ensures DecodeRequest(d).Some? && IsValidRequest(DecodeRequest(d).value) <==>
            16 <= |d| < TWO_32 && Announces(d, |d| - 16, Checksum(d[16..]))
    ensures DecodeResponse(d).Some? && IsValidResponse(DecodeResponse(d).value) <==>
            17 <= |d| < TWO_32 && Announces(d, |d| - 17, Checksum(d[17..]))
    ensures (DecodeRequest(d).Some? && IsValidRequest(DecodeRequest(d).value)) ||
            (DecodeResponse(d).Some? && IsValidResponse(DecodeResponse(d).value)) ==>
            16 <= |d| && d[0..4] == [0x4B, 0x53, 0x45, 0x4F] && d[4..6] == [1, 0]
  {
    WrappedLengthCheck(d);
    hide DecodeHeader, Checksum, ToBytes;
    if 16 <= |d| < TWO_32 {
      AnnouncesIff(d, d[16..]);
    }
    if 17 <= |d| < TWO_32 {
      AnnouncesIff(d, d[17..]);
    }
  }

  /** Only command and flags of a valid message can change without making it invalid. */
  lemma DamagedHeaderRejected(q: Request, p: Response, h: MessageHeader)
    ensures IsValidRequest(q) ==>
            (IsValidRequest(q.(header := h)) <==>
             h == q.header.(commandType := h.commandType, flags := h.flags))
    ensures IsValidResponse(p) ==>
            (IsValidResponse(p.(header := h)) <==>
             h == p.header.(commandType := h.commandType, flags := h.flags))
  {
    hide Checksum;
  }
}
