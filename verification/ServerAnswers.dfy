/**
 What the server answers, in bytes and status numbers.

 The statuses are 0 success, 1 invalid command, 2 invalid parameters, 3 execution failed, 4 not found and
 255 internal error; the commands 1 load, 2 invoke, 3 store, 4 retrieve, 5 attestation and 255 shutdown.
 `RefusedFrames` and `AnsweredFrames` say for every input which answer it gets, and `SuccessIff`
 which inputs are answered with success.
 */
module ServerAnswers {
  import opened Machine
  import opened Crc32
  import opened Payloads
  import opened Messages
  import opened VaultModel
  import opened EnclaveModel
  import opened Server
  import opened ServerRuns

  // ---- Frames --------------------------------------------------------------------------

  /** Sixteen bytes with the right magic and version. */
  predicate Greets(input: Bytes) {
    16 <= |input| && input[0..4] == [0x4B, 0x53, 0x45, 0x4F] && input[4..6] == [1, 0]
  }

  function SizeAt(input: Bytes): nat
    requires 16 <= |input|
  {
    FromBytes(input[8..12])
  }

  /** A header whose size is within 16 MB, and as many bytes behind it. */
  predicate IsComplete(input: Bytes) {
    Greets(input) && SizeAt(input) <= 16_777_216 && 16 + SizeAt(input) <= |input|
  }

  function PayloadIn(input: Bytes): Bytes
    requires IsComplete(input)
  {
    input[16..16 + SizeAt(input)]
  }

  /** A complete frame whose payload has the announced checksum. */
  predicate IsSound(input: Bytes) {
    IsComplete(input) && FromBytes(input[12..16]) == Checksum(PayloadIn(input))
  }

  lemma HeaderOfBytes(input: Bytes)
    requires 16 <= |input|
    ensures var h := DecodeHeader(input[..16]);
            h.payloadSize == SizeAt(input) && h.checksum == FromBytes(input[12..16]) && h.commandType == input[6] &&
            (h.magic == MAGIC && h.version == VERSION <==> Greets(input))
  {
    var t := input[..16];
    var h := DecodeHeader(t);
    HeaderOnto(t);
    HeaderParts(h);
    MagicBytes();
    hide EncodeHeader, ToBytes, FromBytes;
    assert t[0..4] == input[0..4] && t[4..6] == input[4..6] && t[8..12] == input[8..12] && t[12..16] == input[12..16];
    hide DecodeHeader;
    ValuesOfWidths();
    SameBytes(h.magic, MAGIC, 4);
    SameBytes(h.version, VERSION, 2);
  }

  /** Which frames the server dispatches, and the status of all others. */
  lemma ParseByBytes(input: Bytes)
    ensures match Parse(input)
            case Accepted(request) =>
              IsSound(input) && request.header.commandType == input[6] && request.payload == PayloadIn(input)
            case Refused(status) =>
              !IsSound(input) &&
              status == if !Greets(input) then 1 else 2
  {
    hide DecodeHeader, Checksum, FromBytes, Greets;
    if 16 <= |input| {
      HeaderOfBytes(input);
    } else {
      ShortDoesNotGreet(input);
    }
  }

  lemma ShortDoesNotGreet(input: Bytes)
    requires |input| < 16
    ensures !Greets(input)
  {}

  /**
   Frames that are refused before dispatch: too short, wrong magic or wrong version get status 1;
   announcing over 16 MB, truncated, or with a wrong checksum get status 2. Nothing changes.
   */
  lemma RefusedFrames(v: Vault, measurement: Bytes, input: Bytes, e: Entropy)
    ensures var s := Serve(v, measurement, input, e);
            (|input| < 16 || input[0..4] != [0x4B, 0x53, 0x45, 0x4F] || input[4..6] != [1, 0]
             ==> s == Service(v, true, ErrorResponse(1))) &&
            (Greets(input) && SizeAt(input) > 16_777_216 ==> s == Service(v, true, ErrorResponse(2))) &&
            (Greets(input) && |input| < 16 + SizeAt(input) ==> s == Service(v, true, ErrorResponse(2))) &&
            (IsComplete(input) && FromBytes(input[12..16]) != Checksum(input[16..16 + SizeAt(input)])
             ==> s == Service(v, true, ErrorResponse(2)))
    ensures !IsSound(input) ==>
            Serve(v, measurement, input, e) == Service(v, true, ErrorResponse(if !Greets(input) then 1 else 2))
  {
    ParseByBytes(input);
    hide Parse, Dispatch, ErrorResponse, Checksum, FromBytes;
  }

  // ---- Answers -------------------------------------------------------------------------

  /** The operation that a sound frame asks for, by its command byte. */
  lemma DecodedByBytes(input: Bytes)
    requires IsSound(input)
    ensures var payload := PayloadIn(input);
            match input[6]
            case 1 =>
              var d := DecodeLoad(payload);
              Decoded(input) == (if d.None? then None else Some(LoadOp(d.value.moduleData)))
            case 2 =>
              var d := DecodeInvoke(payload);
              Decoded(input) == (if d.None? then None
                                 else Some(InvokeOp(d.value.moduleHandle, d.value.functionName, d.value.params)))
            case 3 =>
              var d := DecodeStore(payload);
              Decoded(input) == (if d.None? then None else Some(StoreOp(d.value.key, d.value.data)))
            case 4 =>
              var d := DecodeRetrieve(payload);
              Decoded(input) == (if d.None? then None else Some(RetrieveOp(d.value.key)))
            case _ => Decoded(input) == None
  {
    ParseByBytes(input);
    hide Parse, IsSound, PayloadIn, DecodeLoad, DecodeInvoke, DecodeStore, DecodeRetrieve;
  }

  /** The answer to a sound frame that asks for no operation. */
  lemma OtherFrames(v: Vault, measurement: Bytes, input: Bytes, e: Entropy)
    requires IsSound(input) && Decoded(input).None?
    ensures Serve(v, measurement, input, e) ==
            if 1 <= input[6] <= 4 then Service(v, true, ErrorResponse(2))
            else if input[6] == 5 && v.initialized then
              Service(v, true, SuccessResponse(Attest(v, measurement).value))
            else if input[6] == 5 then Service(v, true, ErrorResponse(255))
            else if input[6] == 255 then Service(v, false, SuccessResponse([]))
            else Service(v, true, ErrorResponse(1))
  {
    ParseByBytes(input);
    DecodedByBytes(input);
    hide IsSound, PayloadIn, Parse, Decoded, DecodeLoad, DecodeInvoke, DecodeStore, DecodeRetrieve;
    hide SuccessResponse, ErrorResponse, Load, Store, Invoke, Retrieve;
  }

  /**
   The answer to every sound frame: a decoded call gets its reply; commands 1 to 4 with a payload that
   does not decode get status 2; attestation gets the report, or status 255 before initialisation;
   shutdown gets an empty success and stops the server; any other command gets status 1.
   */
  lemma AnsweredFrames(v: Vault, measurement: Bytes, input: Bytes, e: Entropy)
    requires IsSound(input)
    ensures var s := Serve(v, measurement, input, e);
            if Decoded(input).Some? then
              var (w, a) := Perform(v, Decoded(input).value, e);
              s == Service(w, true, Reply(Decoded(input).value, a))
            else if 1 <= input[6] <= 4 then s == Service(v, true, ErrorResponse(2))
            else if input[6] == 5 && v.initialized then
              s == Service(v, true, SuccessResponse(Attest(v, measurement).value))
            else if input[6] == 5 then s == Service(v, true, ErrorResponse(255))
            else if input[6] == 255 then s == Service(v, false, SuccessResponse([]))
            else s == Service(v, true, ErrorResponse(1))
  {
    hide IsSound, Serve, Decoded, SuccessResponse, ErrorResponse, Reply, Perform, Attest;
    if Decoded(input).Some? {
      ConnectionIsStep(v, measurement, input, e);
    } else {
      OtherFrames(v, measurement, input, e);
    }
  }

  /**
   The reply to a call: status 0 with the eight bytes of the handle, the output, or nothing; status 4
   for a failed retrieval and 3 for any other failed call, without a payload.
   */
  lemma ReplyContents(op: Operation, answer: Answer)
    ensures Reply(op, answer).status == if !answer.Failed? then 0 else if op.RetrieveOp? then 4 else 3
    ensures Reply(op, answer).payload ==
            match answer
            case Handle(h) => ToBytes(h, 8)
            case Output(bytes) => bytes
            case _ => []
  {
    hide Checksum, ToBytes;
  }

  /** Success means exactly: a call that the vault performs, a report after initialisation, or a shutdown. */
  lemma SuccessIff(v: Vault, measurement: Bytes, input: Bytes, e: Entropy)
    ensures Serve(v, measurement, input, e).response.status == 0 <==>
            IsSound(input) &&
            ((Decoded(input).Some? && !Perform(v, Decoded(input).value, e).1.Failed?) ||
             (input[6] == 5 && v.initialized) || input[6] == 255)
  {
    hide Decoded, Perform, Attest, Checksum, Serve, Reply;
    if IsSound(input) {
      AnsweredFrames(v, measurement, input, e);
      if input[6] == 5 || input[6] == 255 {
        NotDecoded(input);
      }
      if Decoded(input).Some? {
        ReplyContents(Decoded(input).value, Perform(v, Decoded(input).value, e).1);
      }
    } else {
      RefusedFrames(v, measurement, input, e);
    }
  }

  lemma NotDecoded(input: Bytes)
    requires IsSound(input) && (input[6] == 5 || input[6] == 255)
    ensures Decoded(input).None?
  {
    DecodedByBytes(input);
    hide IsSound, Decoded;
  }

  // ---- Bytes of the answers ------------------------------------------------------------

  /** The bytes of a success: header without command and flags, status 0, the payload. */
  lemma SuccessBytes(payload: Bytes)
    ensures var d := EncodeResponse(SuccessResponse(payload));
            |d| == 17 + |payload| && d[6] == 0 && d[7] == 0 && d[16] == 0 && d[17..] == payload &&
            Announces(d, |payload| % TWO_32, Checksum(payload))
  {
    var r := SuccessResponse(payload);
    hide ToBytes, EncodeHeader, EncodeResponse, Checksum;
    EncodedResponseParts(r);
    HeaderInFrame(EncodeResponse(r), r.header);
    MagicBytes();
  }

  /** The seventeen bytes of an error. */
  lemma ErrorBytes(status: uint8)
    ensures EncodeResponse(ErrorResponse(status)) ==
            [0x4B, 0x53, 0x45, 0x4F, 1, 0, 0, 0, 0, 0, 0, 0, 0, 0, 0, 0, status]
  {
    MagicBytes();
    ZeroBytes();
    hide ToBytes;
  }

  lemma ZeroBytes()
    ensures ToBytes(0, 4) == [0, 0, 0, 0]
  {
    assert ToBytes(0, 2) == [0, 0];
  }

  /** A sound attestation request on an initialised enclave gets version, timestamp and digest. */
  lemma AttestationBytes(v: Vault, measurement: Bytes, input: Bytes, e: Entropy)
    requires IsSound(input) && input[6] == 5 && v.initialized && |measurement| == 32
    ensures var d := EncodeResponse(Serve(v, measurement, input, e).response);
            |d| == 61 && d[16] == 0 &&
            d[17..] == [1, 0, 0, 0] + [0xEF, 0xCD, 0xAB, 0x89, 0x67, 0x45, 0x23, 0x01] + measurement
  {
    hide Serve, EncodeResponse, Attest, IsSound, Decoded, SuccessResponse, Perform, Reply, Checksum, Announces;
    AnsweredFrames(v, measurement, input, e);
    NotDecoded(input);
    AttestLayout(v, measurement);
    var report := Attest(v, measurement).value;
    SuccessBytes(report);
    assert report == report[..4] + report[4..12] + report[12..];
  }
}
