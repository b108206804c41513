/**
 `EnclaveClient` (examples/client_example.cpp) and the whole stack.

 A client call encodes a request, the server parses, checks, dispatches, encrypts or decrypts,
 and answers, and the client decodes the answer. `WireCallRefines` proves that all of this amounts to
 one step of the plaintext vault, and `SessionRefines` that whole runs do.
 */
module Client {
  import opened Machine
  import opened Buffers
  import opened Crc32
  import opened Payloads
  import opened Messages
  import opened VaultModel
  import opened EnclaveModel
  import opened Server

  // ---- The client's reader -------------------------------------------------------------

  /** What the client's streaming reader makes of the bytes it receives. */
  function ReadResponse(input: Bytes): Option<Response> {
    if |input| < 17 then None
    else
      var header := DecodeHeader(input[..16]);
      if |input| < 17 + header.payloadSize then None
      else Some(Response(header, input[16], input[17..17 + header.payloadSize]))
  }

  /** The streaming reader returns `r` exactly from the streams that begin with the encoding of `r`. */
  lemma ReaderIff(input: Bytes, r: Response)
    ensures ReadResponse(input) == Some(r) <==>
            EncodeResponse(r) <= input && r.header.payloadSize == |r.payload|
  {
    EncodedResponseParts(r);
    HeaderRoundTrip(r.header);
    hide EncodeHeader, EncodeResponse, DecodeHeader;
    if ReadResponse(input) == Some(r) {
      var n := 17 + |r.payload|;
      HeaderOnto(input[..16]);
      RejoinResponse(r, input[..n]);
    }
    if EncodeResponse(r) <= input && r.header.payloadSize == |r.payload| {
      var n := 17 + |r.payload|;
      assert input[..n] == EncodeResponse(r);
      assert input[..16] == EncodeResponse(r)[..16];
      assert input[17..n] == EncodeResponse(r)[17..];
    }
  }

  /** The streaming reader and the whole-buffer decoder agree on everything the latter accepts. */
  lemma ReadersAgree(input: Bytes)
    requires DecodeResponse(input).Some?
    ensures ReadResponse(input) == DecodeResponse(input)
  {
    var r := DecodeResponse(input).value;
    ResponseFraming(input, r);
    ReaderIff(input, r);
    hide ReadResponse, DecodeResponse, EncodeResponse;
  }

  // ---- Calls ---------------------------------------------------------------------------

  function RequestFor(command: uint8, payload: Bytes): Request {
    Request(MessageHeader(MAGIC, VERSION, command, 0, |payload| % TWO_32, Checksum(payload)), payload)
  }

  function CommandOf(op: Operation): uint8 {
    match op
    case LoadOp(_) => LOAD_MODULE
    case InvokeOp(_, _, _) => INVOKE_FUNCTION
    case StoreOp(_, _) => STORE_DATA
    case RetrieveOp(_) => RETRIEVE_DATA
  }

  function PayloadOf(op: Operation): Bytes {
    match op
    case LoadOp(data) => EncodeLoad(LoadModuleRequest(data))
    case InvokeOp(handle, name, params) => EncodeInvoke(InvokeFunctionRequest(handle, name, params))
    case StoreOp(key, data) => EncodeStore(StoreDataRequest(key, data))
    case RetrieveOp(key) => EncodeRetrieve(RetrieveDataRequest(key))
  }

  /** What the client returns from a call, given the response it read; nothing means failure. */
  function Interpret(op: Operation, response: Option<Response>): Option<Answer> {
    if response.None? || response.value.status != SUCCESS then None
    else
      match op
      case LoadOp(_) =>
        var loaded := DecodeLoadResponse(response.value.payload);
        if loaded.None? then None else Some(Handle(loaded.value.moduleHandle))
      case StoreOp(_, _) => Some(Stored)
      case _ => Some(Output(response.value.payload))
  }

  /** One call through all the layers: the new vault and what the client returns. */
  function WireCall(v: Vault, measurement: Bytes, op: Operation, e: Entropy): (Vault, Option<Answer>) {
    var s := Serve(v, measurement, EncodeRequest(RequestFor(CommandOf(op), PayloadOf(op))), e);
    (s.vault, Interpret(op, ReadResponse(EncodeResponse(s.response))))
  }

  /** The bytes of a payload that its size field covers; the field is truncated to 32 bits. */
  function Announced(payload: Bytes): (prefix: Bytes)
    ensures |prefix| == |payload| % TWO_32 && prefix <= payload
  {
    payload[..|payload| % TWO_32]
  }

  /** The lengths of the call fit in 32 bits. */
  predicate IsSmall(op: Operation) { |PayloadOf(op)| < TWO_32 }

  /** No proper prefix of the payload passes for it: it is below 2^32 bytes, or the prefix is refused. */
  predicate ArrivesAsSent(op: Operation) {
    var payload := PayloadOf(op);
    IsSmall(op) || |Announced(payload)| > MAX_MESSAGE_SIZE || Checksum(Announced(payload)) != Checksum(payload)
  }

  /** Parameters longer than the payload decoder allows. */
  predicate IsOversized(op: Operation) { op.InvokeOp? && |op.params| > MAX_BYTES }

  /** The answer the plaintext machine prescribes; a failed call shows no reason. */
  function Visible(op: Operation, answer: Answer): Option<Answer> {
    if IsOversized(op) || answer.Failed? then None else Some(answer)
  }

  /** The byte of each command. */
  function CommandByte(op: Operation): uint8 {
    match op
    case LoadOp(_) => 1
    case InvokeOp(_, _, _) => 2
    case StoreOp(_, _) => 3
    case RetrieveOp(_) => 4
  }

  /** The bytes a call sends: magic, version, command, no flags, size, checksum, payload. */
  lemma CallBytes(op: Operation)
    ensures var payload := PayloadOf(op);
            var d := EncodeRequest(RequestFor(CommandOf(op), payload));
            |d| == 16 + |payload| && d[6] == CommandByte(op) && d[7] == 0 && d[16..] == payload &&
            Announces(d, |payload| % TWO_32, Checksum(payload))
  {
    var r := RequestFor(CommandOf(op), PayloadOf(op));
    hide ToBytes, EncodeHeader, Checksum, PayloadOf;
    EncodedRequestParts(r);
    HeaderParts(r.header);
    MagicBytes();
    HeaderInFrame(EncodeRequest(r), r.header);
  }

  // ---- One call ------------------------------------------------------------------------

  /**
   What the server makes of a request of any size. From 2^32 bytes on it reads a proper prefix of
   the payload, and accepts it if it happens to have the checksum of the whole.
   */
  lemma RequestOfAnySize(command: uint8, payload: Bytes)
    ensures Parse(EncodeRequest(RequestFor(command, payload))) ==
            if |Announced(payload)| <= MAX_MESSAGE_SIZE && Checksum(Announced(payload)) == Checksum(payload)
            then Accepted(RequestFor(command, payload).(payload := Announced(payload)))
            else Refused(ERROR_INVALID_PARAMS)
  {
    hide Checksum, EncodeHeader, DecodeHeader, EncodeRequest, Announced;
    var r := RequestFor(command, payload);
    EncodedRequestParts(r);
    HeaderRoundTrip(r.header);
    var n := |Announced(payload)|;
    assert EncodeRequest(r)[16..16 + n] == EncodeRequest(r)[16..][..n] == Announced(payload);
  }

  /** The server reads back exactly the request that was sent if and only if it is at most 16 MB. */
  lemma RequestArrives(command: uint8, payload: Bytes)
    ensures var sent := RequestFor(command, payload);
            Parse(EncodeRequest(sent)) == Accepted(sent) <==> |payload| <= MAX_MESSAGE_SIZE
    ensures MAX_MESSAGE_SIZE < |payload| < TWO_32 ==>
            Parse(EncodeRequest(RequestFor(command, payload))) == Refused(ERROR_INVALID_PARAMS)
  {
    hide Checksum, EncodeRequest, Parse, Announced;
    RequestOfAnySize(command, payload);
    assert |payload| < TWO_32 ==> Announced(payload) == payload;
  }

  lemma SuccessIsRead(payload: Bytes)
    requires |payload| <= TWO_32 - 18
    ensures ReadResponse(EncodeResponse(SuccessResponse(payload))) == Some(SuccessResponse(payload))
  {
    hide ReadResponse, EncodeResponse, SuccessResponse, DecodeResponse;
    SuccessIsValid(payload);
    ReadersAgree(EncodeResponse(SuccessResponse(payload)));
  }

  lemma ErrorIsRead(status: uint8)
    ensures ReadResponse(EncodeResponse(ErrorResponse(status))) == Some(ErrorResponse(status))
  {
    hide ReadResponse, EncodeResponse, ErrorResponse, DecodeResponse;
    ErrorIsValid(status);
    ReadersAgree(EncodeResponse(ErrorResponse(status)));
  }

  /** Every response of the server, in every reachable state, is read alike by both readers. */
  lemma ServerResponsesAreRead(v: Vault, measurement: Bytes, input: Bytes, e: Entropy)
    requires ContentsBounded(v) && |measurement| == 32
    ensures var r := Serve(v, measurement, input, e).response;
            ReadResponse(EncodeResponse(r)) == DecodeResponse(EncodeResponse(r)) == Some(r)
  {
    ServerResponsesAreValid(v, measurement, input, e);
    hide Serve, ReadResponse, EncodeResponse, DecodeResponse;
    ReadersAgree(EncodeResponse(Serve(v, measurement, input, e).response));
  }

  lemma RequestForParts(command: uint8, payload: Bytes)
    ensures RequestFor(command, payload).header.commandType == command
    ensures RequestFor(command, payload).payload == payload
  {}

  /** Every length-prefixed field is within what its reader accepts. */
  predicate IsReadable(op: Operation) {
    match op
    case LoadOp(data) => |data| <= MAX_BYTES
    case InvokeOp(_, name, params) => |name| <= MAX_STRING && |params| <= MAX_BYTES
    case StoreOp(key, data) => |key| <= MAX_STRING && |data| <= MAX_BYTES
    case RetrieveOp(key) => |key| <= MAX_STRING
  }

  /** The status of a call that fails: the reason inside the enclave is not passed on. */
  function RefusalStatus(op: Operation): uint8 {
    if !IsReadable(op) then ERROR_INVALID_PARAMS
    else if op.RetrieveOp? then ERROR_NOT_FOUND
    else ERROR_EXECUTION_FAILED
  }

  /** The response to a call: success with the given payload, or the error of that call. */
  function ResponseTo(op: Operation, payload: Option<Bytes>): Response {
    if payload.Some? then SuccessResponse(payload.value) else ErrorResponse(RefusalStatus(op))
  }

  lemma SmallLengths(op: Operation)
    requires IsSmall(op)
    ensures op.LoadOp? ==> |op.moduleData| < TWO_32
    ensures op.InvokeOp? ==> |op.name| < TWO_32 && |op.params| < TWO_32
    ensures op.StoreOp? ==> |op.key| < TWO_32 && |op.data| < TWO_32
    ensures op.RetrieveOp? ==> |op.key| < TWO_32
    ensures IsReadable(op) ==> |PayloadOf(op)| <= MAX_MESSAGE_SIZE
  {
    hide ToBytes;
  }

  /** The client sees success and its payload, or a failure. */
  function Delivered(op: Operation, answer: Answer): Option<Bytes> {
    if Visible(op, answer).None? then None
    else
      match answer
      case Handle(h) => Some(EncodeLoadResponse(LoadModuleResponse(h)))
      case Output(bytes) => Some(bytes)
      case Stored => Some([])
      case Failed(_) => None
  }

  lemma ServedSmallCall(v: Vault, measurement: Bytes, op: Operation, e: Entropy)
    requires IsSmall(op)
    ensures var s := Serve(v, measurement, EncodeRequest(RequestFor(CommandOf(op), PayloadOf(op))), e);
            var (w, a) := Perform(v, op, e);
            s.vault == w && s.running && s.response == ResponseTo(op, Delivered(op, a))
  {
    hide RequestFor, EncodeRequest, Parse, SuccessResponse, ErrorResponse, EncodeLoadResponse, PayloadOf;
    RequestArrives(CommandOf(op), PayloadOf(op));
    RequestForParts(CommandOf(op), PayloadOf(op));
    SmallLengths(op);
    DecodeOwnPayload(op);
    hide DecodeLoad, DecodeInvoke, DecodeStore, DecodeRetrieve;
  }

  /** A call of 2^32 bytes or more exceeds some limit, so it must fail, and refusing it is right. */
  lemma LargeCallFails(v: Vault, op: Operation, e: Entropy)
    requires !IsSmall(op)
    ensures Perform(v, op, e).0 == v && !IsReadable(op) && Delivered(op, Perform(v, op, e).1).None?
  {
    hide ToBytes;
  }

  /** The server treats each call as the plaintext vault does. */
  lemma ServedCall(v: Vault, measurement: Bytes, op: Operation, e: Entropy)
    requires ArrivesAsSent(op)
    ensures var s := Serve(v, measurement, EncodeRequest(RequestFor(CommandOf(op), PayloadOf(op))), e);
            var (w, a) := Perform(v, op, e);
            s.vault == w && s.running && s.response == ResponseTo(op, Delivered(op, a))
  {
    hide Parse, RequestFor, EncodeRequest, Checksum, PayloadOf, Perform, Delivered, ErrorResponse, SuccessResponse;
    hide Dispatch, IsReadable;
    if IsSmall(op) {
      ServedSmallCall(v, measurement, op, e);
    } else {
      RequestOfAnySize(CommandOf(op), PayloadOf(op));
      LargeCallFails(v, op, e);
    }
  }

  /** The payload of a call decodes to the call, or to nothing when a field is over its limit. */
  ghost predicate DecodesOwn(op: Operation) {
    match op
    case LoadOp(data) =>
      DecodeLoad(PayloadOf(op)) == (if IsReadable(op) then Some(LoadModuleRequest(data)) else None)
    case InvokeOp(handle, name, params) =>
      DecodeInvoke(PayloadOf(op)) ==
      (if IsReadable(op) then Some(InvokeFunctionRequest(handle, name, params)) else None)
    case StoreOp(key, data) =>
      DecodeStore(PayloadOf(op)) == (if IsReadable(op) then Some(StoreDataRequest(key, data)) else None)
    case RetrieveOp(key) =>
      DecodeRetrieve(PayloadOf(op)) == (if IsReadable(op) then Some(RetrieveDataRequest(key)) else None)
  }

  lemma DecodeOwnPayload(op: Operation)
    requires IsSmall(op)
    ensures DecodesOwn(op)
  {
    SmallLengths(op);
    hide DecodeLoad, DecodeInvoke, DecodeStore, DecodeRetrieve, EncodeLoad, EncodeInvoke, EncodeStore, EncodeRetrieve;
    match op
    case LoadOp(data) => DecodeOwnLoad(LoadModuleRequest(data));
    case InvokeOp(handle, name, params) => DecodeOwnInvoke(InvokeFunctionRequest(handle, name, params));
    case StoreOp(key, data) => DecodeOwnStore(StoreDataRequest(key, data));
    case RetrieveOp(key) => DecodeOwnRetrieve(RetrieveDataRequest(key));
  }

  lemma InterpretAnswer(op: Operation, answer: Answer)
    requires op.LoadOp? ==> answer.Handle? || answer.Failed?
    requires op.InvokeOp? || op.RetrieveOp? ==> answer.Output? || answer.Failed?
    requires op.StoreOp? ==> answer.Stored? || answer.Failed?
    requires Delivered(op, answer).Some? ==> |Delivered(op, answer).value| <= TWO_32 - 18
    ensures Interpret(op, ReadResponse(EncodeResponse(ResponseTo(op, Delivered(op, answer))))) == Visible(op, answer)
  {
    hide ReadResponse, EncodeResponse, DecodeLoadResponse, EncodeLoadResponse;
    if Delivered(op, answer).Some? {
      SuccessIsRead(Delivered(op, answer).value);
      if answer.Handle? {
        LoadResponseIff(Delivered(op, answer).value, LoadModuleResponse(answer.handle));
      }
    } else {
      ErrorIsRead(RefusalStatus(op));
    }
  }

  /**
   One call through encoding, streaming parse, checksum, dispatch and response is one step of the
   plaintext vault, and the client learns exactly its visible answer.
   */
  lemma WireCallRefines(v: Vault, measurement: Bytes, op: Operation, e: Entropy)
    requires ArrivesAsSent(op) && ContentsBounded(v)
    ensures WireCall(v, measurement, op, e) == (Perform(v, op, e).0, Visible(op, Perform(v, op, e).1))
  {
    ServedCall(v, measurement, op, e);
    var a := Perform(v, op, e).1;
    DeliveredIsShort(v, op, e);
    InterpretAnswer(op, a);
    hide Serve, Interpret, Visible, Perform, EncodeResponse, ReadResponse;
  }

  lemma DeliveredIsShort(v: Vault, op: Operation, e: Entropy)
    requires ContentsBounded(v)
    ensures var a := Perform(v, op, e).1;
            Delivered(op, a).Some? ==> |Delivered(op, a).value| <= TWO_32 - 18
    ensures op.LoadOp? ==> Perform(v, op, e).1.Handle? || Perform(v, op, e).1.Failed?
    ensures op.InvokeOp? || op.RetrieveOp? ==> Perform(v, op, e).1.Output? || Perform(v, op, e).1.Failed?
    ensures op.StoreOp? ==> Perform(v, op, e).1.Stored? || Perform(v, op, e).1.Failed?
  {
    hide ToBytes;
  }

  // ---- Whole runs ----------------------------------------------------------------------

  /** The vault after the first `n` calls of a run over the wire. */
  function WireAfter(v: Vault, measurement: Bytes, ops: seq<(Operation, Entropy)>, n: nat): Vault
    requires n <= |ops|
    decreases n
  {
    if n == 0 then v else WireCall(WireAfter(v, measurement, ops, n - 1), measurement, ops[n - 1].0, ops[n - 1].1).0
  }

  /** What the client returns from call `i` of a run over the wire. */
  function WireAnswer(v: Vault, measurement: Bytes, ops: seq<(Operation, Entropy)>, i: nat): Option<Answer>
    requires i < |ops|
  {
    WireCall(WireAfter(v, measurement, ops, i), measurement, ops[i].0, ops[i].1).1
  }

  lemma PerformKeepsBounds(v: Vault, op: Operation, e: Entropy)
    requires ContentsBounded(v)
    ensures ContentsBounded(Perform(v, op, e).0)
  {}

  lemma {:induction false} BoundedThroughout(v: Vault, ops: seq<(Operation, Entropy)>, n: nat)
    requires n <= |ops| && ContentsBounded(v)
    ensures ContentsBounded(After(v, ops, n))
    decreases n
  {
    if n != 0 {
      BoundedThroughout(v, ops, n - 1);
      PerformKeepsBounds(After(v, ops, n - 1), ops[n - 1].0, ops[n - 1].1);
    }
  }

  /**
   Over every run of calls, the whole stack is the plaintext vault: same states, and the client
   returns the visible answers. All that is proved of runs of the vault holds of the stack.
   */
  lemma {:induction false} SessionRefines(v: Vault, measurement: Bytes, ops: seq<(Operation, Entropy)>, n: nat)
    requires n <= |ops| && ContentsBounded(v)
    requires forall i | 0 <= i < |ops| :: ArrivesAsSent(ops[i].0)
    ensures WireAfter(v, measurement, ops, n) == After(v, ops, n)
    ensures n < |ops| ==> WireAnswer(v, measurement, ops, n) == Visible(ops[n].0, AnswerTo(v, ops, n))
    decreases n
  {
    hide WireCall, Perform, ArrivesAsSent, Visible;
    if n != 0 {
      SessionRefines(v, measurement, ops, n - 1);
      BoundedThroughout(v, ops, n - 1);
      WireCallRefines(After(v, ops, n - 1), measurement, ops[n - 1].0, ops[n - 1].1);
    }
    BoundedThroughout(v, ops, n);
    if n < |ops| {
      WireCallRefines(After(v, ops, n), measurement, ops[n].0, ops[n].1);
    }
  }

  /**
   What a client should see of a call on an initialised enclave whose cipher works: a store succeeds
   exactly within the size limits, a load returns the next handle, an invocation of a live module
   returns the parameters and the marker, and a retrieval returns what the vault holds.
   */
  function Promised(v: Vault, op: Operation): Option<Answer> {
    match op
    case LoadOp(data) =>
      if 1 <= |data| <= MAX_BYTES then Some(Handle((v.loads + 1) % TWO_64)) else None
    case InvokeOp(handle, name, params) =>
      if handle in v.modules && name == TEST_FUNCTION && |params| <= MAX_BYTES
      then Some(Output(params + [0x42])) else None
    case StoreOp(key, data) =>
      if 1 <= |key| <= 256 && 1 <= |data| <= MAX_BYTES then Some(Stored) else None
    case RetrieveOp(key) =>
      if 1 <= |key| <= 256 && key in v.store then Some(Output(v.store[key])) else None
  }

  lemma PromiseKept(v: Vault, op: Operation, e: Entropy)
    requires v.initialized && e.Encrypts() && e.Decrypts()
    ensures Visible(op, Perform(v, op, e).1) == Promised(v, op)
  {}

  /** At every point of every run the client sees what is promised for the vault of that moment. */
  lemma ClientSees(v: Vault, measurement: Bytes, ops: seq<(Operation, Entropy)>, i: nat)
    requires i < |ops| && ContentsBounded(v) && v.initialized
    requires forall k | 0 <= k < |ops| :: ArrivesAsSent(ops[k].0)
    requires ops[i].1.Encrypts() && ops[i].1.Decrypts()
    ensures WireAnswer(v, measurement, ops, i) == Promised(After(v, ops, i), ops[i].0)
  {
    hide WireAnswer, After, ArrivesAsSent, Perform, Visible, Promised;
    SessionRefines(v, measurement, ops, i);
    InitializedThroughout(v, ops, i);
    PromiseKept(After(v, ops, i), ops[i].0, ops[i].1);
  }

  /** A handle the client got from a load can be invoked over the wire in the rest of the session. */
  lemma LoadedHandleStaysInvocable(v: Vault, measurement: Bytes, ops: seq<(Operation, Entropy)>,
                                   i: nat, j: nat, handle: uint64)
    requires i < j < |ops| && ContentsBounded(v)
    requires forall k | 0 <= k < |ops| :: ArrivesAsSent(ops[k].0)
    requires WireAnswer(v, measurement, ops, i) == Some(Handle(handle))
    requires ops[j].0.InvokeOp? && ops[j].0.handle == handle && ops[j].0.name == TEST_FUNCTION
    requires |ops[j].0.params| <= MAX_BYTES && ops[j].1.Decrypts()
    ensures WireAnswer(v, measurement, ops, j) == Some(Output(ops[j].0.params + [0x42]))
  {
    hide WireAnswer, WireAfter, AnswerTo, After, Perform, ContentsBounded, ArrivesAsSent;
    SessionRefines(v, measurement, ops, i);
    SessionRefines(v, measurement, ops, j);
    HandleStaysInvocable(v, ops, i, j);
  }

  /** Data stored over the wire comes back over the wire until the next successful store under its key. */
  lemma StoredDataComesBack(v: Vault, measurement: Bytes, ops: seq<(Operation, Entropy)>, i: nat, j: nat)
    requires i < j < |ops| && ContentsBounded(v)
    requires forall k | 0 <= k < |ops| :: ArrivesAsSent(ops[k].0)
    requires ops[i].0.StoreOp? && WireAnswer(v, measurement, ops, i) == Some(Stored)
    requires ops[j].0.RetrieveOp? && ops[j].0.key == ops[i].0.key && ops[j].1.Decrypts()
    requires forall k | i < k < j && ops[k].0.StoreOp? && ops[k].0.key == ops[i].0.key ::
               WireAnswer(v, measurement, ops, k) != Some(Stored)
    ensures WireAnswer(v, measurement, ops, j) == Some(Output(ops[i].0.data))
  {
    hide WireAnswer, WireAfter, AnswerTo, After, Perform, ContentsBounded, ArrivesAsSent;
    SessionRefines(v, measurement, ops, i);
    SessionRefines(v, measurement, ops, j);
    forall k: nat | i < k < j
      ensures !(ops[k].0.StoreOp? && ops[k].0.key == ops[i].0.key && AnswerTo(v, ops, k).Stored?)
    {
      SessionRefines(v, measurement, ops, k);
    }
    RetrieveReturnsLastStored(v, ops, i, j);
  }

  // ---- The client as an object ---------------------------------------------------------

  /** The enclave's own invariant bounds what it stores. */
  lemma EnclaveContentsBounded(enclave: EnclaveImpl)
    requires enclave.Valid()
    ensures ContentsBounded(enclave.vault) && |enclave.crypto.cipher.measurement| == 32
  {}

  lemma CallOutcome(enclave: EnclaveImpl, op: Operation, e: Entropy)
    requires enclave.Valid() && ArrivesAsSent(op)
    ensures var s := Serve(enclave.vault, enclave.crypto.cipher.measurement,
                           EncodeRequest(RequestFor(CommandOf(op), PayloadOf(op))), e);
            s.vault == Perform(enclave.vault, op, e).0 && s.running &&
            Interpret(op, ReadResponse(EncodeResponse(s.response))) == Visible(op, Perform(enclave.vault, op, e).1)
  {
    hide Serve, EncodeRequest, EncodeResponse, ReadResponse, RequestFor, ArrivesAsSent, Perform, Visible, Interpret;
    EnclaveContentsBounded(enclave);
    WireCallRefines(enclave.vault, enclave.crypto.cipher.measurement, op, e);
    ServedCall(enclave.vault, enclave.crypto.cipher.measurement, op, e);
  }

  class EnclaveClient {
    var connected: bool

    constructor ()
      ensures !connected
    {
      connected := false;
    }

    /** Connecting succeeds while the server is in its accept loop. */
    method Connect(server: EnclaveServer) returns (ok: bool)
      modifies this
      ensures ok == connected == server.running
    {
      connected := server.running;
      return connected;
    }

    /** Send a request on a fresh connection, let the server answer it, read the response. */
    method SendRequest(server: EnclaveServer, request: Request, e: Entropy) returns (response: Option<Response>)
      requires server.enclave.Valid() && (connected ==> server.running)
      modifies server, server.enclave
      ensures server.enclave.Valid()
      ensures !connected ==> response == None && server.enclave.vault == old(server.enclave.vault) &&
                             server.running == old(server.running)
      ensures connected ==>
              var s := Serve(old(server.enclave.vault), server.enclave.crypto.cipher.measurement,
                             EncodeRequest(request), e);
              server.enclave.vault == s.vault && server.running == s.running &&
              response == ReadResponse(EncodeResponse(s.response))
    {
      hide EncodeRequest, EncodeResponse, Serve, ReadResponse;
      if !connected {
        return None;
      }
      var data := SerializeRequest(request);
      var socket := new Connection(data);
      server.HandleClient(socket, e);
      assert socket.outgoing == EncodeResponse(Serve(old(server.enclave.vault),
                                                     server.enclave.crypto.cipher.measurement,
                                                     EncodeRequest(request), e).response);
      var stream := new Connection(socket.outgoing);
      response := ReceiveResponse(stream);
    }

    /** Read header, status byte and payload from the stream. */
    method ReceiveResponse(stream: Connection) returns (response: Option<Response>)
      modifies stream
      ensures response == ReadResponse(old(stream.incoming))
    {
      hide DecodeHeader;
      ghost var sent := stream.incoming;
      var headerBuf := stream.Receive(16);
      if |headerBuf| != 16 {
        return None;
      }
      var header := DeserializeHeader(headerBuf);
      var statusByte := stream.Receive(1);
      if |statusByte| != 1 {
        return None;
      }
      var payload: Bytes := [];
      if header.value.payloadSize > 0 {
        payload := stream.Receive(header.value.payloadSize);
        if |payload| != header.value.payloadSize {
          return None;
        }
      }
      assert payload == sent[17..17 + header.value.payloadSize];
      return Some(Response(header.value, statusByte[0], payload));
    }

    method BuildRequest(command: uint8, payload: Bytes) returns (request: Request)
      ensures request == RequestFor(command, payload)
    {
      hide Checksum;
      var checksum := CalculateCRC32(payload);
      return Request(MessageHeader(MAGIC, VERSION, command, 0, |payload| % TWO_32, checksum), payload);
    }

    method LoadModule(server: EnclaveServer, moduleData: Bytes, e: Entropy) returns (ok: bool, handle: uint64)
      requires server.enclave.Valid() && (connected ==> server.running) && ArrivesAsSent(LoadOp(moduleData))
      modifies server, server.enclave
      ensures server.enclave.Valid() && server.running == old(server.running)
      ensures !connected ==> !ok && server.enclave.vault == old(server.enclave.vault)
      ensures connected ==>
              var (w, r) := Load(old(server.enclave.vault), moduleData, e);
              server.enclave.vault == w && ok == r.Ok? && (ok ==> handle == r.value)
    {
      hide Serve, EncodeRequest, EncodeResponse, ReadResponse, RequestFor, ArrivesAsSent, DecodeLoadResponse;
      hide EncodeLoad, EncodeInvoke, EncodeStore, EncodeRetrieve;
      CallOutcome(server.enclave, LoadOp(moduleData), e);
      var payload := SerializeLoad(LoadModuleRequest(moduleData));
      var request := BuildRequest(LOAD_MODULE, payload);
      var response := SendRequest(server, request, e);
      if response.None? || response.value.status != SUCCESS {
        return false, 0;
      }
      var loaded := DeserializeLoadResponse(response.value.payload);
      if loaded.None? {
        return false, 0;
      }
      return true, loaded.value.moduleHandle;
    }

    method InvokeFunction(server: EnclaveServer, moduleHandle: uint64, functionName: Bytes, params: Bytes, e: Entropy)
      returns (ok: bool, output: Bytes)
      requires server.enclave.Valid() && (connected ==> server.running)
      requires ArrivesAsSent(InvokeOp(moduleHandle, functionName, params))
      modifies server, server.enclave
      ensures server.enclave.Valid() && server.running == old(server.running)
      ensures server.enclave.vault == old(server.enclave.vault)
      ensures var r := Invoke(server.enclave.vault, moduleHandle, functionName, params, e);
              ok == (connected && r.Ok? && |params| <= MAX_BYTES) && (ok ==> output == r.value)
    {
      hide Serve, EncodeRequest, EncodeResponse, ReadResponse, RequestFor, ArrivesAsSent, DecodeLoadResponse;
      hide EncodeLoad, EncodeInvoke, EncodeStore, EncodeRetrieve;
      CallOutcome(server.enclave, InvokeOp(moduleHandle, functionName, params), e);
      var payload := SerializeInvoke(InvokeFunctionRequest(moduleHandle, functionName, params));
      var request := BuildRequest(INVOKE_FUNCTION, payload);
      var response := SendRequest(server, request, e);
      if response.None? || response.value.status != SUCCESS {
        return false, [];
      }
      return true, response.value.payload;
    }

    method StoreData(server: EnclaveServer, key: Bytes, data: Bytes, e: Entropy) returns (ok: bool)
      requires server.enclave.Valid() && (connected ==> server.running) && ArrivesAsSent(StoreOp(key, data))
      modifies server, server.enclave
      ensures server.enclave.Valid() && server.running == old(server.running)
      ensures !connected ==> !ok && server.enclave.vault == old(server.enclave.vault)
      ensures connected ==>
              var (w, r) := Store(old(server.enclave.vault), key, data, e);
              server.enclave.vault == w && ok == r.Ok?
    {
      hide Serve, EncodeRequest, EncodeResponse, ReadResponse, RequestFor, ArrivesAsSent, DecodeLoadResponse;
      hide EncodeLoad, EncodeInvoke, EncodeStore, EncodeRetrieve;
      CallOutcome(server.enclave, StoreOp(key, data), e);
      var payload := SerializeStore(StoreDataRequest(key, data));
      var request := BuildRequest(STORE_DATA, payload);
      var response := SendRequest(server, request, e);
      return response.Some? && response.value.status == SUCCESS;
    }

    method RetrieveData(server: EnclaveServer, key: Bytes, e: Entropy) returns (ok: bool, data: Bytes)
      requires server.enclave.Valid() && (connected ==> server.running) && ArrivesAsSent(RetrieveOp(key))
      modifies server, server.enclave
      ensures server.enclave.Valid() && server.running == old(server.running)
      ensures server.enclave.vault == old(server.enclave.vault)
      ensures var r := Retrieve(server.enclave.vault, key, e);
              ok == (connected && r.Ok?) && (ok ==> data == r.value)
    {
      hide Serve, EncodeRequest, EncodeResponse, ReadResponse, RequestFor, ArrivesAsSent, DecodeLoadResponse;
      hide EncodeLoad, EncodeInvoke, EncodeStore, EncodeRetrieve;
      CallOutcome(server.enclave, RetrieveOp(key), e);
      var payload := SerializeRetrieve(RetrieveDataRequest(key));
      var request := BuildRequest(RETRIEVE_DATA, payload);
      var response := SendRequest(server, request, e);
      if response.None? || response.value.status != SUCCESS {
        return false, [];
      }
      return true, response.value.payload;
    }

    /** One client call of any kind. */
    method Call(server: EnclaveServer, op: Operation, e: Entropy) returns (answer: Option<Answer>)
      requires server.enclave.Valid() && server.running && connected && ArrivesAsSent(op)
      modifies server, server.enclave
      ensures server.enclave.Valid() && server.running
      ensures var (w, a) := Perform(old(server.enclave.vault), op, e);
              server.enclave.vault == w && answer == Visible(op, a)
    {
      hide ArrivesAsSent;
      match op
      case LoadOp(moduleData) =>
        var ok, handle := LoadModule(server, moduleData, e);
        return if ok then Some(Handle(handle)) else None;
      case InvokeOp(handle, name, params) =>
        var ok, output := InvokeFunction(server, handle, name, params, e);
        return if ok then Some(Output(output)) else None;
      case StoreOp(key, data) =>
        var ok := StoreData(server, key, data, e);
        return if ok then Some(Stored) else None;
      case RetrieveOp(key) =>
        var ok, data := RetrieveData(server, key, e);
        return if ok then Some(Output(data)) else None;
    }

    /** A run of calls, each on its own connection, returns what the plaintext vault prescribes. */
    method Session(server: EnclaveServer, ops: seq<(Operation, Entropy)>) returns (answers: seq<Option<Answer>>)
      requires server.enclave.Valid() && server.running
      requires forall i | 0 <= i < |ops| :: ArrivesAsSent(ops[i].0)
      modifies this, server, server.enclave
      ensures server.enclave.Valid() && server.running
      ensures server.enclave.vault == After(old(server.enclave.vault), ops, |ops|)
      ensures |answers| == |ops|
      ensures forall i | 0 <= i < |ops| ::
                answers[i] == Visible(ops[i].0, AnswerTo(old(server.enclave.vault), ops, i))
    {
      hide Perform, Visible, ArrivesAsSent;
      answers := [];
      for i := 0 to |ops|
        invariant server.enclave.Valid() && server.running
        invariant server.enclave.vault == After(old(server.enclave.vault), ops, i)
        invariant |answers| == i
        invariant forall k | 0 <= k < i :: answers[k] == Visible(ops[k].0, AnswerTo(old(server.enclave.vault), ops, k))
      {
        var ok := Connect(server);
        var answer := Call(server, ops[i].0, ops[i].1);
        answers := answers + [answer];
      }
    }
  }
}
