/**
 `EnclaveServer` (src/server/server.cpp): parse a byte stream, validate, dispatch, answer.

 `Serve` says what one connection does to the vault and which response it gets. `ParseIff` proves
 that the streaming parser dispatches exactly the requests that the whole-buffer decoder accepts, and
 `ServerResponsesAreValid` that every response, success or error, is one the client reads back.
 */
module Server {
  import opened Machine
  import opened Buffers
  import opened Crc32
  import opened Payloads
  import opened Messages
  import opened VaultModel
  import opened EnclaveModel

  const MAX_MESSAGE_SIZE: nat := 16 * 1024 * 1024

  const LOAD_MODULE: uint8 := 1
  const INVOKE_FUNCTION: uint8 := 2
  const STORE_DATA: uint8 := 3
  const RETRIEVE_DATA: uint8 := 4
  const GET_ATTESTATION: uint8 := 5
  const SHUTDOWN: uint8 := 255

  const SUCCESS: uint8 := 0
  const ERROR_INVALID_COMMAND: uint8 := 1
  const ERROR_INVALID_PARAMS: uint8 := 2
  const ERROR_EXECUTION_FAILED: uint8 := 3
  const ERROR_NOT_FOUND: uint8 := 4
  const ERROR_INTERNAL: uint8 := 255

  // ---- Responses -----------------------------------------------------------------------

  function SuccessResponse(payload: Bytes): Response {
    Response(MessageHeader(MAGIC, VERSION, 0, 0, |payload| % TWO_32, Checksum(payload)), SUCCESS, payload)
  }

  function ErrorResponse(status: uint8): Response {
    Response(MessageHeader(MAGIC, VERSION, 0, 0, 0, 0), status, [])
  }

  // ---- Requests ------------------------------------------------------------------------

  datatype Incoming = Refused(status: uint8) | Accepted(request: Request)

  /** What the server makes of the bytes a client sends. */
  function Parse(input: Bytes): Incoming {
    if |input| < 16 then Refused(ERROR_INVALID_COMMAND)
    else
      var header := DecodeHeader(input[..16]);
      if header.magic != MAGIC || header.version != VERSION then Refused(ERROR_INVALID_COMMAND)
      else if header.payloadSize > MAX_MESSAGE_SIZE then Refused(ERROR_INVALID_PARAMS)
      else if |input| < 16 + header.payloadSize then Refused(ERROR_INVALID_PARAMS)
      else
        var request := Request(header, input[16..16 + header.payloadSize]);
        if !IsValidRequest(request) then Refused(ERROR_INVALID_PARAMS) else Accepted(request)
  }

  /** The new vault, whether the server keeps running, and the response. */
  datatype Service = Service(vault: Vault, running: bool, response: Response)

  function Dispatch(v: Vault, measurement: Bytes, request: Request, e: Entropy): Service {
    var command := request.header.commandType;
    if command == LOAD_MODULE then
      var req := DecodeLoad(request.payload);
      if req.None? then Service(v, true, ErrorResponse(ERROR_INVALID_PARAMS))
      else
        var (w, r) := Load(v, req.value.moduleData, e);
        Service(w, true, if r.Error? then ErrorResponse(ERROR_EXECUTION_FAILED)
                         else SuccessResponse(EncodeLoadResponse(LoadModuleResponse(r.value))))
    else if command == INVOKE_FUNCTION then
      var req := DecodeInvoke(request.payload);
      if req.None? then Service(v, true, ErrorResponse(ERROR_INVALID_PARAMS))
      else
        var r := Invoke(v, req.value.moduleHandle, req.value.functionName, req.value.params, e);
        Service(v, true, if r.Error? then ErrorResponse(ERROR_EXECUTION_FAILED) else SuccessResponse(r.value))
    else if command == STORE_DATA then
      var req := DecodeStore(request.payload);
      if req.None? then Service(v, true, ErrorResponse(ERROR_INVALID_PARAMS))
      else
        var (w, r) := Store(v, req.value.key, req.value.data, e);
        Service(w, true, if r.Error? then ErrorResponse(ERROR_EXECUTION_FAILED) else SuccessResponse([]))
    else if command == RETRIEVE_DATA then
      var req := DecodeRetrieve(request.payload);
      if req.None? then Service(v, true, ErrorResponse(ERROR_INVALID_PARAMS))
      else
        var r := Retrieve(v, req.value.key, e);
        Service(v, true, if r.Error? then ErrorResponse(ERROR_NOT_FOUND) else SuccessResponse(r.value))
    else if command == GET_ATTESTATION then
      var r := Attest(v, measurement);
      Service(v, true, if r.Error? then ErrorResponse(ERROR_INTERNAL) else SuccessResponse(r.value))
    else if command == SHUTDOWN then
      Service(v, false, SuccessResponse([]))
    else
      Service(v, true, ErrorResponse(ERROR_INVALID_COMMAND))
  }

  function Serve(v: Vault, measurement: Bytes, input: Bytes, e: Entropy): Service {
    match Parse(input)
    case Refused(status) => Service(v, true, ErrorResponse(status))
    case Accepted(request) => Dispatch(v, measurement, request, e)
  }

  // ---- The server ----------------------------------------------------------------------

  /** One end of a stream socket: the bytes still to be received, and those sent. */
  class Connection {
    var incoming: Bytes
    var outgoing: Bytes

    constructor (input: Bytes)
      ensures incoming == input && outgoing == []
    {
      incoming := input;
      outgoing := [];
    }

    /** Full delivery: a receive gets all it asks for unless the peer has sent less. */
    method Receive(size: nat) returns (chunk: Bytes)
      modifies this
      ensures chunk == if size <= |old(incoming)| then old(incoming)[..size] else old(incoming)
      ensures incoming == old(incoming)[|chunk|..] && outgoing == old(outgoing)
    {
      var n := if size <= |incoming| then size else |incoming|;
      chunk := incoming[..n];
      incoming := incoming[n..];
    }

    method Send(data: Bytes)
      modifies this
      ensures outgoing == old(outgoing) + data && incoming == old(incoming)
    {
      outgoing := outgoing + data;
    }
  }

  class EnclaveServer {
    const enclave: EnclaveImpl
    var running: bool

    constructor (enclave: EnclaveImpl)
      ensures this.enclave == enclave && !running
    {
      this.enclave := enclave;
      running := false;
    }

    method HandleClient(client: Connection, e: Entropy)
      requires enclave.Valid()
      modifies this, enclave, client
      ensures enclave.Valid()
      ensures var s := Serve(old(enclave.vault), enclave.crypto.cipher.measurement, old(client.incoming), e);
              enclave.vault == s.vault && running == (old(running) && s.running) &&
              client.outgoing == old(client.outgoing) + EncodeResponse(s.response)
    {
      hide DecodeHeader, EncodeResponse, IsValidRequest, Dispatch, ErrorResponse;
      ghost var input := client.incoming;
      var headerBuf := client.Receive(16);
      if |headerBuf| != 16 {
        SendErrorResponse(client, ERROR_INVALID_COMMAND);
        return;
      }
      var header := DeserializeHeader(headerBuf);
      assert header.Some?;  // sixteen bytes always parse, so the error branch for it is never taken
      if header.value.magic != MAGIC || header.value.version != VERSION {
        SendErrorResponse(client, ERROR_INVALID_COMMAND);
        return;
      }
      if header.value.payloadSize > MAX_MESSAGE_SIZE {
        SendErrorResponse(client, ERROR_INVALID_PARAMS);
        return;
      }
      var payload: Bytes := [];
      if header.value.payloadSize > 0 {
        payload := client.Receive(header.value.payloadSize);
        if |payload| != header.value.payloadSize {
          SendErrorResponse(client, ERROR_INVALID_PARAMS);
          return;
        }
      }
      var request := Request(header.value, payload);
      assert payload == input[16..16 + header.value.payloadSize];
      var valid := ValidateRequest(request);
      if !valid {
        SendErrorResponse(client, ERROR_INVALID_PARAMS);
        return;
      }
      assert Parse(input) == Accepted(request);
      DispatchCommand(client, request, e);
    }

    method DispatchCommand(client: Connection, request: Request, e: Entropy)
      requires enclave.Valid()
      modifies this, enclave, client
      ensures enclave.Valid()
      ensures var s := Dispatch(old(enclave.vault), enclave.crypto.cipher.measurement, request, e);
              enclave.vault == s.vault && running == (old(running) && s.running) &&
              client.outgoing == old(client.outgoing) + EncodeResponse(s.response)
    {
      hide EncodeResponse, SuccessResponse, ErrorResponse, Load, Invoke, Store, Retrieve, Attest;
      match request.header.commandType
      case 1 => HandleLoadModule(client, request, e);
      case 2 => HandleInvokeFunction(client, request, e);
      case 3 => HandleStoreData(client, request, e);
      case 4 => HandleRetrieveData(client, request, e);
      case 5 => HandleGetAttestation(client);
      case 255 => HandleShutdown(client);
      case _ => SendErrorResponse(client, ERROR_INVALID_COMMAND);
    }

    method HandleLoadModule(client: Connection, request: Request, e: Entropy)
      requires enclave.Valid() && request.header.commandType == LOAD_MODULE
      modifies enclave, client
      ensures enclave.Valid()
      ensures var s := Dispatch(old(enclave.vault), enclave.crypto.cipher.measurement, request, e);
              enclave.vault == s.vault && s.running &&
              client.outgoing == old(client.outgoing) + EncodeResponse(s.response)
    {
      hide EncodeResponse, SuccessResponse, ErrorResponse, Load, DecodeLoad, EncodeLoadResponse;
      var req := DeserializeLoad(request.payload);
      if req.None? {
        SendErrorResponse(client, ERROR_INVALID_PARAMS);
        return;
      }
      var result := enclave.LoadModule(req.value.moduleData, e);
      if result.Error? {
        SendErrorResponse(client, ERROR_EXECUTION_FAILED);
        return;
      }
      var payload := SerializeLoadResponse(LoadModuleResponse(result.value));
      SendSuccessResponse(client, payload);
    }

    method HandleInvokeFunction(client: Connection, request: Request, e: Entropy)
      requires enclave.Valid() && request.header.commandType == INVOKE_FUNCTION
      modifies client
      ensures var s := Dispatch(enclave.vault, enclave.crypto.cipher.measurement, request, e);
              enclave.vault == s.vault && s.running &&
              client.outgoing == old(client.outgoing) + EncodeResponse(s.response)
    {
      hide EncodeResponse, SuccessResponse, ErrorResponse, Invoke, DecodeInvoke;
      var req := DeserializeInvoke(request.payload);
      if req.None? {
        SendErrorResponse(client, ERROR_INVALID_PARAMS);
        return;
      }
      var result := enclave.InvokeFunction(req.value.moduleHandle, req.value.functionName, req.value.params, e);
      if result.Error? {
        SendErrorResponse(client, ERROR_EXECUTION_FAILED);
        return;
      }
      SendSuccessResponse(client, result.value);
    }

    method HandleStoreData(client: Connection, request: Request, e: Entropy)
      requires enclave.Valid() && request.header.commandType == STORE_DATA
      modifies enclave, client
      ensures enclave.Valid()
      ensures var s := Dispatch(old(enclave.vault), enclave.crypto.cipher.measurement, request, e);
              enclave.vault == s.vault && s.running &&
              client.outgoing == old(client.outgoing) + EncodeResponse(s.response)
    {
      hide EncodeResponse, SuccessResponse, ErrorResponse, Store, DecodeStore;
      var req := DeserializeStore(request.payload);
      if req.None? {
        SendErrorResponse(client, ERROR_INVALID_PARAMS);
        return;
      }
      var result := enclave.StoreData(req.value.key, req.value.data, e);
      if result.Error? {
        SendErrorResponse(client, ERROR_EXECUTION_FAILED);
        return;
      }
      SendSuccessResponse(client, []);
    }

    method HandleRetrieveData(client: Connection, request: Request, e: Entropy)
      requires enclave.Valid() && request.header.commandType == RETRIEVE_DATA
      modifies client
      ensures var s := Dispatch(enclave.vault, enclave.crypto.cipher.measurement, request, e);
              enclave.vault == s.vault && s.running &&
              client.outgoing == old(client.outgoing) + EncodeResponse(s.response)
    {
      hide EncodeResponse, SuccessResponse, ErrorResponse, Retrieve, DecodeRetrieve;
      var req := DeserializeRetrieve(request.payload);
      if req.None? {
        SendErrorResponse(client, ERROR_INVALID_PARAMS);
        return;
      }
      var result := enclave.RetrieveData(req.value.key, e);
      if result.Error? {
        SendErrorResponse(client, ERROR_NOT_FOUND);
        return;
      }
      SendSuccessResponse(client, result.value);
    }

    method HandleGetAttestation(client: Connection)
      requires enclave.Valid()
      modifies client
      ensures var r := Attest(enclave.vault, enclave.crypto.cipher.measurement);
              client.outgoing == old(client.outgoing) + EncodeResponse(
                if r.Error? then ErrorResponse(ERROR_INTERNAL) else SuccessResponse(r.value))
    {
      hide EncodeResponse, SuccessResponse, ErrorResponse, Attest;
      var result := enclave.GetAttestation();
      if result.Error? {
        SendErrorResponse(client, ERROR_INTERNAL);
        return;
      }
      SendSuccessResponse(client, result.value);
    }

    method HandleShutdown(client: Connection)
      modifies `running, client
      ensures !running
      ensures client.outgoing == old(client.outgoing) + EncodeResponse(SuccessResponse([]))
    {
      SendSuccessResponse(client, []);
      running := false;
    }

    method SendSuccessResponse(client: Connection, payload: Bytes)
      modifies client
      ensures client.outgoing == old(client.outgoing) + EncodeResponse(SuccessResponse(payload))
    {
      hide EncodeResponse, Checksum;
      var checksum := CalculateCRC32(payload);
      var header := MessageHeader(MAGIC, VERSION, 0, 0, |payload| % TWO_32, checksum);
      var data := SerializeResponse(Response(header, SUCCESS, payload));
      client.Send(data);
    }

    method SendErrorResponse(client: Connection, status: uint8)
      modifies client
      ensures client.outgoing == old(client.outgoing) + EncodeResponse(ErrorResponse(status))
    {
      hide EncodeResponse;
      var header := MessageHeader(MAGIC, VERSION, 0, 0, 0, 0);
      var data := SerializeResponse(Response(header, status, []));
      client.Send(data);
    }

    /** One entry per `accept`: nothing for a failed one, else what the client sends. */
    method Run(accepts: seq<Accept>) returns (outputs: seq<Bytes>, handled: nat)
      requires enclave.Valid()
      modifies this, enclave
      ensures enclave.Valid()
      ensures var r := RunLoop(old(enclave.vault), true, enclave.crypto.cipher.measurement, accepts);
              enclave.vault == r.vault && running == r.running && handled == r.handled &&
              outputs == EncodeAll(r.responses)
    {
      hide Serve, EncodeResponse, EncodeAll, RunLoop, Continue;
      RunLoopEnds(enclave.vault, true, enclave.crypto.cipher.measurement, accepts);
      ghost var measurement := enclave.crypto.cipher.measurement;
      ghost var start := enclave.vault;
      ghost var sent: seq<Response> := [];
      running := true;
      outputs := [];
      handled := 0;
      while running && handled < |accepts|
        invariant enclave.Valid() && handled <= |accepts|
        invariant outputs == EncodeAll(sent)
        invariant RunLoop(start, true, measurement, accepts) ==
                  Continue(sent, handled, RunLoop(enclave.vault, running, measurement, accepts[handled..]))
        decreases |accepts| - handled
      {
        RunLoopUnfold(enclave.vault, measurement, accepts, handled);
        if accepts[handled].FailedAccept? {
          ContinueTwice(sent, handled, [], RunLoop(enclave.vault, true, measurement, accepts[handled + 1..]));
          handled := handled + 1;
          continue;
        }
        ghost var s := Serve(enclave.vault, measurement, accepts[handled].input, accepts[handled].entropy);
        var client := new Connection(accepts[handled].input);
        HandleClient(client, accepts[handled].entropy);
        assert client.outgoing == EncodeResponse(s.response);
        EncodeAllSnoc(sent, s.response);
        ContinueTwice(sent, handled, [s.response],
                      RunLoop(s.vault, s.running, measurement, accepts[handled + 1..]));
        outputs := outputs + [client.outgoing];
        sent := sent + [s.response];
        handled := handled + 1;
      }
      RunLoopEnds(enclave.vault, running, measurement, accepts[handled..]);
      ContinueWithNothing(sent, handled, enclave.vault, running);
    }
  }

  // ---- Runs ----------------------------------------------------------------------------

  datatype Accept = FailedAccept | Accepting(input: Bytes, entropy: Entropy)

  /** The end of a run: final vault, whether still running, the responses sent, the accepts consumed. */
  datatype Outcome = Outcome(vault: Vault, running: bool, responses: seq<Response>, handled: nat)

  function Continue(sent: seq<Response>, handled: nat, rest: Outcome): Outcome {
    rest.(responses := sent + rest.responses, handled := handled + rest.handled)
  }

  function RunLoop(v: Vault, running: bool, measurement: Bytes, accepts: seq<Accept>): Outcome
    decreases |accepts|
  {
    if !running || accepts == [] then Outcome(v, running, [], 0)
    else
      match accepts[0]
      case FailedAccept => Continue([], 1, RunLoop(v, true, measurement, accepts[1..]))
      case Accepting(input, e) =>
        var s := Serve(v, measurement, input, e);
        Continue([s.response], 1, RunLoop(s.vault, s.running, measurement, accepts[1..]))
  }

  lemma RunLoopUnfold(v: Vault, measurement: Bytes, accepts: seq<Accept>, k: nat)
    requires k < |accepts|
    ensures RunLoop(v, true, measurement, accepts[k..]) ==
            match accepts[k]
            case FailedAccept => Continue([], 1, RunLoop(v, true, measurement, accepts[k + 1..]))
            case Accepting(input, e) =>
              var s := Serve(v, measurement, input, e);
              Continue([s.response], 1, RunLoop(s.vault, s.running, measurement, accepts[k + 1..]))
  {
    hide Serve, Continue;
    assert accepts[k..][1..] == accepts[k + 1..];
  }

  lemma RunLoopEnds(v: Vault, running: bool, measurement: Bytes, accepts: seq<Accept>)
    ensures !running || accepts == [] ==> RunLoop(v, running, measurement, accepts) == Outcome(v, running, [], 0)
    ensures Continue([], 0, RunLoop(v, running, measurement, accepts)) == RunLoop(v, running, measurement, accepts)
    ensures accepts[0..] == accepts && EncodeAll([]) == []
  {
    hide Serve;
  }

  lemma ContinueTwice(sent: seq<Response>, handled: nat, more: seq<Response>, rest: Outcome)
    ensures Continue(sent, handled, Continue(more, 1, rest)) == Continue(sent + more, handled + 1, rest)
    ensures sent + [] == sent
  {}

  lemma ContinueWithNothing(sent: seq<Response>, handled: nat, v: Vault, running: bool)
    ensures Continue(sent, handled, Outcome(v, running, [], 0)) == Outcome(v, running, sent, handled)
  {}

  function EncodeAll(responses: seq<Response>): seq<Bytes> {
    seq(|responses|, i requires 0 <= i < |responses| => EncodeResponse(responses[i]))
  }

  lemma EncodeAllSnoc(responses: seq<Response>, r: Response)
    ensures EncodeAll(responses + [r]) == EncodeAll(responses) + [EncodeResponse(r)]
  {
    hide EncodeResponse;
  }

  /** A valid request to shut down. */
  predicate IsShutdown(a: Accept) {
    a.Accepting? && Parse(a.input).Accepted? && Parse(a.input).request.header.commandType == SHUTDOWN
  }

  function CountAccepted(accepts: seq<Accept>): nat
    decreases |accepts|
  {
    if accepts == [] then 0 else (if accepts[0].Accepting? then 1 else 0) + CountAccepted(accepts[1..])
  }

  lemma RunningUnlessShutdown(v: Vault, measurement: Bytes, a: Accept)
    requires a.Accepting?
    ensures Serve(v, measurement, a.input, a.entropy).running <==> !IsShutdown(a)
  {
    hide Parse, Load, Invoke, Store, Retrieve, Attest, DecodeLoad, DecodeInvoke, DecodeStore, DecodeRetrieve;
  }

  /**
   The loop consumes exactly the shortest prefix that ends in a valid shutdown, or everything when
   there is none, and sends exactly one response per accepted connection in it.
   */
  lemma {:induction false} RunAccounting(v: Vault, measurement: Bytes, accepts: seq<Accept>)
    ensures var r := RunLoop(v, true, measurement, accepts);
            r.handled <= |accepts| &&
            (forall i | 0 <= i < r.handled - 1 :: !IsShutdown(accepts[i])) &&
            (r.running ==> r.handled == |accepts| && forall i | 0 <= i < |accepts| :: !IsShutdown(accepts[i])) &&
            (!r.running ==> 0 < r.handled && IsShutdown(accepts[r.handled - 1])) &&
            |r.responses| == CountAccepted(accepts[..r.handled])
    decreases |accepts|
  {
    hide Serve, IsShutdown;
    if accepts != [] {
      var a, rest := accepts[0], accepts[1..];
      if a.FailedAccept? {
        RunAccounting(v, measurement, rest);
        PrefixOfTail(accepts, RunLoop(v, true, measurement, rest).handled);
        FailedIsNoShutdown(a);
      } else {
        RunningUnlessShutdown(v, measurement, a);
        var s := Serve(v, measurement, a.input, a.entropy);
        if s.running {
          RunAccounting(s.vault, measurement, rest);
        }
        PrefixOfTail(accepts, RunLoop(s.vault, s.running, measurement, rest).handled);
      }
    }
  }

  lemma FailedIsNoShutdown(a: Accept)
    requires a.FailedAccept?
    ensures !IsShutdown(a)
  {}

  lemma PrefixOfTail(accepts: seq<Accept>, n: nat)
    requires 0 < |accepts| && n < |accepts|
    ensures accepts[..n + 1][1..] == accepts[1..][..n]
    ensures CountAccepted(accepts[..n + 1]) ==
            (if accepts[0].Accepting? then 1 else 0) + CountAccepted(accepts[1..][..n])
  {
    assert accepts[..n + 1][1..] == accepts[1..][..n];
  }

  // ---- Rejected requests ---------------------------------------------------------------

  /** A response other than success means that nothing changed. */
  lemma RejectedIsNoOp(v: Vault, measurement: Bytes, input: Bytes, e: Entropy)
    ensures var s := Serve(v, measurement, input, e);
            s.response.status != SUCCESS ==> s.vault == v && s.running
  {
    hide Parse, Invoke, Retrieve, Attest, DecodeLoad, DecodeInvoke, DecodeStore, DecodeRetrieve, Checksum;
  }

  /** The accepts of a run that were answered with success. */
  function Successful(v: Vault, running: bool, measurement: Bytes, accepts: seq<Accept>): seq<Accept>
    decreases |accepts|
  {
    if !running || accepts == [] then []
    else
      match accepts[0]
      case FailedAccept => Successful(v, true, measurement, accepts[1..])
      case Accepting(input, e) =>
        var s := Serve(v, measurement, input, e);
        (if s.response.status == SUCCESS then [accepts[0]] else []) +
        Successful(s.vault, s.running, measurement, accepts[1..])
  }

  function SuccessesOf(responses: seq<Response>): seq<Response>
    decreases |responses|
  {
    if responses == [] then []
    else (if responses[0].status == SUCCESS then [responses[0]] else []) + SuccessesOf(responses[1..])
  }

  /**
   Deleting every failed accept and every rejected connection from a run leaves the final vault,
   the running flag and all remaining responses as they were.
   */
  lemma {:induction false} RejectedCanBeDeleted(v: Vault, running: bool, measurement: Bytes, accepts: seq<Accept>)
    ensures var r := RunLoop(v, running, measurement, accepts);
            var kept := Successful(v, running, measurement, accepts);
            RunLoop(v, running, measurement, kept) ==
            Outcome(r.vault, r.running, SuccessesOf(r.responses), |kept|)
    decreases |accepts|
  {
    hide Serve;
    if running && accepts != [] {
      var a, rest := accepts[0], accepts[1..];
      if a.FailedAccept? {
        RejectedCanBeDeleted(v, true, measurement, rest);
        assert [] + RunLoop(v, true, measurement, rest).responses == RunLoop(v, true, measurement, rest).responses;
      } else {
        RejectedIsNoOp(v, measurement, a.input, a.entropy);
        var s := Serve(v, measurement, a.input, a.entropy);
        RejectedCanBeDeleted(s.vault, s.running, measurement, rest);
        var later := Successful(s.vault, s.running, measurement, rest);
        var all := RunLoop(s.vault, s.running, measurement, rest);
        assert ([s.response] + all.responses)[1..] == all.responses;
        assert [] + later == later;
        if s.response.status == SUCCESS {
          assert ([a] + later)[1..] == later;
        }
      }
    }
  }

  // ---- Parsing -------------------------------------------------------------------------

  /**
   The streaming parser accepts request `r` exactly when the first 16 + payload_size bytes
   deserialise to `r`, `r` validates, and its payload is within 16 MB.
   */
  lemma ParseIff(input: Bytes, r: Request)
    ensures Parse(input) == Accepted(r) <==>
            16 <= |input| &&
            var n := 16 + DecodeHeader(input[..16]).payloadSize;
            n <= |input| && n <= 16 + MAX_MESSAGE_SIZE &&
            DecodeRequest(input[..n]) == Some(r) && IsValidRequest(r)
  {
    hide DecodeHeader, Checksum;
    if 16 <= |input| {
      var n := 16 + DecodeHeader(input[..16]).payloadSize;
      if n <= |input| {
        assert input[..n][..16] == input[..16];
        assert input[..n][16..] == input[16..n];
      }
    }
  }

  /** Bytes after a complete frame never matter. */
  lemma TrailingBytesIgnored(input: Bytes, extra: Bytes)
    requires Parse(input).Accepted?
    ensures Parse(input + extra) == Parse(input)
  {
    hide DecodeHeader, IsValidRequest;
    var n := 16 + DecodeHeader(input[..16]).payloadSize;
    assert (input + extra)[..16] == input[..16];
    assert (input + extra)[16..n] == input[16..n];
  }

  // ---- Responses on the wire -----------------------------------------------------------

  /** Every stored value is of a size the enclave accepts. */
  ghost predicate ContentsBounded(v: Vault) {
    forall key: Bytes | key in v.store :: IsContent(v.store[key])
  }

  lemma ContentsStayBounded(v: Vault, measurement: Bytes, input: Bytes, e: Entropy)
    requires ContentsBounded(v)
    ensures ContentsBounded(Serve(v, measurement, input, e).vault)
  {
    hide Parse, Invoke, Retrieve, Attest, DecodeLoad, DecodeInvoke, DecodeStore, DecodeRetrieve;
    hide SuccessResponse, ErrorResponse;
  }

  lemma SuccessIsValid(payload: Bytes)
    requires |payload| <= TWO_32 - 18
    ensures IsValidResponse(SuccessResponse(payload))
    ensures DecodeResponse(EncodeResponse(SuccessResponse(payload))) == Some(SuccessResponse(payload))
  {
    hide Checksum, EncodeResponse, DecodeResponse;
    ResponseRoundTrip(SuccessResponse(payload));
  }

  lemma ErrorIsValid(status: uint8)
    ensures IsValidResponse(ErrorResponse(status))
    ensures DecodeResponse(EncodeResponse(ErrorResponse(status))) == Some(ErrorResponse(status))
  {
    hide Checksum, EncodeResponse, DecodeResponse;
    ChecksumOfEmpty();
    ResponseRoundTrip(ErrorResponse(status));
  }

  lemma InvokedParamsBounded(d: Bytes)
    ensures DecodeInvoke(d).Some? ==> |DecodeInvoke(d).value.params| <= MAX_BYTES
  {
    hide FromBytes;
  }

  /** In every reachable state the server's response validates and deserialises to itself. */
  lemma ServerResponsesAreValid(v: Vault, measurement: Bytes, input: Bytes, e: Entropy)
    requires ContentsBounded(v) && |measurement| == 32
    ensures var r := Serve(v, measurement, input, e).response;
            IsValidResponse(r) && DecodeResponse(EncodeResponse(r)) == Some(r)
  {
    hide Parse, DecodeLoad, DecodeInvoke, DecodeStore, DecodeRetrieve, Load, Store;
    hide SuccessResponse, ErrorResponse, IsValidResponse, DecodeResponse, EncodeResponse;
    var r := Serve(v, measurement, input, e).response;
    forall status: uint8
      ensures IsValidResponse(ErrorResponse(status))
      ensures DecodeResponse(EncodeResponse(ErrorResponse(status))) == Some(ErrorResponse(status))
    {
      ErrorIsValid(status);
    }
    forall payload: Bytes | |payload| <= TWO_32 - 18
      ensures IsValidResponse(SuccessResponse(payload))
      ensures DecodeResponse(EncodeResponse(SuccessResponse(payload))) == Some(SuccessResponse(payload))
    {
      SuccessIsValid(payload);
    }
    if Parse(input).Accepted? {
      InvokedParamsBounded(Parse(input).request.payload);
    }
  }

  /** Every response of every run validates and deserialises to itself. */
  lemma {:induction false} RunResponsesAreValid(v: Vault, running: bool, measurement: Bytes, accepts: seq<Accept>)
    requires ContentsBounded(v) && |measurement| == 32
    ensures ContentsBounded(RunLoop(v, running, measurement, accepts).vault)
    ensures forall r <- RunLoop(v, running, measurement, accepts).responses ::
              IsValidResponse(r) && DecodeResponse(EncodeResponse(r)) == Some(r)
    decreases |accepts|
  {
    hide Serve, IsValidResponse, DecodeResponse, EncodeResponse;
    if running && accepts != [] {
      var a := accepts[0];
      if a.FailedAccept? {
        RunResponsesAreValid(v, true, measurement, accepts[1..]);
      } else {
        var s := Serve(v, measurement, a.input, a.entropy);
        ContentsStayBounded(v, measurement, a.input, a.entropy);
        ServerResponsesAreValid(v, measurement, a.input, a.entropy);
        RunResponsesAreValid(s.vault, s.running, measurement, accepts[1..]);
      }
    }
  }
}
