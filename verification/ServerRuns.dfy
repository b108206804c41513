/**
 Runs of the server over arbitrary bytes.

 Connections may carry valid calls, attestation requests, malformed or damaged frames, or nothing;
 accepts may fail. `ServerRunIsVaultRun` proves that the vault is always that of a plaintext run over
 the calls that decode, in order, and that each such call gets the reply of that run. So whatever
 other connections send, a handle once replied stays invocable and stored data comes back.
 */
module ServerRuns {
  import opened Machine
  import opened Crc32
  import opened Payloads
  import opened Messages
  import opened VaultModel
  import opened EnclaveModel
  import opened Server

  /** The operation that the bytes of a connection ask for, if they are a valid request that decodes. */
  function Decoded(input: Bytes): Option<Operation> {
    match Parse(input)
    case Refused(_) => None
    case Accepted(request) =>
      var command, payload := request.header.commandType, request.payload;
      if command == LOAD_MODULE && DecodeLoad(payload).Some? then
        Some(LoadOp(DecodeLoad(payload).value.moduleData))
      else if command == INVOKE_FUNCTION && DecodeInvoke(payload).Some? then
        var v := DecodeInvoke(payload).value;
        Some(InvokeOp(v.moduleHandle, v.functionName, v.params))
      else if command == STORE_DATA && DecodeStore(payload).Some? then
        Some(StoreOp(DecodeStore(payload).value.key, DecodeStore(payload).value.data))
      else if command == RETRIEVE_DATA && DecodeRetrieve(payload).Some? then
        Some(RetrieveOp(DecodeRetrieve(payload).value.key))
      else None
  }

  /** The response that carries an answer of the vault. */
  function Reply(op: Operation, answer: Answer): Response {
    match answer
    case Handle(h) => SuccessResponse(EncodeLoadResponse(LoadModuleResponse(h)))
    case Output(bytes) => SuccessResponse(bytes)
    case Stored => SuccessResponse([])
    case Failed(_) => ErrorResponse(if op.RetrieveOp? then ERROR_NOT_FOUND else ERROR_EXECUTION_FAILED)
  }

  /** One connection is one step of the vault when it asks for an operation, and no step otherwise. */
  lemma ConnectionIsStep(v: Vault, measurement: Bytes, input: Bytes, e: Entropy)
    ensures var s := Serve(v, measurement, input, e);
            match Decoded(input)
            case None => s.vault == v
            case Some(op) =>
              s.vault == Perform(v, op, e).0 && s.running && s.response == Reply(op, Perform(v, op, e).1)
  {
    hide Parse, DecodeLoad, DecodeInvoke, DecodeStore, DecodeRetrieve, Attest;
    hide SuccessResponse, ErrorResponse, EncodeLoadResponse;
  }

  // ---- Runs, one accept at a time ------------------------------------------------------

  /** The run over the first `k` accepts. */
  function RunTo(v: Vault, measurement: Bytes, accepts: seq<Accept>, k: nat): Outcome
    requires k <= |accepts|
  {
    RunLoop(v, true, measurement, accepts[..k])
  }

  function ServiceOf(v: Vault, measurement: Bytes, a: Accept): Service
    requires a.Accepting?
  {
    Serve(v, measurement, a.input, a.entropy)
  }

  /** An outcome carried on by one more accept. */
  function Extend(o: Outcome, measurement: Bytes, a: Accept): Outcome {
    if !o.running then o
    else if a.FailedAccept? then o.(handled := o.handled + 1)
    else
      var s := ServiceOf(o.vault, measurement, a);
      Outcome(s.vault, s.running, o.responses + [s.response], o.handled + 1)
  }

  lemma {:induction false} RunLoopSnoc(v: Vault, running: bool, measurement: Bytes, accepts: seq<Accept>, a: Accept)
    ensures RunLoop(v, running, measurement, accepts + [a]) ==
            Extend(RunLoop(v, running, measurement, accepts), measurement, a)
    decreases |accepts|
  {
    hide Serve;
    var all := accepts + [a];
    if !running {
    } else if accepts == [] {
      assert all == [a] && all[1..] == [];
    } else {
      assert all[1..] == accepts[1..] + [a] && all[0] == accepts[0];
      if accepts[0].FailedAccept? {
        RunLoopSnoc(v, true, measurement, accepts[1..], a);
      } else {
        var s := Serve(v, measurement, accepts[0].input, accepts[0].entropy);
        RunLoopSnoc(s.vault, s.running, measurement, accepts[1..], a);
      }
    }
  }

  lemma RunToNext(v: Vault, measurement: Bytes, accepts: seq<Accept>, k: nat)
    requires k < |accepts|
    ensures RunTo(v, measurement, accepts, k + 1) == Extend(RunTo(v, measurement, accepts, k), measurement, accepts[k])
  {
    hide RunLoop, Extend;
    RunLoopSnoc(v, true, measurement, accepts[..k], accepts[k]);
    assert accepts[..k + 1] == accepts[..k] + [accepts[k]];
  }

  /** A server that is running at accept `j` was running at every earlier one. */
  lemma {:induction false} RunningBefore(v: Vault, measurement: Bytes, accepts: seq<Accept>, i: nat, j: nat)
    requires i <= j <= |accepts| && RunTo(v, measurement, accepts, j).running
    ensures RunTo(v, measurement, accepts, i).running
    decreases j
  {
    hide RunTo, ServiceOf;
    if i < j {
      RunToNext(v, measurement, accepts, j - 1);
      RunningBefore(v, measurement, accepts, i, j - 1);
    }
  }

  // ---- The calls in a run --------------------------------------------------------------

  /** The call a connection makes, as a run of at most one operation. */
  function CallsOf(a: Accept): seq<(Operation, Entropy)> {
    if a.FailedAccept? || Decoded(a.input).None? then [] else [(Decoded(a.input).value, a.entropy)]
  }

  /** The calls among the first `k` accepts. */
  function Calls(accepts: seq<Accept>, k: nat): seq<(Operation, Entropy)>
    requires k <= |accepts|
    decreases k
  {
    if k == 0 then [] else Calls(accepts, k - 1) + CallsOf(accepts[k - 1])
  }

  /** Serving accept `a` is one step of the vault, or none. */
  lemma ExtendIsStep(o: Outcome, measurement: Bytes, a: Accept)
    requires o.running
    ensures Extend(o, measurement, a).handled == o.handled + 1
    ensures Extend(o, measurement, a).vault ==
            if CallsOf(a) == [] then o.vault else Perform(o.vault, CallsOf(a)[0].0, CallsOf(a)[0].1).0
  {
    hide Serve, Decoded, Perform;
    if a.Accepting? {
      ConnectionIsStep(o.vault, measurement, a.input, a.entropy);
    }
  }

  lemma AfterAtMostOneMore(v: Vault, calls: seq<(Operation, Entropy)>, more: seq<(Operation, Entropy)>)
    requires |more| <= 1
    ensures After(v, calls + more, |calls + more|) ==
            if more == [] then After(v, calls, |calls|)
            else Perform(After(v, calls, |calls|), more[0].0, more[0].1).0
  {
    hide Perform;
    RunOfPrefix(v, calls, more, |calls|);
    assert more == [] ==> calls + more == calls;
  }

  /** `o` is where a plaintext run over the calls among the accepts it handled ends. */
  ghost predicate IsVaultRun(v: Vault, accepts: seq<Accept>, o: Outcome) {
    o.handled <= |accepts| && o.vault == After(v, Calls(accepts, o.handled), |Calls(accepts, o.handled)|)
  }

  lemma ExtendIsVaultRun(v: Vault, measurement: Bytes, accepts: seq<Accept>, o: Outcome)
    requires IsVaultRun(v, accepts, o) && o.running && o.handled < |accepts|
    ensures var next := Extend(o, measurement, accepts[o.handled]);
            IsVaultRun(v, accepts, next) && next.handled == o.handled + 1
  {
    hide After, Extend, CallsOf, Perform;
    var a := accepts[o.handled];
    ExtendIsStep(o, measurement, a);
    CallsAreFew(a);
    AfterAtMostOneMore(v, Calls(accepts, o.handled), CallsOf(a));
  }

  /**
   In every run of the server the vault is that of a plaintext run over the calls among the accepts
   it handled, whatever else the connections carried.
   */
  lemma {:induction false} ServerRunIsVaultRun(v: Vault, measurement: Bytes, accepts: seq<Accept>, k: nat)
    requires k <= |accepts|
    ensures var o := RunTo(v, measurement, accepts, k);
            o.handled <= k && (o.running ==> o.handled == k) &&
            o.vault == After(v, Calls(accepts, o.handled), |Calls(accepts, o.handled)|)
    decreases k
  {
    hide After, Calls, RunTo, Extend;
    if k != 0 {
      var before := RunTo(v, measurement, accepts, k - 1);
      ServerRunIsVaultRun(v, measurement, accepts, k - 1);
      RunToNext(v, measurement, accepts, k - 1);
      if before.running {
        ExtendIsVaultRun(v, measurement, accepts, before);
      } else {
        StoppedStays(before, measurement, accepts[k - 1]);
      }
    } else {
      NothingDone(v, measurement, accepts);
    }
  }

  lemma StoppedStays(o: Outcome, measurement: Bytes, a: Accept)
    requires !o.running
    ensures Extend(o, measurement, a) == o
  {}

  lemma NothingDone(v: Vault, measurement: Bytes, accepts: seq<Accept>)
    ensures RunTo(v, measurement, accepts, 0) == Outcome(v, true, [], 0)
    ensures Calls(accepts, 0) == [] && After(v, [], 0) == v
  {
    assert accepts[..0] == [];
  }

  lemma CallsAreFew(a: Accept)
    ensures |CallsOf(a)| <= 1
  {}

  // ---- Replies -------------------------------------------------------------------------

  /** The response to accept `k`. */
  function ReplyTo(v: Vault, measurement: Bytes, accepts: seq<Accept>, k: nat): Response
    requires k < |accepts| && accepts[k].Accepting?
  {
    ServiceOf(RunTo(v, measurement, accepts, k).vault, measurement, accepts[k]).response
  }

  /** The replies are the responses that the run sends. */
  lemma ReplyIsSent(v: Vault, measurement: Bytes, accepts: seq<Accept>, k: nat)
    requires k < |accepts| && accepts[k].Accepting? && RunTo(v, measurement, accepts, k).running
    ensures RunTo(v, measurement, accepts, k + 1).responses ==
            RunTo(v, measurement, accepts, k).responses + [ReplyTo(v, measurement, accepts, k)]
  {
    hide RunTo, ServiceOf;
    RunToNext(v, measurement, accepts, k);
  }

  lemma {:induction false} CallsGrow(accepts: seq<Accept>, j: nat, k: nat)
    requires j <= k <= |accepts|
    ensures Calls(accepts, j) <= Calls(accepts, k)
    decreases k
  {
    hide CallsOf;
    if j < k {
      CallsGrow(accepts, j, k - 1);
    }
  }

  /** The place of the call of accept `k` among all calls. */
  function Place(accepts: seq<Accept>, k: nat): nat
    requires k <= |accepts|
  {
    |Calls(accepts, k)|
  }

  lemma AnswerToNext(v: Vault, calls: seq<(Operation, Entropy)>, more: seq<(Operation, Entropy)>)
    requires more != []
    ensures AnswerTo(v, calls + more, |calls|) == Perform(After(v, calls, |calls|), more[0].0, more[0].1).1
  {
    hide Perform;
    RunOfPrefix(v, calls, more, |calls|);
    assert (calls + more)[|calls|] == more[0];
  }

  lemma CallAtPlace(accepts: seq<Accept>, k: nat) returns (more: seq<(Operation, Entropy)>)
    requires k < |accepts| && CallsOf(accepts[k]) != []
    ensures Calls(accepts, |accepts|) == Calls(accepts, k) + more && more != []
    ensures CallsOf(accepts[k]) == [more[0]]
  {
    hide CallsOf;
    CallsAreFew(accepts[k]);
    CallsGrow(accepts, k, k + 1);
    CallsGrow(accepts, k + 1, |accepts|);
    more := Calls(accepts, |accepts|)[|Calls(accepts, k)|..];
    assert Calls(accepts, k + 1) == Calls(accepts, k) + CallsOf(accepts[k]);
    hide Calls;
    assert more[0] == Calls(accepts, k + 1)[|Calls(accepts, k)|];
  }

  /** While the server runs, each call gets the reply of the plaintext run. */
  lemma CallGetsAnswer(v: Vault, measurement: Bytes, accepts: seq<Accept>, k: nat)
    requires k < |accepts| && CallsOf(accepts[k]) != [] && RunTo(v, measurement, accepts, k).running
    ensures var calls, p := Calls(accepts, |accepts|), Place(accepts, k);
            p < |calls| && [calls[p]] == CallsOf(accepts[k]) &&
            ReplyTo(v, measurement, accepts, k) == Reply(calls[p].0, AnswerTo(v, calls, p))
  {
    hide RunTo, Decoded, Reply, Serve, Perform, After, AnswerTo, Calls;
    var here := Calls(accepts, k);
    ServerRunIsVaultRun(v, measurement, accepts, k);
    var more := CallAtPlace(accepts, k);
    AnswerToNext(v, here, more);
    assert (here + more)[|here|] == more[0];
    ConnectionIsStep(RunTo(v, measurement, accepts, k).vault, measurement, accepts[k].input, accepts[k].entropy);
  }

  /** Every call comes from some accept. */
  lemma {:induction false} CallComesFrom(accepts: seq<Accept>, n: nat, p: nat) returns (k: nat)
    requires n <= |accepts| && p < |Calls(accepts, n)|
    ensures k < n && Place(accepts, k) == p && CallsOf(accepts[k]) != []
    decreases n
  {
    hide CallsOf;
    if p < |Calls(accepts, n - 1)| {
      k := CallComesFrom(accepts, n - 1, p);
    } else {
      k := n - 1;
      CallsAreFew(accepts[k]);
    }
  }

  lemma PlacesInOrder(accepts: seq<Accept>, i: nat, j: nat)
    requires i < j <= |accepts| && CallsOf(accepts[i]) != []
    ensures Place(accepts, i) < Place(accepts, j)
  {
    hide CallsOf;
    CallsGrow(accepts, i + 1, j);
  }

  // ---- What a client may rely on -------------------------------------------------------

  /** A load is answered with the handle its reply carries; a store is answered `Stored` exactly on success. */
  lemma ReplyTells(v: Vault, op: Operation, e: Entropy, handle: uint64)
    ensures var a := Perform(v, op, e).1;
            (op.LoadOp? && Reply(op, a) == SuccessResponse(EncodeLoadResponse(LoadModuleResponse(handle)))
             ==> a == Handle(handle)) &&
            (op.StoreOp? ==> (Reply(op, a).status == SUCCESS <==> a.Stored?))
  {
    var a := Perform(v, op, e).1;
    hide Checksum, EncodeLoadResponse;
    if a.Handle? {
      LoadResponseIff(EncodeLoadResponse(LoadModuleResponse(a.handle)), LoadModuleResponse(a.handle));
      LoadResponseIff(EncodeLoadResponse(LoadModuleResponse(a.handle)), LoadModuleResponse(handle));
    }
  }

  /** Accept `k` asks for `op`. */
  predicate Asks(accepts: seq<Accept>, k: nat, op: Operation)
    requires k < |accepts|
  {
    accepts[k].Accepting? && Decoded(accepts[k].input) == Some(op)
  }

  lemma AskedIsCalled(v: Vault, measurement: Bytes, accepts: seq<Accept>, k: nat, op: Operation)
    requires k < |accepts| && Asks(accepts, k, op) && RunTo(v, measurement, accepts, k).running
    ensures var calls, p := Calls(accepts, |accepts|), Place(accepts, k);
            p < |calls| && calls[p] == (op, accepts[k].entropy) &&
            ReplyTo(v, measurement, accepts, k) == Reply(op, AnswerTo(v, calls, p))
    ensures CallsOf(accepts[k]) != []
  {
    hide RunTo, Decoded, Reply, ReplyTo, AnswerTo, Calls;
    CallGetsAnswer(v, measurement, accepts, k);
  }

  /**
   A handle that the server replied to a load can be invoked as long as the server runs, whatever
   other connections carry in between.
   */
  lemma RepliedHandleStaysInvocable(v: Vault, measurement: Bytes, accepts: seq<Accept>, i: nat, j: nat,
                                    data: Bytes, handle: uint64, params: Bytes)
    requires i < j < |accepts| && RunTo(v, measurement, accepts, j).running
    requires Asks(accepts, i, LoadOp(data))
    requires ReplyTo(v, measurement, accepts, i) == SuccessResponse(EncodeLoadResponse(LoadModuleResponse(handle)))
    requires Asks(accepts, j, InvokeOp(handle, TEST_FUNCTION, params)) && accepts[j].entropy.Decrypts()
    ensures ReplyTo(v, measurement, accepts, j) == SuccessResponse(params + [PROCESSED])
  {
    hide RunTo, ReplyTo, Perform, After, Calls, Asks, SuccessResponse, EncodeLoadResponse;
    var calls, p, q := Calls(accepts, |accepts|), Place(accepts, i), Place(accepts, j);
    RunningBefore(v, measurement, accepts, i, j);
    AskedIsCalled(v, measurement, accepts, i, LoadOp(data));
    AskedIsCalled(v, measurement, accepts, j, InvokeOp(handle, TEST_FUNCTION, params));
    PlacesInOrder(accepts, i, j);
    ReplyTells(After(v, calls, p), calls[p].0, calls[p].1, handle);
    hide Place;
    HandleStaysInvocable(v, calls, p, q);
  }

  /** No connection between `i` and `j` stores under `key` with success. */
  ghost predicate NoStoreBetween(v: Vault, measurement: Bytes, accepts: seq<Accept>, key: Bytes, i: nat, j: nat)
    requires j <= |accepts|
  {
    forall k: nat, data: Bytes | i < k < j && Asks(accepts, k, StoreOp(key, data)) ::
      ReplyTo(v, measurement, accepts, k).status != SUCCESS
  }

  lemma NoStoreInRun(v: Vault, measurement: Bytes, accepts: seq<Accept>, key: Bytes, i: nat, j: nat, p: nat)
    requires i < j < |accepts| && RunTo(v, measurement, accepts, j).running && CallsOf(accepts[i]) != []
    requires NoStoreBetween(v, measurement, accepts, key, i, j)
    requires Place(accepts, i) < p < Place(accepts, j) <= |Calls(accepts, |accepts|)|
    ensures var calls := Calls(accepts, |accepts|);
            !(calls[p].0.StoreOp? && calls[p].0.key == key && AnswerTo(v, calls, p).Stored?)
  {
    hide RunTo, ReplyTo, Perform, After, Calls, Decoded, NoStoreBetween;
    var calls := Calls(accepts, |accepts|);
    var k := CallComesFrom(accepts, j, p);
    if k < i {
      PlacesInOrder(accepts, k, i);
    }
    assert i < k < j;
    var op := Decoded(accepts[k].input).value;
    assert Asks(accepts, k, op);
    RunningBefore(v, measurement, accepts, k, j);
    AskedIsCalled(v, measurement, accepts, k, op);
    ReplyTells(After(v, calls, p), op, accepts[k].entropy, 0);
    if op.StoreOp? && op.key == key {
      assert Asks(accepts, k, StoreOp(key, op.data));
      NotStoredAt(v, measurement, accepts, key, i, j, k, op.data);
    }
  }

  lemma NotStoredAt(v: Vault, measurement: Bytes, accepts: seq<Accept>, key: Bytes, i: nat, j: nat, k: nat, data: Bytes)
    requires i < k < j <= |accepts| && NoStoreBetween(v, measurement, accepts, key, i, j)
    requires Asks(accepts, k, StoreOp(key, data))
    ensures ReplyTo(v, measurement, accepts, k).status != SUCCESS
  {
    hide ReplyTo, Asks;
  }

  /**
   Stored data comes back until the next successful store under its key, as long as the server runs,
   whatever other connections carry in between.
   */
  lemma StoredDataIsReplied(v: Vault, measurement: Bytes, accepts: seq<Accept>, i: nat, j: nat, key: Bytes, data: Bytes)
    requires i < j < |accepts| && RunTo(v, measurement, accepts, j).running
    requires Asks(accepts, i, StoreOp(key, data)) && ReplyTo(v, measurement, accepts, i).status == SUCCESS
    requires Asks(accepts, j, RetrieveOp(key)) && accepts[j].entropy.Decrypts()
    requires NoStoreBetween(v, measurement, accepts, key, i, j)
    ensures ReplyTo(v, measurement, accepts, j) == SuccessResponse(data)
  {
    hide RunTo, ReplyTo, Perform, After, Calls, Asks, SuccessResponse, NoStoreBetween;
    var calls, p, q := Calls(accepts, |accepts|), Place(accepts, i), Place(accepts, j);
    RunningBefore(v, measurement, accepts, i, j);
    AskedIsCalled(v, measurement, accepts, i, StoreOp(key, data));
    AskedIsCalled(v, measurement, accepts, j, RetrieveOp(key));
    PlacesInOrder(accepts, i, j);
    ReplyTells(After(v, calls, p), calls[p].0, calls[p].1, 0);
    forall r: nat | p + 1 <= r < q
      ensures !(calls[r].0.StoreOp? && calls[r].0.key == key && AnswerTo(v, calls, r).Stored?)
    {
      NoStoreInRun(v, measurement, accepts, key, i, j, r);
    }
    hide Place;
    RetrieveReturnsLastStored(v, calls, p, q);
  }
}
