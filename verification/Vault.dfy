/**
 The enclave as its users should see it: plaintext maps, a count of loads, no cryptography.

 `EnclaveImpl` is proved to behave like this machine although it stores only ciphertexts. The
 machine itself is shown never to hand out a handle twice within 2^64 loads, and to keep every
 handle invocable for the rest of a run.
 */
module VaultModel {
  import opened Machine
  import opened Buffers
  import opened EncryptedBlob

  datatype EnclaveStatus =
    | InvalidParameter
    | ContextNotInitialized
    | CryptoFailure
    | ModuleLoadFailed
    | FunctionNotFound

  datatype Result<+T> = Ok(value: T) | Error(status: EnclaveStatus)

  /** What the random generator and the cipher contexts do during one operation. */
  datatype Entropy = Entropy(iv: Option<Iv>, context: bool) {
    predicate Encrypts() { iv.Some? && context }

    predicate Decrypts() { context }
  }

  /** "test_function" */
  const TEST_FUNCTION: Bytes :=
    [0x74, 0x65, 0x73, 0x74, 0x5F, 0x66, 0x75, 0x6E, 0x63, 0x74, 0x69, 0x6F, 0x6E]

  const PROCESSED: uint8 := 0x42

  datatype Vault = Vault(initialized: bool, loads: nat, modules: map<uint64, Bytes>, store: map<Bytes, Bytes>)

  const EMPTY_VAULT := Vault(false, 0, map[], map[])

  predicate IsContent(data: Bytes) { 1 <= |data| <= MAX_BYTES }

  predicate IsName(name: Bytes) { 1 <= |name| <= 256 }

  /** The handle of the next successful load; the counter wraps at 2^64. */
  function NextHandle(v: Vault): uint64 { (v.loads + 1) % TWO_64 }

  function Load(v: Vault, data: Bytes, e: Entropy): (Vault, Result<uint64>) {
    if !v.initialized then (v, Error(ContextNotInitialized))
    else if !IsContent(data) then (v, Error(InvalidParameter))
    else if !e.Encrypts() then (v, Error(CryptoFailure))
    else (v.(loads := v.loads + 1, modules := v.modules[NextHandle(v) := data]), Ok(NextHandle(v)))
  }

  function Invoke(v: Vault, handle: uint64, name: Bytes, params: Bytes, e: Entropy): Result<Bytes> {
    if !v.initialized then Error(ContextNotInitialized)
    else if !IsName(name) then Error(InvalidParameter)
    else if handle !in v.modules then Error(ModuleLoadFailed)
    else if name != TEST_FUNCTION then Error(FunctionNotFound)
    else if !e.Decrypts() then Error(CryptoFailure)
    else Ok(params + [PROCESSED])
  }

  function Store(v: Vault, key: Bytes, data: Bytes, e: Entropy): (Vault, Result<()>) {
    if !v.initialized then (v, Error(ContextNotInitialized))
    else if !IsName(key) || !IsContent(data) then (v, Error(InvalidParameter))
    else if !e.Encrypts() then (v, Error(CryptoFailure))
    else (v.(store := v.store[key := data]), Ok(()))
  }

  function Retrieve(v: Vault, key: Bytes, e: Entropy): Result<Bytes> {
    if !v.initialized then Error(ContextNotInitialized)
    else if !IsName(key) then Error(InvalidParameter)
    else if key !in v.store then Error(FunctionNotFound)
    else if !e.Decrypts() then Error(CryptoFailure)
    else Ok(v.store[key])
  }

  // ---- Outcomes, in the program's own numbers ------------------------------------------

  /** The bytes of an ASCII text. */
  predicate IsText(bytes: Bytes, text: string) {
    |bytes| == |text| && forall i | 0 <= i < |text| :: bytes[i] == text[i] as int
  }

  lemma TestFunctionIsText(name: Bytes)
    ensures name == TEST_FUNCTION <==> IsText(name, "test_function")
  {
    var text := "test_function";
    assert forall i | 0 <= i < 13 :: TEST_FUNCTION[i] == text[i] as int;
    if IsText(name, text) {
      assert forall i | 0 <= i < 13 :: name[i] == TEST_FUNCTION[i];
    }
  }

  /** Exactly when a load succeeds, what it changes, and which failure comes when. */
  lemma LoadOutcomes(v: Vault, data: Bytes, e: Entropy)
    ensures var (w, r) := Load(v, data, e);
            var valid := 1 <= |data| <= 10_485_760;
            var id := (v.loads + 1) % 0x1_0000_0000_0000_0000;
            (r.Ok? <==> v.initialized && valid && e.iv.Some? && e.context) &&
            (r.Ok? ==> r.value == id && w == v.(loads := v.loads + 1, modules := v.modules[id := data])) &&
            (!r.Ok? ==> w == v) &&
            (r == Error(ContextNotInitialized) <==> !v.initialized) &&
            (r == Error(InvalidParameter) <==> v.initialized && !valid) &&
            (r == Error(CryptoFailure) <==> v.initialized && valid && !(e.iv.Some? && e.context))
  {}

  /** Only `test_function` can be invoked, on live handles; the output is the parameters and a B. */
  lemma InvokeOutcomes(v: Vault, handle: uint64, name: Bytes, params: Bytes, e: Entropy)
    ensures var r := Invoke(v, handle, name, params, e);
            var named, live, known := 1 <= |name| <= 256, handle in v.modules, IsText(name, "test_function");
            (r.Ok? <==> v.initialized && live && known && e.context) &&
            (r.Ok? ==> |r.value| == |params| + 1 && r.value[..|params|] == params &&
                       r.value[|params|] == 'B' as int) &&
            (r == Error(ContextNotInitialized) <==> !v.initialized) &&
            (r == Error(InvalidParameter) <==> v.initialized && !named) &&
            (r == Error(ModuleLoadFailed) <==> v.initialized && named && !live) &&
            (r == Error(FunctionNotFound) <==> v.initialized && named && live && !known) &&
            (r == Error(CryptoFailure) <==> v.initialized && live && known && !e.context)
  {
    TestFunctionIsText(name);
    hide IsText;
  }

  lemma StoreOutcomes(v: Vault, key: Bytes, data: Bytes, e: Entropy)
    ensures var (w, r) := Store(v, key, data, e);
            var valid := 1 <= |key| <= 256 && 1 <= |data| <= 10_485_760;
            (r.Ok? <==> v.initialized && valid && e.iv.Some? && e.context) &&
            (r.Ok? ==> w == v.(store := v.store[key := data])) &&
            (!r.Ok? ==> w == v) &&
            (r == Error(ContextNotInitialized) <==> !v.initialized) &&
            (r == Error(InvalidParameter) <==> v.initialized && !valid) &&
            (r == Error(CryptoFailure) <==> v.initialized && valid && !(e.iv.Some? && e.context))
  {}

  lemma RetrieveOutcomes(v: Vault, key: Bytes, e: Entropy)
    ensures var r := Retrieve(v, key, e);
            var named, known := 1 <= |key| <= 256, key in v.store;
            (r.Ok? <==> v.initialized && named && known && e.context) &&
            (r.Ok? ==> r.value == v.store[key]) &&
            (r == Error(ContextNotInitialized) <==> !v.initialized) &&
            (r == Error(InvalidParameter) <==> v.initialized && !named) &&
            (r == Error(FunctionNotFound) <==> v.initialized && named && !known) &&
            (r == Error(CryptoFailure) <==> v.initialized && named && known && !e.context)
  {}

  // ---- Operations and runs -------------------------------------------------------------

  datatype Operation =
    | LoadOp(moduleData: Bytes)
    | InvokeOp(handle: uint64, name: Bytes, params: Bytes)
    | StoreOp(key: Bytes, data: Bytes)
    | RetrieveOp(key: Bytes)

  datatype Answer = Handle(handle: uint64) | Output(bytes: Bytes) | Stored | Failed(status: EnclaveStatus)

  function Perform(v: Vault, op: Operation, e: Entropy): (Vault, Answer) {
    match op
    case LoadOp(data) =>
      var (w, r) := Load(v, data, e);
      (w, if r.Ok? then Handle(r.value) else Failed(r.status))
    case InvokeOp(handle, name, params) =>
      var r := Invoke(v, handle, name, params, e);
      (v, if r.Ok? then Output(r.value) else Failed(r.status))
    case StoreOp(key, data) =>
      var (w, r) := Store(v, key, data, e);
      (w, if r.Ok? then Stored else Failed(r.status))
    case RetrieveOp(key) =>
      var r := Retrieve(v, key, e);
      (v, if r.Ok? then Output(r.value) else Failed(r.status))
  }

  /** The vault after the first `n` operations of a run. */
  function After(v: Vault, ops: seq<(Operation, Entropy)>, n: nat): Vault
    requires n <= |ops|
    decreases n
  {
    if n == 0 then v else Perform(After(v, ops, n - 1), ops[n - 1].0, ops[n - 1].1).0
  }

  /** The answer to operation `i` of a run. */
  function AnswerTo(v: Vault, ops: seq<(Operation, Entropy)>, i: nat): Answer
    requires i < |ops|
  {
    Perform(After(v, ops, i), ops[i].0, ops[i].1).1
  }

  /** Later operations do not change what came before. */
  lemma {:induction false} RunOfPrefix(
    v: Vault, ops: seq<(Operation, Entropy)>, more: seq<(Operation, Entropy)>, n: nat)
    requires n <= |ops|
    ensures After(v, ops + more, n) == After(v, ops, n)
    ensures n < |ops| ==> AnswerTo(v, ops + more, n) == AnswerTo(v, ops, n)
  {
    hide Perform;
    if n != 0 {
      RunOfPrefix(v, ops, more, n - 1);
    }
  }

  // ---- Handles -------------------------------------------------------------------------

  /** The handles handed out so far: 1, 2, ..., and all of them once the counter has wrapped. */
  predicate IsLive(loads: nat, handle: uint64) {
    TWO_64 <= loads || 1 <= handle <= loads
  }

  ghost predicate HandlesExact(v: Vault) {
    forall h: uint64 :: h in v.modules <==> IsLive(v.loads, h)
  }

  lemma HandlesStayExact(v: Vault, op: Operation, e: Entropy)
    requires HandlesExact(v)
    ensures HandlesExact(Perform(v, op, e).0)
    ensures v.loads <= Perform(v, op, e).0.loads
    ensures Perform(v, op, e).1.Handle? ==>
            Perform(v, op, e).1.handle == (v.loads + 1) % TWO_64 && Perform(v, op, e).0.loads == v.loads + 1
    ensures !Perform(v, op, e).1.Handle? ==> Perform(v, op, e).0.loads == v.loads
  {
    var (w, a) := Perform(v, op, e);
    if a.Handle? {
      forall h: uint64 ensures h in w.modules <==> IsLive(w.loads, h) {
        assert h in w.modules <==> h in v.modules || h == NextHandle(v);
      }
    }
  }

  /**
   In every run from the empty vault the live handles are exactly those handed out, and
   while fewer than 2^64 - 1 modules were loaded they are 1, ..., next - 1.
   */
  lemma {:induction false} HandlesInEveryRun(ops: seq<(Operation, Entropy)>, n: nat)
    requires n <= |ops|
    ensures var v := After(EMPTY_VAULT.(initialized := true), ops, n);
            HandlesExact(v) &&
            (v.loads < TWO_64 - 1 ==> forall h: uint64 :: h in v.modules <==> 1 <= h < NextHandle(v))
    decreases n
  {
    if n != 0 {
      HandlesInEveryRun(ops, n - 1);
      HandlesStayExact(After(EMPTY_VAULT.(initialized := true), ops, n - 1), ops[n - 1].0, ops[n - 1].1);
    }
  }

  lemma {:induction false} LoadsGrow(v: Vault, ops: seq<(Operation, Entropy)>, i: nat, j: nat)
    requires i <= j <= |ops|
    ensures After(v, ops, i).loads <= After(v, ops, j).loads
    ensures v.initialized ==> After(v, ops, j).initialized
    ensures forall h: uint64 :: h in After(v, ops, i).modules ==> h in After(v, ops, j).modules
    decreases j
  {
    if i < j {
      LoadsGrow(v, ops, i, j - 1);
    } else if 0 < j {
      LoadsGrow(v, ops, j - 1, j - 1);
    }
  }

  lemma HandleOfLoad(v: Vault, ops: seq<(Operation, Entropy)>, i: nat)
    requires i < |ops| && AnswerTo(v, ops, i).Handle?
    ensures AnswerTo(v, ops, i).handle == (After(v, ops, i).loads + 1) % TWO_64
    ensures After(v, ops, i + 1).loads == After(v, ops, i).loads + 1
    ensures AnswerTo(v, ops, i).handle in After(v, ops, i + 1).modules
  {}

  /** Two loads of a run get the same handle exactly when a multiple of 2^64 loads lies between them. */
  lemma HandleRepeatsIff(v: Vault, ops: seq<(Operation, Entropy)>, i: nat, j: nat)
    requires i < j < |ops|
    requires AnswerTo(v, ops, i).Handle? && AnswerTo(v, ops, j).Handle?
    ensures AnswerTo(v, ops, i).handle == AnswerTo(v, ops, j).handle <==>
            (After(v, ops, j).loads - After(v, ops, i).loads) % TWO_64 == 0
    ensures After(v, ops, i).loads < After(v, ops, j).loads
  {
    hide After, AnswerTo;
    HandleOfLoad(v, ops, i);
    HandleOfLoad(v, ops, j);
    LoadsGrow(v, ops, i + 1, j);
    SameResidue(After(v, ops, i).loads + 1, After(v, ops, j).loads + 1, TWO_64);
  }

  /** `n` loads in a row. */
  function Loads(data: Bytes, e: Entropy, n: nat): (ops: seq<(Operation, Entropy)>)
    ensures |ops| == n
  {
    seq(n, _ => (LoadOp(data), e))
  }

  lemma {:induction false} LoadsCount(data: Bytes, e: Entropy, n: nat, k: nat)
    requires k <= n && IsContent(data) && e.Encrypts()
    ensures var v := After(EMPTY_VAULT.(initialized := true), Loads(data, e, n), k);
            v.initialized && v.loads == k
    ensures k < n ==> AnswerTo(EMPTY_VAULT.(initialized := true), Loads(data, e, n), k) == Handle((k + 1) % TWO_64)
  {
    if k != 0 {
      LoadsCount(data, e, n, k - 1);
    }
  }

  /** After 2^64 loads the first handle is handed out again. */
  lemma HandleRepeatsExample(data: Bytes, e: Entropy)
    requires IsContent(data) && e.Encrypts()
    ensures var v, ops := EMPTY_VAULT.(initialized := true), Loads(data, e, TWO_64 + 1);
            AnswerTo(v, ops, 0) == AnswerTo(v, ops, TWO_64) == Handle(1)
  {
    hide AnswerTo, After, Loads;
    LoadsCount(data, e, TWO_64 + 1, 0);
    LoadsCount(data, e, TWO_64 + 1, TWO_64);
  }

  lemma SameResidue(a: nat, b: nat, n: nat)
    requires a <= b && 1 <= n
    ensures a % n == b % n <==> (b - a) % n == 0
  {
    var q := b / n - a / n;
    assert b - a == n * q + (b % n - a % n) by {
      assert n * (b / n) - n * (a / n) == n * q;
    }
    if a % n <= b % n {
      ModuloUnique(b - a, n, q, b % n - a % n);
    } else {
      assert b - a == n * (q - 1) + (n + b % n - a % n);
      ModuloUnique(b - a, n, q - 1, n + b % n - a % n);
    }
  }

  /** A handle once handed out can be invoked in the rest of the run. */
  lemma HandleStaysInvocable(v: Vault, ops: seq<(Operation, Entropy)>, i: nat, j: nat)
    requires i < j < |ops| && AnswerTo(v, ops, i).Handle?
    requires ops[j].0.InvokeOp? && ops[j].0.handle == AnswerTo(v, ops, i).handle
    requires ops[j].0.name == TEST_FUNCTION && ops[j].1.Decrypts()
    ensures AnswerTo(v, ops, j) == Output(ops[j].0.params + [PROCESSED])
  {
    HandleOfLoad(v, ops, i);
    LoadsGrow(v, ops, i + 1, j);
    InitializedThroughout(v, ops, i);
    InitializedThroughout(v, ops, j);
    assert After(v, ops, i).initialized;
    hide After;
  }

  // ---- Storage -------------------------------------------------------------------------

  /** Operations between `i` and `j` that store nothing under `key`. */
  ghost predicate NotOverwritten(v: Vault, ops: seq<(Operation, Entropy)>, key: Bytes, i: nat, j: nat)
    requires j <= |ops|
  {
    forall k: nat | i <= k < j :: !(ops[k].0.StoreOp? && ops[k].0.key == key && AnswerTo(v, ops, k).Stored?)
  }

  lemma {:induction false} StoreKept(v: Vault, ops: seq<(Operation, Entropy)>, key: Bytes, i: nat, j: nat)
    requires i <= j <= |ops| && key in After(v, ops, i).store
    requires NotOverwritten(v, ops, key, i, j)
    ensures key in After(v, ops, j).store && After(v, ops, j).store[key] == After(v, ops, i).store[key]
    decreases j
  {
    if i < j {
      StoreKept(v, ops, key, i, j - 1);
      assert !(ops[j - 1].0.StoreOp? && ops[j - 1].0.key == key && AnswerTo(v, ops, j - 1).Stored?);
    }
  }

  /** A retrieval returns the bytes of the last successful store under its key. */
  lemma RetrieveReturnsLastStored(v: Vault, ops: seq<(Operation, Entropy)>, i: nat, j: nat)
    requires i < j < |ops|
    requires ops[i].0.StoreOp? && AnswerTo(v, ops, i).Stored?
    requires ops[j].0.RetrieveOp? && ops[j].0.key == ops[i].0.key && ops[j].1.Decrypts()
    requires NotOverwritten(v, ops, ops[i].0.key, i + 1, j)
    ensures AnswerTo(v, ops, j) == Output(ops[i].0.data)
  {
    StoreKept(v, ops, ops[i].0.key, i + 1, j);
    InitializedThroughout(v, ops, i);
    InitializedThroughout(v, ops, j);
  }

  lemma {:induction false} InitializedThroughout(v: Vault, ops: seq<(Operation, Entropy)>, n: nat)
    requires n <= |ops|
    ensures After(v, ops, n).initialized == v.initialized
    decreases n
  {
    if n != 0 {
      InitializedThroughout(v, ops, n - 1);
    }
  }
}
