/**
 Threads on one enclave (src/core/enclave.cpp): every operation checks its arguments without the
 lock, then takes the mutex, works in several small steps on the shared maps, and releases it.

 A schedule is any sequence of actions: a call starts, or a started call takes its next small step.
 The shared maps hold ciphertext blobs, as in `EnclaveImpl`. `Linearizable` proves that under every
 schedule the answers are those of the sequential plaintext vault, in the order in which calls took
 the lock (or were turned away before it), and that this order respects real time.
 */
module Concurrency {
  import opened Machine
  import opened EncryptedBlob
  import opened VaultModel
  import opened EnclaveModel

  datatype Phase =
    | Checking                     // called; arguments not yet checked
    | Waiting                      // checks passed; wants the mutex
    | Entered                      // holds the mutex
    | Encrypted(blob: Bytes)       // holds the mutex; the serialised ciphertext is ready
    | Numbered(id: uint64, blob: Bytes)  // has taken an id and advanced the counter
    | Found                        // has found its map entry
    | Opened(encrypted: EncryptedData)   // has parsed the blob of its entry
    | Holding(result: Answer)      // result known, mutex still held
    | Leaving(result: Answer)      // mutex released
    | Returned(result: Answer)

  datatype Call = Call(op: Operation, entropy: Entropy, phase: Phase)

  datatype Event = Called(id: nat) | Answered(id: nat, answer: Answer)

  datatype Action = Start(id: nat, op: Operation, entropy: Entropy) | Move(id: nat)

  /** The cipher, the shared fields, the mutex, the calls, and the record of what happened. */
  datatype World = World(
    cipher: Cipher,
    cells: EnclaveState,
    owner: Option<nat>,
    calls: map<nat, Call>,
    history: seq<Event>,
    order: seq<nat>)

  // ---- Small steps ---------------------------------------------------------------------

  /** Holds the mutex. */
  predicate Inside(p: Phase) {
    p.Entered? || p.Encrypted? || p.Numbered? || p.Found? || p.Opened? || p.Holding?
  }

  /** The checks an operation makes before it takes the mutex. */
  function UnlockedCheck(initialized: bool, op: Operation): Option<EnclaveStatus> {
    if !initialized then Some(ContextNotInitialized)
    else
      var valid := match op
        case LoadOp(data) => IsContent(data)
        case InvokeOp(_, name, _) => IsName(name)
        case StoreOp(key, data) => IsName(key) && IsContent(data)
        case RetrieveOp(key) => IsName(key);
      if valid then None else Some(InvalidParameter)
  }

  function SetPhase(w: World, id: nat, phase: Phase): World
    requires id in w.calls
  {
    w.(calls := w.calls[id := w.calls[id].(phase := phase)])
  }

  /** The key in use; the checks come first, so there always is one. */
  function MasterKey(cells: EnclaveState): Key {
    if cells.masterKey.Some? then cells.masterKey.value else seq(32, _ => 0)
  }

  /** Encrypt and serialise, or fail with the generator or the cipher context. */
  function Seal(cipher: Cipher, cells: EnclaveState, plain: Bytes, e: Entropy): Phase {
    if !e.Encrypts() then Holding(Failed(CryptoFailure))
    else
      var (ciphertext, tag) := cipher.encrypt(MasterKey(cells), plain, e.iv.value);
      Encrypted(EncodeBlob(EncryptedData(ciphertext, e.iv.value, tag)))
  }

  /** The step after `Entered`: encrypt, or find the entry. */
  function AfterEntered(cipher: Cipher, cells: EnclaveState, c: Call): Phase {
    match c.op
    case LoadOp(data) => Seal(cipher, cells, data, c.entropy)
    case StoreOp(_, data) => Seal(cipher, cells, data, c.entropy)
    case InvokeOp(h, _, _) => if h in cells.modules then Found else Holding(Failed(ModuleLoadFailed))
    case RetrieveOp(key) => if key in cells.secureStorage then Found else Holding(Failed(FunctionNotFound))
  }

  function Open(blob: Bytes): Phase {
    if DecodeBlob(blob).Decoded? then Opened(DecodeBlob(blob).blob) else Holding(Failed(CryptoFailure))
  }

  /** The step after `Found`: look up the function, parse the blob. */
  function AfterFound(cells: EnclaveState, c: Call): Phase {
    match c.op
    case InvokeOp(h, name, _) =>
      if h !in cells.modules then Holding(Failed(ModuleLoadFailed))
      else if name !in cells.modules[h].functionTable then Holding(Failed(FunctionNotFound))
      else Open(cells.modules[h].encryptedCode)
    case RetrieveOp(key) =>
      if key !in cells.secureStorage then Holding(Failed(FunctionNotFound)) else Open(cells.secureStorage[key])
    case _ => Found
  }

  /** The step after `Opened`: decrypt and produce the output. */
  function AfterOpened(cipher: Cipher, cells: EnclaveState, c: Call, encrypted: EncryptedData): Answer {
    if !c.entropy.Decrypts() then Failed(CryptoFailure)
    else
      match cipher.decrypt(MasterKey(cells), encrypted)
      case None => Failed(CryptoFailure)
      case Some(plain) => Output(if c.op.InvokeOp? then c.op.params + [PROCESSED] else plain)
  }

  /** One small step of the owner of the mutex: the shared fields and its phase afterwards. */
  function Work(cipher: Cipher, cells: EnclaveState, c: Call): (r: (EnclaveState, Phase))
    requires Inside(c.phase)
    ensures Inside(r.1)
  {
    match c.phase
    case Entered => (cells, AfterEntered(cipher, cells, c))
    case Encrypted(blob) =>
      if c.op.LoadOp?
      then (cells.(nextModuleId := (cells.nextModuleId + 1) % TWO_64), Numbered(cells.nextModuleId, blob))
      else if c.op.StoreOp?
      then (cells.(secureStorage := cells.secureStorage[c.op.key := blob]), Holding(Stored))
      else (cells, c.phase)
    case Numbered(id, blob) =>
      (cells.(modules := cells.modules[id := NewModule(id, blob)]), Holding(Handle(id)))
    case Found => (cells, AfterFound(cells, c))
    case Opened(encrypted) => (cells, Holding(AfterOpened(cipher, cells, c, encrypted)))
    case Holding(_) => (cells, c.phase)
  }

  function Step(w: World, id: nat): World
    requires id in w.calls
  {
    var c := w.calls[id];
    match c.phase
    case Checking =>
      var refused := UnlockedCheck(w.cells.initialized, c.op);
      if refused.Some?
      then SetPhase(w, id, Leaving(Failed(refused.value))).(order := w.order + [id])
      else SetPhase(w, id, Waiting)
    case Waiting =>
      if w.owner.None? then SetPhase(w, id, Entered).(owner := Some(id), order := w.order + [id]) else w
    case Holding(result) =>
      SetPhase(w, id, Leaving(result)).(owner := None)
    case Leaving(result) =>
      SetPhase(w, id, Returned(result)).(history := w.history + [Answered(id, result)])
    case Returned(_) => w
    case _ =>
      var (cells, phase) := Work(w.cipher, w.cells, c);
      SetPhase(w, id, phase).(cells := cells)
  }

  function Act(w: World, a: Action): World {
    match a
    case Start(id, op, e) =>
      if id in w.calls then w
      else w.(calls := w.calls[id := Call(op, e, Checking)], history := w.history + [Called(id)])
    case Move(id) =>
      if id in w.calls then Step(w, id) else w
  }

  function Initially(cipher: Cipher, cells: EnclaveState): World {
    World(cipher, cells, None, map[], [], [])
  }

  function Run(cipher: Cipher, cells: EnclaveState, schedule: seq<Action>): World
    decreases |schedule|
  {
    if schedule == [] then Initially(cipher, cells)
    else Act(Run(cipher, cells, schedule[..|schedule| - 1]), schedule[|schedule| - 1])
  }

  // ---- What must hold ------------------------------------------------------------------

  predicate HasResult(p: Phase) {
    p.Holding? || p.Leaving? || p.Returned?
  }

  predicate Committed(p: Phase) {
    !p.Checking? && !p.Waiting?
  }

  ghost predicate OrderKnown(w: World) {
    forall i | 0 <= i < |w.order| :: w.order[i] in w.calls
  }

  /** The operations in commit order. */
  function OpsOf(w: World): (ops: seq<(Operation, Entropy)>)
    requires OrderKnown(w)
    ensures |ops| == |w.order|
  {
    seq(|w.order|, i requires 0 <= i < |w.order| => (w.calls[w.order[i]].op, w.calls[w.order[i]].entropy))
  }

  ghost predicate Precedes(order: seq<nat>, a: nat, b: nat) {
    exists i, j :: 0 <= i < j < |order| && order[i] == a && order[j] == b
  }

  ghost predicate NoDuplicates(order: seq<nat>) {
    forall i, j :: 0 <= i < j < |order| ==> order[i] != order[j]
  }

  /** The answer given to call `id` is that of the sequential vault at the place of `id` in the order. */
  ghost predicate AnswersInOrder(v: Vault, w: World, id: nat, answer: Answer)
    requires OrderKnown(w)
  {
    exists p :: 0 <= p < |w.order| && w.order[p] == id && answer == AnswerTo(v, OpsOf(w), p)
  }

  /** The commit order is a linearization of the history. */
  ghost predicate IsLinearization(v: Vault, w: World) {
    OrderKnown(w) &&
    NoDuplicates(w.order) &&
    (forall h | 0 <= h < |w.history| && w.history[h].Answered? ::
       AnswersInOrder(v, w, w.history[h].id, w.history[h].answer)) &&
    (forall g, h | 0 <= g < h < |w.history| && w.history[g].Answered? && w.history[h].Called? &&
                   w.history[h].id in w.order ::
       Precedes(w.order, w.history[g].id, w.history[h].id))
  }

  // ---- The invariant -------------------------------------------------------------------

  /** The plaintext that a load or a store brings. */
  function Brought(op: Operation): Bytes
    requires op.LoadOp? || op.StoreOp?
  {
    if op.LoadOp? then op.moduleData else op.data
  }

  /** The plaintext behind the entry that an invocation or a retrieval has found. */
  ghost predicate Behind(op: Operation, before: Vault, plain: Bytes) {
    (op.InvokeOp? && op.handle in before.modules && op.name == TEST_FUNCTION && plain == before.modules[op.handle]) ||
    (op.RetrieveOp? && op.key in before.store && plain == before.store[op.key])
  }

  /** The shared fields while call `c` holds the mutex, if `before` was the vault when it took it. */
  ghost predicate Midway(cipher: Cipher, cells: EnclaveState, c: Call, before: Vault) {
    UnlockedCheck(before.initialized, c.op).None? &&
    match c.phase
    case Entered => Represents(cipher, cells, before)
    case Encrypted(blob) =>
      Represents(cipher, cells, before) && c.entropy.Encrypts() && (c.op.LoadOp? || c.op.StoreOp?) &&
      Holds(cipher, MasterKey(cells), blob, Brought(c.op))
    case Numbered(id, blob) =>
      Represents(cipher, cells.(nextModuleId := id), before) && c.entropy.Encrypts() && c.op.LoadOp? &&
      cells.nextModuleId == (id + 1) % TWO_64 &&
      Holds(cipher, MasterKey(cells), blob, c.op.moduleData)
    case Found =>
      Represents(cipher, cells, before) &&
      ((c.op.InvokeOp? && c.op.handle in before.modules) || (c.op.RetrieveOp? && c.op.key in before.store))
    case Opened(encrypted) =>
      Represents(cipher, cells, before) &&
      exists plain :: Behind(c.op, before, plain) && cipher.decrypt(MasterKey(cells), encrypted) == Some(plain)
    case Holding(result) =>
      Represents(cipher, cells, Perform(before, c.op, c.entropy).0) && result == Perform(before, c.op, c.entropy).1
    case _ => false
  }

  ghost predicate LockFree(v: Vault, w: World)
    requires OrderKnown(w)
  {
    Represents(w.cipher, w.cells, After(v, OpsOf(w), |w.order|)) &&
    forall id | id in w.calls :: !Inside(w.calls[id].phase)
  }

  /** The owner committed at place `p`, and everything committed since was turned away. */
  ghost predicate LockHeldAt(v: Vault, w: World, p: nat)
    requires OrderKnown(w) && w.owner.Some?
  {
    p < |w.order| && w.order[p] == w.owner.value &&
    Inside(w.calls[w.owner.value].phase) &&
    (forall id | id in w.calls && id != w.owner.value :: !Inside(w.calls[id].phase)) &&
    Midway(w.cipher, w.cells, w.calls[w.owner.value], After(v, OpsOf(w), p)) &&
    After(v, OpsOf(w), |w.order|) == After(v, OpsOf(w), p + 1)
  }

  ghost predicate Bookkeeping(w: World) {
    OrderKnown(w) && NoDuplicates(w.order) &&
    (forall id | id in w.calls :: Committed(w.calls[id].phase) <==> id in w.order) &&
    (forall h | 0 <= h < |w.history| :: w.history[h].id in w.calls) &&
    (forall h | 0 <= h < |w.history| && w.history[h].Answered? ::
       w.calls[w.history[h].id].phase == Returned(w.history[h].answer))
  }

  ghost predicate ResultsInOrder(v: Vault, w: World)
    requires OrderKnown(w)
  {
    forall p | 0 <= p < |w.order| && HasResult(w.calls[w.order[p]].phase) ::
      w.calls[w.order[p]].phase.result == AnswerTo(v, OpsOf(w), p)
  }

  ghost predicate RealTime(w: World) {
    forall g, h | 0 <= g < h < |w.history| && w.history[g].Answered? && w.history[h].Called? &&
                  w.history[h].id in w.order ::
      Precedes(w.order, w.history[g].id, w.history[h].id)
  }

  /** Whoever waits for the mutex has passed the checks. */
  ghost predicate WaitersAdmitted(w: World) {
    forall id | id in w.calls && w.calls[id].phase.Waiting? ::
      UnlockedCheck(w.cells.initialized, w.calls[id].op).None?
  }

  ghost predicate MutexGuards(v: Vault, w: World)
    requires OrderKnown(w)
  {
    if w.owner.None? then LockFree(v, w) else exists p: nat :: LockHeldAt(v, w, p)
  }

  /** The shared cells, the mutex and the results are those of the vault at the right places. */
  ghost predicate RefinesVault(v: Vault, w: World)
    requires OrderKnown(w)
  {
    Sound(w.cipher) && w.cells.initialized == v.initialized &&
    WaitersAdmitted(w) && MutexGuards(v, w) && ResultsInOrder(v, w)
  }

  ghost predicate Invariant(v: Vault, w: World) {
    Bookkeeping(w) && RealTime(w) && RefinesVault(v, w)
  }

  // ---- Runs of the vault ---------------------------------------------------------------

  lemma RefusedChangesNothing(v: Vault, op: Operation, e: Entropy)
    requires UnlockedCheck(v.initialized, op).Some?
    ensures Perform(v, op, e) == (v, Failed(UnlockedCheck(v.initialized, op).value))
  {}

  // ---- Bookkeeping ---------------------------------------------------------------------

  /** `w'` still knows every call of `w`, with the same operation and entropy. */
  ghost predicate KeepsCalls(w: World, w': World) {
    forall id | id in w.calls ::
      id in w'.calls && w'.calls[id].op == w.calls[id].op && w'.calls[id].entropy == w.calls[id].entropy
  }

  /** What a small step does to everything except the shared cells and the mutex. */
  ghost predicate StepShape(w: World, w': World, id: nat)
    requires id in w.calls
  {
    id in w'.calls && w'.cipher == w.cipher &&
    var p, p' := w.calls[id].phase, w'.calls[id].phase;
    w'.calls == w.calls[id := w.calls[id].(phase := p')] &&
    (if w'.order == w.order then Committed(p) <==> Committed(p')
     else w'.order == w.order + [id] && !Committed(p) && Committed(p')) &&
    (if p'.Returned? && !p.Returned? then w'.history == w.history + [Answered(id, p'.result)]
     else w'.history == w.history) &&
    (p.Returned? ==> w' == w)
  }

  lemma StepHasShape(w: World, id: nat)
    requires id in w.calls
    ensures StepShape(w, Step(w, id), id)
  {
    hide Work, UnlockedCheck;
  }

  lemma OpsKept(w: World, w': World)
    requires OrderKnown(w) && KeepsCalls(w, w') && w'.order == w.order
    ensures OrderKnown(w') && OpsOf(w') == OpsOf(w)
  {}

  lemma OpsExtended(w: World, w': World, id: nat)
    requires OrderKnown(w) && KeepsCalls(w, w') && id in w.calls && w'.order == w.order + [id]
    ensures OrderKnown(w') && OpsOf(w') == OpsOf(w) + [(w.calls[id].op, w.calls[id].entropy)]
  {}

  lemma BookkeepingOfShape(w: World, w': World, id: nat)
    requires Bookkeeping(w) && id in w.calls && StepShape(w, w', id)
    ensures Bookkeeping(w')
  {
    if w'.order != w.order {
      forall k | k in w'.calls ensures Committed(w'.calls[k].phase) <==> k in w'.order {
        assert k in w'.order <==> k in w.order || k == id;
      }
    }
  }

  lemma BookkeepingKept(w: World, a: Action)
    requires Bookkeeping(w)
    ensures Bookkeeping(Act(w, a))
  {
    hide Step;
    if a.Move? && a.id in w.calls {
      StepHasShape(w, a.id);
      BookkeepingOfShape(w, Step(w, a.id), a.id);
    }
  }

  lemma PrecedesInLonger(order: seq<nat>, id: nat, a: nat, b: nat)
    requires Precedes(order, a, b)
    ensures Precedes(order + [id], a, b)
  {
    var i, j :| 0 <= i < j < |order| && order[i] == a && order[j] == b;
    assert (order + [id])[i] == a && (order + [id])[j] == b;
  }

  /** A call that starts after another was answered commits after it. */
  lemma RealTimeKept(w: World, a: Action)
    requires Bookkeeping(w) && RealTime(w)
    ensures RealTime(Act(w, a))
  {
    hide Step;
    var w' := Act(w, a);
    if a.Move? && a.id in w.calls {
      StepHasShape(w, a.id);
    }
    forall g, h | 0 <= g < h < |w'.history| && w'.history[g].Answered? && w'.history[h].Called? &&
                  w'.history[h].id in w'.order
      ensures Precedes(w'.order, w'.history[g].id, w'.history[h].id)
    {
      var x, y := w'.history[g].id, w'.history[h].id;
      assert x in w.order;
      if y in w.order {
        assert Precedes(w.order, x, y);
        if w'.order != w.order {
          PrecedesInLonger(w.order, a.id, x, y);
        }
      } else {
        var i :| 0 <= i < |w.order| && w.order[i] == x;
        assert w'.order == w.order + [y];
        assert w'.order[i] == x && w'.order[|w.order|] == y;
      }
    }
  }

  // ---- The record ----------------------------------------------------------------------

  /** Every call is recorded, and so is every answer. */
  ghost predicate IsRecorded(w: World) {
    forall id | id in w.calls ::
      Called(id) in w.history &&
      (w.calls[id].phase.Returned? ==> Answered(id, w.calls[id].phase.result) in w.history)
  }

  /** No call starts twice or is answered twice. */
  ghost predicate HappensOnce(history: seq<Event>) {
    forall g, h | 0 <= g < h < |history| && history[g].id == history[h].id ::
      history[g].Called? && history[h].Answered?
  }

  lemma RecordKept(w: World, a: Action)
    requires IsRecorded(w)
    ensures IsRecorded(Act(w, a))
  {
    hide Step;
    var w' := Act(w, a);
    if a.Move? && a.id in w.calls {
      StepHasShape(w, a.id);
    }
    assert forall event | event in w.history :: event in w'.history;
  }

  lemma HappensOnceKept(w: World, a: Action)
    requires Bookkeeping(w) && HappensOnce(w.history)
    ensures HappensOnce(Act(w, a).history)
  {
    hide Step, NoDuplicates;
    if a.Move? && a.id in w.calls {
      StepHasShape(w, a.id);
    }
  }

  /** The calls are those that the schedule started, with the operation and entropy it gave them. */
  ghost predicate IsStarted(w: World, schedule: seq<Action>) {
    (forall a | a in schedule && a.Start? :: a.id in w.calls) &&
    (forall id | id in w.calls :: Start(id, w.calls[id].op, w.calls[id].entropy) in schedule)
  }

  lemma StartedKept(w: World, schedule: seq<Action>, a: Action)
    requires IsStarted(w, schedule)
    ensures IsStarted(Act(w, a), schedule + [a])
  {
    hide Step;
    if a.Move? && a.id in w.calls {
      StepHasShape(w, a.id);
    }
    var w' := Act(w, a);
    forall id | id in w'.calls
      ensures Start(id, w'.calls[id].op, w'.calls[id].entropy) in schedule + [a]
    {
      if id in w.calls {
        assert Start(id, w.calls[id].op, w.calls[id].entropy) in schedule;
      }
    }
  }

  /** How many steps a call is away from its return, at most. */
  function Distance(p: Phase): nat {
    match p
    case Checking => 7
    case Waiting => 6
    case Entered => 5
    case Encrypted(_) => 4
    case Found => 4
    case Numbered(_, _) => 3
    case Opened(_) => 3
    case Holding(_) => 2
    case Leaving(_) => 1
    case Returned(_) => 0
  }

  /** Every effective step brings its call closer to its return, so no call takes more than seven. */
  lemma StepsDescend(w: World, id: nat)
    requires id in w.calls && Step(w, id) != w
    ensures Distance(Step(w, id).calls[id].phase) < Distance(w.calls[id].phase)
  {
    hide UnlockedCheck;
    assert w.calls[id := w.calls[id]] == w.calls;
  }

  // ---- Steps refine the vault ----------------------------------------------------------

  lemma EnteredWorks(cipher: Cipher, cells: EnclaveState, c: Call, before: Vault)
    requires Sound(cipher) && Midway(cipher, cells, c, before) && c.phase.Entered?
    ensures var (cells', phase) := Work(cipher, cells, c);
            Midway(cipher, cells', c.(phase := phase), before) && cells' == cells
  {
    hide Sound, Holds, ModulesHold, StorageHolds, EncodeBlob;
    if (c.op.LoadOp? || c.op.StoreOp?) && c.entropy.Encrypts() {
      EncryptedHolds(cipher, MasterKey(cells), Brought(c.op), c.entropy.iv.value);
    }
  }

  lemma EncryptedWorks(cipher: Cipher, cells: EnclaveState, c: Call, before: Vault)
    requires Midway(cipher, cells, c, before) && c.phase.Encrypted?
    ensures var (cells', phase) := Work(cipher, cells, c);
            Midway(cipher, cells', c.(phase := phase), before)
  {
    hide Holds, ModulesHold, StorageHolds;
    if c.op.StoreOp? {
      StoreRepresents(cipher, cells, before, c.op.key, c.op.data, c.phase.blob, c.entropy);
    } else {
      assert cells.(nextModuleId := cells.nextModuleId) == cells;
    }
  }

  lemma NumberedWorks(cipher: Cipher, cells: EnclaveState, c: Call, before: Vault)
    requires Midway(cipher, cells, c, before) && c.phase.Numbered?
    ensures var (cells', phase) := Work(cipher, cells, c);
            Midway(cipher, cells', c.(phase := phase), before)
  {
    hide Holds, ModulesHold, StorageHolds;
    LoadRepresents(cipher, cells.(nextModuleId := c.phase.id), before, c.op.moduleData, c.phase.blob, c.entropy);
  }

  lemma FoundWorks(cipher: Cipher, cells: EnclaveState, c: Call, before: Vault)
    requires Midway(cipher, cells, c, before) && c.phase.Found?
    ensures var (cells', phase) := Work(cipher, cells, c);
            Midway(cipher, cells', c.(phase := phase), before) && cells' == cells && phase != Found
  {
    hide DecodeBlob;
    var plain := if c.op.InvokeOp? then before.modules[c.op.handle] else before.store[c.op.key];
    if c.op.InvokeOp? ==> c.op.name == TEST_FUNCTION {
      assert Behind(c.op, before, plain);
    }
  }

  lemma OpenedWorks(cipher: Cipher, cells: EnclaveState, c: Call, before: Vault)
    requires Midway(cipher, cells, c, before) && c.phase.Opened?
    ensures var (cells', phase) := Work(cipher, cells, c);
            Midway(cipher, cells', c.(phase := phase), before) && cells' == cells
  {
    hide ModulesHold, StorageHolds;
    var plain :| Behind(c.op, before, plain) && cipher.decrypt(MasterKey(cells), c.phase.encrypted) == Some(plain);
  }

  /** While the mutex is held the shared fields run ahead of the vault in exactly the way `Midway` says. */
  lemma MidwayKept(cipher: Cipher, cells: EnclaveState, c: Call, before: Vault)
    requires Sound(cipher) && Midway(cipher, cells, c, before) && Inside(c.phase) && !c.phase.Holding?
    ensures var (cells', phase) := Work(cipher, cells, c);
            Midway(cipher, cells', c.(phase := phase), before) &&
            cells'.initialized == cells.initialized && phase != c.phase
  {
    hide Sound, Represents, Holds, Perform, UnlockedCheck;
    match c.phase
    case Entered => EnteredWorks(cipher, cells, c, before);
    case Encrypted(_) => EncryptedWorks(cipher, cells, c, before);
    case Numbered(_, _) => NumberedWorks(cipher, cells, c, before);
    case Found => FoundWorks(cipher, cells, c, before);
    case Opened(_) => OpenedWorks(cipher, cells, c, before);
  }

  /** Only the owner of the mutex is inside; `p` is its place in the order. */
  lemma OwnersPlace(v: Vault, w: World, id: nat) returns (p: nat)
    requires OrderKnown(w) && MutexGuards(v, w) && id in w.calls && Inside(w.calls[id].phase)
    ensures w.owner == Some(id) && LockHeldAt(v, w, p)
  {
    hide OpsOf, Midway, After;
    p :| LockHeldAt(v, w, p);
  }

  /** A step outside the mutex that commits nothing and computes no result. */
  ghost predicate IsQuiet(w: World, w': World) {
    KeepsCalls(w, w') && w'.order == w.order && w'.owner == w.owner && w'.cells == w.cells && w'.cipher == w.cipher &&
    (forall k | k in w.calls && Inside(w.calls[k].phase) :: w'.calls[k] == w.calls[k]) &&
    (forall k | k in w'.calls && Inside(w'.calls[k].phase) :: k in w.calls && w'.calls[k] == w.calls[k]) &&
    (forall k | k in w.calls && HasResult(w'.calls[k].phase) ::
       HasResult(w.calls[k].phase) && w'.calls[k].phase.result == w.calls[k].phase.result)
  }

  lemma QuietKeepsMutex(v: Vault, w: World, w': World)
    requires OrderKnown(w) && MutexGuards(v, w) && IsQuiet(w, w')
    ensures OrderKnown(w') && MutexGuards(v, w')
  {
    OpsKept(w, w');
    hide Midway, After, OpsOf, Inside, HasResult;
    if w.owner.Some? {
      var p: nat :| LockHeldAt(v, w, p);
      assert LockHeldAt(v, w', p);
    }
  }

  lemma QuietRefines(v: Vault, w: World, w': World)
    requires OrderKnown(w) && RefinesVault(v, w) && IsQuiet(w, w') && WaitersAdmitted(w')
    ensures OrderKnown(w') && RefinesVault(v, w')
  {
    QuietKeepsMutex(v, w, w');
    OpsKept(w, w');
    hide MutexGuards, AnswerTo, OpsOf, UnlockedCheck, WaitersAdmitted, Inside, HasResult;
  }

  lemma AcquireRefines(v: Vault, w: World, id: nat)
    requires OrderKnown(w) && RefinesVault(v, w) && id in w.calls && w.calls[id].phase.Waiting? && w.owner.None?
    ensures OrderKnown(Step(w, id)) && RefinesVault(v, Step(w, id))
  {
    hide ModulesHold, StorageHolds, Sound, UnlockedCheck, Work;
    var w' := Step(w, id);
    OpsExtended(w, w', id);
    hide After, AnswerTo, OpsOf;
    var ops, n := OpsOf(w), |w.order|;
    forall k: nat | k <= n
      ensures After(v, OpsOf(w'), k) == After(v, ops, k) && (k < n ==> AnswerTo(v, OpsOf(w'), k) == AnswerTo(v, ops, k))
    {
      RunOfPrefix(v, ops, [(w.calls[id].op, w.calls[id].entropy)], k);
    }
    assert LockHeldAt(v, w', n);
  }

  /** `w'` is `w` after a step of its owner `id`, which took the mutex at place `p`. */
  ghost predicate IsOwnerStep(v: Vault, w: World, w': World, id: nat, p: nat)
    requires OrderKnown(w)
  {
    id in w.calls && id in w'.calls && KeepsCalls(w, w') && w.owner == Some(id) && LockHeldAt(v, w, p) &&
    w'.calls == w.calls[id := w'.calls[id]] && w'.order == w.order &&
    w'.cells.initialized == w.cells.initialized && w'.cipher == w.cipher && !w'.calls[id].phase.Waiting?
  }

  lemma OwnerKeepsMutex(v: Vault, w: World, w': World, id: nat, p: nat)
    requires OrderKnown(w) && IsOwnerStep(v, w, w', id, p) && w'.owner == w.owner && Inside(w'.calls[id].phase)
    requires Midway(w'.cipher, w'.cells, w'.calls[id], After(v, OpsOf(w), p))
    ensures OrderKnown(w') && MutexGuards(v, w')
  {
    OpsKept(w, w');
    hide OpsOf, After, Midway, Inside;
    assert LockHeldAt(v, w', p);
  }

  lemma OwnerKeepsResults(v: Vault, w: World, w': World, id: nat, p: nat)
    requires Bookkeeping(w) && ResultsInOrder(v, w) && IsOwnerStep(v, w, w', id, p)
    requires HasResult(w'.calls[id].phase) ==> w'.calls[id].phase.result == AnswerTo(v, OpsOf(w), p)
    ensures OrderKnown(w') && ResultsInOrder(v, w')
  {
    OpsKept(w, w');
    hide OpsOf, AnswerTo, After, Midway, Inside;
    forall q | 0 <= q < |w'.order| && HasResult(w'.calls[w'.order[q]].phase)
      ensures w'.calls[w'.order[q]].phase.result == AnswerTo(v, OpsOf(w'), q)
    {
      assert w'.order[q] == id ==> q == p;
    }
  }

  /** A result known under the mutex is the answer of the vault, and the cells are the vault's. */
  lemma HoldingIsPerformed(v: Vault, cipher: Cipher, cells: EnclaveState, c: Call,
                           ops: seq<(Operation, Entropy)>, p: nat)
    requires p < |ops| && ops[p] == (c.op, c.entropy)
    requires Midway(cipher, cells, c, After(v, ops, p)) && c.phase.Holding?
    ensures c.phase.result == AnswerTo(v, ops, p) && Represents(cipher, cells, After(v, ops, p + 1))
  {
    hide Perform, UnlockedCheck, Represents;
  }

  lemma OwnerStepRefines(v: Vault, w: World, id: nat)
    requires Invariant(v, w) && id in w.calls && Inside(w.calls[id].phase) && !w.calls[id].phase.Holding?
    ensures OrderKnown(Step(w, id)) && RefinesVault(v, Step(w, id))
  {
    hide After, AnswerTo, MutexGuards, ResultsInOrder, RealTime, UnlockedCheck, Perform, Midway, Sound, Work;
    var w' := Step(w, id);
    var p := OwnersPlace(v, w, id);
    MidwayKept(w.cipher, w.cells, w.calls[id], After(v, OpsOf(w), p));
    if w'.calls[id].phase.Holding? {
      HoldingIsPerformed(v, w'.cipher, w'.cells, w'.calls[id], OpsOf(w), p);
    }
    hide OpsOf, Step;
    OwnerKeepsMutex(v, w, w', id, p);
    OwnerKeepsResults(v, w, w', id, p);
  }

  lemma ReleaseFreesMutex(v: Vault, w: World, w': World, id: nat, p: nat)
    requires OrderKnown(w) && IsOwnerStep(v, w, w', id, p) && w'.owner.None? && !Inside(w'.calls[id].phase)
    requires Represents(w'.cipher, w'.cells, After(v, OpsOf(w), |w.order|))
    ensures OrderKnown(w') && MutexGuards(v, w')
  {
    OpsKept(w, w');
    hide OpsOf, After, Midway, Inside, Represents;
  }

  lemma ReleaseRefines(v: Vault, w: World, id: nat)
    requires Invariant(v, w) && id in w.calls && w.calls[id].phase.Holding?
    ensures OrderKnown(Step(w, id)) && RefinesVault(v, Step(w, id))
  {
    hide After, AnswerTo, MutexGuards, ResultsInOrder, RealTime, UnlockedCheck, Midway, Work, Represents, Sound;
    var w' := Step(w, id);
    var p := OwnersPlace(v, w, id);
    HoldingIsPerformed(v, w.cipher, w.cells, w.calls[id], OpsOf(w), p);
    hide OpsOf;
    assert w' == SetPhase(w, id, Leaving(w.calls[id].phase.result)).(owner := None);
    OwnerKeepsResults(v, w, w', id, p);
    ReleaseFreesMutex(v, w, w', id, p);
  }

  /** Appending a refused operation to a run changes none of its vaults and answers. */
  lemma RunWithRefusal(v: Vault, ops: seq<(Operation, Entropy)>, op: Operation, e: Entropy)
    requires UnlockedCheck(v.initialized, op).Some?
    ensures var longer := ops + [(op, e)];
            (forall k: nat | k <= |ops| :: After(v, longer, k) == After(v, ops, k)) &&
            (forall k: nat | k < |ops| :: AnswerTo(v, longer, k) == AnswerTo(v, ops, k)) &&
            After(v, longer, |longer|) == After(v, ops, |ops|) &&
            AnswerTo(v, longer, |ops|) == Failed(UnlockedCheck(v.initialized, op).value)
  {
    var longer := ops + [(op, e)];
    forall k: nat | k <= |ops|
      ensures After(v, longer, k) == After(v, ops, k) && (k < |ops| ==> AnswerTo(v, longer, k) == AnswerTo(v, ops, k))
    {
      RunOfPrefix(v, ops, [(op, e)], k);
    }
    InitializedThroughout(v, ops, |ops|);
    RefusedChangesNothing(After(v, ops, |ops|), op, e);
    hide Perform, UnlockedCheck;
    assert longer[|ops|] == (op, e);
  }

  /** `w` after call `id` was turned away by the unlocked checks. */
  function TurnedAway(w: World, id: nat, status: EnclaveStatus): World
    requires id in w.calls
  {
    SetPhase(w, id, Leaving(Failed(status))).(order := w.order + [id])
  }

  lemma RefusalKeepsMutex(v: Vault, w: World, id: nat, status: EnclaveStatus)
    requires id in w.calls && w.calls[id].phase.Checking? && OrderKnown(w) && MutexGuards(v, w)
    requires UnlockedCheck(v.initialized, w.calls[id].op).Some?
    ensures OrderKnown(TurnedAway(w, id, status)) && MutexGuards(v, TurnedAway(w, id, status))
  {
    hide After, AnswerTo, OpsOf, UnlockedCheck, Midway;
    var w' := TurnedAway(w, id, status);
    OpsExtended(w, w', id);
    RunWithRefusal(v, OpsOf(w), w.calls[id].op, w.calls[id].entropy);
    if w.owner.Some? {
      var p: nat :| LockHeldAt(v, w, p);
      assert After(v, OpsOf(w'), p + 1) == After(v, OpsOf(w), p + 1);
      assert LockHeldAt(v, w', p);
    }
  }

  lemma RefusalKeepsResults(v: Vault, w: World, id: nat, status: EnclaveStatus)
    requires Bookkeeping(w) && ResultsInOrder(v, w) && id in w.calls && w.calls[id].phase.Checking?
    requires UnlockedCheck(v.initialized, w.calls[id].op) == Some(status)
    ensures OrderKnown(TurnedAway(w, id, status)) && ResultsInOrder(v, TurnedAway(w, id, status))
  {
    hide After, AnswerTo, OpsOf, UnlockedCheck;
    var w' := TurnedAway(w, id, status);
    OpsExtended(w, w', id);
    RunWithRefusal(v, OpsOf(w), w.calls[id].op, w.calls[id].entropy);
  }

  lemma RefusalRefines(v: Vault, w: World, id: nat)
    requires Invariant(v, w) && id in w.calls && w.calls[id].phase.Checking?
    requires UnlockedCheck(w.cells.initialized, w.calls[id].op).Some?
    ensures var w' := Step(w, id);
            OrderKnown(w') && RefinesVault(v, w')
  {
    hide MutexGuards, ResultsInOrder, UnlockedCheck, RealTime, NoDuplicates;
    var status := UnlockedCheck(w.cells.initialized, w.calls[id].op).value;
    assert Step(w, id) == TurnedAway(w, id, status);
    RefusalKeepsMutex(v, w, id, status);
    RefusalKeepsResults(v, w, id, status);
  }

  /** Passing the checks, being answered, and waiting on a mutex that is taken. */
  lemma OutsideStepRefines(v: Vault, w: World, id: nat)
    requires OrderKnown(w) && RefinesVault(v, w) && id in w.calls
    requires match w.calls[id].phase
             case Checking => UnlockedCheck(w.cells.initialized, w.calls[id].op).None?
             case Waiting => w.owner.Some?
             case _ => !Inside(w.calls[id].phase)
    ensures OrderKnown(Step(w, id)) && RefinesVault(v, Step(w, id))
  {
    OutsideStepIsQuiet(w, id);
    hide Step, IsQuiet, MutexGuards, ResultsInOrder, UnlockedCheck, Sound, WaitersAdmitted, Inside;
    QuietRefines(v, w, Step(w, id));
  }

  lemma OutsideStepIsQuiet(w: World, id: nat)
    requires id in w.calls && WaitersAdmitted(w)
    requires match w.calls[id].phase
             case Checking => UnlockedCheck(w.cells.initialized, w.calls[id].op).None?
             case Waiting => w.owner.Some?
             case _ => !Inside(w.calls[id].phase)
    ensures IsQuiet(w, Step(w, id)) && WaitersAdmitted(Step(w, id))
  {
    hide Work, UnlockedCheck;
    var phase := Step(w, id).calls[id].phase;
    assert Step(w, id).calls == w.calls[id := w.calls[id].(phase := phase)];
    hide Step;
  }

  lemma StepRefines(v: Vault, w: World, id: nat)
    requires Invariant(v, w) && id in w.calls
    ensures OrderKnown(Step(w, id)) && RefinesVault(v, Step(w, id))
  {
    hide Step, RefinesVault, RealTime, NoDuplicates, UnlockedCheck;
    match w.calls[id].phase
    case Checking =>
      if UnlockedCheck(w.cells.initialized, w.calls[id].op).Some? {
        RefusalRefines(v, w, id);
      } else {
        OutsideStepRefines(v, w, id);
      }
    case Waiting =>
      if w.owner.None? {
        AcquireRefines(v, w, id);
      } else {
        OutsideStepRefines(v, w, id);
      }
    case Holding(_) =>
      ReleaseRefines(v, w, id);
    case _ =>
      if Inside(w.calls[id].phase) {
        OwnerStepRefines(v, w, id);
      } else {
        OutsideStepRefines(v, w, id);
      }
  }

  lemma ActRefines(v: Vault, w: World, a: Action)
    requires Invariant(v, w)
    ensures OrderKnown(Act(w, a)) && RefinesVault(v, Act(w, a))
  {
    hide Step, MutexGuards, ResultsInOrder, RealTime;
    if a.Start? && a.id !in w.calls {
      QuietRefines(v, w, Act(w, a));
    } else if a.Move? && a.id in w.calls {
      StepRefines(v, w, a.id);
    }
  }

  lemma {:induction false} InvariantHolds(cipher: Cipher, cells: EnclaveState, v: Vault, schedule: seq<Action>)
    requires Sound(cipher) && Represents(cipher, cells, v)
    ensures Invariant(v, Run(cipher, cells, schedule))
    decreases |schedule|
  {
    hide Bookkeeping, RealTime, RefinesVault, Act;
    if schedule == [] {
      InitiallyHolds(cipher, cells, v);
    } else {
      var n := |schedule| - 1;
      var w := Run(cipher, cells, schedule[..n]);
      InvariantHolds(cipher, cells, v, schedule[..n]);
      BookkeepingKept(w, schedule[n]);
      RealTimeKept(w, schedule[n]);
      ActRefines(v, w, schedule[n]);
    }
  }

  lemma {:induction false} RecordHolds(cipher: Cipher, cells: EnclaveState, schedule: seq<Action>)
    ensures var w := Run(cipher, cells, schedule);
            Bookkeeping(w) && IsRecorded(w) && HappensOnce(w.history) && IsStarted(w, schedule)
    decreases |schedule|
  {
    hide Bookkeeping, IsRecorded, HappensOnce, IsStarted, Act;
    if schedule == [] {
      NothingRecorded(cipher, cells);
    } else {
      var n := |schedule| - 1;
      var w := Run(cipher, cells, schedule[..n]);
      RecordHolds(cipher, cells, schedule[..n]);
      BookkeepingKept(w, schedule[n]);
      RecordKept(w, schedule[n]);
      HappensOnceKept(w, schedule[n]);
      StartedKept(w, schedule[..n], schedule[n]);
      assert schedule[..n] + [schedule[n]] == schedule;
    }
  }

  lemma NothingRecorded(cipher: Cipher, cells: EnclaveState)
    ensures var w := Initially(cipher, cells);
            Bookkeeping(w) && IsRecorded(w) && HappensOnce(w.history) && IsStarted(w, [])
  {}

  lemma InitiallyHolds(cipher: Cipher, cells: EnclaveState, v: Vault)
    requires Sound(cipher) && Represents(cipher, cells, v)
    ensures Invariant(v, Initially(cipher, cells))
  {}

  lemma {:induction false} RunKeepsCipher(cipher: Cipher, cells: EnclaveState, schedule: seq<Action>)
    ensures Run(cipher, cells, schedule).cipher == cipher
    decreases |schedule|
  {
    hide Work, UnlockedCheck;
    if schedule != [] {
      RunKeepsCipher(cipher, cells, schedule[..|schedule| - 1]);
    }
  }

  // ---- Main results --------------------------------------------------------------------

  /** Every call that has returned is recorded with the answer of the sequential vault at its place. */
  ghost predicate ReturnsAnswers(v: Vault, w: World)
    requires OrderKnown(w)
  {
    forall id | id in w.calls && w.calls[id].phase.Returned? ::
      Answered(id, w.calls[id].phase.result) in w.history && AnswersInOrder(v, w, id, w.calls[id].phase.result)
  }

  /**
   Under every schedule the commit order is a linearization of a history in which every started call
   and every answer is recorded once; and an idle enclave is its outcome.
   */
  lemma Linearizable(cipher: Cipher, cells: EnclaveState, v: Vault, schedule: seq<Action>)
    requires Sound(cipher) && Represents(cipher, cells, v)
    ensures var w := Run(cipher, cells, schedule);
            IsLinearization(v, w) && IsRecorded(w) && HappensOnce(w.history) && IsStarted(w, schedule) &&
            ReturnsAnswers(v, w) &&
            (w.owner.None? ==> Represents(cipher, w.cells, After(v, OpsOf(w), |w.order|)))
  {
    hide Run, OpsOf, After, AnswerTo, UnlockedCheck, LockHeldAt, Represents, Sound, IsStarted, HappensOnce;
    var w := Run(cipher, cells, schedule);
    InvariantHolds(cipher, cells, v, schedule);
    RecordHolds(cipher, cells, schedule);
    RunKeepsCipher(cipher, cells, schedule);
    forall id | id in w.calls && w.calls[id].phase.Returned?
      ensures AnswersInOrder(v, w, id, w.calls[id].phase.result)
    {
      assert id in w.order;
      var p :| 0 <= p < |w.order| && w.order[p] == id;
      assert HasResult(w.calls[w.order[p]].phase);
    }
  }

  /** In particular for threads on a valid enclave object, in whatever state earlier calls left it. */
  lemma EnclaveLinearizes(enclave: EnclaveImpl, schedule: seq<Action>)
    requires enclave.Valid()
    ensures var w := Run(enclave.crypto.cipher, enclave.State(), schedule);
            IsLinearization(enclave.vault, w) && IsRecorded(w) && HappensOnce(w.history) && IsStarted(w, schedule) &&
            ReturnsAnswers(enclave.vault, w) &&
            (w.owner.None? ==>
             Represents(enclave.crypto.cipher, w.cells, After(enclave.vault, OpsOf(w), |w.order|)))
  {
    hide IsLinearization, IsRecorded, HappensOnce, IsStarted, ReturnsAnswers, Represents, Sound;
    Linearizable(enclave.crypto.cipher, enclave.State(), enclave.vault, schedule);
  }

  lemma MutualExclusion(cipher: Cipher, cells: EnclaveState, v: Vault, schedule: seq<Action>, a: nat, b: nat)
    requires Sound(cipher) && Represents(cipher, cells, v)
    requires var w := Run(cipher, cells, schedule);
             a in w.calls && b in w.calls && Inside(w.calls[a].phase) && Inside(w.calls[b].phase)
    ensures a == b && Run(cipher, cells, schedule).owner == Some(a)
  {
    hide Run, MutexGuards;
    InvariantHolds(cipher, cells, v, schedule);
    var p := OwnersPlace(v, Run(cipher, cells, schedule), a);
    var q := OwnersPlace(v, Run(cipher, cells, schedule), b);
  }

  /** No deadlock: as long as some call has not returned, some call can take a step. */
  lemma SomeoneCanMove(cipher: Cipher, cells: EnclaveState, v: Vault, schedule: seq<Action>, id: nat)
    requires Sound(cipher) && Represents(cipher, cells, v)
    requires var w := Run(cipher, cells, schedule);
             id in w.calls && !w.calls[id].phase.Returned?
    ensures var w := Run(cipher, cells, schedule);
            exists k :: k in w.calls && Step(w, k) != w
  {
    hide Run, OpsOf, After, AnswerTo, UnlockedCheck, Work, Midway, Represents, Sound;
    var w := Run(cipher, cells, schedule);
    InvariantHolds(cipher, cells, v, schedule);
    if w.owner.Some? {
      var p: nat :| LockHeldAt(v, w, p);
      var k := w.owner.value;
      if !w.calls[k].phase.Holding? {
        MidwayKept(w.cipher, w.cells, w.calls[k], After(v, OpsOf(w), p));
      }
      assert Step(w, k).calls[k].phase != w.calls[k].phase;
    } else {
      assert Step(w, id).calls[id].phase != w.calls[id].phase;
    }
  }

  /** Handles are handed out in the order of the mutex, increasing while fewer than 2^64 loads were made. */
  lemma HandlesFollowLockOrder(cipher: Cipher, cells: EnclaveState, v: Vault, schedule: seq<Action>, i: nat, j: nat)
    requires Sound(cipher) && Represents(cipher, cells, v)
    requires var w := Run(cipher, cells, schedule);
             i < j < |w.order| && OrderKnown(w) &&
             HasResult(w.calls[w.order[i]].phase) && w.calls[w.order[i]].phase.result.Handle? &&
             HasResult(w.calls[w.order[j]].phase) && w.calls[w.order[j]].phase.result.Handle?
    ensures var w := Run(cipher, cells, schedule);
            var first, second := w.calls[w.order[i]].phase.result.handle, w.calls[w.order[j]].phase.result.handle;
            (After(v, OpsOf(w), |w.order|).loads < TWO_64 ==> first < second)
  {
    hide Run, OpsOf, UnlockedCheck, AnswerTo, After, Represents, Sound, MutexGuards;
    var w := Run(cipher, cells, schedule);
    InvariantHolds(cipher, cells, v, schedule);
    var ops := OpsOf(w);
    HandleOfLoad(v, ops, i);
    HandleOfLoad(v, ops, j);
    LoadsGrow(v, ops, i + 1, j);
    LoadsGrow(v, ops, j + 1, |ops|);
  }

  /** A load that starts after another load was answered gets a larger handle. */
  lemma LaterLoadGetsLargerHandle(cipher: Cipher, cells: EnclaveState, v: Vault, schedule: seq<Action>,
                                  g: nat, h: nat, k: nat)
    requires Sound(cipher) && Represents(cipher, cells, v)
    requires var w := Run(cipher, cells, schedule);
             g < h < k < |w.history| && OrderKnown(w) && After(v, OpsOf(w), |w.order|).loads < TWO_64
    requires var t := Run(cipher, cells, schedule).history;
             t[g].Answered? && t[g].answer.Handle? && t[h].Called? && t[k].Answered? &&
             t[k].answer.Handle? && t[k].id == t[h].id
    ensures var t := Run(cipher, cells, schedule).history;
            t[g].answer.handle < t[k].answer.handle
  {
    hide Run, OpsOf, UnlockedCheck, After, RefinesVault;
    var w := Run(cipher, cells, schedule);
    InvariantHolds(cipher, cells, v, schedule);
    assert Precedes(w.order, w.history[g].id, w.history[h].id);
    var i, j :| 0 <= i < j < |w.order| && w.order[i] == w.history[g].id && w.order[j] == w.history[h].id;
    HandlesFollowLockOrder(cipher, cells, v, schedule, i, j);
  }
}
