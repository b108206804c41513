/**
 `EnclaveImpl` (src/core/enclave.cpp): encrypted maps behind a mutex.

 AES-256-GCM is an abstract cipher: a pair of functions of which only `Sound` is known. Every
 method is proved to change the plaintext `vault` as the machine of `VaultModel` does, while `Valid`
 ties each stored blob to the plaintext it must decrypt to. So the error branches for blobs that
 do not parse or do not decrypt are never taken on stored state.
 */
module EnclaveModel {
  import opened Machine
  import opened Buffers
  import opened EncryptedBlob
  import opened VaultModel

  type Key = s: Bytes | |s| == 32 witness seq(32, _ => 0)

  /** The cipher, and the digest of the fixed measurement data. */
  datatype Cipher = Cipher(
    encrypt: (Key, Bytes, Iv) -> (Bytes, Tag),
    decrypt: (Key, EncryptedData) -> Option<Bytes>,
    measurement: Bytes)

  /** All that is assumed of AES-256-GCM: decryption inverts encryption, and lengths agree. */
  ghost predicate Sound(c: Cipher) {
    |c.measurement| == 32 &&
    forall key: Key, plain: Bytes, iv: Iv ::
      var (ciphertext, tag) := c.encrypt(key, plain, iv);
      |ciphertext| == |plain| && c.decrypt(key, EncryptedData(ciphertext, iv, tag)) == Some(plain)
  }

  /** The assumption can be met: a cipher that changes nothing meets it. */
  lemma SoundCipherExists(measurement: Bytes, tag: Tag)
    requires |measurement| == 32
    ensures Sound(Cipher((_, plain, _) => (plain, tag), (_, e: EncryptedData) => Some(e.ciphertext), measurement))
  {}

  datatype LoadedModule = LoadedModule(id: uint64, encryptedCode: Bytes, functionTable: map<Bytes, uint32>)

  /** `blob` is stored ciphertext that parses and decrypts to `plain`. */
  ghost predicate Holds(c: Cipher, key: Key, blob: Bytes, plain: Bytes) {
    IsContent(plain) &&
    DecodeBlob(blob).Decoded? &&
    OVERHEAD <= |blob| &&
    c.decrypt(key, DecodeBlob(blob).blob) == Some(plain)
  }

  class CryptoModule {
    const cipher: Cipher

    constructor (cipher: Cipher)
      ensures this.cipher == cipher
    {
      this.cipher := cipher;
    }

    /** Fails when the random generator or the cipher context does. */
    method Encrypt(key: Key, plaintext: Bytes, e: Entropy) returns (encrypted: Option<EncryptedData>)
      ensures encrypted.Some? <==> e.Encrypts()
      ensures encrypted.Some? ==>
              var (ciphertext, tag) := cipher.encrypt(key, plaintext, e.iv.value);
              encrypted.value == EncryptedData(ciphertext, e.iv.value, tag)
    {
      if e.iv.None? {
        return None;
      }
      if !e.context {
        return None;
      }
      var (ciphertext, tag) := cipher.encrypt(key, plaintext, e.iv.value);
      return Some(EncryptedData(ciphertext, e.iv.value, tag));
    }

    method Decrypt(key: Key, encrypted: EncryptedData, e: Entropy) returns (plaintext: Option<Bytes>)
      ensures plaintext == if e.Decrypts() then cipher.decrypt(key, encrypted) else None
    {
      if !e.context {
        return None;
      }
      return cipher.decrypt(key, encrypted);
    }
  }

  lemma EncryptedHolds(c: Cipher, key: Key, plain: Bytes, iv: Iv)
    requires Sound(c) && IsContent(plain)
    ensures var (ciphertext, tag) := c.encrypt(key, plain, iv);
            Holds(c, key, EncodeBlob(EncryptedData(ciphertext, iv, tag)), plain)
  {
    var (ciphertext, tag) := c.encrypt(key, plain, iv);
    var e := EncryptedData(ciphertext, iv, tag);
    BlobRoundTrip(e);
    assert DecodeBlob(EncodeBlob(e)) == Decoded(e);
    hide EncodeBlob, DecodeBlob;
    assert c.decrypt(key, e) == Some(plain);
  }

  // ---- State ---------------------------------------------------------------------------

  /** The fields of the enclave. */
  datatype EnclaveState = EnclaveState(
    initialized: bool,
    masterKey: Option<Key>,
    modules: map<uint64, LoadedModule>,
    secureStorage: map<Bytes, Bytes>,
    nextModuleId: uint64)

  /** State `s` stands for the plaintext vault `v`. */
  ghost predicate Represents(c: Cipher, s: EnclaveState, v: Vault) {
    v.initialized == s.initialized &&
    (s.initialized ==> s.masterKey.Some?) &&
    s.nextModuleId == NextHandle(v) &&
    s.modules.Keys == v.modules.Keys &&
    s.secureStorage.Keys == v.store.Keys &&
    (!s.initialized ==> s.modules == map[] && s.secureStorage == map[]) &&
    (s.initialized ==> ModulesHold(c, s, v) && StorageHolds(c, s, v))
  }

  /** Each module sits under its own id, has the dummy function table, and holds its code. */
  ghost predicate ModulesHold(c: Cipher, s: EnclaveState, v: Vault)
    requires s.masterKey.Some? && s.modules.Keys == v.modules.Keys
  {
    forall h: uint64 | h in s.modules ::
      s.modules[h].id == h &&
      s.modules[h].functionTable == map[TEST_FUNCTION := 0] &&
      Holds(c, s.masterKey.value, s.modules[h].encryptedCode, v.modules[h])
  }

  ghost predicate StorageHolds(c: Cipher, s: EnclaveState, v: Vault)
    requires s.masterKey.Some? && s.secureStorage.Keys == v.store.Keys
  {
    forall key: Bytes | key in s.secureStorage ::
      Holds(c, s.masterKey.value, s.secureStorage[key], v.store[key])
  }

  /** A module as loading creates it. */
  function NewModule(id: uint64, blob: Bytes): LoadedModule {
    LoadedModule(id, blob, map[TEST_FUNCTION := 0])
  }

  lemma LoadRepresents(c: Cipher, s: EnclaveState, v: Vault, data: Bytes, blob: Bytes, e: Entropy)
    requires Represents(c, s, v) && s.initialized && IsContent(data) && e.Encrypts()
    requires Holds(c, s.masterKey.value, blob, data)
    ensures var id := s.nextModuleId;
            Represents(c, s.(nextModuleId := (id + 1) % TWO_64, modules := s.modules[id := NewModule(id, blob)]),
                       Load(v, data, e).0)
  {
    hide Holds;
    NextAfterLoad(v);
  }

  lemma StoreRepresents(c: Cipher, s: EnclaveState, v: Vault, key: Bytes, data: Bytes, blob: Bytes, e: Entropy)
    requires Represents(c, s, v) && s.initialized && IsName(key) && IsContent(data) && e.Encrypts()
    requires Holds(c, s.masterKey.value, blob, data)
    ensures Represents(c, s.(secureStorage := s.secureStorage[key := blob]), Store(v, key, data, e).0)
  {
    hide Holds;
  }

  // ---- The enclave ---------------------------------------------------------------------

  class EnclaveImpl {
    const crypto: CryptoModule
    var initialized: bool
    var masterKey: Option<Key>
    var modules: map<uint64, LoadedModule>
    var secureStorage: map<Bytes, Bytes>
    var nextModuleId: uint64

    /** The plaintext state this object stands for. */
    ghost var vault: Vault

    ghost function State(): EnclaveState
      reads this
    {
      EnclaveState(initialized, masterKey, modules, secureStorage, nextModuleId)
    }

    ghost predicate Valid()
      reads this
    {
      Sound(crypto.cipher) && Represents(crypto.cipher, State(), vault)
    }

    constructor (cipher: Cipher)
      requires Sound(cipher)
      ensures Valid() && vault == EMPTY_VAULT && crypto.cipher == cipher
    {
      crypto := new CryptoModule(cipher);
      nextModuleId := 1;
      initialized := false;
      masterKey := None;
      modules := map[];
      secureStorage := map[];
      vault := EMPTY_VAULT;
    }

    /** `generated` is the outcome of key generation. */
    method Initialize(generated: Option<Key>) returns (ok: bool)
      requires Valid()
      modifies this
      ensures Valid()
      ensures ok <==> old(initialized) || generated.Some?
      ensures vault == old(vault).(initialized := ok)
    {
      if initialized {
        return true;
      }
      masterKey := generated;
      if masterKey.None? {
        return false;
      }
      initialized := true;
      vault := vault.(initialized := true);
      return true;
    }

    method LoadModule(moduleData: Bytes, e: Entropy) returns (result: Result<uint64>)
      requires Valid()
      modifies this
      ensures Valid()
      ensures (vault, result) == Load(old(vault), moduleData, e)
    {
      hide Holds, Sound, EncodeBlob, ModulesHold, StorageHolds;
      if !initialized {
        return Error(ContextNotInitialized);
      }
      if |moduleData| == 0 || |moduleData| > 10 * 1024 * 1024 {
        return Error(InvalidParameter);
      }
      var encrypted := crypto.Encrypt(masterKey.value, moduleData, e);
      if encrypted.None? {
        return Error(CryptoFailure);
      }
      EncryptedHolds(crypto.cipher, masterKey.value, moduleData, e.iv.value);
      var moduleId := nextModuleId;
      nextModuleId := (nextModuleId + 1) % TWO_64;
      var code := SerializeBlob(encrypted.value);
      LoadRepresents(crypto.cipher, old(State()), vault, moduleData, code, e);
      modules := modules[moduleId := NewModule(moduleId, code)];
      vault := Load(vault, moduleData, e).0;
      return Ok(moduleId);
    }

    method InvokeFunction(moduleHandle: uint64, functionName: Bytes, params: Bytes, e: Entropy)
      returns (result: Result<Bytes>)
      requires Valid()
      ensures result == Invoke(vault, moduleHandle, functionName, params, e)
    {
      if !initialized {
        return Error(ContextNotInitialized);
      }
      if |functionName| == 0 || |functionName| > 256 {
        return Error(InvalidParameter);
      }
      if moduleHandle !in modules {
        return Error(ModuleLoadFailed);
      }
      var loaded := modules[moduleHandle];
      if functionName !in loaded.functionTable {
        return Error(FunctionNotFound);
      }
      var encrypted := DeserializeBlob(loaded.encryptedCode);
      if !encrypted.Decoded? {
        return Error(CryptoFailure);
      }
      var code := crypto.Decrypt(masterKey.value, encrypted.blob, e);
      if code.None? {
        return Error(CryptoFailure);
      }
      return Ok(params + [0x42]);
    }

    method StoreData(key: Bytes, data: Bytes, e: Entropy) returns (result: Result<()>)
      requires Valid()
      modifies this
      ensures Valid()
      ensures (vault, result) == Store(old(vault), key, data, e)
    {
      hide Holds, Sound, EncodeBlob, ModulesHold, StorageHolds;
      if !initialized {
        return Error(ContextNotInitialized);
      }
      if |key| == 0 || |key| > 256 {
        return Error(InvalidParameter);
      }
      if |data| == 0 || |data| > 10 * 1024 * 1024 {
        return Error(InvalidParameter);
      }
      var encrypted := crypto.Encrypt(masterKey.value, data, e);
      if encrypted.None? {
        return Error(CryptoFailure);
      }
      EncryptedHolds(crypto.cipher, masterKey.value, data, e.iv.value);
      var blob := SerializeBlob(encrypted.value);
      StoreRepresents(crypto.cipher, State(), vault, key, data, blob, e);
      secureStorage := secureStorage[key := blob];
      vault := Store(vault, key, data, e).0;
      return Ok(());
    }

    method RetrieveData(key: Bytes, e: Entropy) returns (result: Result<Bytes>)
      requires Valid()
      ensures result == Retrieve(vault, key, e)
    {
      if !initialized {
        return Error(ContextNotInitialized);
      }
      if |key| == 0 || |key| > 256 {
        return Error(InvalidParameter);
      }
      if key !in secureStorage {
        return Error(FunctionNotFound);
      }
      var encrypted := DeserializeBlob(secureStorage[key]);
      if !encrypted.Decoded? {
        return Error(CryptoFailure);
      }
      var plaintext := crypto.Decrypt(masterKey.value, encrypted.blob, e);
      if plaintext.None? {
        return Error(CryptoFailure);
      }
      return Ok(plaintext.value);
    }

    method GetAttestation() returns (result: Result<Bytes>)
      requires Valid()
      ensures result == Attest(vault, crypto.cipher.measurement)
    {
      hide ToBytes, Sound;
      if !initialized {
        return Error(ContextNotInitialized);
      }
      var attestation := new ByteVector();
      attestation.WriteUInt32(1);
      assert attestation.bytes == ToBytes(1, 4);
      attestation.WriteUInt64(0x0123_4567_89AB_CDEF);
      attestation.Insert(crypto.cipher.measurement);
      return Ok(attestation.bytes);
    }
  }

  function Attest(v: Vault, measurement: Bytes): Result<Bytes> {
    if !v.initialized then Error(ContextNotInitialized)
    else Ok(ToBytes(1, 4) + ToBytes(0x0123_4567_89AB_CDEF, 8) + measurement)
  }

  /** Version 1 in four bytes, the fixed timestamp in eight, then the digest. */
  lemma AttestLayout(v: Vault, measurement: Bytes)
    ensures Attest(v, measurement).Ok? <==> v.initialized
    ensures v.initialized ==>
            var d := Attest(v, measurement).value;
            |d| == 12 + |measurement| && d[..4] == [1, 0, 0, 0] &&
            d[4..12] == [0xEF, 0xCD, 0xAB, 0x89, 0x67, 0x45, 0x23, 0x01] && d[12..] == measurement
    ensures !v.initialized ==> Attest(v, measurement) == Error(ContextNotInitialized)
  {
    VersionBytes();
    TimestampBytes();
    hide ToBytes;
  }

  lemma VersionBytes()
    ensures ToBytes(1, 4) == [1, 0, 0, 0]
  {
    assert ToBytes(0, 2) == [0, 0];
  }

  lemma TimestampBytes()
    ensures ToBytes(0x0123_4567_89AB_CDEF, 8) == [0xEF, 0xCD, 0xAB, 0x89, 0x67, 0x45, 0x23, 0x01]
  {
    hide ToBytes;
    NextByte(0x0123_4567_89AB_CDEF, 0xEF, 0x0001_2345_6789_ABCD, 8);
    NextByte(0x0001_2345_6789_ABCD, 0xCD, 0x0123_4567_89AB, 7);
    NextByte(0x0123_4567_89AB, 0xAB, 0x0001_2345_6789, 6);
    NextByte(0x0001_2345_6789, 0x89, 0x0123_4567, 5);
    NextByte(0x0123_4567, 0x67, 0x0001_2345, 4);
    NextByte(0x0001_2345, 0x45, 0x123, 3);
    NextByte(0x123, 0x23, 0x1, 2);
    NextByte(0x1, 0x01, 0x0, 1);
    NoBytes(0);
  }

  lemma NoBytes(value: nat)
    ensures ToBytes(value, 0) == []
  {}

  lemma NextAfterLoad(v: Vault)
    ensures NextHandle(v.(loads := v.loads + 1)) == (NextHandle(v) + 1) % TWO_64
  {}
}
