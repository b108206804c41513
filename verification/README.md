# Enclave stack: CRC-32, wire protocol, encrypted storage, server, client, threads

This project models, in Dafny, a simulated enclave: a library that keeps modules and data encrypted in
memory, a server that exposes it over a stream socket, and a client. It proves that the whole stack, from a
client call through encoding, streaming parse, checksum, dispatch, encryption and the way back, behaves like a
small plaintext machine, over unbounded runs and under arbitrary thread interleavings.

| file | what it is about |
|---|---|
| `Machine.dfy` | C++ integer widths and little-endian `memcpy` |
| `Words.dfy` | laws of 32-bit words: shift, XOR, bits |
| `Crc32.dfy` | the checksum loop on a 32-bit register, and the function it computes |
| `CrcAlgebra.dfy` | the checksum as a linear map on message bits: XOR, concatenation, residue |
| `Primes.dfy`, `PrimitiveOrder.dfy` | x has order 2^32 - 1 modulo the generator, by repeated squaring and the five Fermat primes |
| `CrcDetection.dfy` | which errors the checksum detects |
| `Polynomials.dfy`, `CrcPolynomial.dfy` | polynomials over GF(2) as sets of exponents; the checksum as a remainder |
| `Buffers.dfy`, `Payloads.dfy`, `Messages.dfy` | writers, cursor readers, payload formats, frames, validation |
| `EncryptedBlob.dfy` | the flat form of ciphertext, vector and tag |
| `Vault.dfy` | the plaintext machine: what a user should see |
| `Enclave.dfy` | the enclave over an abstract cipher; refines the vault |
| `Server.dfy`, `Client.dfy` | parse, dispatch, run loop; client calls and sessions over the wire |
| `ServerAnswers.dfy` | the answer to every input, in bytes and status numbers |
| `ServerRuns.dfy` | runs of the server over arbitrary bytes, hostile connections included |
| `Concurrency.dfy` | threads on one enclave: small steps on the encrypted maps, mutex, linearizability |

Objects that the program updates in place are classes here (`ByteVector`, `Cursor`, `EnclaveImpl`, `EnclaveServer`,
`EnclaveClient`, `Connection`). Each method is proved against a function, and the laws are lemmas about these
functions. `dafny verify dfyconfig.toml` checks everything.

Assumptions and parameters. A little-endian host. AES-256-GCM is any pair of functions for which decryption inverts
encryption and lengths agree (`EnclaveModel.Sound`, which `SoundCipherExists` shows can be met). The random generator and the cipher contexts may fail at every
operation: an `Entropy` value per operation says how they behave, and everything is proved for all of them. The digest in
the attestation is a parameter of 32 bytes. A connection is the bytes one side sends and the bytes it gets back.

Where code and documentation disagree, the model follows the code:

- `include/openenclave/enclave.hpp:119` says the class is not thread-safe; the operations take a mutex
  (src/core/enclave.cpp:100, 138, 195, 220). `Concurrency` proves that they linearize once the enclave is initialised.
- The repository's own `README.md:346` says that every array access is validated. `EncryptedData::Deserialize` adds its sizes in 32 bits behind
  a guard of twelve bytes, so on some buffers shorter than forty bytes it copies past the end. `DecodeBlobCases` gives the
  exact condition and `WrappedSizesExample` one such buffer. Stored blobs are at least forty bytes long in every
  reachable state, by `EnclaveImpl.Valid`, so the enclave never meets this case.
- The repository's own `README.md:197` invokes `my_function`; every module has only `test_function` (src/core/enclave.cpp:116).
- Handles identify modules; their 64-bit counter wraps. `HandleRepeatsIff` says exactly when two loads
  get one handle, and `HandleRepeatsExample` gives a run in which they do.
- A retrieval that fails in the cipher is answered with the not-found status, like one of an unknown key
  (src/server/server.cpp:258-261); the client sees the same failure for every reason.

## Model

| member | source | states |
|---|---|---|
| Crc32.CalculateCRC32 | src/core/protocol.cpp:9-20 | the nested loops, with the conditional XOR written as a masked negation, compute the checksum function for every byte string |
| CrcPolynomial.ChecksumIsRemainder | src/core/protocol.cpp:9-20 | a polynomial is the remainder of x^32 M(x) + x^(8n) (x^31 + ... + 1) modulo the degree-32 generator if and only if the checksum is its bit-reflected complement |
| CrcPolynomial.ReadingDivides | src/core/protocol.cpp:12-17 | reading bits from any register is long division: x^32 message + x^n register = quotient * generator + new register |
| CrcPolynomial.RegisterPolyStep | src/core/protocol.cpp:15 | one inner step multiplies the register polynomial by x and subtracts the generator when degree 32 appears |
| Polynomials.RemainderUnique | src/core/protocol.cpp:8-20 | a division by a polynomial of degree n has at most one remainder below degree n, so the checksum is determined by the polynomial definition |
| CrcAlgebra.RegisterReadsBits | src/core/protocol.cpp:12-17 | XORing a byte and stepping eight times equals feeding the eight bits one at a time, low bit first, for whole messages |
| CrcAlgebra.StepXor | src/core/protocol.cpp:15 | the inner step is linear |
| CrcAlgebra.StepInjective | src/core/protocol.cpp:15 | the inner step loses no information |
| CrcAlgebra.BitsOfXor | src/core/protocol.cpp:12-17 | the message bits of a byte-wise XOR are the XOR of the message bits |
| CrcAlgebra.ChecksumOfThree | src/core/protocol.cpp:9-20 | for messages of one length, crc(a) ^ crc(b) ^ crc(c) = crc(a ^ b ^ c), the messages XORed byte by byte |
| CrcAlgebra.ChecksumOfConcatenation | src/core/protocol.cpp:12-19 | crc(a ++ b) is crc(a) stepped once per bit of b, XOR crc(b) |
| CrcAlgebra.SameChecksumIff | src/core/protocol.cpp:9-20 | two messages of one length share a checksum exactly when their XOR, fed into a zero register, leaves zero |
| CrcAlgebra.Residue | src/core/protocol.cpp:9-26 | a message followed by its own checksum as `WriteUInt32` writes it has checksum 0x2144DF1C |
| Crc32.ChecksumOfEmpty | src/core/protocol.cpp:9-20 | the empty payload has checksum 0, on which error frames rely |
| CrcAlgebra.CheckValue | src/core/protocol.cpp:9-20 | the nine bytes "123456789" have the published checksum 0xCBF43926 |
| Machine.ByteAt | src/core/protocol.cpp:23-32 | byte i of a written integer is the value divided by 256^i, modulo 256 |
| PrimitiveOrder.OrderOfX | src/core/protocol.cpp:15 | n steps return the register of x^0 to itself exactly when n is a multiple of 2^32 - 1: the generator is primitive |
| PrimitiveOrder.PowerSum | src/core/protocol.cpp:15 | powers of x multiply modulo the generator, x^(m+n) = x^m x^n, in the register's bit order |
| CrcDetection.BurstDetected | src/core/protocol.cpp:9-20 | a nonzero error inside any 32 consecutive bits, anywhere in a message of any length, changes the checksum |
| CrcDetection.TwoBitsUndetectedIff | src/core/protocol.cpp:9-20 | two flipped bits leave the checksum alone exactly when their distance is a multiple of 2^32 - 1 |
| CrcDetection.TwoBitsDetected | src/core/protocol.cpp:9-20 | two flipped bits always change the checksum of a message below 2^29 bytes |
| Messages.DamagedBurstRejected | src/core/protocol.cpp:286-318 | a valid request or response whose payload is damaged within 32 consecutive bits, header kept, never validates |
| Messages.TwoFlippedBits | src/core/protocol.cpp:286-318 | with two payload bits flipped a valid message validates exactly at distances divisible by 2^32 - 1; a request within the server's 16 MB never does |
| Buffers.ByteVector.WriteUInt32 | src/core/protocol.cpp:23-26 | appends the four low bytes, least significant first |
| Buffers.ByteVector.WriteUInt16 | src/core/protocol.cpp:29-32 | appends two bytes, least significant first |
| Buffers.ByteVector.WriteString | src/core/protocol.cpp:40-44 | appends the length truncated to 32 bits, then the characters |
| Buffers.ByteVector.WriteBytes | src/core/protocol.cpp:47-51 | appends the length truncated to 32 bits, then the bytes |
| Buffers.Cursor.ReadUInt32 | src/core/protocol.cpp:54-59 | succeeds exactly when four bytes remain, and then moves the cursor by four; else the cursor stays |
| Buffers.Cursor.ReadUInt16 | src/core/protocol.cpp:62-67 | the same for two bytes |
| Buffers.Cursor.ReadUInt8 | src/core/protocol.cpp:70-74 | the same for one byte |
| Buffers.Cursor.ReadString | src/core/protocol.cpp:77-87 | returns the field at the cursor within 1 MB and moves past it; on failure the cursor has moved past the length if there was one |
| Buffers.Cursor.ReadBytes | src/core/protocol.cpp:90-100 | the same within 10 MB |
| Buffers.FieldAtIff | src/core/protocol.cpp:77-100 | a field is read exactly when its encoding stands at the cursor and it is within the limit; no other bytes matter |
| Payloads.DeserializeLoad | src/core/protocol.cpp:197-200 | the reader computes the decoder function, within the buffer |
| Payloads.DeserializeLoadResponse | src/core/protocol.cpp:214-218 | the reader computes the decoder function, within the buffer |
| Payloads.DeserializeInvoke | src/core/protocol.cpp:236-247 | the cursor-moving reader computes the decoder function, within the buffer |
| Payloads.DeserializeStore | src/core/protocol.cpp:260-265 | the cursor-moving reader computes the decoder function, within the buffer |
| Payloads.DeserializeRetrieve | src/core/protocol.cpp:277-280 | the reader computes the decoder function, within the buffer |
| Payloads.SerializeLoad | src/core/protocol.cpp:191-195 | appending field by field yields the encoding |
| Payloads.SerializeLoadResponse | src/core/protocol.cpp:206-212 | appending yields the eight bytes of the handle |
| Payloads.SerializeInvoke | src/core/protocol.cpp:224-234 | appending field by field yields the encoding |
| Payloads.SerializeStore | src/core/protocol.cpp:253-258 | appending field by field yields the encoding |
| Payloads.SerializeRetrieve | src/core/protocol.cpp:271-275 | appending field by field yields the encoding |
| Payloads.LoadIff | src/core/protocol.cpp:191-200 | a load request decodes to v exactly when v is within 10 MB and its encoding is a prefix of the buffer; trailing bytes are accepted |
| Payloads.LoadResponseIff | src/core/protocol.cpp:206-218 | a load response decodes to v exactly when the encoding of v is a prefix |
| Payloads.InvokeIff | src/core/protocol.cpp:224-247 | an invocation decodes to v exactly when name and parameters are within their limits and the encoding of v is a prefix |
| Payloads.StoreIff | src/core/protocol.cpp:253-265 | the same for a store request |
| Payloads.RetrieveIff | src/core/protocol.cpp:271-280 | the same for a retrieval |
| Payloads.LoadLayout | src/core/protocol.cpp:191-195 | four bytes of length, then the module data |
| Payloads.LoadResponseLayout | src/core/protocol.cpp:206-212 | the eight bytes of the handle, least significant first |
| Payloads.InvokeLayout | src/core/protocol.cpp:224-234 | handle, length and bytes of the name, length and bytes of the parameters, at their exact places |
| Payloads.StoreLayout | src/core/protocol.cpp:253-258 | length and bytes of the key, then length and bytes of the data, at their exact places |
| Payloads.RetrieveLayout | src/core/protocol.cpp:271-275 | four bytes of length, then the key |
| Payloads.RoundTrips | src/core/protocol.cpp:191-280 | decoding inverts encoding exactly for strings within 1048576 and byte fields within 10485760 bytes, for all five formats |
| Messages.SerializeHeader | src/core/protocol.cpp:106-118 | the six writes yield the sixteen header bytes |
| Messages.DeserializeHeader | src/core/protocol.cpp:120-132 | fails exactly below sixteen bytes, else the six reads yield the fields at their fixed places |
| Messages.HeaderRoundTrip | src/core/protocol.cpp:106-132 | decoding inverts encoding for every header |
| Messages.HeaderOnto | src/core/protocol.cpp:106-132 | every sixteen bytes are the encoding of the header they decode to |
| Messages.SerializeRequest | src/core/protocol.cpp:138-145 | header bytes, then payload |
| Messages.DeserializeRequest | src/core/protocol.cpp:147-157 | the reader computes the decoder function, whose length check adds modulo 2^32 |
| Messages.SerializeResponse | src/core/protocol.cpp:163-171 | header bytes, status byte, payload |
| Messages.DeserializeResponse | src/core/protocol.cpp:173-185 | the reader computes the decoder function, whose length check adds modulo 2^32 |
| Messages.RequestFraming | src/core/protocol.cpp:138-157 | a buffer decodes to r exactly when it is the encoding of r, the header states the true payload size, and it is below 2^32 bytes |
| Messages.ResponseFraming | src/core/protocol.cpp:163-185 | the same for responses |
| Messages.WrappedLengthCheck | src/core/protocol.cpp:147-185 | the wrapped length check accepts exactly true integer lengths 16 (or 17) + payload_size below 2^32: the minimum size makes the wrap harmless |
| Messages.FrameRoundTrips | src/core/protocol.cpp:138-185 | serialise then deserialise is the identity if and only if payload_size is the payload's length, at most 2^32 - 17 (or 2^32 - 18) |
| Messages.ValidateRequest | src/core/protocol.cpp:286-301 | true exactly when magic, version, payload size and checksum all match |
| Messages.ValidateResponse | src/core/protocol.cpp:303-318 | true exactly when magic, version, payload size and checksum all match |
| Messages.ValidFrames | src/core/protocol.cpp:147-185 | a buffer is a valid request (response) exactly when it begins with 4B 53 45 4F 01 00 and carries its own size less 16 (17) and the checksum of the rest at their places |
| Messages.DamagedHeaderRejected | src/core/protocol.cpp:286-318 | of a valid message's header only command and flags can change; any other change makes it invalid |
| EncryptedBlob.SerializeBlob | src/crypto/crypto.cpp:77-101 | appending yields the blob encoding, ciphertext size truncated to 32 bits |
| EncryptedBlob.DeserializeBlob | src/crypto/crypto.cpp:103-127 | rejects, decodes, or runs a copy past the end, exactly as the decoder function says |
| EncryptedBlob.BlobIff | src/crypto/crypto.cpp:77-127 | a buffer decodes to e exactly when it is the encoding of e, below 2^32 bytes: re-serialising an accepted blob gives the buffer back |
| EncryptedBlob.BlobRoundTrip | src/crypto/crypto.cpp:77-127 | the round trip holds if and only if the ciphertext has at most 2^32 - 41 bytes |
| EncryptedBlob.DecodeBlobCases | src/crypto/crypto.cpp:103-127 | on forty bytes and more the modular length check is exact and copies stay inside; below, the copies leave the buffer exactly when the wrapped sum matches |
| EncryptedBlob.WrappedSizesExample | src/crypto/crypto.cpp:104-114 | a twelve-byte buffer that passes both checks, although the vector is not in it |
| EnclaveModel.CryptoModule.Encrypt | src/crypto/crypto.cpp:162-228 | succeeds exactly when generator and context do, with the drawn vector and the abstract cipher's output |
| EnclaveModel.CryptoModule.Decrypt | src/crypto/crypto.cpp:230-295 | fails when the context does, else is the abstract decryption |
| EnclaveModel.SoundCipherExists | src/crypto/crypto.cpp:162-295 | the two assumed laws, decryption inverts encryption and lengths agree, can be met, so nothing here holds vacuously |
| EnclaveModel.LoadRepresents | src/core/enclave.cpp:109-118 | taking an id and inserting the sealed module represents the plaintext load |
| EnclaveModel.StoreRepresents | src/core/enclave.cpp:203-204 | assigning the sealed blob represents the plaintext store |
| EnclaveModel.EncryptedHolds | src/core/enclave.cpp:102-112 | a fresh serialised ciphertext parses and decrypts to its plaintext under the key, with at least forty bytes |
| EnclaveModel.EnclaveImpl.constructor | src/core/enclave.cpp:57-62 | a new enclave is the empty, uninitialised vault and satisfies the invariant |
| EnclaveModel.EnclaveImpl.Initialize | src/core/enclave.cpp:73-89 | idempotent; otherwise succeeds exactly when key generation does, changing nothing else of the vault |
| EnclaveModel.EnclaveImpl.LoadModule | src/core/enclave.cpp:91-121 | keeps the invariant and changes the plaintext vault, or fails, as the machine prescribes |
| EnclaveModel.EnclaveImpl.InvokeFunction | src/core/enclave.cpp:123-180 | answers as the machine does; stored code always parses and decrypts |
| EnclaveModel.EnclaveImpl.StoreData | src/core/enclave.cpp:182-207 | keeps the invariant and changes the plaintext vault, or fails, as the machine prescribes |
| EnclaveModel.EnclaveImpl.RetrieveData | src/core/enclave.cpp:209-244 | returns the plaintext last accepted for the key; the branches for blobs that do not parse or decrypt are not taken on stored state |
| EnclaveModel.EnclaveImpl.GetAttestation | src/core/enclave.cpp:246-274 | version, timestamp and digest in this order, once initialised |
| EnclaveModel.AttestLayout | src/core/enclave.cpp:246-274 | 01 00 00 00, then EF CD AB 89 67 45 23 01, then the digest, exactly when initialised |
| VaultModel.LoadOutcomes | src/core/enclave.cpp:91-121 | when a load succeeds, with which handle and state, and which error comes exactly when |
| VaultModel.InvokeOutcomes | src/core/enclave.cpp:123-180 | only the ASCII name "test_function" on a live handle succeeds, with parameters and 'B'; which error comes exactly when |
| VaultModel.StoreOutcomes | src/core/enclave.cpp:182-207 | when a store succeeds, 1 to 256 and 1 to 10485760 bytes, and which error comes exactly when |
| VaultModel.RetrieveOutcomes | src/core/enclave.cpp:209-244 | when a retrieval succeeds, with what, and which error comes exactly when |
| VaultModel.HandlesInEveryRun | src/core/enclave.cpp:109-120 | in every run the live handles are exactly those handed out: 1, ..., next - 1 below 2^64 - 1 loads, and all of them after the counter wrapped |
| VaultModel.HandleRepeatsIff | src/core/enclave.cpp:109-120 | two loads of a run get the same handle exactly when the number of loads between them is a multiple of 2^64 |
| VaultModel.HandleRepeatsExample | src/core/enclave.cpp:109-120 | a run of 2^64 + 1 loads, whose last load gets the handle of the first |
| VaultModel.HandleStaysInvocable | src/core/enclave.cpp:141-180 | a handle once handed out can be invoked in the rest of every run, and returns parameters and marker |
| VaultModel.RetrieveReturnsLastStored | src/core/enclave.cpp:203-243 | a retrieval returns the bytes of the last successful store under its key, whatever else happened since |
| Server.EnclaveServer.HandleClient | src/server/server.cpp:113-161 | streaming read, header checks, payload read, validation and dispatch change vault and running flag as `Serve` says and send exactly its one response; only a shutdown touches the flag |
| Server.EnclaveServer.DispatchCommand | src/server/server.cpp:163-195 | each command byte reaches its handler; unknown ones get the invalid-command error |
| Server.EnclaveServer.HandleLoadModule | src/server/server.cpp:197-214 | decode, load, answer with the handle or the right error |
| Server.EnclaveServer.HandleInvokeFunction | src/server/server.cpp:216-232 | decode, invoke, answer with the output or the right error; vault unchanged |
| Server.EnclaveServer.HandleStoreData | src/server/server.cpp:234-248 | decode, store, answer with an empty success or the right error |
| Server.EnclaveServer.HandleRetrieveData | src/server/server.cpp:250-264 | decode, retrieve, answer with the data or not-found; vault unchanged |
| Server.EnclaveServer.HandleGetAttestation | src/server/server.cpp:266-276 | answers with the attestation, or an internal error before initialisation |
| Server.EnclaveServer.HandleShutdown | src/server/server.cpp:278-285 | sends an empty success, then clears the running flag |
| Server.EnclaveServer.SendSuccessResponse | src/server/server.cpp:287-300 | sends one frame with the payload, its size and its checksum |
| Server.EnclaveServer.SendErrorResponse | src/server/server.cpp:302-314 | sends one empty frame with size 0, checksum 0 and the status |
| Server.EnclaveServer.Run | src/server/server.cpp:71-95 | for any sequence of accepts, failed ones included, the loop ends in the state and with the outputs of `RunLoop` |
| Server.ParseIff | src/server/server.cpp:113-161 | request r is dispatched exactly when the first 16 + payload_size bytes deserialise to r, r validates, and payload_size is within 16 MB |
| Server.TrailingBytesIgnored | src/server/server.cpp:143-160 | bytes after an accepted frame never matter |
| Server.RunAccounting | src/server/server.cpp:80-94 | the server consumes exactly the shortest prefix ending in a valid shutdown, or everything, and sends one response per accepted connection in it |
| Server.RunningUnlessShutdown | src/server/server.cpp:278-285 | a connection stops the server if and only if it carries a valid shutdown |
| Server.RejectedIsNoOp | src/server/server.cpp:113-264 | a connection answered with anything but success leaves store, modules, counter and running flag as they were |
| Server.RejectedCanBeDeleted | src/server/server.cpp:80-264 | deleting every failed accept and rejected connection from any run leaves the final state and all other responses the same |
| Server.ContentsStayBounded | src/core/enclave.cpp:191-204 | serving any bytes keeps every stored value between 1 byte and 10 MB |
| Server.ServerResponsesAreValid | src/server/server.cpp:287-314 | every response from a vault with bounded contents passes `ValidateMessage` and deserialises to itself |
| Server.RunResponsesAreValid | src/server/server.cpp:71-314 | every response of every run, over any accepts and any bytes, passes `ValidateMessage` and deserialises to itself, and the contents stay bounded |
| ServerRuns.ConnectionIsStep | src/server/server.cpp:113-264 | a connection with any bytes is one step of the plaintext machine, with its answer as reply, when its request is valid and decodes; otherwise it leaves the vault alone |
| ServerAnswers.ParseByBytes | src/server/server.cpp:113-160 | a frame is dispatched exactly when its bytes hold magic, version, a size within 16777216 that is delivered, and the checksum; command and payload are those bytes |
| ServerAnswers.RefusedFrames | src/server/server.cpp:118-157 | status 1 for short input, wrong magic or version; status 2 for a size over 16 MB, a truncated payload or a wrong checksum; nothing changes |
| ServerAnswers.DecodedByBytes | src/server/server.cpp:163-195 | which call commands 1 to 4 ask for; no other command asks for one |
| ServerAnswers.AnsweredFrames | src/server/server.cpp:163-285 | the whole answer to every dispatched frame: reply of the call, status 2 for an undecodable payload, report or status 255, empty success and stop for 255, status 1 for unknown commands |
| ServerAnswers.ReplyContents | src/server/server.cpp:197-264 | status 0 with handle bytes, output or nothing; status 4 for a failed retrieval, 3 for other failed calls |
| ServerAnswers.SuccessIff | src/server/server.cpp:113-285 | status 0 is answered exactly to a call that the machine performs, an attestation after initialisation, or a shutdown |
| ServerAnswers.SuccessBytes | src/server/server.cpp:287-300 | the bytes of a success frame |
| ServerAnswers.ErrorBytes | src/server/server.cpp:302-314 | the seventeen bytes of an error frame |
| ServerAnswers.AttestationBytes | src/server/server.cpp:266-276 | the sixty-one bytes that answer an attestation request |
| ServerRuns.ServerRunIsVaultRun | src/server/server.cpp:71-264 | in every run over arbitrary bytes the vault is that of a plaintext run over the calls that decode, in order |
| ServerRuns.ReplyIsSent | src/server/server.cpp:80-94 | the reply to each accept is the next response of the run |
| ServerRuns.CallGetsAnswer | src/server/server.cpp:113-264 | in every run each call that decodes gets the reply of the plaintext run at its place |
| ServerRuns.RepliedHandleStaysInvocable | src/server/server.cpp:197-232 | a handle once replied can be invoked as long as the server runs, whatever other connections send in between |
| ServerRuns.StoredDataIsReplied | src/server/server.cpp:234-264 | stored data is replied until the next successful store under its key, whatever other connections send in between |
| Client.ReaderIff | examples/client_example.cpp:177-206 | the client's streaming reader returns r exactly from the streams that begin with the encoding of r, its size field being true |
| Client.ReadersAgree | examples/client_example.cpp:177-206 | on every frame that `Response::Deserialize` accepts the streaming reader returns the same response |
| Client.ServerResponsesAreRead | examples/client_example.cpp:177-206 | every response from a vault with bounded contents is read alike by both readers |
| Client.RequestOfAnySize | examples/client_example.cpp:48-63 | what the server makes of a request of any size: from 2^32 bytes on it sees a proper prefix, and accepts that exactly when it is within 16 MB and has the checksum of the whole |
| Client.RequestArrives | examples/client_example.cpp:48-63 | the server reads back exactly the request sent if and only if its payload is at most 16 MB; above, below 2^32 bytes, it refuses it |
| Client.CallBytes | examples/client_example.cpp:48-146 | the bytes of each call: magic, version, command 1 to 4, flags 0, size, checksum, payload |
| Client.LargeCallFails | src/core/enclave.cpp:91-221 | a call of 2^32 bytes or more fails in the plaintext machine and changes nothing, so that refusing it is right |
| Client.ServedCall | src/server/server.cpp:113-264 | the server treats an encoded call as the plaintext machine does: success with the machine's answer as payload, or exactly one error, invalid-params for a field over its wire limit, else not-found for a retrieval and execution-failed for the rest |
| Client.WireCallRefines | examples/client_example.cpp:48-207 | one call through encoding, parse, checksum, dispatch and response is one step of the machine, and the client learns exactly its visible answer |
| Client.SessionRefines | examples/client_example.cpp:48-207 | over every run of calls the whole stack passes through the machine's states and returns its visible answers |
| Client.ClientSees | examples/client_example.cpp:48-146 | with a working cipher, at every point of every run: store succeeds iff 1 to 256 key bytes and 1 to 10 MB of data, load returns the next handle, invoke the parameters and 0x42, retrieve what is stored |
| Client.LoadedHandleStaysInvocable | examples/client_example.cpp:48-102 | in every session, a handle the client got from a load answers every later invocation of `test_function` over the wire with parameters and marker |
| Client.StoredDataComesBack | examples/client_example.cpp:104-146 | in every session, a retrieval over the wire returns the bytes of the last successful store under its key |
| Client.EnclaveClient.SendRequest | examples/client_example.cpp:167-207 | unconnected, nothing happens; else the server serves the serialised request and the client gets what its reader makes of the response |
| Client.EnclaveClient.ReceiveResponse | examples/client_example.cpp:177-206 | header, status byte and payload read from the stream as the reader function says, short streams failing |
| Client.EnclaveClient.LoadModule | examples/client_example.cpp:48-75 | on a connected client, succeeds and returns the handle exactly as the machine does on the same plaintext state; unconnected, fails and changes nothing |
| Client.EnclaveClient.InvokeFunction | examples/client_example.cpp:77-102 | succeeds exactly when the machine does and the parameters are within 10 MB, with the machine's output |
| Client.EnclaveClient.StoreData | examples/client_example.cpp:104-122 | succeeds and changes the plaintext state exactly as the machine does |
| Client.EnclaveClient.RetrieveData | examples/client_example.cpp:124-146 | succeeds exactly when the machine does, with the stored bytes |
| Client.EnclaveClient.Session | examples/client_example.cpp:48-207 | a run of calls on objects, each on a fresh connection, leaves the machine's final state and returns its visible answers |
| Concurrency.Linearizable | src/core/enclave.cpp:91-244 | for any number of threads and any interleaving of small steps on the encrypted maps: every started call and every returned answer is recorded once, the answers are those of the sequential plaintext machine in commit order, which respects real time, and an idle enclave represents the machine's final state |
| Concurrency.EnclaveLinearizes | src/core/enclave.cpp:57-286 | the same for threads on a valid enclave object, in whatever state earlier calls left it |
| Concurrency.InvariantHolds | src/core/enclave.cpp:91-244 | under every schedule: only the mutex owner is inside, the encrypted maps represent the machine's state up to the owner's half-done work, and each known result is the machine's |
| Concurrency.MidwayKept | src/core/enclave.cpp:91-244 | each small step under the mutex (encrypt, number, insert, find, parse, decrypt) keeps the exact relation between the half-updated encrypted maps and the plaintext state before the operation, and gets ahead |
| Concurrency.RealTimeKept | src/core/enclave.cpp:91-244 | a call that starts after another was answered commits after it |
| Concurrency.MutualExclusion | src/core/enclave.cpp:100-220 | two calls are never inside the mutex together |
| Concurrency.SomeoneCanMove | src/core/enclave.cpp:91-244 | while some call has not returned, some call can take a step |
| Concurrency.StepsDescend | src/core/enclave.cpp:91-244 | every effective step brings its call closer to its return, so a call takes at most seven |
| Concurrency.RecordHolds | src/core/enclave.cpp:91-244 | under every schedule the calls are those started, each recorded once, and each return with its answer, once |
| Concurrency.HandlesFollowLockOrder | src/core/enclave.cpp:109-120 | below 2^64 loads, handles increase in the order in which loads took the mutex |
| Concurrency.LaterLoadGetsLargerHandle | src/core/enclave.cpp:91-121 | below 2^64 loads, a load that starts after another was answered gets a larger handle |

## Left out

- EnclaveModel.CryptoModule.Encrypt: the ciphertext comes from an abstract cipher, and all failures of the cipher context are one flag; nothing is claimed about secrecy or repeated vectors.
- EnclaveModel.CryptoModule.Decrypt: nothing is claimed about tampered ciphertexts, nor about clearing the plaintext on failure.
- EnclaveModel.EnclaveImpl.GetAttestation: the SHA-256 digest of the fixed measurement is a parameter of 32 bytes.
- Sockets: partial `send` and `recv`, `listen`, `unlink`, signal handlers, process start-up and logging. A receive gets all it asks for unless the peer has sent less. One dead branch of `HandleClient`, a header that fails to parse from sixteen bytes, is an assertion.
- Client.EnclaveClient.SendRequest: a failed send and a short delivery are not modelled. Each call uses a fresh connection and a local stream for the answer, because the server serves one request per connection; the example's `main`, which reuses one connection, is not modelled.
- Client.ServedCall: requires `ArrivesAsSent`. A payload of 2^32 bytes or more has its size field truncated, and if the announced prefix is within 16 MB and has the checksum of the whole, the server performs the prefix instead (`RequestOfAnySize`). Only those calls are excluded; all other large calls are proved to be refused, as they should be.
- Client.WireCallRefines: requires `ArrivesAsSent` of its calls, for the same reason.
- Client.SessionRefines: requires `ArrivesAsSent` of its calls, for the same reason.
- Client.ClientSees: requires `ArrivesAsSent` of its calls, for the same reason.
- Client.LoadedHandleStaysInvocable: requires `ArrivesAsSent` of its calls, for the same reason.
- Client.StoredDataComesBack: requires `ArrivesAsSent` of its calls, for the same reason.
- Client.EnclaveClient.LoadModule: requires `ArrivesAsSent` of its calls, for the same reason.
- Client.EnclaveClient.InvokeFunction: requires `ArrivesAsSent` of its calls, for the same reason.
- Client.EnclaveClient.StoreData: requires `ArrivesAsSent` of its calls, for the same reason.
- Client.EnclaveClient.RetrieveData: requires `ArrivesAsSent` of its calls, for the same reason.
- Client.EnclaveClient.Session: requires `ArrivesAsSent` of its calls, for the same reason.
- The client's `GetAttestation` call: the server side is modelled, the client side would add only an easy member.
- Concurrency.Linearizable: `GetAttestation`, which takes no lock and reads no map, and `Initialize`, which runs before threads start, are not among the calls.
- `Deserialize` methods return the whole value or nothing: what a failed call leaves in a partly filled `out` parameter is not modelled.
- `size_t` sums are unbounded integers: buffers near 2^64 bytes do not exist.
- Function tables hold the one dummy entry every module gets; running bytecode is not in the code.
- `StatusToString`, `Result`, `SecureBuffer`, `SecureWipe`, `ConstantTimeCompare`, moves of `SecureKey`: thin wrappers, single loops, and timing or erasure claims that the model cannot express.
