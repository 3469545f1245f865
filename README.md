# Nonce-search worker of the Mineral CLI miner, modelled in Dafny

The miner looks for a nonce that, hashed with keccak-256 together with the
current chain hash and the signer's address, gives a digest with at least
`difficulty` leading zero bytes. The worker thread (`src/child_worker.ts`)
handles each job independently: it scans `nonceRange` consecutive nonces from
`startNonce` and posts exactly one message back. That message is either the
first passing nonce or a request for a new range.

The model follows the worker file piece by piece:

- `bytes.dfy` (`Bytes`): the `Uint8Array` element type and the effect of
  `TypedArray.prototype.set` on a buffer (`Overlay`).
- `difficulty.dfy` (`Difficulty`): `validateHash`, which is a JavaScript
  `slice(0, difficulty)` followed by a summing `reduce`. Negative and
  over-long difficulties are handled as `slice` handles them.
- `hex.dfy` (`Hex`): `hexToBytes`, an imperative method that fills a fresh
  array two digits at a time. It is proved against a reference decoder and
  against the lowercase hex encoding that the decoder inverts.
- `nonce.dfy` (`NonceEncoding`): `int64to8`. The nonce is reduced modulo 2^64
  (the `BigUint64Array` conversion) and laid out as 8 bytes, least
  significant byte first.
- `hash_chain.dfy` (`HashChain`): `createHash`. It builds a 72-byte buffer with
  three `set` calls, applies keccak-256 and decodes the hex digest.
- `worker.dfy` (`Worker`): the `message` handler. It is a method with the
  source's `while` loop, its mutable `nonce` and `nonceCount`, and its early
  return. Lemmas about the handler's contract sit beside it.

Assumptions at the boundaries:

- keccak-256 comes from the `hash-wasm` package, which is foreign code. Here
  it is a function-typed parameter `keccak: seq<Byte> -> string`. All the
  model assumes about it is `IsKeccak256`: every digest is 64 lowercase hex
  digits. Determinism comes for free, because a function gives the same
  output for the same input.
- `parentPort.postMessage` becomes appending to the sequence `posted`, which
  the handler returns. The ghost sequence `tested` records the nonces that
  were hashed, in order.
- Byte order: `BigUint64Array` writes in the host's byte order. The model
  assumes a little-endian host.
- The two result messages are `{nonce, isValid: true, jobId}` and
  `{requestNewNonce: true, lastNonce, jobId}`. Their constant fields are
  implied by the constructors `Found` and `RequestNewNonce`.
- The nonce is a `bigint` and never wraps. Only its 8-byte encoding is taken
  modulo 2^64. So `lastNonce` and a found nonce are reported unreduced, and
  nonces that differ by a multiple of 2^64 have the same digest
  (`HashChain.HashOfShape`).

## Model

| member | source | states |
|---|---|---|
| `Difficulty.SumZeroIff` | src/child_worker.ts:6 | a byte sum is never negative, and it is zero exactly when every byte is zero |
| `Difficulty.ValidateHash` | src/child_worker.ts:5-7 | `slice(0, difficulty)`, then the reduce sum compared with 0: holds iff the bytes the slice keeps are all zero (the first `difficulty` of them, or all but the last `-difficulty` for a negative one) |
| `Difficulty.ValidateHashMeaning` | src/child_worker.ts:5-7 | `validateHash(hash, d)` holds iff the first `min(d, \|hash\|)` bytes are zero (for `d >= 0`); for `d < 0`, iff all but the last `-d` are zero |
| `Difficulty.ValidateHashEdges` | src/child_worker.ts:5-7 | difficulty 0 passes every digest; a difficulty past the end checks the whole digest |
| `Difficulty.ValidateHashMonotone` | src/child_worker.ts:5-7 | a digest that passes difficulty `e` passes every difficulty `0 <= d <= e` |
| `Hex.ParseHex` | src/child_worker.ts:12 | `parseInt(slice, 16)` on one or two hex digits is always a byte, and a lowercase pair is the encoding of the byte it parses to |
| `Hex.ParseHexEncode` | src/child_worker.ts:12 | parsing the two digits that a byte encodes to gives back that byte |
| `Hex.HexToBytes` | src/child_worker.ts:9-14 | the result has `\|hex\| / 2` bytes (rounded down) and equals the reference decoding `DecodeHex(hex)`; a lone trailing digit is dropped; the array is freshly allocated |
| `Hex.DecodeHexAt` | src/child_worker.ts:9-14 | the decoding has `\|hex\| / 2` bytes, and byte `k` is the value of digits `2k` and `2k + 1` |
| `Hex.DecodeEncode` | src/child_worker.ts:9-14 | decoding the lowercase hex encoding of any byte array gives back that array |
| `Hex.EncodeDecode` | src/child_worker.ts:9-14 | an even-length lowercase hex string is the encoding of its decoding |
| `NonceEncoding.Int64To8` | src/child_worker.ts:16-19 | the encoding of any nonce is exactly 8 bytes |
| `NonceEncoding.LittleEndianRoundTrip` | src/child_worker.ts:17-18 | reading back `k` little-endian bytes recovers every value below 256^k |
| `NonceEncoding.FromLittleEndianRoundTrip` | src/child_worker.ts:17-18 | writing the value of a byte string in as many bytes recovers the string |
| `NonceEncoding.Int64To8Decodes` | src/child_worker.ts:16-19 | the 8 bytes read back as `n mod 2^64`, so as `n` itself for `0 <= n < 2^64` |
| `NonceEncoding.Int64To8Onto` | src/child_worker.ts:16-19 | every 8-byte string is the encoding of a nonce below 2^64 |
| `NonceEncoding.Int64To8SameIff` | src/child_worker.ts:16-19 | two nonces have the same encoding iff they agree modulo 2^64 |
| `Bytes.Overlay` | src/child_worker.ts:27-29 | `set(source, offset)` puts `source` at `[offset, offset + \|source\|)` and leaves every other byte alone |
| `HashChain.Place` | src/child_worker.ts:27-29 | the buffer after an in-place `set` is `Overlay` of the buffer before it |
| `HashChain.Preimage` | src/child_worker.ts:26-29 | the buffer handed to keccak is 72 bytes long |
| `HashChain.PreimageLayout` | src/child_worker.ts:26-29 | for a 32-byte hash and a 32-byte signer, bytes 0..31 are the hash, 32..63 the signer, 64..71 `int64to8(nonce)`: the buffer is their concatenation |
| `HashChain.PreimageNonce` | src/child_worker.ts:29 | the last 8 bytes are always `int64to8(nonce)`, and two nonces give the same buffer iff they agree modulo 2^64 |
| `HashChain.HashOfShape` | src/child_worker.ts:30-31 | every digest is 32 bytes, and nonces that agree modulo 2^64 have the same digest |
| `HashChain.CreateHash` | src/child_worker.ts:21-32 | the result is the 32 bytes decoded from `keccak(Preimage(...))`, a function of the inputs, so the same for the same inputs, in a freshly allocated array |
| `Worker.OnMessage` | src/child_worker.ts:40-70 | exactly one message is posted, carrying the job's id. Nonces `startNonce, startNonce + 1, …` are hashed in order, each once, at most `nonceRange` of them. A `Found` nonce lies in the range, passes, is the smallest passing one from `startNonce`, and is the last one hashed. Otherwise `lastNonce = startNonce + max(nonceRange, 0)`, no nonce of the range passes, and the whole range was hashed |
| `Worker.ReportUnique` | src/child_worker.ts:52-69 | any two messages that meet the handler's contract for a job are equal, so the job fixes its report |
| `Worker.ReportFoundIff` | src/child_worker.ts:52-69 | a job reports `Found` iff some nonce of its range passes |
| `Worker.SingleSolutionFoundOnce` | src/child_worker.ts:52-69 | take workers with disjoint ranges, whose ranges hold exactly one solution `x` between them: exactly one of them reports `Found(x)`, and every other one asks for a new range |

## Left out

- The nonce-range allocator and worker pool that `src/cli/index.ts` starts through `runner`. That code lives in `src/common`, which is not part of this model. Range disjointness and renewal are therefore taken as hypotheses (`Worker.SingleSolutionFoundOnce`), not proved.
- `src/cli/index.ts` as a whole: command-line parsing, wallet and key-file reading, Sui RPC calls, the start-time gate, time formatting and console output. All of it is I/O, network, clock or floating-point work.
- `src/ports.d.ts`: type declarations only, with no behaviour.
- The keccak-256 algorithm itself. It is foreign WASM code and is a parameter here.
- Worker-thread mechanics: `isMainThread`, the event dispatch of `parentPort`, and `await` scheduling. Each message event is one sequential call of `Worker.OnMessage`.
- The `console.log` on success.
- `Hex.HexToBytes`: characters that are not hex digits are excluded by the precondition. `parseInt` skips leading whitespace, accepts a sign, and gives `NaN` (stored as 0) or a prefix value for them. The keccak digest never contains such characters. Odd-length strings are modelled.
- `HashChain.CreateHash`: a `currentHash` longer than 72 bytes or a signer longer than 40 makes `set` throw a RangeError, which rejects the handler's promise without posting anything. The precondition `PreimageFits` excludes this case, and `Worker.OnMessage` requires it only when the range is non-empty, because that is the only time a hash is computed. Shorter inputs are modelled by `Overlay`: their missing bytes stay zero.
- `Worker.OnMessage`: `startNonce`, `nonceRange` and `difficulty` are taken as integers. With a fractional `nonceRange` the JavaScript loop runs `max(ceil(nonceRange), 0)` times. A non-integer `startNonce` makes `BigInt` throw. A fractional difficulty is truncated by `slice`. None of these is modelled.
- `Worker.OnMessage`: the counter `nonceCount` is a JavaScript number, and `nonceCount++` stops growing at 2^53. For `nonceRange > 2^53` the source loop never exits, so it may post a `Found` outside the range and never posts `requestNewNonce`. The model's counter is unbounded, so its contract covers such ranges as if the loop ended.
- `Worker.OnMessage`: keccak is modelled as total. If the `await keccak(...)` call rejects, the handler's promise rejects and no message is posted. The model does not capture that path.
- Big-endian hosts: there `BigUint64Array` writes the nonce most significant byte first, so the pre-image differs from the little-endian layout proved here. The model does not capture this.
- `Worker.SingleSolutionFoundOnce` requires every job's hash and signer to fit the pre-image, even for an empty range, where the handler itself would not need it.
