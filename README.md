# File sharder: split-and-encrypt / join-and-decrypt, modelled in Dafny

The file sharder encrypts a file with a freshly generated Fernet key and cuts
the ciphertext into `pieces` contiguous chunks. The returned part map holds
`encryption_key.key`, `chunk_1.bin` .. `chunk_<pieces>.bin` and
`manifest.json`. The manifest records the original file name, the chunk
order and a SHA-256 hex digest per chunk. The joiner takes such a part map.
It checks that the key and manifest are present and walks `chunk_order`. It
rejects the first chunk that is missing or empty, that has no entry at its
position in `chunk_hashes`, or whose digest differs from that entry's hash.
It concatenates the chunks that pass and decrypts the result.

The model has five modules:

- `Wrappers`: `Option` and `Result`.
- `Decimal`: `str(k)` for the `chunk_{k}.bin` names, with its parse-back
  inverse.
- `Chunking`: the chunk-boundary arithmetic. It covers the cursor
  `current_pos`, the `n // pieces` chunk size, the remainder carried by the
  last chunk, and the byte buffer grown by `+=`.
- `Manifests`: the reserved part names, the manifest record, the generated
  chunk names and the name-to-bytes part map.
- `Logic`: the two operations.
  - Each is a specification function, `Split` or `Join`.
  - Each is also a method that runs the source's loop, `SplitAndEncrypt` or
    `JoinAndDecrypt`, and is proved equal to that function.
  - Lemmas state the properties of the pipeline.

The library calls are given to the model as the function-valued fields of
`Logic.Primitives`:

- Fernet encrypt and decrypt;
- `hashlib.sha256(...).hexdigest()`;
- JSON encoding and decoding of the manifest.

The only laws assumed of these calls are those in `Logic.Sound`:

- decryption under the same key inverts encryption;
- decoding inverts encoding;
- an encoded manifest is never empty.

Only the round-trip and tamper lemmas require `Sound`.

Where the code and its documentation differ, the model follows the code:

- The size check compares the *ciphertext* length, not the plaintext
  length, with `pieces`.
- `pieces == 0` passes that check and then fails on the division
  (`DivisionByZero`).
- A negative `pieces` is accepted and yields a key and an empty manifest
  (`Logic.SplitNegativePieces`).
- A manifest without `original_filename` is an error. There is no fallback
  name, because `manifest['original_filename']` raises.
- `chunk_hashes` is read by position `i`, not by file name. An index past
  its end is an error (`MalformedManifest`). The `filename` field of a hash
  entry is never consulted.

## Model

| member | source | states |
|---|---|---|
| Logic.Split | logic.py:24-32 | splitting fails exactly when `pieces == 0` or the ciphertext is shorter than `pieces` |
| Logic.SplitAndEncrypt | logic.py:6-68 | the loop's result is `Split`. Its invariants are: the cursor is the sum of the earlier chunk lengths; the order, hash list and part map hold exactly the chunks cut so far. Failure happens exactly when `pieces == 0` or the ciphertext is shorter than `pieces` |
| Logic.SplitOutput | logic.py:40-66 | a successful split holds exactly the key, the manifest and `chunk_1.bin` .. `chunk_<pieces>.bin`, so `pieces + 2` parts. The key and manifest bytes are the ones produced. Chunk `k` holds the k-th non-empty slice |
| Logic.SinglePiece | logic.py:47-54 | with `pieces == 1` the only chunk is the whole ciphertext |
| Logic.SplitNegativePieces | logic.py:27-47 | a negative `pieces` succeeds with only the key and a manifest listing no chunk |
| Logic.Range | logic.py:47 | definition: the values `range(start, stop)` yields, `start`, `start + 1`, .., `stop - 1`, in order |
| Logic.PieceCount | logic.py:47 | definition: `len(range(pieces))`, that is `pieces` when positive and 0 otherwise |
| Logic.RangeLength | logic.py:47 | `range(start, stop)` yields `PieceCount(stop - start)` values, the j-th being `start + j`, so the splitting loop runs `PieceCount(pieces)` times with `i = 0, 1, ..` |
| Logic.Present | logic.py:87-97 | definition: `not file_data.get(name)` is false, so the part is there and its bytes are not empty. It is used for the key and the manifest (line 87) and for each chunk listed in `chunk_order` (line 97) |
| Logic.ChunkVerified | logic.py:96-103 | definition: position `i` passes the joiner's checks. Its chunk is present, `chunk_hashes` has an entry at `i`, and that entry's `hash` is the chunk's digest |
| Logic.Rejection | logic.py:97-104 | definition: the error at a failing position, in the source's order of checks: missing chunk, then hash index out of range, then hash mismatch |
| Logic.RejectionReason | logic.py:97-104 | the error at a failing position is `MissingChunk` exactly when the chunk is absent or empty, `MalformedManifest` exactly when it is present but `chunk_hashes` has no entry `i`, and `HashMismatch` exactly when it is present with an entry whose hash differs. Both named errors carry the chunk's name |
| Logic.Gather | logic.py:95-96 | definition: the bytes `file_data.get(chunk_filename)` returns for each name of `chunk_order`, in that order |
| Logic.FirstUnverified | logic.py:95-104 | the first position at or after `from` that fails the joiner's checks; every earlier position passes and is present |
| Logic.Join | logic.py:84-112 | the result is "missing key or manifest" exactly when either is absent or empty. On success the manifest decoded, the name is its `original_filename`, every listed chunk passed its checks, and the data is the decryption of the listed chunks concatenated in order |
| Logic.JoinOutcome | logic.py:87-112 | with the key and manifest present: an undecodable manifest gives `MalformedManifest`. When every listed position passes its checks, the result is `(original_filename, x)` if decrypting the listed chunks concatenated in order gives `x`, and `DecryptionFailed` if decryption fails |
| Logic.JoinAndDecrypt | logic.py:71-112 | the loop's result is `Join`. Its invariant is that the buffer holds only chunks that passed their checks, concatenated in manifest order |
| Logic.JoinStopsAtFirstFailure | logic.py:95-104 | when every position before `i` passes and position `i` fails, the join fails with position `i`'s error, whatever follows |
| Logic.JoinRejectsAbsentChunk | logic.py:95-98 | in any part map, a listed chunk that is absent or empty makes the join fail at that position or an earlier one, before decryption |
| Logic.SplitPartsFound | logic.py:43-66 | a part map holding the split's parts, except some named ones, has the key, the manifest and the chunks under their generated names |
| Logic.AllWrittenChunksVerify | logic.py:95-106 | with all written chunks present, no position fails and the joiner gathers exactly the written chunks, in order |
| Logic.JoinOfWrittenParts | logic.py:84-112 | the key, the manifest and every chunk as written make the join return the original name and data |
| Logic.JoinOfDamagedParts | logic.py:96-104 | with the parts before position `i` intact, a missing or empty chunk `i` gives `MissingChunk`, and one with another digest gives `HashMismatch` |
| Logic.RoundTrip | logic.py:6-112 | joining any part map that contains a split's parts unchanged returns the original file name and data |
| Logic.DamagedChunkRejected | logic.py:96-104 | in a split's part map where only chunk `i+1` is removed, emptied or replaced with bytes of another digest, the join names that chunk before trying to decrypt |
| Chunking.ChunkLength | logic.py:49-51 | definition: `chunk_size = n // pieces`, plus `remainder = n % pieces` at the last position |
| Chunking.Offset | logic.py:46-54 | definition: `current_pos` before chunk `i` is the sum of the lengths of chunks `0 .. i-1` |
| Chunking.OffsetClosedForm | logic.py:46-54 | the cursor before chunk `i` is `i * (n // pieces)`, and after the last chunk it is exactly `n` |
| Chunking.OffsetWithin | logic.py:53-54 | the cursor never passes the end of the ciphertext |
| Chunking.Chunk | logic.py:49-53 | chunk `i` has `n // pieces` bytes, plus `n % pieces` for the last |
| Chunking.ChunkSizes | logic.py:31-51 | all chunks but the last have `n // pieces` bytes, the last has `n // pieces + n % pieces`, and none is empty when `pieces <= n` |
| Chunking.Chunks | logic.py:47-53 | definition: the slices the loop cuts, chunk `i` being the one between cursors `i` and `i + 1` |
| Chunking.ConcatChunksPrefix | logic.py:46-54 | the first `k` chunks concatenated are the ciphertext up to the cursor after chunk `k-1` |
| Chunking.Partition | logic.py:46-54 | the chunks concatenated in order are the ciphertext: no byte is lost or duplicated |
| Chunking.Concat | logic.py:94-106 | definition: the buffer starts as `b''` and grows by `+=` over the parts, in order |
| Chunking.ConcatAppend | logic.py:106 | appending a chunk to the buffer appends its bytes |
| Manifests.ManifestFor | logic.py:35-60 | the manifest keeps the file name. Its order and hash lists have one entry per chunk. Entry `i` is named `chunk_<i+1>.bin` and carries the digest of chunk `i` |
| Manifests.ChunkName | logic.py:57 | definition: `f"chunk_{k}.bin"` with `k` written as `str(k)` |
| Manifests.ChunkNames | logic.py:57-59 | definition: `manifest['chunk_order']`, the names `chunk_1.bin` .. `chunk_<count>.bin` appended in order |
| Manifests.HashEntries | logic.py:56-60 | definition: `manifest['chunk_hashes']`, entry `i` pairing the i-th name with the digest of the i-th chunk |
| Manifests.ChunkNameInjective | logic.py:57 | different positions get different chunk names |
| Manifests.ChunkNameNotReserved | logic.py:43-66 | no chunk name is `encryption_key.key` or `manifest.json` |
| Manifests.ChunkNamesDistinct | logic.py:57-59 | the generated `chunk_order` has no duplicate and no reserved name |
| Manifests.ChunkNamesAsSet | logic.py:57-59 | the names in `chunk_order` are exactly `chunk_1.bin` .. `chunk_<count>.bin` |
| Manifests.FileMap | logic.py:62 | the part map's keys are exactly the names inserted |
| Manifests.FileMapAppend | logic.py:62 | inserting one more chunk updates the map at that name only |
| Manifests.FileMapAt | logic.py:62 | with distinct names, each name maps to its own chunk |
| Manifests.DistinctCard | logic.py:57-62 | distinct names give a map with that many entries |
| Decimal.NatToString | logic.py:57 | `str(k)` is a non-empty string of decimal digits with no leading zero |
| Decimal.ParseNatToString | logic.py:57 | reading the digits of `str(k)` back gives `k` |
| Decimal.NatToStringInjective | logic.py:57 | distinct numbers render as distinct strings |

## Left out

- main.py is not part of this model: the HTTP endpoints, zip packing and unpacking, and logging.
- Key generation: `Fernet.generate_key()` is random, so the key is a parameter of `Split`. It always returns a non-empty (44-byte) key, which is why the join lemmas require `key != []`. An empty key would count as missing in the joiner.
- Fernet internals: the token format, IV, timestamp and HMAC are not modelled. Encryption is a deterministic function of key and data, which stands for one fixed draw of the IV and clock. Decryption returns `None` wherever Fernet raises, and that covers a malformed key too.
- Logic.RoundTrip, Logic.DamagedChunkRejected: a *wrong* key is not proved to be rejected. That relies on Fernet's authentication, which the model does not assume.
- SHA-256: the digest is an arbitrary function. No collision resistance is assumed, so a replacement chunk with the same digest passes, as it would in the code.
- JSON: the manifest codec is a pair of functions with a decode-after-encode law. Key lookups that raise (`original_filename`, `chunk_order`, the `hash` field) are folded into decoding returning `None`, that is `MalformedManifest`. The source reads `chunk_hashes[i]['hash']` lazily, only after position `i` has passed its presence check and every earlier position has passed. So for a manifest the splitter did not write, a `hash` field missing at some entry gives `MalformedManifest` in the model whenever that entry is not the first failure the source reaches. Three cases follow. With an earlier chunk missing, the source reports "Missing chunk file". With an earlier hash mismatch, it reports "Hash mismatch" at that chunk. When the entry lies past the last listed position, the source never reads it and succeeds. An index past the end of `chunk_hashes` is still checked lazily, at its position (Logic.Rejection).
- Exception types and messages: the ValueError, KeyError, IndexError, ZeroDivisionError and InvalidToken cases are the constructors of `SplitError` and `JoinError`.
- SplitAndEncrypt: for a negative `pieces` the source computes `//` and `%` with floor semantics. Dafny's are Euclidean, so those two values differ, but the loop then runs zero times and never reads them.
- Logic.Join: its own contract states the missing-part case, and what success implies. The remaining outcomes are stated by separate lemmas. Logic.JoinOutcome covers an undecodable manifest, and success or `DecryptionFailed` once every chunk passes. Logic.JoinStopsAtFirstFailure with Logic.RejectionReason covers the error at a failing chunk.
- Byte content is `seq<uint8>` and text is `seq<char>`, so the UTF-8 encoding of the manifest text is inside the JSON codec function.
