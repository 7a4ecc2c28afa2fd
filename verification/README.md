# A verified model of LibreDrive

LibreDrive stores encrypted files on the disks of its users.  A Rust core splits files into
chunks, encrypts, serialises and erasure-codes them, keeps other users' fragments under leases,
and accounts for quotas and peers; a Flutter application re-implements part of it in Dart.  This
project models the parts of both that compute or keep state, and proves what they promise.

`dafny verify dfyconfig.toml` checks everything.

## Modules

| file | models |
|---|---|
| `Basics.dfy` | bytes, results, joined and sliced buffers, rounding division |
| `GaloisField.dfy`, `ReedSolomon.dfy` | the arithmetic and the code of the `reed_solomon_erasure::galois_8` crate |
| `Erasure.dfy`, `Encryption.dfy`, `Bincode.dfy`, `FileManager.dfy` | the file pipeline of the Rust core, and its end-to-end round trip |
| `Merkle.dfy`, `HexMerkle.dfy` | the Merkle trees of the Rust core (odd node promoted) and of the Dart application (odd node duplicated) |
| `FragmentStore.dfy`, `StorageManager.dfy` | the fragment store: its steps on values, and the class that performs them on its fields and a disk |
| `StorageRuns.dfy`, `StorageLeases.dfy` | its accounts, its refinement of a map of leases, and lease safety, over whole runs |
| `SeedPhrase.dfy` | BIP-39 generation and validation |
| `CryptoService.dfy`, `JsonText.dfy`, `Sharding.dfy`, `SecureStorage.dfy` | encryption, JSON text, sharding with XOR parity, and the local store of the Dart application |
| `Quota.dfy`, `Peers.dfy` | quotas and peer selection of the Rust core |

Code that works by updating variables is a method or a class here, proved equal to a function on
values; the lemmas are about those functions.  A run is a sequence of events with a clock; where
I/O can fail, each event says which of its operations do.

What comes from outside is a parameter: the clock, nonces, random keys, the order in which a hash
map is traversed, hash functions, key derivation, AES-GCM, JSON.  The cipher is any pair of
functions in which decryption inverts encryption and the tag has 16 bytes.  Hash functions are
arbitrary: where a hash must not collide, the theorem computes the collision instead.  JSON reads
back what was written, and its text is at least as long as the strings it holds; a text with both
properties is given.  The word list is
any list of 2048 different words.

The Reed-Solomon crate is not part of the repository.  Its code is modelled concretely: shard r is
the value at the field element r of the polynomial with fewer than k coefficients whose values at
0..k−1 are the data shards, which is what a Vandermonde matrix normalised at the top gives.  That any
k shards determine all is proved, not assumed.

## Where the code and its intent part

* Storing a live id again adds its size without subtracting the old one, so `used_storage_bytes`
  is an upper bound, not the sum (`StorageRuns.RestoreCountsTwice`).
* The capacity test adds in 64 bits.  With a limit above 2^63 it can wrap
  (`StorageRuns.AccountingExact`).
* A restart with a lower limit is not checked against what is stored, so the used bytes can exceed
  it (`StorageRuns.RunWithinExact`, `StorageRuns.LoweredLimitExceeded`).
* The path of a fragment contains its id.  Ids with slashes can name the file of any other id, and a
  store then takes that fragment's bytes away (`FragmentStore.AliasNamesSameFile`,
  `StorageLeases.AliasTakesFile`); the theorems about runs ask that no stored id has one.
* `extend_owner_fragments` overwrites the expiry and can shorten it (`StorageLeases.ExtensionExact`); lease
  safety is about the expiry it sets.
* Equal Merkle roots say nothing across different numbers of leaves (`Merkle.RootIgnoresLeafCount`,
  `HexMerkle.RepeatedLastLeaf`).
* The Dart application never uses parity to reconstruct (`Sharding.CollectedExact`), and all parity
  shards but the first are independent of the file (`Sharding.LaterParityIgnoresFile`).
* Dart sharding throws when there are many data shards for a short file (`Sharding.RefusesToShard`); a
  serialised file is never that short for ten data shards (`SecureStorage.UploadHolds`).
* The contribution asked of a user is rounded down, so contributing it may not be enough
  (`Quota.HostingWhatIsNeeded`, `Quota.RoundedAmountRefused`); contributions of 2^64 bytes start over at
  zero (`Quota.HostingKeepsBoundExact`).
* Pruning can be observed in one case: an update that blacklists a stale peer does nothing once the
  peer was pruned (`Peers.ObservantExact`).

## Model

| member | source | states |
|---|---|---|
| `FileManager.EndToEnd` | rust_core/src/storage/file_manager.rs:187-331 | For every file, every erasure configuration and every choice of surviving shards at their own positions: preparing succeeds exactly when the configuration is one the codec accepts, and then reconstruction returns the original bytes (passing the hash check) from any `data_shards` shards, and `InsufficientFragments` with the exact counts from fewer |
| `FileManager.EstimateExact` | rust_core/src/storage/file_manager.rs:295-300 | The size recomputed from the shard sizes is exactly k·ceil(len/k), the length of the padded serialised file: at least its length and less than its length plus k |
| `FileManager.OpenSealed` | rust_core/src/storage/file_manager.rs:302-330 | Key unwrapping, parsing, decryption and the hash check undo sealing, whatever bytes trail the serialised file |
| `FileManager.ReconstructUnderAnyId` | rust_core/src/storage/file_manager.rs:264-331 | Any k shards of an upload, asked for under a file id, give the file if the id is the hash of the file and fail the integrity check otherwise |
| `FileManager.OpenSealedUnderAnyId` | rust_core/src/storage/file_manager.rs:302-330 | The same for the sealed bytes, whatever trails them |
| `FileManager.ReconstructedIsChecked` | rust_core/src/storage/file_manager.rs:324-330 | Whatever metadata and shards say, bytes are returned only if their hash is the file id |
| `FileManager.OpenedExact` | rust_core/src/storage/file_manager.rs:302-330 | When each of the failures after decoding occurs |
| `FileManager.ReconstructedRefuses` | rust_core/src/storage/file_manager.rs:269-292 | Missing shards are reported before an unusable configuration |
| `FileManager.PreparedMetadata` | rust_core/src/storage/file_manager.rs:213-260 | Every field of the metadata, and index, id, size and hash of every shard location; the wrapped key unwraps to the drawn one |
| `FileManager.SealedLayout` | rust_core/src/storage/file_manager.rs:199-208 | What is sharded parses to the file encrypted in pieces of 65536 bytes: piece i lies at 65564·i behind its own nonce |
| `FileManager.PrepareUpload` | rust_core/src/storage/file_manager.rs:187-261 | Returns the shards, the metadata and the failure of an unusable configuration that `Prepared` names |
| `FileManager.ReconstructFile` | rust_core/src/storage/file_manager.rs:264-331 | Returns what the specification of reconstruction names, in the order of its failures: shard count, erasure decoding, key unwrapping, parsing, decryption, hash |
| `FileManager.AsShardsExact` | rust_core/src/storage/file_manager.rs:278-290 | The decoder is given every shard with its position, as parity from k on |
| `Erasure.RoundTrip` | rust_core/src/storage/erasure.rs:158-211 | Any k of the k+m shards of nonempty data, in place, decode to exactly the data, including when trailing data shards are pure padding; fewer give `InsufficientFragments` |
| `Erasure.DecodeSurvivors` | rust_core/src/storage/erasure.rs:158-211 | For any requested size n, decoding survivors gives the first min(n, padded length) bytes of the padded data |
| `Erasure.FlattenDataShards` | rust_core/src/storage/erasure.rs:85-101 | The data shards, joined, are the data followed by zeros |
| `Erasure.Encode` | rust_core/src/storage/erasure.rs:78-128 | Padding, splitting, parity and labelling yield exactly the systematic code of the padded data; empty data is refused |
| `Erasure.EncodedExact` | rust_core/src/storage/erasure.rs:78-128 | Shard r carries index r, is parity from k on, and byte j of a data shard is byte r·size + j of the data or zero |
| `Erasure.CodableExact` | rust_core/src/storage/erasure.rs:69-74 | Which configurations are accepted, and which failure names the others |
| `Erasure.DecodedRefuses` | rust_core/src/storage/erasure.rs:158-190 | Which failures decoding reports for any list of shards, in which order |
| `Erasure.FillParity` | rust_core/src/storage/erasure.rs:104-110 | Every shard position holds its code shard; the data shards stay as they are |
| `Erasure.Decode` | rust_core/src/storage/erasure.rs:158-211 | The loop-based decoder computes the specified result, including the errors for too few shards and for a bad shard count or size |
| `ReedSolomon.AnyKDetermine` | rust_core/src/storage/erasure.rs:104-110 | The systematic code is maximum distance separable: interpolating any k shards gives every shard |
| `ReedSolomon.Systematic` | rust_core/src/storage/erasure.rs:104-110 | The first k shards of the code are the data shards themselves |
| `ReedSolomon.InterpolateHits` | rust_core/src/storage/erasure.rs:192-195 | The interpolating polynomial takes the given values at the given distinct points |
| `ReedSolomon.RootsVanish` | rust_core/src/storage/erasure.rs:192-195 | A polynomial over the field with at least as many distinct roots as coefficients is zero everywhere |
| `ReedSolomon.AgreeEverywhere` | rust_core/src/storage/erasure.rs:192-195 | Two polynomials with k coefficients that agree at k distinct points agree everywhere |
| `ReedSolomon.EvalQuotient` | rust_core/src/storage/erasure.rs:192-195 | p(x) = p(a) + (x−a)·q(x) for the quotient computed by synthetic division |
| `ReedSolomon.RebuildCorrect` | rust_core/src/storage/erasure.rs:192-195 | A shard rebuilt from any k present shards is the code shard of its position |
| `ReedSolomon.ReconstructCorrect` | rust_core/src/storage/erasure.rs:192-195 | Reconstruction from at least k shards of one code word yields the whole code word |
| `ReedSolomon.ReconstructExact` | rust_core/src/storage/erasure.rs:192-195 | For any shards: what is refused; shards present stay as they are, missing ones are rebuilt from the first k present |
| `ReedSolomon.CodewordIsPolynomial` | rust_core/src/storage/erasure.rs:104-110 | Shard r is the value at r of any polynomial with k coefficients that takes the data bytes at 0..k−1 |
| `ReedSolomon.SizeErrorFirst` | rust_core/src/storage/erasure.rs:192-195 | The first shard that is empty or of another size than those before it decides the error |
| `GaloisField.MulComm` | rust_core/src/storage/erasure.rs:7 | Multiplication in GF(2^8) modulo x^8+x^4+x^3+x^2+1 commutes |
| `GaloisField.MulAssoc` | rust_core/src/storage/erasure.rs:7 | and is associative |
| `GaloisField.AddMul` | rust_core/src/storage/erasure.rs:7 | and distributes over addition |
| `GaloisField.InvLaw` | rust_core/src/storage/erasure.rs:7 | Every nonzero byte has the multiplicative inverse that `Inv` computes |
| `GaloisField.MulCancel` | rust_core/src/storage/erasure.rs:7 | There are no zero divisors |
| `Encryption.EncryptFile` | rust_core/src/crypto/encryption.rs:105-130 | The loop produces the concatenated encrypted chunks, and as offsets the lengths of the chunks before each |
| `Encryption.DecryptFile` | rust_core/src/crypto/encryption.rs:133-149 | The loop over all chunks returns the concatenation of the decrypted chunks, or the error of the first chunk that fails |
| `Encryption.OffsetOfChunk` | rust_core/src/crypto/encryption.rs:112-121 | Offset i is i·(chunk size + 28) |
| `Encryption.OffsetsTile` | rust_core/src/crypto/encryption.rs:105-130 | The offsets start at zero, strictly increase and tile the buffer: between two of them lies exactly the encryption of that chunk |
| `Encryption.ChunkLayout` | rust_core/src/crypto/encryption.rs:105-130 | At i·(c+28) lie the twelve bytes of nonce i, then what the cipher makes of that nonce and the plaintext slice from i·c, up to the next offset |
| `Encryption.NoncesSeparate` | rust_core/src/crypto/encryption.rs:36-55 | Chunks under different nonces have different ciphertexts |
| `Encryption.EncryptedSizes` | rust_core/src/crypto/encryption.rs:124-129 | The file records the size of the data and the chunk size |
| `Encryption.EncryptedSize` | rust_core/src/crypto/encryption.rs:186-193 | There are ceil(n/c) chunks, and the encrypted size is n + 28·ceil(n/c) |
| `Encryption.DecryptChunkCorrect` | rust_core/src/crypto/encryption.rs:152-165 | Chunk i decrypts to the plaintext slice [i·c, min((i+1)·c, n)); any other index is an error |
| `Encryption.DecryptedFromCorrect` | rust_core/src/crypto/encryption.rs:133-149 | Decrypting from chunk i on gives the plaintext from i·c on |
| `Encryption.FileRoundTrip` | rust_core/src/crypto/encryption.rs:105-149 | Decrypting an encrypted file returns the file, for every chunk size and every choice of nonces |
| `Encryption.Encrypt` | rust_core/src/crypto/encryption.rs:36-55 | A ciphertext is 28 bytes longer than its plaintext and decrypts to it |
| `Encryption.EncryptExact` | rust_core/src/crypto/encryption.rs:40-54 | It is the drawn nonce followed by what the cipher makes of it |
| `Encryption.DecryptExact` | rust_core/src/crypto/encryption.rs:59-74 | Decryption succeeds exactly for at least 28 bytes whose first twelve are a nonce the cipher accepts the rest under |
| `Encryption.DecryptChunkExact` | rust_core/src/crypto/encryption.rs:152-165 | Which bytes of any file are decrypted for chunk i, and which bounds fail |
| `Encryption.FirstFailureDecides` | rust_core/src/crypto/encryption.rs:133-149 | For any file the first failing chunk is the result; without one the decrypted chunks are joined |
| `Bincode.DeserializeExact` | rust_core/src/crypto/encryption.rs:196-205 | Parsing returns a file if and only if the bytes begin with the serialisation of that file: parsing ignores trailing bytes, and no two encodings of one file exist |
| `Bincode.DeserializeSerialize` | rust_core/src/crypto/encryption.rs:196-205 | Parsing undoes serialisation, whatever follows |
| `Bincode.SerializeNonempty` | rust_core/src/crypto/encryption.rs:196-199 | A serialised file has at least 32 bytes |
| `Bincode.SerializeLayout` | rust_core/src/crypto/encryption.rs:196-199 | The position of every field: eight bytes for each length and number, in the order of the fields |
| `Bincode.LittleEndianDigit` | rust_core/src/crypto/encryption.rs:196-199 | Byte i of a number counts multiples of 256^i |
| `Bincode.ReadBack` | rust_core/src/crypto/encryption.rs:196-205 | Reading a fixed-width little-endian number returns the number written |
| `Bincode.WriteBack` | rust_core/src/crypto/encryption.rs:196-205 | Writing a number read from fixed-width bytes returns the bytes |
| `Merkle.ComputeRoot` | rust_core/src/crypto/hashing.rs:154-184 | The level-by-level loop that promotes an odd last node returns the hash of the recursive tree; the empty list gives the hash of nothing |
| `Merkle.NextLevel` | rust_core/src/crypto/hashing.rs:167-178 | One pass of the inner loop builds the next level |
| `Merkle.LevelKeepsTreeHash` | rust_core/src/crypto/hashing.rs:167-178 | Replacing a level by the next one leaves the hash of the recursive tree unchanged |
| `Merkle.RootHashesHalves` | rust_core/src/crypto/hashing.rs:168-172 | The root of more than one leaf is the hash of 64 bytes, the root left of the split before the root right of it |
| `Merkle.SplitIsLargest` | rust_core/src/crypto/hashing.rs:154-184 | The recursive tree splits at the largest power of two below the number of leaves (section 2.1 of RFC 6962, without the prefix bytes) |
| `Merkle.RootBindsLeaves` | rust_core/src/crypto/hashing.rs:154-184 | Equal roots over equally many leaves: either the leaves are equal, or the computed pair is two different inputs with one hash |
| `Merkle.RootBindsChunks` | rust_core/src/crypto/hashing.rs:146-184 | The same for the chunks below the leaves |
| `Merkle.RootIgnoresLeafCount` | rust_core/src/crypto/hashing.rs:154-184 | The condition on the number of leaves is needed: the next level of any list of at least two leaves is a shorter list with the same root |
| `Merkle.Build` | rust_core/src/crypto/hashing.rs:146-151 | Leaf i is the hash of chunk i, and the root is the root of the leaves |
| `Merkle.VerifyChunkExact` | rust_core/src/crypto/hashing.rs:187-194 | A chunk is accepted if and only if it is the chunk at that index or different from it with the same hash |
| `HexMerkle.BuildMerkleRoot` | flutter_app/lib/services/crypto_service.dart:195-220 | The loop that hashes an odd last node with itself returns the root of the recursive tree padded to a power of two |
| `HexMerkle.NextLevel` | flutter_app/lib/services/crypto_service.dart:203-216 | One pass of the inner loop builds the next level |
| `HexMerkle.LevelKeepsTree` | flutter_app/lib/services/crypto_service.dart:203-216 | Replacing a level by the next one leaves the hash of the padded tree, one level shallower, unchanged |
| `HexMerkle.SmallTrees` | flutter_app/lib/services/crypto_service.dart:195-220 | The roots of one, two and three leaves, written out: the odd third is hashed with itself |
| `HexMerkle.RootBindsLeaves` | flutter_app/lib/services/crypto_service.dart:195-220 | Equal roots over equally many hex digests: the lists are equal or the computed pair is a collision |
| `HexMerkle.RepeatedLastLeaf` | flutter_app/lib/services/crypto_service.dart:195-220 | Across different numbers of leaves this fails: repeating the last of an odd number of leaves never changes the root |
| `StorageManager.StorageManager.constructor` | rust_core/src/p2p/storage_protocol.rs:62-70 | A new manager has an empty index and a zero counter over whatever the disk holds |
| `StorageManager.StorageManager.Initialize` | rust_core/src/p2p/storage_protocol.rs:78-101 | Loads the saved index and recounts the bytes; each failure leaves what the source leaves |
| `StorageManager.StorageManager.SaveIndex` | rust_core/src/p2p/storage_protocol.rs:104-114 | Replaces the saved index by the current one, or nothing on failure |
| `StorageManager.StorageManager.StoreFragment` | rust_core/src/p2p/storage_protocol.rs:117-172 | The complete new state for each outcome: over the limit, id too short to slice, each failed write, success |
| `StorageManager.StorageManager.RetrieveFragment` | rust_core/src/p2p/storage_protocol.rs:175-206 | Missing and expired fragments, failed reads, hash mismatch, and the access statistics written back |
| `StorageManager.StorageManager.DeleteFragment` | rust_core/src/p2p/storage_protocol.rs:209-224 | File, index entry and counter change in the order of the source; a failed file removal leaves the index as it was changed so far |
| `StorageManager.StorageManager.ExtendFragment` | rust_core/src/p2p/storage_protocol.rs:227-237 | Sets the expiry of one fragment and saves |
| `StorageManager.StorageManager.ExtendOwnerFragments` | rust_core/src/p2p/storage_protocol.rs:240-261 | Sets the expiry of exactly the fragments of that owner; saves only if there are any |
| `StorageManager.StorageManager.ExtendOwned` | rust_core/src/p2p/storage_protocol.rs:249-254 | The loop over the index changes exactly the owner's entries and counts them |
| `StorageManager.StorageManager.CollectExpired` | rust_core/src/p2p/storage_protocol.rs:267-272 | Lists each expired id exactly once, in the unspecified order of the hash map |
| `StorageManager.StorageManager.CleanupExpired` | rust_core/src/p2p/storage_protocol.rs:264-280 | Deletes the expired fragments one by one until one deletion fails |
| `StorageManager.StorageManager.HasSpace` | rust_core/src/p2p/storage_protocol.rs:347-349 | Says yes if and only if storing a buffer of that size would not be refused for lack of space, whatever its id, owner and bytes |
| `FragmentStore.StoreOutcome` | rust_core/src/p2p/storage_protocol.rs:117-172 | Each failure of a store, the unchanged state it leaves, and otherwise every field of the new entry, the file, the counter and the saved index |
| `FragmentStore.DeleteOutcome` | rust_core/src/p2p/storage_protocol.rs:209-224 | A delete forgets the entry first; if the file stays, so do its bytes in the counter and the saved index |
| `FragmentStore.RetrieveOutcome` | rust_core/src/p2p/storage_protocol.rs:175-206 | Bytes come back only unexpired and with the recorded hash; the access is counted even if reading or the check fails |
| `FragmentStore.ExtendOutcome` | rust_core/src/p2p/storage_protocol.rs:227-261 | The owner's fragments, and no others, expire 86400 seconds per day from now; in memory even if the index cannot be written |
| `FragmentStore.InitializeOutcome` | rust_core/src/p2p/storage_protocol.rs:78-101 | Which failure leaves what, and the recount |
| `FragmentStore.DeleteAllOutcome` | rust_core/src/p2p/storage_protocol.rs:274-278 | Deletions run in order and stop at the first failure |
| `FragmentStore.CleanupOutcome` | rust_core/src/p2p/storage_protocol.rs:264-280 | A cleanup replies with the number of ids it deleted, or as the deletion that stopped it |
| `FragmentStore.PathsDistinct` | rust_core/src/p2p/storage_protocol.rs:135-136 | Ids without slashes never name the same file, with dots and empty names resolved, and never index.json |
| `FragmentStore.EmptyAndDotNames` | rust_core/src/p2p/storage_protocol.rs:135-136 | Doubled slashes and single dots in a path lead to the same file |
| `FragmentStore.FileOfPlain` | rust_core/src/p2p/storage_protocol.rs:135-136 | The file of an id without slashes: below the fragments directory, except that ids beginning with two dots lead out of it |
| `FragmentStore.AliasNamesSameFile` | rust_core/src/p2p/storage_protocol.rs:135-136 | With slashes this fails for every id: another id names the same file |
| `StorageRuns.AccountingExact` | rust_core/src/p2p/storage_protocol.rs:62-171 | Over every run whose restarts offer no more than the first manager, whatever fails, the sum of the indexed sizes ≤ used bytes — if and only if the limit is at most 2^63, above which `used + size` can wrap |
| `StorageRuns.RunWithinExact` | rust_core/src/p2p/storage_protocol.rs:62-171 | At every point of a run with limits up to 2^63 the used bytes stay within the limit if and only if every restart that loads the saved index offers at least the sizes it lists |
| `StorageRuns.StepWithinExact` | rust_core/src/p2p/storage_protocol.rs:62-101 | The same for one operation: only a restart that offers too little leaves the limit |
| `StorageRuns.LoweredLimitExceeded` | rust_core/src/p2p/storage_protocol.rs:62-101 | Initialising never compares the sum with the limit: storing a fragment and restarting with a limit below its size exceeds the limit, for every fragment |
| `StorageRuns.StepAccounted` | rust_core/src/p2p/storage_protocol.rs:78-280 | Every operation keeps the sum within the used bytes, also when it fails midway or restarts with another limit up to 2^63 |
| `StorageRuns.RunAccounted` | rust_core/src/p2p/storage_protocol.rs:78-280 | So does every run |
| `StorageRuns.WrappingRunBreaksAccounts` | rust_core/src/p2p/storage_protocol.rs:124-129 | With a larger limit a run of three stores leaves the used bytes below the sum |
| `StorageRuns.DeleteAccounted` | rust_core/src/p2p/storage_protocol.rs:209-224 | While the sum is within the used bytes the saturating subtraction never saturates |
| `StorageRuns.StepExact` | rust_core/src/p2p/storage_protocol.rs:78-280 | Without I/O faults every operation keeps the counter equal to the sum, unless it stores a live id again; a restart establishes equality from any state whose saved sizes add up within 64 bits |
| `StorageRuns.StoreSucceedsExact` | rust_core/src/p2p/storage_protocol.rs:117-172 | While the counter is exact, a store succeeds if and only if the id has two characters and its bytes fit beside all stored bytes |
| `StorageRuns.RunExact` | rust_core/src/p2p/storage_protocol.rs:78-280 | The same over runs |
| `StorageRuns.RestoreCountsTwice` | rust_core/src/p2p/storage_protocol.rs:164-166 | Storing a live id again always leaves the counter too high by exactly the old size |
| `StorageLeases.StepRefines` | rust_core/src/p2p/storage_protocol.rs:78-280 | Each faultless operation is the corresponding step on a map from ids to owner, bytes and expiry, with the reply that map calls for; ids stored have no slash |
| `StorageLeases.RunRefines` | rust_core/src/p2p/storage_protocol.rs:78-280 | So is every run that stores no id with a slash, restarts included, and each live id maps to the bytes last stored under it |
| `StorageLeases.RunIsMapRun` | rust_core/src/p2p/storage_protocol.rs:78-280 | With limits up to 2^63, while no live id is stored again, the map alone determines the run: a store takes place if and only if its bytes fit beside all bytes in the map |
| `StorageLeases.StoreElsewhereExact` | rust_core/src/p2p/storage_protocol.rs:117-206 | A successful store under another id leaves the bytes that an unexpired fragment retrieves unchanged if and only if it writes another file or the same bytes |
| `StorageLeases.AliasTakesFile` | rust_core/src/p2p/storage_protocol.rs:135-136 | The condition on slashes is needed for every id: after a store of other bytes under its alias the next retrieval does not return its bytes, and fails its integrity check if the hashes differ |
| `StorageLeases.ExtensionExact` | rust_core/src/p2p/storage_protocol.rs:240-261 | An extension by d days sets the expiry to now + 86400·d whatever it was; a fragment whose lease would go on is retrievable up to that second and refused after it |
| `StorageLeases.RestartRefines` | rust_core/src/p2p/storage_protocol.rs:78-101 | Creating and initialising a manager anew changes nothing but the access statistics and the counter |
| `StorageLeases.RetrieveLastStored` | rust_core/src/p2p/storage_protocol.rs:175-206 | After any faultless run from an empty store in which no id with a slash is stored, an unexpired live id retrieves the bytes last stored under it |
| `StorageLeases.LeaseSafety` | rust_core/src/p2p/storage_protocol.rs:240-280 | With a nondecreasing clock, as long as the owner extends no later than each extension lasts, no interleaving of cleanups, retrievals, restarts and other owners' operations removes a fragment that was intact at the first extension: it is still there and retrieves the same bytes. The first extension must write the index; every later file system call may fail. An extension whose write fails counts only up to the earlier of both expiries; after a restart that fails, nothing may be stored and extensions do not count until one succeeds, as one has when the fragment is retrieved. No explicit delete, overwrite or shortening, and no stored id with a slash |
| `StorageLeases.StepKeeps` | rust_core/src/p2p/storage_protocol.rs:175-280 | The invariant behind it, over memory, disk and saved index, is kept by every operation whatever fails in it |
| `StorageLeases.RestartKeeps` | rust_core/src/p2p/storage_protocol.rs:62-101 | A restart re-establishes it from the saved index and the disk alone, or fails and leaves both as they were |
| `StorageLeases.StepWatched` | rust_core/src/p2p/storage_protocol.rs:62-280 | Both together: the invariant in its two forms, index loaded or still to be loaded, is kept by every event |
| `StorageLeases.RunKeeps` | rust_core/src/p2p/storage_protocol.rs:175-280 | and by every run |
| `StorageLeases.HeartbeatKeeps` | rust_core/src/p2p/storage_protocol.rs:240-261 | and established by one extension that writes the index |
| `StorageLeases.RunSound` | rust_core/src/p2p/storage_protocol.rs:78-280 | Every run from an empty directory, whatever fails in it, reaches only states in which lease safety applies, as long as no id with a slash is stored |
| `SeedPhrase.ValidationExact` | flutter_app/lib/services/seed_phrase_service.dart:279-358 | A list of words is valid if and only if it is the phrase of some 16-byte entropy, and that entropy is unique |
| `SeedPhrase.PhraseNumber` | flutter_app/lib/services/seed_phrase_service.dart:279-312 | Read to the base 2048, the word indices are the entropy read to the base 256, times 16, plus the upper half of the first hash byte |
| `SeedPhrase.GeneratedIsValid` | flutter_app/lib/services/seed_phrase_service.dart:279-358 | Every generated phrase is valid and decodes to its entropy |
| `SeedPhrase.ValidIsGenerated` | flutter_app/lib/services/seed_phrase_service.dart:315-358 | Every valid phrase is generated from the entropy it decodes to |
| `SeedPhrase.LastWordExact` | flutter_app/lib/services/seed_phrase_service.dart:315-358 | A last word completes eleven words if and only if its low four bits are the checksum of the entropy that its high seven bits complete |
| `SeedPhrase.LastWordCount` | flutter_app/lib/services/seed_phrase_service.dart:315-358 | Any eleven words of the list extend to exactly 128 valid phrases |
| `SeedPhrase.GeneratePhrase` | flutter_app/lib/services/seed_phrase_service.dart:279-312 | The packing loops produce the phrase of the entropy |
| `SeedPhrase.ValidatePhrase` | flutter_app/lib/services/seed_phrase_service.dart:315-358 | The unpacking loops decide validity: word count, membership, checksum |
| `SeedPhrase.PushBits` | flutter_app/lib/services/seed_phrase_service.dart:288-298 | The bit loop appends the top bits of a number, most significant first |
| `SeedPhrase.PullBits` | flutter_app/lib/services/seed_phrase_service.dart:301-308 | The `|=` loop reads a number from consecutive bits |
| `SeedPhrase.SetBitTwice` | flutter_app/lib/services/seed_phrase_service.dart:301-308 | Setting a bit that is set changes nothing |
| `CryptoService.FileRoundTrip` | flutter_app/lib/services/crypto_service.dart:102-177 | Decrypting an encrypted file returns the file: the chunks reassemble, the chunk hashes and the whole-file hash match |
| `CryptoService.EncryptedExact` | flutter_app/lib/services/crypto_service.dart:102-141 | Sizes, hashes and times of an encrypted file, and for each 64 KiB piece its index, hash, nonce and sealed bytes |
| `CryptoService.RootOfPieces` | flutter_app/lib/services/crypto_service.dart:126-127 | The stored Merkle root is the root over the hashes of the pieces |
| `CryptoService.DecryptedIsChecked` | flutter_app/lib/services/crypto_service.dart:144-177 | Whatever a file says, bytes come back only if they and each of their chunks have the recorded hashes |
| `CryptoService.DecryptedChunkExact` | flutter_app/lib/services/crypto_service.dart:149-158 | When a chunk is accepted, rejected by the cipher, or fails its hash |
| `CryptoService.EncryptFile` | flutter_app/lib/services/crypto_service.dart:102-141 | Chunking, encryption, hashes and Merkle root as specified |
| `CryptoService.DecryptFile` | flutter_app/lib/services/crypto_service.dart:144-177 | The loop returns the joined chunks or the first failure |
| `CryptoService.EnvelopeRoundTrip` | flutter_app/lib/services/crypto_service.dart:332-363 | The length-prefixed envelope parses back exactly when both length fields fit a signed 32-bit integer |
| `CryptoService.EnvelopeExact` | flutter_app/lib/services/crypto_service.dart:343-363 | Bytes parse to an envelope if and only if they are its serialisation; all others are out of range |
| `CryptoService.EnvelopeLayout` | flutter_app/lib/services/crypto_service.dart:332-341 | The position of every field of the envelope |
| `CryptoService.IntDigits` | flutter_app/lib/services/crypto_service.dart:484-486 | Length bytes are base-256 digits, the most significant first |
| `CryptoService.IntBack` | flutter_app/lib/services/crypto_service.dart:484-490 | The four-byte big-endian length reads back |
| `CryptoService.SerializeRoundTrip` | flutter_app/lib/services/crypto_service.dart:409-437 | A file survives serialisation, and its text has at least 128 characters |
| `Sharding.ReconstructsFile` | flutter_app/lib/services/crypto_service.dart:226-300 | A serialised file of at least (d−1)² bytes can be sharded, and with all data shards present reconstruction returns the file, whatever parity is missing |
| `Sharding.CollectedExact` | flutter_app/lib/services/crypto_service.dart:291-297 | Joining the data shards at hand returns the serialised file if and only if every missing data shard is empty: parity never helps |
| `Sharding.CreatedExact` | flutter_app/lib/services/crypto_service.dart:226-262 | When sharding fails, and otherwise label, hash, slice or parity bytes of every shard |
| `Sharding.OneShardRecoverable` | flutter_app/lib/services/crypto_service.dart:264-281 | XOR over all shards and over all but one differ by that one: the first parity shard would be enough for any one data shard |
| `Sharding.ReconstructedExact` | flutter_app/lib/services/crypto_service.dart:284-300 | Too few shards of any kind are reported with their number; otherwise the joined text decides |
| `Sharding.AvailableExact` | flutter_app/lib/services/crypto_service.dart:286 | The count is the number of positions that hold a shard |
| `Sharding.RangesValidFrom` | flutter_app/lib/services/crypto_service.dart:234-239 | Every range is legal for lengths of at least (d−1)² |
| `Sharding.RangesValidExact` | flutter_app/lib/services/crypto_service.dart:234-239 | The ranges are legal if and only if the last one starts within the bytes |
| `Sharding.RangesInvalid` | flutter_app/lib/services/crypto_service.dart:234-239 | Every length n from five on is refused for n−1 shards |
| `Sharding.RefusesToShard` | flutter_app/lib/services/crypto_service.dart:226-247 | So for every file there is a number of data shards, one less than its serialised length, for which sharding throws |
| `Sharding.ParityClosedForm` | flutter_app/lib/services/crypto_service.dart:249-281 | Computed over all shards made so far, parity shard 0 is the XOR of the padded data shards and mask 0, and every later parity shard i is mask i−1 XOR mask i |
| `Sharding.RunningXor` | flutter_app/lib/services/crypto_service.dart:264-281 | After i > 0 parity shards the XOR of all shards is mask i−1 |
| `Sharding.LaterParityIgnoresFile` | flutter_app/lib/services/crypto_service.dart:249-281 | Parity shards after the first are the same for all files of one shard size |
| `Sharding.CreateShards` | flutter_app/lib/services/crypto_service.dart:226-262 | The two loops make the specified shards, or fail with the range error |
| `Sharding.CreateParityShard` | flutter_app/lib/services/crypto_service.dart:264-281 | The in-place XOR loops compute the XOR of all shards passed in and the mask |
| `Sharding.ReconstructFromShards` | flutter_app/lib/services/crypto_service.dart:284-300 | Counts the shards of both kinds, joins the data shards and parses |
| `Sharding.ShardIdInjective` | flutter_app/lib/services/crypto_service.dart:456 | Shard ids of different files or positions never clash, whatever the file ids |
| `SecureStorage.UploadedStaysReadable` | flutter_app/lib/services/secure_storage_service.dart:29-200 | After any history, an upload followed by any uploads and deletes of other files downloads to exactly its bytes and verifies as intact |
| `SecureStorage.UploadHolds` | flutter_app/lib/services/secure_storage_service.dart:29-84 | An upload never throws; its metadata and all its shards are stored |
| `SecureStorage.MetadataExact` | flutter_app/lib/services/secure_storage_service.dart:47-66 | Every field of the metadata; the encrypted size is the size of the data |
| `SecureStorage.DownloadIsChecked` | flutter_app/lib/services/secure_storage_service.dart:87-125 | Whatever is stored, bytes come back only with the recorded hash and enough shards; what is missing is named |
| `SecureStorage.VerifyExact` | flutter_app/lib/services/secure_storage_service.dart:159-200 | Valid if and only if every shard is there with its hash and there are enough; every missing and every corrupted shard is reported, no other |
| `SecureStorage.UploadElsewhere` | flutter_app/lib/services/secure_storage_service.dart:29-84 | An upload leaves every other stored file as it is |
| `SecureStorage.DeleteExact` | flutter_app/lib/services/secure_storage_service.dart:128-142 | Deleting removes all shards and the metadata of the file and touches no others |
| `SecureStorage.DeleteElsewhere` | flutter_app/lib/services/secure_storage_service.dart:128-142 | Deleting leaves every other stored file as it is |
| `SecureStorage.RunElsewhere` | flutter_app/lib/services/secure_storage_service.dart:29-142 | So does any run of uploads and deletes of other files |
| `SecureStorage.HeldIsReadable` | flutter_app/lib/services/secure_storage_service.dart:87-200 | A file whose metadata and shards are stored downloads exactly and verifies |
| `SecureStorage.SecureStorageService.UploadFile` | flutter_app/lib/services/secure_storage_service.dart:29-84 | The complete new contents of both boxes, and the result |
| `SecureStorage.SecureStorageService.DownloadFile` | flutter_app/lib/services/secure_storage_service.dart:87-125 | The file, or the failure of each of its checks |
| `SecureStorage.SecureStorageService.DeleteFile` | flutter_app/lib/services/secure_storage_service.dart:128-142 | The complete new contents of both boxes |
| `SecureStorage.SecureStorageService.VerifyFileIntegrity` | flutter_app/lib/services/secure_storage_service.dart:159-200 | One error per missing or corrupted shard, in order; valid exactly when there are none and enough shards |
| `Quota.UsageBounded` | rust_core/src/storage/quota.rs:79-206 | Out of grace and without shard removals, over every run in which each recorded upload follows an `Allowed` answer for its size and contributions stay below 2^64, usage never exceeds the larger of its value at the start and min(floor(contributed/ratio), max usage) |
| `Quota.UsageBoundedFromCheck` | rust_core/src/storage/quota.rs:115-206 | The same from the check that ends the grace period on, whose own answer may be used |
| `Quota.HostingKeepsBoundExact` | rust_core/src/storage/quota.rs:198-206 | Hosting a shard keeps the bound if and only if the contribution stays below 2^64, or what is left of it after starting over still pays for the usage, unless that is within the start value, and for a pending upload |
| `Quota.OverflowBreaksBound` | rust_core/src/storage/quota.rs:198-206 | For every user with more usage than at the start, the shard that carries the contribution to exactly 2^64 breaks it |
| `Quota.RunWithinQuota` | rust_core/src/storage/quota.rs:79-206 | The same from any state of the run, with an answer pending |
| `Quota.StepWithinQuota` | rust_core/src/storage/quota.rs:79-206 | The step invariant behind it |
| `Quota.GraceNeverReturns` | rust_core/src/storage/quota.rs:115-124 | The grace flag, once cleared, never returns |
| `Quota.UploadsAreCounted` | rust_core/src/storage/quota.rs:179-187 | Over every run without deletions, usage and file count grow by the sizes and the number of the recorded uploads |
| `Quota.HostingsAreCounted` | rust_core/src/storage/quota.rs:198-206 | Over every run without removals, contribution and shard count grow by the sizes and the number of the hosted shards |
| `Quota.RemovalsAreCounted` | rust_core/src/storage/quota.rs:190-214 | Deletions and removals take size and one away again, stopping at zero |
| `Quota.OthersAreSeparate` | rust_core/src/storage/quota.rs:142-214 | Events of other users, and checks, change no counter of a user |
| `Quota.RecordKeepsIdentity` | rust_core/src/storage/quota.rs:60-76 | Who a record is about, when they joined and were last active, and how records begin |
| `Quota.GraceAllowance` | rust_core/src/storage/quota.rs:79-93 | During grace an upload is allowed up to the minimum contribution |
| `Quota.GraceEndsExact` | rust_core/src/storage/quota.rs:115-124 | A check ends the grace of those who joined longer ago than the grace period, and of no others |
| `Quota.RefusalExact` | rust_core/src/storage/quota.rs:151-176 | A refusal names the contribution and what the asked total exceeds it by |
| `Quota.AllowedExact` | rust_core/src/storage/quota.rs:79-93 | Out of grace an upload is allowed if and only if (used + size)·ratio ≤ contributed and used + size ≤ max usage |
| `Quota.HostingWhatIsNeeded` | rust_core/src/storage/quota.rs:151-206 | A refused user hosts shards and asks again: with less than `needed_contribution` the answer is refusal again, with exactly that much it is `Allowed` if and only if the price was not rounded down, and beyond max usage it is always refusal |
| `Quota.AskedIsNecessary` | rust_core/src/storage/quota.rs:171-176 | With any total contribution below the total asked for the upload is refused |
| `Quota.AskedIsEnough` | rust_core/src/storage/quota.rs:171-176 | Contributing exactly the total asked for is enough if and only if it was not rounded down |
| `Quota.RoundedAmountRefused` | rust_core/src/storage/quota.rs:171-176 | It can be rounded down: at a ratio of 1.5 the first byte asks for one byte, and that is refused |
| `Quota.IntegralRatioIsExact` | rust_core/src/storage/quota.rs:171-176 | With an integral ratio it is never rounded, as long as it fits 64 bits |
| `Quota.AskedMissesByOne` | rust_core/src/storage/quota.rs:171-176 | With a ratio of at least one, the amount asked for earns at least all but one of the bytes |
| `Quota.QuotaManager.GetUserQuota` | rust_core/src/storage/quota.rs:142-148 | Creates a missing record, in grace, and leaves the others |
| `Quota.QuotaManager.CanUpload` | rust_core/src/storage/quota.rs:151-168 | The answer, the amount asked for, and the updated record |
| `Quota.QuotaManager.RecordUpload` | rust_core/src/storage/quota.rs:179-187 | The complete new records |
| `Quota.QuotaManager.RecordDeletion` | rust_core/src/storage/quota.rs:190-195 | The complete new records; unknown users change nothing |
| `Quota.QuotaManager.RecordShardHosted` | rust_core/src/storage/quota.rs:198-206 | The complete new records |
| `Quota.QuotaManager.RecordShardRemoved` | rust_core/src/storage/quota.rs:209-214 | The complete new records; unknown users change nothing |
| `Peers.PruningUnobservable` | rust_core/src/p2p/discovery.rs:142-206 | Over every run and at every later time, the healthy peers, the storage they offer and the candidates for selection are what they would be had nothing ever been pruned, as long as no update of a stale peer changes the blacklist |
| `Peers.ObservantExact` | rust_core/src/p2p/discovery.rs:124-162 | That condition is exact: after an update, some continuation tells a pruned book from an unpruned one if and only if the update fails it |
| `Peers.ForgottenBlacklisting` | rust_core/src/p2p/discovery.rs:124-162 | The failing family: a stale peer driven onto the blacklist, pruned and added again |
| `Peers.StepHides` | rust_core/src/p2p/discovery.rs:113-162 | Every operation keeps a pruned book equal to the unpruned one up to stale peers and ended blacklistings |
| `Peers.RunHides` | rust_core/src/p2p/discovery.rs:113-162 | So does every run |
| `Peers.HiddenIsUnseen` | rust_core/src/p2p/discovery.rs:142-198 | What differs that way cannot be seen in any answer from then on |
| `Peers.TakeIsBest` | rust_core/src/p2p/discovery.rs:166-186 | Sorting the candidates and keeping the first `count` selects min(count, candidates) different candidates, best first, none left out better than one chosen |
| `Peers.ScoreExact` | rust_core/src/p2p/discovery.rs:68-83 | The weights of reliability, latency and availability in a score |
| `Peers.ScoreBounds` | rust_core/src/p2p/discovery.rs:68-83 | Scores lie between zero and one, and only a perfect peer has one |
| `Peers.HealthyExact` | rust_core/src/p2p/discovery.rs:142-198 | Which peers are healthy and which are candidates, in terms of their fields and the clock |
| `Peers.SortDescending` | rust_core/src/p2p/discovery.rs:179-182 | The stable sort orders by score |
| `Peers.PeerManager.SelectStoragePeers` | rust_core/src/p2p/discovery.rs:166-186 | The method meets that specification |
| `Peers.PeerManager.AddPeer` | rust_core/src/p2p/discovery.rs:113-116 | The complete new state |
| `Peers.PeerManager.UpdateReliability` | rust_core/src/p2p/discovery.rs:124-133 | The complete new state, with clamping and blacklisting below 0.1 |
| `Peers.PeerManager.BlacklistPeer` | rust_core/src/p2p/discovery.rs:136-139 | The complete new state |
| `Peers.PeerManager.PruneStale` | rust_core/src/p2p/discovery.rs:153-162 | The complete new state |
| `Peers.AddedExact` | rust_core/src/p2p/discovery.rs:113-116 | An added peer was seen just now, and nobody else changes |
| `Peers.UpdatedExact` | rust_core/src/p2p/discovery.rs:124-133 | The reliability is kept between zero and one, and below 0.1 blacklists for an hour |
| `Peers.BlacklistedExact` | rust_core/src/p2p/discovery.rs:136-150 | Blacklisting lasts exactly as long as asked and touches no one else |
| `Peers.PrunedExact` | rust_core/src/p2p/discovery.rs:153-162 | Exactly the peers not seen for an hour and the blacklistings that are over are removed |

## Left out

- Networking: the libp2p node, DHT, gossip and request handling.
- Cryptographic internals: AES-GCM, BLAKE3, SHA-256, HKDF, Argon2, PBKDF2, Ed25519; and AES-GCM's limit on plaintext length.
- Text encodings: hex, base58, base64 and JSON syntax; UTF-8 boundaries when an id is sliced.
- `verify_storage_proof`, `prove_storage`, `stats`, `get_network_stats`, summaries and progress reports: they add only easy members.
- File index, folders, search and import/export of `FileManager`; metadata no operation reads (MIME type, tags, timestamps).
- `IncrementalHasher`, identities, key pairs, contracts and the Rust seed phrase: library wrappers.
- Normalising, encrypting and saving seed phrases in Dart; the phrase is modelled as its list of words.
- Database, Hive box opening, file listing and statistics of the Dart application; the user interface.
- FileManager.EndToEnd: assumes that the size of the encrypted file fits 64 bits, as it does for every file in memory.
- Slices out of bounds, which panic in the source when an encrypted file carries bad offsets, are error results.
- File-system detail: symbolic links, letter case, separators other than the slash, and partial writes; an operation fails without effect, or succeeds.
- FragmentStore.PathsDistinct: ids shorter than two characters, which make the source panic, are a failed reply of the store. An id with slashes that names index.json or a directory is not told apart from other files.
- Quota.AllowedExact: the ratio is a positive real, without floating-point rounding. 64-bit sums wrap, clock subtraction wraps and conversions saturate as in the release build.
- Peers.TakeIsBest: scores are reals, without floating-point rounding.
- Sharding.CreateShards: the shard size is the exact rounded-up quotient, not a double division followed by `ceil`.
- `overhead` and `usage_percentage`, which only report.
- Timestamps of the fragment store are unbounded integers.
