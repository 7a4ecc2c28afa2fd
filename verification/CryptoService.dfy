/** Chunked encryption, its binary envelope and its JSON form in the Dart application (crypto_service.dart). */
module CryptoService {
  import opened Basics
  import Encryption
  import opened HexMerkle
  import opened JsonText

  datatype DartError =
    | RangeError               // `sublist` outside the list
    | UnsupportedError         // `ceil` of an infinite quotient
    | FormatException          // text that is not the expected JSON
    | SecretBoxRejected        // the cipher does not authenticate
    | ChunkIntegrity(index: nat)
    | FileIntegrity
    | NotEnoughShards(have: nat, need: nat)
    | FileNotFound

  // ---- The envelope of one encrypted chunk --------------------------------------------------

  datatype EncryptedData = EncryptedData(ciphertext: Bytes, nonce: Bytes, mac: Bytes)

  const INT32_LIMIT: nat := 0x8000_0000

  /** Four bytes, most significant first, of a number modulo 2^32. */
  function IntToBytes(value: nat): (b: Bytes)
    ensures |b| == 4
  {
    var v1 := value / 256;
    var v2 := v1 / 256;
    var v3 := v2 / 256;
    [ByteOf(v3 % 256), ByteOf(v2 % 256), ByteOf(v1 % 256), ByteOf(value % 256)]
  }

  /** A signed 32-bit number. */
  function BytesToInt(b: Bytes): (n: int)
    requires |b| == 4
    ensures n < INT32_LIMIT
  {
    var n := ((ByteValue(b[0]) * 256 + ByteValue(b[1])) * 256 + ByteValue(b[2])) * 256 + ByteValue(b[3]);
    if n < INT32_LIMIT then n else n - 0x1_0000_0000
  }

  lemma DivSteps(value: nat)
    ensures value / 256 / 256 == value / 0x1_0000
    ensures value / 0x1_0000 / 256 == value / 0x100_0000
  {}

  /** Byte `i` counts multiples of 256^(3-i). */
  lemma IntDigits(value: nat)
    ensures var b := IntToBytes(value);
            && ByteValue(b[0]) == value / 0x100_0000 % 256 && ByteValue(b[1]) == value / 0x1_0000 % 256
            && ByteValue(b[2]) == value / 0x100 % 256 && ByteValue(b[3]) == value % 256
  {
    hide ByteOf, ByteValue;
    DivSteps(value);
    ValueOfByte(value / 0x100_0000 % 256); ValueOfByte(value / 0x1_0000 % 256);
    ValueOfByte(value / 256 % 256); ValueOfByte(value % 256);
  }

  /** A first bit that is set makes the number negative. */
  lemma IntSigned(b: Bytes)
    requires |b| == 4
    ensures var n := ByteValue(b[0]) * 0x100_0000 + ByteValue(b[1]) * 0x1_0000 + ByteValue(b[2]) * 0x100 + ByteValue(b[3]);
            BytesToInt(b) == if ByteValue(b[0]) < 128 then n else n - 0x1_0000_0000
  {
    hide ByteValue;
  }

  lemma IntBack(value: nat)
    requires value < INT32_LIMIT
    ensures BytesToInt(IntToBytes(value)) == value
  {
    hide IntToBytes, BytesToInt, ByteValue;
    IntDigits(value);
    IntSigned(IntToBytes(value));
    DigitSum(value);
  }

  lemma DigitSum(value: nat)
    requires value < INT32_LIMIT
    ensures value / 0x100_0000 % 256 == value / 0x100_0000 < 128
    ensures value == value / 0x100_0000 * 0x100_0000 + value / 0x1_0000 % 256 * 0x1_0000 + value / 0x100 % 256 * 0x100 + value % 256
  {
    DivSteps(value);
    var a, b := value / 0x100, value / 0x1_0000;
    assert value == a * 0x100 + value % 0x100 && a == b * 0x100 + a % 0x100;
  }

  lemma IntForth(b: Bytes)
    requires |b| == 4 && BytesToInt(b) >= 0
    ensures IntToBytes(BytesToInt(b)) == b
  {
    hide ByteOf, ByteValue;
    var x0: nat, x1: nat, x2: nat, x3: nat := ByteValue(b[0]), ByteValue(b[1]), ByteValue(b[2]), ByteValue(b[3]);
    IntSigned(b);
    var n := BytesToInt(b);
    assert n / 256 == x0 * 0x1_0000 + x1 * 0x100 + x2 && n % 256 == x3;
    assert n / 256 / 256 == x0 * 0x100 + x1 && n / 256 % 256 == x2;
    assert n / 256 / 256 / 256 == x0 && n / 256 / 256 % 256 == x1;
    ByteOfValue(b[0]); ByteOfValue(b[1]); ByteOfValue(b[2]); ByteOfValue(b[3]);
  }

  /** The nonce and the tag, each after its length in four bytes, then the ciphertext. */
  function SerializeData(d: EncryptedData): Bytes {
    IntToBytes(|d.nonce|) + d.nonce + IntToBytes(|d.mac|) + d.mac + d.ciphertext
  }

  /** A length-prefixed field at the front of the bytes, and what follows it. */
  function TakeField(bytes: Bytes): Result<(Bytes, Bytes), DartError> {
    if |bytes| < 4 then Err(RangeError)
    else
      var n := BytesToInt(bytes[..4]);
      if n < 0 || 4 + n > |bytes| then Err(RangeError) else Ok((bytes[4..4 + n], bytes[4 + n..]))
  }

  function DeserializeData(bytes: Bytes): Result<EncryptedData, DartError> {
    var nonce :- TakeField(bytes);
    var mac :- TakeField(nonce.1);
    Ok(EncryptedData(mac.1, nonce.0, mac.0))
  }

  lemma TakeWrittenField(field: Bytes, rest: Bytes)
    ensures |field| < INT32_LIMIT ==> TakeField(IntToBytes(|field|) + field + rest) == Ok((field, rest))
  {
    hide IntToBytes, BytesToInt;
    if |field| < INT32_LIMIT {
      var bytes := IntToBytes(|field|) + field + rest;
      IntBack(|field|);
      assert bytes[..4] == IntToBytes(|field|);
      assert bytes[4..4 + |field|] == field && bytes[4 + |field|..] == rest;
    }
  }

  /** The envelope is read back exactly when both length prefixes fit a signed 32-bit number. */
  lemma EnvelopeRoundTrip(d: EncryptedData)
    ensures DeserializeData(SerializeData(d)) == Ok(d) <==> |d.nonce| < INT32_LIMIT && |d.mac| < INT32_LIMIT
  {
    hide IntToBytes, BytesToInt;
    var rest := IntToBytes(|d.mac|) + d.mac + d.ciphertext;
    assert SerializeData(d) == IntToBytes(|d.nonce|) + d.nonce + rest;
    TakeWrittenField(d.nonce, rest);
    TakeWrittenField(d.mac, d.ciphertext);
  }

  /** Where everything is in the envelope. */
  lemma EnvelopeLayout(d: EncryptedData)
    ensures var b := SerializeData(d);
            var n, m := |d.nonce|, |d.mac|;
            && |b| == 8 + n + m + |d.ciphertext|
            && b[..4] == IntToBytes(n) && b[4..4 + n] == d.nonce
            && b[4 + n..8 + n] == IntToBytes(m) && b[8 + n..8 + n + m] == d.mac
            && b[8 + n + m..] == d.ciphertext
  {
    hide IntToBytes;
  }

  lemma TakeFieldExact(bytes: Bytes, field: Bytes, rest: Bytes)
    ensures TakeField(bytes) == Ok((field, rest)) <==> |field| < INT32_LIMIT && bytes == IntToBytes(|field|) + field + rest
    ensures TakeField(bytes).Err? ==> TakeField(bytes) == Err(RangeError)
  {
    hide IntToBytes, BytesToInt;
    TakeWrittenField(field, rest);
    if TakeField(bytes).Ok? {
      IntForth(bytes[..4]);
      var n := BytesToInt(bytes[..4]);
      assert bytes == bytes[..4] + bytes[4..4 + n] + bytes[4 + n..];
    }
  }

  /** Bytes are read as an envelope only if they are that envelope; all others are out of range. */
  lemma EnvelopeExact(bytes: Bytes, d: EncryptedData)
    ensures DeserializeData(bytes) == Ok(d) <==>
            |d.nonce| < INT32_LIMIT && |d.mac| < INT32_LIMIT && bytes == SerializeData(d)
    ensures DeserializeData(bytes).Err? ==> DeserializeData(bytes) == Err(RangeError)
  {
    hide TakeField, IntToBytes;
    var rest := IntToBytes(|d.mac|) + d.mac + d.ciphertext;
    assert SerializeData(d) == IntToBytes(|d.nonce|) + d.nonce + rest;
    TakeFieldExact(bytes, d.nonce, rest);
    TakeFieldExact(rest, d.mac, d.ciphertext);
    if TakeField(bytes).Ok? {
      var nonce := TakeField(bytes).value;
      TakeFieldExact(bytes, nonce.0, nonce.1);
      if TakeField(nonce.1).Ok? {
        var mac := TakeField(nonce.1).value;
        TakeFieldExact(nonce.1, mac.0, mac.1);
      } else {
        TakeFieldExact(nonce.1, [], []);
      }
    }
  }

  // ---- Files --------------------------------------------------------------------------------

  datatype EncryptedChunk = EncryptedChunk(index: nat, data: EncryptedData, originalHash: HexDigest)

  datatype EncryptedFile = EncryptedFile(
    fileId: string,
    chunks: seq<EncryptedChunk>,
    merkleRoot: HexDigest,
    originalHash: HexDigest,
    originalSize: nat,
    chunkSize: nat,
    createdAt: int)

  /** SHA-256 in hex of bytes and of text, key derivation from the master key, the cipher and JSON. */
  datatype Library = Library(
    sha: Bytes -> HexDigest,
    shaText: HexMerkle.HashFn,
    fileKey: string -> Encryption.Key,
    aead: Encryption.Aead,
    json: Codec)

  const CHUNK_SIZE: nat := 64 * 1024

  function EncryptData(lib: Library, plaintext: Bytes, key: Encryption.Key, nonce: Encryption.Nonce): (d: EncryptedData)
    ensures d.nonce == nonce && |d.mac| == 16 && d.ciphertext + d.mac == lib.aead.seal(key, nonce, plaintext)
    ensures DecryptData(lib, d, key) == Ok(plaintext)
  {
    var sealed := lib.aead.seal(key, nonce, plaintext);
    assert sealed == sealed[..|plaintext|] + sealed[|plaintext|..];
    EncryptedData(sealed[..|plaintext|], nonce, sealed[|plaintext|..])
  }

  function DecryptData(lib: Library, d: EncryptedData, key: Encryption.Key): Result<Bytes, DartError> {
    if |d.nonce| != 12 then Err(SecretBoxRejected)
    else match lib.aead.open(key, d.nonce, d.ciphertext + d.mac)
      case Some(plaintext) => Ok(plaintext)
      case None => Err(SecretBoxRejected)
  }

  function ChunkHashes(lib: Library, data: Bytes): (h: seq<HexDigest>)
    ensures |h| == Encryption.ChunkCount(|data|, CHUNK_SIZE)
  {
    seq(Encryption.ChunkCount(|data|, CHUNK_SIZE), i requires 0 <= i < Encryption.ChunkCount(|data|, CHUNK_SIZE) =>
      ChunkHash(lib, data, i))
  }

  function ChunkHash(lib: Library, data: Bytes, i: nat): HexDigest
    requires i < Encryption.ChunkCount(|data|, CHUNK_SIZE)
  {
    lib.sha(Encryption.Chunk(data, CHUNK_SIZE, i))
  }

  function ChunkOf(lib: Library, data: Bytes, fileId: string, nonces: nat -> Encryption.Nonce, i: nat): EncryptedChunk
    requires i < Encryption.ChunkCount(|data|, CHUNK_SIZE)
  {
    var chunk := Encryption.Chunk(data, CHUNK_SIZE, i);
    EncryptedChunk(i, EncryptData(lib, chunk, lib.fileKey(fileId), nonces(i)), lib.sha(chunk))
  }

  function MerkleRoot(lib: Library, hashes: seq<HexDigest>): HexDigest {
    if hashes == [] then lib.shaText("") else PaddedTree(lib.shaText, hashes, Depth(|hashes|))
  }

  /** The encrypted form of a file; `nonces(i)` is the nonce drawn for chunk `i`. */
  function EncryptedOf(lib: Library, data: Bytes, fileId: string, nonces: nat -> Encryption.Nonce, now: int): EncryptedFile {
    EncryptedFile(
      fileId,
      seq(Encryption.ChunkCount(|data|, CHUNK_SIZE), i requires 0 <= i < Encryption.ChunkCount(|data|, CHUNK_SIZE) =>
        ChunkOf(lib, data, fileId, nonces, i)),
      MerkleRoot(lib, ChunkHashes(lib, data)),
      lib.sha(data), |data|, CHUNK_SIZE, now)
  }

  method EncryptFile(lib: Library, data: Bytes, fileId: string, nonces: nat -> Encryption.Nonce, now: int)
    returns (file: EncryptedFile)
    ensures file == EncryptedOf(lib, data, fileId, nonces, now)
  {
    hide Times, CeilDiv, EncryptData, PaddedTree, CHUNK_SIZE;
    ChunkSizePositive();
    var fileKey := lib.fileKey(fileId);
    var chunks: seq<EncryptedChunk> := [];
    var chunkHashes: seq<HexDigest> := [];
    var at := 0;
    TimesStep(0, CHUNK_SIZE);
    while at < |data|
      invariant at == Times(|chunks|, CHUNK_SIZE) && |chunks| == |chunkHashes| <= Encryption.ChunkCount(|data|, CHUNK_SIZE)
      invariant forall i :: 0 <= i < |chunks| ==>
        chunks[i] == ChunkOf(lib, data, fileId, nonces, i) && chunkHashes[i] == ChunkHashes(lib, data)[i]
      decreases |data| - at
    {
      var i := |chunks|;
      PieceBounds(|data|, CHUNK_SIZE, i);
      TimesStep(i, CHUNK_SIZE);
      var end := Min(at + CHUNK_SIZE, |data|);
      var chunk := data[at..end];
      assert chunk == Encryption.Chunk(data, CHUNK_SIZE, i);
      var chunkHash := lib.sha(chunk);
      chunkHashes := chunkHashes + [chunkHash];
      var encrypted := EncryptData(lib, chunk, fileKey, nonces(i));
      chunks := chunks + [EncryptedChunk(i, encrypted, chunkHash)];
      at := at + CHUNK_SIZE;
    }
    PieceBounds(|data|, CHUNK_SIZE, |chunks|);
    assert chunkHashes == ChunkHashes(lib, data);
    assert chunks == EncryptedOf(lib, data, fileId, nonces, now).chunks;
    var merkleRoot := BuildMerkleRoot(lib.shaText, chunkHashes);
    return EncryptedFile(fileId, chunks, merkleRoot, lib.sha(data), |data|, CHUNK_SIZE, now);
  }

  lemma ChunkSizePositive()
    ensures CHUNK_SIZE > 0
  {}

  /** One pass of the decryption loop. */
  function DecryptedChunk(lib: Library, chunk: EncryptedChunk, key: Encryption.Key): Result<Bytes, DartError> {
    var decrypted :- DecryptData(lib, chunk.data, key);
    if lib.sha(decrypted) != chunk.originalHash then Err(ChunkIntegrity(chunk.index)) else Ok(decrypted)
  }

  /** The decrypted chunks up to the first failure. */
  function DecryptedChunks(lib: Library, chunks: seq<EncryptedChunk>, key: Encryption.Key): Result<seq<Bytes>, DartError> {
    if chunks == [] then Ok([])
    else
      var rest :- DecryptedChunks(lib, chunks[..|chunks| - 1], key);
      var last :- DecryptedChunk(lib, chunks[|chunks| - 1], key);
      Ok(rest + [last])
  }

  function DecryptedOf(lib: Library, file: EncryptedFile): Result<Bytes, DartError> {
    var chunks :- DecryptedChunks(lib, file.chunks, lib.fileKey(file.fileId));
    if lib.sha(Flatten(chunks)) != file.originalHash then Err(FileIntegrity) else Ok(Flatten(chunks))
  }

  lemma {:induction false} FailureStays(lib: Library, chunks: seq<EncryptedChunk>, key: Encryption.Key, i: nat)
    requires i <= |chunks| && DecryptedChunks(lib, chunks[..i], key).Err?
    ensures DecryptedChunks(lib, chunks, key) == Err(DecryptedChunks(lib, chunks[..i], key).error)
    decreases |chunks|
  {
    if i == |chunks| {
      assert chunks[..i] == chunks;
    } else {
      assert chunks[..|chunks| - 1][..i] == chunks[..i];
      FailureStays(lib, chunks[..|chunks| - 1], key, i);
    }
  }

  method DecryptFile(lib: Library, file: EncryptedFile) returns (result: Result<Bytes, DartError>)
    ensures result == DecryptedOf(lib, file)
  {
    hide DecryptedChunk;
    var fileKey := lib.fileKey(file.fileId);
    var decryptedChunks: seq<Bytes> := [];
    for i := 0 to |file.chunks|
      invariant DecryptedChunks(lib, file.chunks[..i], fileKey) == Ok(decryptedChunks)
    {
      assert file.chunks[..i + 1][..i] == file.chunks[..i];
      var decrypted := DecryptedChunk(lib, file.chunks[i], fileKey);
      if decrypted.Err? {
        FailureStays(lib, file.chunks, fileKey, i + 1);
        return Err(decrypted.error);
      }
      decryptedChunks := decryptedChunks + [decrypted.value];
    }
    assert file.chunks[..|file.chunks|] == file.chunks;
    var result' := Join(decryptedChunks);
    var finalHash := lib.sha(result');
    if finalHash != file.originalHash {
      return Err(FileIntegrity);
    }
    return Ok(result');
  }

  // ---- What is recorded and what is checked -------------------------------------------------

  /** Piece `i` of 64 KiB of a file. */
  function Piece(data: Bytes, i: nat): Bytes
    requires i * 65536 < |data|
  {
    data[i * 65536..Min(i * 65536 + 65536, |data|)]
  }

  lemma PieceIsChunk(data: Bytes, i: nat)
    ensures i * 65536 < |data| <==> i < Encryption.ChunkCount(|data|, CHUNK_SIZE)
    ensures i * 65536 < |data| ==> Encryption.Chunk(data, CHUNK_SIZE, i) == Piece(data, i)
  {
    hide CeilDiv, Times;
    PieceBounds(|data|, CHUNK_SIZE, i);
    TimesIsProduct(i, CHUNK_SIZE);
    TimesStep(i, CHUNK_SIZE);
  }

  /** Everything in an encrypted file: the sizes, the hashes, and piece `i` under its own nonce. */
  lemma EncryptedExact(lib: Library, data: Bytes, fileId: string, nonces: nat -> Encryption.Nonce, now: int, i: nat)
    ensures var file := EncryptedOf(lib, data, fileId, nonces, now);
            && file.fileId == fileId && file.originalHash == lib.sha(data)
            && file.originalSize == |data| && file.chunkSize == 65536 && file.createdAt == now
            && (i < |file.chunks| <==> i * 65536 < |data|)
            && (i < |file.chunks| ==>
                  var chunk := file.chunks[i];
                  && chunk.index == i && chunk.originalHash == lib.sha(Piece(data, i))
                  && chunk.data.nonce == nonces(i) && |chunk.data.mac| == 16
                  && chunk.data.ciphertext + chunk.data.mac == lib.aead.seal(lib.fileKey(fileId), nonces(i), Piece(data, i)))
  {
    hide CeilDiv, Times, EncryptData, PaddedTree;
    PieceIsChunk(data, i);
    var chunks := EncryptedOf(lib, data, fileId, nonces, now).chunks;
    if i < |chunks| {
      assert chunks[i] == ChunkOf(lib, data, fileId, nonces, i);
      SealedWith(lib, Piece(data, i), lib.fileKey(fileId), nonces(i));
    }
  }

  lemma SealedWith(lib: Library, plaintext: Bytes, key: Encryption.Key, nonce: Encryption.Nonce)
    ensures var d := EncryptData(lib, plaintext, key, nonce);
            d.nonce == nonce && |d.mac| == 16 && d.ciphertext + d.mac == lib.aead.seal(key, nonce, plaintext)
  {
    hide EncryptData;
  }

  /** The Merkle root in an encrypted file is the root over the hashes of its pieces. */
  lemma RootOfPieces(lib: Library, data: Bytes, fileId: string, nonces: nat -> Encryption.Nonce, now: int, hashes: seq<HexDigest>)
    requires forall i :: 0 <= i < |hashes| ==> i * 65536 < |data| && hashes[i] == lib.sha(Piece(data, i))
    requires |data| <= |hashes| * 65536
    ensures EncryptedOf(lib, data, fileId, nonces, now).merkleRoot ==
            if data == [] then lib.shaText("") else PaddedTree(lib.shaText, hashes, Depth(|hashes|))
  {
    hide CeilDiv, Times, EncryptData, PaddedTree, Piece;
    PieceIsChunk(data, |hashes|);
    if hashes != [] { PieceIsChunk(data, |hashes| - 1); }
    forall i | 0 <= i < |hashes| ensures hashes[i] == ChunkHash(lib, data, i) { PieceIsChunk(data, i); }
    assert hashes == ChunkHashes(lib, data);
  }

  /** A chunk is accepted exactly if the cipher authenticates it and its hash is the recorded one. */
  lemma DecryptedChunkExact(lib: Library, chunk: EncryptedChunk, key: Encryption.Key)
    ensures var d := chunk.data;
            var plaintext := if |d.nonce| != 12 then None else lib.aead.open(key, d.nonce, d.ciphertext + d.mac);
            var r := DecryptedChunk(lib, chunk, key);
            && (r == Err(SecretBoxRejected) <==> plaintext.None?)
            && (r == Err(ChunkIntegrity(chunk.index)) <==> plaintext.Some? && lib.sha(plaintext.value) != chunk.originalHash)
            && (r.Ok? <==> plaintext.Some? && lib.sha(plaintext.value) == chunk.originalHash)
            && (r.Ok? ==> r.value == plaintext.value)
  {}

  lemma {:induction false} DecryptedChunksExact(lib: Library, chunks: seq<EncryptedChunk>, key: Encryption.Key, i: nat)
    requires DecryptedChunks(lib, chunks, key).Ok?
    ensures |DecryptedChunks(lib, chunks, key).value| == |chunks|
    ensures i < |chunks| ==> DecryptedChunk(lib, chunks[i], key) == Ok(DecryptedChunks(lib, chunks, key).value[i])
    decreases |chunks|
  {
    hide DecryptedChunk;
    if chunks != [] {
      DecryptedChunksExact(lib, chunks[..|chunks| - 1], key, i);
    }
  }

  /** Whatever a file says, nothing comes back but bytes with its hash, made of chunks with theirs. */
  lemma DecryptedIsChecked(lib: Library, file: EncryptedFile, i: nat)
    ensures var r := DecryptedOf(lib, file);
            var chunks := DecryptedChunks(lib, file.chunks, lib.fileKey(file.fileId));
            && (chunks.Err? ==> r == Err(chunks.error))
            && (r == Err(FileIntegrity) <== chunks.Ok? && lib.sha(Flatten(chunks.value)) != file.originalHash)
            && (r.Ok? ==> && chunks.Ok? && r.value == Flatten(chunks.value) && lib.sha(r.value) == file.originalHash
                          && |chunks.value| == |file.chunks|
                          && (i < |file.chunks| ==> lib.sha(chunks.value[i]) == file.chunks[i].originalHash))
  {
    hide DecryptedChunk, DecryptedChunks, Flatten;
    var chunks := DecryptedChunks(lib, file.chunks, lib.fileKey(file.fileId));
    if chunks.Ok? {
      DecryptedChunksExact(lib, file.chunks, lib.fileKey(file.fileId), i);
      if i < |file.chunks| {
        DecryptedChunkExact(lib, file.chunks[i], lib.fileKey(file.fileId));
      }
    }
  }

  // ---- Round trip ---------------------------------------------------------------------------

  /** The first `i` chunks are the ones before the last of them, and that one. */
  lemma ChunkExtends(data: Bytes, i: nat)
    requires 0 < i <= Encryption.ChunkCount(|data|, CHUNK_SIZE)
    ensures Times(i - 1, CHUNK_SIZE) <= |data|
    ensures data[..Min(Times(i, CHUNK_SIZE), |data|)] ==
            data[..Times(i - 1, CHUNK_SIZE)] + Encryption.Chunk(data, CHUNK_SIZE, i - 1)
  {
    hide Times, CeilDiv, CHUNK_SIZE;
    ChunkSizePositive();
    PieceBounds(|data|, CHUNK_SIZE, i - 1);
    TimesStep(i - 1, CHUNK_SIZE);
  }

  /** Decrypting chunk `i` of an encrypted file gives the chunk. */
  lemma ChunkDecrypts(lib: Library, data: Bytes, fileId: string, nonces: nat -> Encryption.Nonce, now: int, i: nat)
    requires i < Encryption.ChunkCount(|data|, CHUNK_SIZE)
    ensures var chunks := EncryptedOf(lib, data, fileId, nonces, now).chunks;
            i < |chunks| && DecryptedChunk(lib, chunks[i], lib.fileKey(fileId)) == Ok(Encryption.Chunk(data, CHUNK_SIZE, i))
  {
    hide Times, CeilDiv, EncryptData, DecryptData, CHUNK_SIZE, PaddedTree;
    ChunkSizePositive();
    assert EncryptedOf(lib, data, fileId, nonces, now).chunks[i] == ChunkOf(lib, data, fileId, nonces, i);
  }

  lemma {:induction false} ChunksDecrypt(lib: Library, data: Bytes, fileId: string, nonces: nat -> Encryption.Nonce, now: int, i: nat)
    requires i <= Encryption.ChunkCount(|data|, CHUNK_SIZE)
    ensures |EncryptedOf(lib, data, fileId, nonces, now).chunks| == Encryption.ChunkCount(|data|, CHUNK_SIZE)
    ensures var chunks := DecryptedChunks(lib, EncryptedOf(lib, data, fileId, nonces, now).chunks[..i], lib.fileKey(fileId));
            chunks.Ok? && Flatten(chunks.value) == data[..Min(Times(i, CHUNK_SIZE), |data|)]
  {
    hide Times, CeilDiv, DecryptedChunk, CHUNK_SIZE, PaddedTree;
    ChunkSizePositive();
    var all := EncryptedOf(lib, data, fileId, nonces, now).chunks;
    if i == 0 {
      TimesStep(0, CHUNK_SIZE);
    } else {
      ChunksDecrypt(lib, data, fileId, nonces, now, i - 1);
      assert all[..i][..i - 1] == all[..i - 1];
      ChunkDecrypts(lib, data, fileId, nonces, now, i - 1);
      ChunkExtends(data, i);
      FlattenPush(DecryptedChunks(lib, all[..i - 1], lib.fileKey(fileId)).value, Encryption.Chunk(data, CHUNK_SIZE, i - 1));
    }
  }

  /** Decrypting an encrypted file returns the file and passes every integrity check on the way. */
  lemma FileRoundTrip(lib: Library, data: Bytes, fileId: string, nonces: nat -> Encryption.Nonce, now: int)
    ensures DecryptedOf(lib, EncryptedOf(lib, data, fileId, nonces, now)) == Ok(data)
  {
    hide Times, CeilDiv, DecryptedChunks, CHUNK_SIZE;
    ChunkSizePositive();
    var count := Encryption.ChunkCount(|data|, CHUNK_SIZE);
    var file := EncryptedOf(lib, data, fileId, nonces, now);
    ChunksDecrypt(lib, data, fileId, nonces, now, count);
    PieceBounds(|data|, CHUNK_SIZE, count);
    assert file.chunks[..count] == file.chunks;
    assert data[..|data|] == data;
  }

  // ---- JSON ---------------------------------------------------------------------------------

  function ToJson(file: EncryptedFile): FileJson {
    FileJson(
      file.fileId,
      seq(|file.chunks|, i requires 0 <= i < |file.chunks| =>
        ChunkJson(file.chunks[i].index, SerializeData(file.chunks[i].data), file.chunks[i].originalHash)),
      file.merkleRoot, file.originalHash, file.originalSize, file.chunkSize, file.createdAt)
  }

  function ChunksFromJson(chunks: seq<ChunkJson>): Result<seq<EncryptedChunk>, DartError> {
    if chunks == [] then Ok([])
    else
      var data :- DeserializeData(chunks[0].data);
      var rest :- ChunksFromJson(chunks[1..]);
      Ok([EncryptedChunk(chunks[0].index, data, chunks[0].originalHash)] + rest)
  }

  function Serialize(lib: Library, file: EncryptedFile): Bytes { lib.json.encode(ToJson(file)) }

  function Deserialize(lib: Library, bytes: Bytes): Result<EncryptedFile, DartError> {
    match lib.json.decode(bytes)
    case None => Err(FormatException)
    case Some(j) =>
      var chunks :- ChunksFromJson(j.chunks);
      Ok(EncryptedFile(j.fileId, chunks, j.merkleRoot, j.originalHash, j.originalSize, j.chunkSize, j.createdAt))
  }

  ghost predicate Enveloped(chunks: seq<EncryptedChunk>) {
    forall i :: 0 <= i < |chunks| ==> |chunks[i].data.nonce| < INT32_LIMIT && |chunks[i].data.mac| < INT32_LIMIT
  }

  lemma {:induction false} ChunksBack(chunks: seq<EncryptedChunk>, json: seq<ChunkJson>)
    requires |json| == |chunks| && Enveloped(chunks)
    requires forall i :: 0 <= i < |chunks| ==>
      json[i] == ChunkJson(chunks[i].index, SerializeData(chunks[i].data), chunks[i].originalHash)
    ensures ChunksFromJson(json) == Ok(chunks)
  {
    hide SerializeData, DeserializeData;
    if chunks != [] {
      EnvelopeRoundTrip(chunks[0].data);
      ChunksBack(chunks[1..], json[1..]);
      assert [chunks[0]] + chunks[1..] == chunks;
    }
  }

  /** A serialized file is read back, and spells out at least its two digests. */
  lemma SerializeRoundTrip(lib: Library, file: EncryptedFile)
    requires Enveloped(file.chunks)
    ensures Deserialize(lib, Serialize(lib, file)) == Ok(file)
    ensures |Serialize(lib, file)| >= 128
  {
    hide SerializeData;
    ChunksBack(file.chunks, ToJson(file).chunks);
  }

  lemma EncryptedEnveloped(lib: Library, data: Bytes, fileId: string, nonces: nat -> Encryption.Nonce, now: int)
    ensures Enveloped(EncryptedOf(lib, data, fileId, nonces, now).chunks)
  {
    hide CHUNK_SIZE, CeilDiv, PaddedTree;
    var chunks := EncryptedOf(lib, data, fileId, nonces, now).chunks;
    forall i | 0 <= i < |chunks| ensures |chunks[i].data.nonce| == 12 && |chunks[i].data.mac| == 16 {
      assert chunks[i] == ChunkOf(lib, data, fileId, nonces, i);
    }
  }
}
