/** Chunked authenticated encryption of files (encryption.rs). */
module Encryption {
  import opened Basics

  const NONCE_SIZE: nat := 12
  const TAG_SIZE: nat := 16
  const OVERHEAD: nat := NONCE_SIZE + TAG_SIZE

  type Key = k: Bytes | |k| == 32 witness Zeros(32)
  type Nonce = n: Bytes | |n| == 12 witness Zeros(12)

  /** AES-256-GCM, of which only the two laws of `Lawful` are used. */
  datatype AeadOps = AeadOps(
    seal: (Key, Nonce, Bytes) -> Bytes,
    open: (Key, Nonce, Bytes) -> Option<Bytes>)

  ghost predicate Lawful(a: AeadOps) {
    forall k: Key, n: Nonce, x: Bytes ::
      |a.seal(k, n, x)| == |x| + TAG_SIZE && a.open(k, n, a.seal(k, n, x)) == Some(x)
  }

  ghost function PlainAead(): AeadOps {
    AeadOps((k, n, x) => x + Zeros(16), (k, n, x: Bytes) => if |x| < 16 then None else Some(x[..|x| - 16]))
  }

  type Aead = a: AeadOps | Lawful(a) ghost witness PlainAead()

  datatype CryptoError =
    | DecryptionFailed
    | InvalidData
    | SliceOutOfRange  // the slice expression of the source panics

  // ---- One buffer ---------------------------------------------------------------------------

  function Encrypt(aead: Aead, key: Key, nonce: Nonce, plaintext: Bytes): (c: Bytes)
    ensures |c| == |plaintext| + 28
    ensures Decrypt(aead, key, c) == Ok(plaintext)
  {
    var c := nonce + aead.seal(key, nonce, plaintext);
    assert c[..NONCE_SIZE] == nonce && c[NONCE_SIZE..] == aead.seal(key, nonce, plaintext);
    c
  }

  function Decrypt(aead: Aead, key: Key, ciphertext: Bytes): Result<Bytes, CryptoError> {
    if |ciphertext| < NONCE_SIZE + 16 then Err(DecryptionFailed)
    else
      match aead.open(key, ciphertext[..NONCE_SIZE], ciphertext[NONCE_SIZE..])
      case Some(plaintext) => Ok(plaintext)
      case None => Err(DecryptionFailed)
  }

  /** An encrypted buffer is the drawn nonce and what the cipher makes of it. */
  lemma EncryptExact(aead: Aead, key: Key, nonce: Nonce, plaintext: Bytes)
    ensures var c := Encrypt(aead, key, nonce, plaintext);
            c[..12] == nonce && c[12..] == aead.seal(key, nonce, plaintext)
  {
    var sealed := aead.seal(key, nonce, plaintext);
    assert (nonce + sealed)[..12] == nonce && (nonce + sealed)[12..] == sealed;
  }

  /** Decryption asks the cipher about the first twelve bytes and the rest, if there are at least 28. */
  lemma DecryptExact(aead: Aead, key: Key, c: Bytes, x: Bytes)
    ensures Decrypt(aead, key, c) == Ok(x) <==> |c| >= 28 && aead.open(key, c[..12], c[12..]) == Some(x)
    ensures Decrypt(aead, key, c).Err? ==> Decrypt(aead, key, c) == Err(DecryptionFailed)
  {}

  // ---- Whole files --------------------------------------------------------------------------

  datatype EncryptedFile = EncryptedFile(data: Bytes, chunkOffsets: seq<nat>, originalSize: nat, chunkSize: nat)

  datatype FileEncryptor = FileEncryptor(key: Key, chunkSize: nat)

  const DEFAULT_CHUNK_SIZE: nat := 64 * 1024

  function ChunkCount(n: nat, size: nat): nat
    requires size > 0
  {
    CeilDiv(n, size)
  }

  /** Plaintext chunk `i`: the bytes from i*size up to (i+1)*size or the end of the file. */
  function Chunk(data: Bytes, size: nat, i: nat): (c: Bytes)
    requires size > 0 && i < ChunkCount(|data|, size)
    ensures 0 < |c| <= size
  {
    PieceBounds(|data|, size, i);
    TimesStep(i, size);
    data[Times(i, size)..Min(Times(i + 1, size), |data|)]
  }

  function EncryptedChunks(aead: Aead, e: FileEncryptor, nonces: nat -> Nonce, data: Bytes): (c: seq<Bytes>)
    requires e.chunkSize > 0
    ensures |c| == ChunkCount(|data|, e.chunkSize)
    ensures forall i :: 0 <= i < |c| ==> c[i] == Encrypt(aead, e.key, nonces(i), Chunk(data, e.chunkSize, i))
  {
    seq(ChunkCount(|data|, e.chunkSize), i requires 0 <= i < ChunkCount(|data|, e.chunkSize) =>
      Encrypt(aead, e.key, nonces(i), Chunk(data, e.chunkSize, i)))
  }

  /** The encrypted file: chunk `i` starts at offset i*(size+28). */
  function Encrypted(aead: Aead, e: FileEncryptor, nonces: nat -> Nonce, data: Bytes): EncryptedFile
    requires e.chunkSize > 0
  {
    EncryptedFile(
      Flatten(EncryptedChunks(aead, e, nonces, data)),
      seq(ChunkCount(|data|, e.chunkSize), i requires 0 <= i => Times(i, e.chunkSize + OVERHEAD)),
      |data|,
      e.chunkSize)
  }

  /** `nonces(i)` is the random nonce drawn for chunk `i`. */
  method EncryptFile(aead: Aead, e: FileEncryptor, nonces: nat -> Nonce, data: Bytes) returns (file: EncryptedFile)
    requires e.chunkSize > 0
    ensures file == Encrypted(aead, e, nonces, data)
  {
    hide Times, CeilDiv, Encrypt;
    ghost var all := EncryptedChunks(aead, e, nonces, data);
    var chunks: seq<Bytes> := [];
    var chunkOffsets: seq<nat> := [];
    var currentOffset := 0;
    var at := 0;
    TimesStep(0, e.chunkSize);
    while at < |data|
      invariant |chunks| <= |all| && chunks == all[..|chunks|]
      invariant at == Min(Times(|chunks|, e.chunkSize), |data|)
      invariant currentOffset == |Flatten(chunks)|
      invariant |chunkOffsets| == |chunks|
      invariant forall j :: 0 <= j < |chunks| ==> chunkOffsets[j] == Times(j, e.chunkSize + OVERHEAD)
      decreases |data| - at
    {
      var i := |chunks|;
      PieceBounds(|data|, e.chunkSize, i);
      TimesStep(i, e.chunkSize);
      var chunk := data[at..Min(at + e.chunkSize, |data|)];
      assert chunk == Chunk(data, e.chunkSize, i);
      var encryptedChunk := Encrypt(aead, e.key, nonces(i), chunk);
      OffsetOfChunk(aead, e, nonces, data, i);
      chunkOffsets := chunkOffsets + [currentOffset];
      currentOffset := currentOffset + |encryptedChunk|;
      FlattenPush(chunks, encryptedChunk);
      chunks := chunks + [encryptedChunk];
      assert chunks == all[..i + 1];
      at := at + |chunk|;
    }
    PieceBounds(|data|, e.chunkSize, |chunks|);
    assert chunks == all;
    var flat := Join(chunks);
    assert chunkOffsets == Encrypted(aead, e, nonces, data).chunkOffsets;
    return EncryptedFile(flat, chunkOffsets, |data|, e.chunkSize);
  }

  /** All chunks before the last are full, so their encrypted sizes are all alike. */
  lemma {:induction false} OffsetOfChunk(aead: Aead, e: FileEncryptor, nonces: nat -> Nonce, data: Bytes, i: nat)
    requires e.chunkSize > 0 && i < ChunkCount(|data|, e.chunkSize)
    ensures |Flatten(EncryptedChunks(aead, e, nonces, data)[..i])| == Times(i, e.chunkSize + OVERHEAD)
  {
    hide Times, CeilDiv;
    var all := EncryptedChunks(aead, e, nonces, data);
    if i == 0 {
      TimesStep(0, e.chunkSize + OVERHEAD);
      assert all[..0] == [];
    } else {
      OffsetOfChunk(aead, e, nonces, data, i - 1);
      assert all[..i] == all[..i - 1] + [all[i - 1]];
      FlattenPush(all[..i - 1], all[i - 1]);
      TimesStep(i - 1, e.chunkSize + OVERHEAD);
      PieceBounds(|data|, e.chunkSize, i);
      TimesStep(i - 1, e.chunkSize);
    }
  }

  // ---- Reading a file back ------------------------------------------------------------------

  function DecryptChunk(aead: Aead, key: Key, file: EncryptedFile, i: nat): Result<Bytes, CryptoError> {
    if i >= |file.chunkOffsets| then Err(InvalidData)
    else
      var start := file.chunkOffsets[i];
      var end := if i + 1 < |file.chunkOffsets| then file.chunkOffsets[i + 1] else |file.data|;
      if start <= end <= |file.data| then Decrypt(aead, key, file.data[start..end]) else Err(SliceOutOfRange)
  }

  function Prefixed(front: Bytes, rest: Result<Bytes, CryptoError>): Result<Bytes, CryptoError> {
    match rest
    case Err(e) => Err(e)
    case Ok(bytes) => Ok(front + bytes)
  }

  lemma PrefixNothing(rest: Result<Bytes, CryptoError>)
    ensures Prefixed([], rest) == rest
  {
    if rest.Ok? { assert [] + rest.value == rest.value; }
  }

  lemma PrefixTwice(a: Bytes, b: Bytes, rest: Result<Bytes, CryptoError>)
    ensures Prefixed(a, Prefixed(b, rest)) == Prefixed(a + b, rest)
  {
    if rest.Ok? { assert a + (b + rest.value) == (a + b) + rest.value; }
  }

  /** The chunks of `file` from `i` on, decrypted and joined; the first failure wins. */
  function DecryptedFrom(aead: Aead, key: Key, file: EncryptedFile, i: nat): Result<Bytes, CryptoError>
    requires i <= |file.chunkOffsets|
    decreases |file.chunkOffsets| - i
  {
    if i == |file.chunkOffsets| then Ok([])
    else
      match DecryptChunk(aead, key, file, i)
      case Err(e) => Err(e)
      case Ok(chunk) => Prefixed(chunk, DecryptedFrom(aead, key, file, i + 1))
  }

  method DecryptFile(aead: Aead, key: Key, file: EncryptedFile) returns (result: Result<Bytes, CryptoError>)
    ensures result == DecryptedFrom(aead, key, file, 0)
  {
    hide DecryptChunk;
    var plaintext: Bytes := [];
    PrefixNothing(DecryptedFrom(aead, key, file, 0));
    for i := 0 to |file.chunkOffsets|
      invariant DecryptedFrom(aead, key, file, 0) == Prefixed(plaintext, DecryptedFrom(aead, key, file, i))
    {
      var chunk := DecryptChunk(aead, key, file, i);
      if chunk.Err? {
        return Err(chunk.error);
      }
      PrefixTwice(plaintext, chunk.value, DecryptedFrom(aead, key, file, i + 1));
      plaintext := plaintext + chunk.value;
    }
    assert plaintext + [] == plaintext;
    return Ok(plaintext);
  }

  /** Of any file whatever, chunk `i` is what lies between two offsets, or cannot be cut out. */
  lemma DecryptChunkExact(aead: Aead, key: Key, file: EncryptedFile, i: nat)
    ensures i >= |file.chunkOffsets| ==> DecryptChunk(aead, key, file, i) == Err(InvalidData)
    ensures i + 1 < |file.chunkOffsets| ==>
              var start, end := file.chunkOffsets[i], file.chunkOffsets[i + 1];
              DecryptChunk(aead, key, file, i) ==
              if start <= end <= |file.data| then Decrypt(aead, key, file.data[start..end]) else Err(SliceOutOfRange)
    ensures i + 1 == |file.chunkOffsets| ==>
              var start := file.chunkOffsets[i];
              DecryptChunk(aead, key, file, i) ==
              if start <= |file.data| then Decrypt(aead, key, file.data[start..]) else Err(SliceOutOfRange)
  {
    if i + 1 == |file.chunkOffsets| && file.chunkOffsets[i] <= |file.data| {
      assert file.data[file.chunkOffsets[i]..|file.data|] == file.data[file.chunkOffsets[i]..];
    }
  }

  /** The first chunk that fails decides, and only if none does the chunks are joined. */
  lemma {:induction false} FirstFailureDecides(aead: Aead, key: Key, file: EncryptedFile, i: nat, j: nat)
    requires i <= j <= |file.chunkOffsets|
    requires forall k :: i <= k < j ==> DecryptChunk(aead, key, file, k).Ok?
    ensures var before := Flatten(seq(j - i, k requires 0 <= k < j - i => DecryptChunk(aead, key, file, i + k).value));
            DecryptedFrom(aead, key, file, i) ==
            if j == |file.chunkOffsets| then Ok(before)
            else if DecryptChunk(aead, key, file, j).Err? then Err(DecryptChunk(aead, key, file, j).error)
            else Prefixed(before, DecryptedFrom(aead, key, file, j))
    decreases j - i
  {
    hide DecryptChunk;
    var chunks := seq(j - i, k requires 0 <= k < j - i => DecryptChunk(aead, key, file, i + k).value);
    if i == j {
      assert chunks == [];
      PrefixNothing(DecryptedFrom(aead, key, file, i));
    } else {
      var rest := seq(j - i - 1, k requires 0 <= k < j - i - 1 => DecryptChunk(aead, key, file, i + 1 + k).value);
      FirstFailureDecides(aead, key, file, i + 1, j);
      assert chunks[1..] == rest;
      if j < |file.chunkOffsets| {
        PrefixTwice(chunks[0], Flatten(rest), DecryptedFrom(aead, key, file, j));
      }
    }
  }

  // ---- Layout and round trip ----------------------------------------------------------------

  /** The encrypted chunks tile the buffer: each starts where the previous one ends. */
  lemma OffsetsTile(aead: Aead, e: FileEncryptor, nonces: nat -> Nonce, data: Bytes, i: nat)
    requires e.chunkSize > 0 && i < ChunkCount(|data|, e.chunkSize)
    ensures var file := Encrypted(aead, e, nonces, data);
            var start := file.chunkOffsets[i];
            var end := if i + 1 < |file.chunkOffsets| then file.chunkOffsets[i + 1] else |file.data|;
            && (i == 0 ==> start == 0)
            && start < end <= |file.data|
            && file.data[start..end] == Encrypt(aead, e.key, nonces(i), Chunk(data, e.chunkSize, i))
  {
    hide Times, CeilDiv;
    var all := EncryptedChunks(aead, e, nonces, data);
    OffsetOfChunk(aead, e, nonces, data, i);
    FlattenPart(all, i);
    TimesStep(0, e.chunkSize + OVERHEAD);
    assert all[..i + 1] == all[..i] + [all[i]];
    FlattenPush(all[..i], all[i]);
    if i + 1 < |all| {
      OffsetOfChunk(aead, e, nonces, data, i + 1);
    } else {
      assert all[..i + 1] == all;
    }
  }

  /** The encrypted buffer has 28 bytes more than the file for each of its ceil(n/size) chunks. */
  /**
   The bytes of chunk `i`: its own nonce, then what the cipher makes of that nonce and the plaintext
   from i*c up to (i+1)*c or the end of the file.
   */
  lemma ChunkLayout(aead: Aead, e: FileEncryptor, nonces: nat -> Nonce, data: Bytes, i: nat)
    requires e.chunkSize > 0 && i * e.chunkSize < |data|
    ensures var file := Encrypted(aead, e, nonces, data);
            var start := i * (e.chunkSize + 28);
            var from := i * e.chunkSize;
            var plaintext := data[from..Min(from + e.chunkSize, |data|)];
            && i < |file.chunkOffsets| && file.chunkOffsets[i] == start
            && start + 28 + |plaintext| <= |file.data|
            && file.data[start..start + 12] == nonces(i)
            && file.data[start + 12..start + 28 + |plaintext|] == aead.seal(e.key, nonces(i), plaintext)
            && (if i + 1 < |file.chunkOffsets| then file.chunkOffsets[i + 1] else |file.data|) == start + 28 + |plaintext|
  {
    hide CeilDiv, Encrypt, Encrypted, Times;
    TimesIsProduct(i, e.chunkSize);
    TimesIsProduct(i, e.chunkSize + OVERHEAD);
    PieceBounds(|data|, e.chunkSize, i);
    TimesStep(i, e.chunkSize);
    OffsetsTile(aead, e, nonces, data, i);
    EncryptedSize(aead, e, nonces, data);
    OffsetValue(aead, e, nonces, data, i);
    var file := Encrypted(aead, e, nonces, data);
    var chunk := Chunk(data, e.chunkSize, i);
    var c := Encrypt(aead, e.key, nonces(i), chunk);
    var start := file.chunkOffsets[i];
    EncryptExact(aead, e.key, nonces(i), chunk);
    assert file.data[start..start + |c|] == c;
    assert file.data[start..start + 12] == c[..12] && file.data[start + 12..start + |c|] == c[12..];
  }

  lemma OffsetValue(aead: Aead, e: FileEncryptor, nonces: nat -> Nonce, data: Bytes, i: nat)
    requires e.chunkSize > 0 && i < ChunkCount(|data|, e.chunkSize)
    ensures var file := Encrypted(aead, e, nonces, data);
            |file.chunkOffsets| == ChunkCount(|data|, e.chunkSize) && file.chunkOffsets[i] == Times(i, e.chunkSize + 28)
  {}

  /** Chunks encrypted under different nonces differ, whatever they hold. */
  lemma NoncesSeparate(aead: Aead, key: Key, m: Nonce, n: Nonce, x: Bytes, y: Bytes)
    requires m != n
    ensures Encrypt(aead, key, m, x) != Encrypt(aead, key, n, y)
  {
    EncryptExact(aead, key, m, x);
    EncryptExact(aead, key, n, y);
  }

  /** The rest of an encrypted file: the sizes it was made with. */
  lemma EncryptedSizes(aead: Aead, e: FileEncryptor, nonces: nat -> Nonce, data: Bytes)
    requires e.chunkSize > 0
    ensures var file := Encrypted(aead, e, nonces, data);
            file.originalSize == |data| && file.chunkSize == e.chunkSize
  {}

  lemma EncryptedSize(aead: Aead, e: FileEncryptor, nonces: nat -> Nonce, data: Bytes)
    requires e.chunkSize > 0
    ensures var file := Encrypted(aead, e, nonces, data);
            && |file.chunkOffsets| == CeilDiv(|data|, e.chunkSize)
            && |file.data| == |data| + 28 * CeilDiv(|data|, e.chunkSize)
  {
    hide Times, CeilDiv;
    var count := CeilDiv(|data|, e.chunkSize);
    var all := EncryptedChunks(aead, e, nonces, data);
    PieceBounds(|data|, e.chunkSize, count);
    if count == 0 {
      TimesStep(0, e.chunkSize);
      assert all == [];
    } else {
      var last := count - 1;
      PieceBounds(|data|, e.chunkSize, last);
      TimesStep(last, e.chunkSize);
      OffsetOfChunk(aead, e, nonces, data, last);
      assert all == all[..last] + [all[last]];
      FlattenPush(all[..last], all[last]);
      TimesSum(last, e.chunkSize, OVERHEAD);
    }
  }

  lemma TimesSum(i: nat, a: nat, b: nat)
    ensures Times(i, a + b) == Times(i, a) + b * i
  {}

  /** Random access: chunk `i` decrypts to exactly its slice of the file, and to nothing beyond. */
  lemma DecryptChunkCorrect(aead: Aead, e: FileEncryptor, nonces: nat -> Nonce, data: Bytes, i: nat)
    requires e.chunkSize > 0
    ensures DecryptChunk(aead, e.key, Encrypted(aead, e, nonces, data), i) ==
            if i < ChunkCount(|data|, e.chunkSize) then Ok(Chunk(data, e.chunkSize, i)) else Err(InvalidData)
  {
    hide Times, CeilDiv, Decrypt, Encrypt, Chunk;
    if i < ChunkCount(|data|, e.chunkSize) {
      OffsetsTile(aead, e, nonces, data, i);
    }
  }

  /** What remains of the file from chunk `i` on. */
  lemma {:induction false} DecryptedFromCorrect(aead: Aead, e: FileEncryptor, nonces: nat -> Nonce, data: Bytes, i: nat)
    requires e.chunkSize > 0 && i <= ChunkCount(|data|, e.chunkSize)
    ensures DecryptedFrom(aead, e.key, Encrypted(aead, e, nonces, data), i)
         == Ok(data[Min(Times(i, e.chunkSize), |data|)..])
    decreases ChunkCount(|data|, e.chunkSize) - i
  {
    hide Times, CeilDiv, DecryptChunk;
    PieceBounds(|data|, e.chunkSize, i);
    if i < ChunkCount(|data|, e.chunkSize) {
      DecryptChunkCorrect(aead, e, nonces, data, i);
      DecryptedFromCorrect(aead, e, nonces, data, i + 1);
      TimesStep(i, e.chunkSize);
      assert data[Times(i, e.chunkSize)..]
          == Chunk(data, e.chunkSize, i) + data[Min(Times(i + 1, e.chunkSize), |data|)..];
    } else {
      assert data[Min(Times(i, e.chunkSize), |data|)..] == [];
    }
  }

  /** Decrypting an encrypted file returns the file. */
  lemma FileRoundTrip(aead: Aead, e: FileEncryptor, nonces: nat -> Nonce, data: Bytes)
    requires e.chunkSize > 0
    ensures DecryptedFrom(aead, e.key, Encrypted(aead, e, nonces, data), 0) == Ok(data)
  {
    DecryptedFromCorrect(aead, e, nonces, data, 0);
    TimesStep(0, e.chunkSize);
    var rest := data[Min(Times(0, e.chunkSize), |data|)..];
    assert rest == data;
  }
}
