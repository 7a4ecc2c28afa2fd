/** Preparing a file for upload and reconstructing it from its shards (file_manager.rs). */
module FileManager {
  import opened Basics
  import opened Encryption
  import opened Bincode
  import opened ReedSolomon
  import opened Erasure

  datatype ShardLocation = ShardLocation(index: nat, shardId: string, size: nat, hash: string)

  datatype FileMetadata = FileMetadata(
    fileId: string,
    filename: string,
    size: nat,
    encryptedHash: string,
    erasureConfig: ErasureConfig,
    shards: seq<ShardLocation>,
    createdAt: int,
    encryptedFileKey: Bytes)

  datatype PreparedFile = PreparedFile(metadata: FileMetadata, shards: seq<Shard>)

  /** The manager's own data: its user's master key and the erasure configuration for uploads. */
  datatype Manager = Manager(identityKey: Key, erasureConfig: ErasureConfig)

  /** The library functions: the cipher, and the content hash as a base58 string. */
  datatype Library = Library(aead: Aead, hash: Bytes -> string)

  /** What one upload draws from its environment. */
  datatype Draws = Draws(fileKey: Key, nonces: nat -> Nonce, keyNonce: Nonce, now: int)

  // ---- Upload -------------------------------------------------------------------------------

  /** The bytes that are split into shards. */
  function Sealed(lib: Library, draws: Draws, data: Bytes): Bytes {
    Serialize(Encrypted(lib.aead, FileEncryptor(draws.fileKey, DEFAULT_CHUNK_SIZE), draws.nonces, data))
  }

  function Location(lib: Library, fileId: string, s: Shard): ShardLocation {
    ShardLocation(s.index, ShardId(fileId, s.index), |s.data|, lib.hash(s.data))
  }

  /** A file hash and an index in at least two digits. */
  function ShardId(fileHash: string, index: nat): string {
    fileHash + "-shard-" + (if index < 10 then "0" else "") + Decimal(index)
  }

  function Prepared(lib: Library, m: Manager, draws: Draws, data: Bytes, filename: string)
    : Result<PreparedFile, StorageError>
  {
    var bytes := Sealed(lib, draws, data);
    var codec :- NewCodec(m.erasureConfig);
    var shards :- Erasure.Encoded(codec, bytes);
    var fileId := lib.hash(data);
    var metadata := FileMetadata(
                      fileId, filename, |data|, lib.hash(bytes), m.erasureConfig,
                      seq(|shards|, i requires 0 <= i < |shards| => Location(lib, fileId, shards[i])),
                      draws.now, Encrypt(lib.aead, m.identityKey, draws.keyNonce, draws.fileKey));
    Ok(PreparedFile(metadata, shards))
  }

  method PrepareUpload(lib: Library, m: Manager, draws: Draws, data: Bytes, filename: string)
    returns (result: Result<PreparedFile, StorageError>)
    ensures result == Prepared(lib, m, draws, data, filename)
  {
    hide Encrypted, Serialize, Encrypt, Encoded, ShardId;
    var encryptor := FileEncryptor(draws.fileKey, DEFAULT_CHUNK_SIZE);
    var encrypted := EncryptFile(lib.aead, encryptor, draws.nonces, data);
    var encryptedData := Serialize(encrypted);
    var codec := NewCodec(m.erasureConfig);
    if codec.Err? {
      return Err(codec.error);
    }
    var shards := Encode(codec.value, encryptedData);
    if shards.Err? {
      return Err(shards.error);
    }
    var encryptedFileKey := Encrypt(lib.aead, m.identityKey, draws.keyNonce, draws.fileKey);
    var fileId := lib.hash(data);
    var locations := seq(|shards.value|, i requires 0 <= i < |shards.value| => Location(lib, fileId, shards.value[i]));
    var metadata := FileMetadata(
      fileId, filename, |data|, lib.hash(encryptedData), m.erasureConfig, locations, draws.now, encryptedFileKey);
    return Ok(PreparedFile(metadata, shards.value));
  }

  // ---- Reconstruction -----------------------------------------------------------------------

  function TotalSize(locations: seq<ShardLocation>): nat {
    if locations == [] then 0 else locations[0].size + TotalSize(locations[1..])
  }

  /** The size asked of the decoder: the mean shard size times the number of data shards. */
  function EstimatedSize(metadata: FileMetadata): nat
    requires TotalShards(metadata.erasureConfig) > 0
  {
    TotalSize(metadata.shards) / TotalShards(metadata.erasureConfig) * metadata.erasureConfig.dataShards
  }

  function AsShards(k: nat, shardData: seq<Option<Bytes>>): seq<Option<Shard>> {
    seq(|shardData|, i requires 0 <= i < |shardData| =>
      if shardData[i].Some? then Some(Shard(i, shardData[i].value, i >= k, 0)) else None)
  }

  /** The last steps, once the sealed bytes are back: unwrap the key, parse, decrypt, check the hash. */
  function Opened(lib: Library, m: Manager, metadata: FileMetadata, encryptedData: Bytes): Result<Bytes, StorageError> {
    match Decrypt(lib.aead, m.identityKey, metadata.encryptedFileKey)
    case Err(_) => Err(StorageError.Encryption(KeyRejected))
    case Ok(fileKey) =>
      if |fileKey| != 32 then Err(StorageError.Encryption(KeyLength))
      else
        match Deserialize(encryptedData)
        case Err(_) => Err(StorageError.Encryption(Malformed))
        case Ok(file) =>
          match DecryptedFrom(lib.aead, fileKey, file, 0)
          case Err(_) => Err(StorageError.Encryption(ContentRejected))
          case Ok(plaintext) => if lib.hash(plaintext) != metadata.fileId then Err(IntegrityCheckFailed) else Ok(plaintext)
  }

  function Reconstructed(lib: Library, m: Manager, metadata: FileMetadata, shardData: seq<Option<Bytes>>)
    : Result<Bytes, StorageError>
  {
    var k := metadata.erasureConfig.dataShards;
    if |Present(shardData)| < k then Err(InsufficientFragments(|Present(shardData)|, k))
    else
      var codec :- NewCodec(metadata.erasureConfig);
      var encryptedData :- Erasure.Decoded(codec, AsShards(k, shardData), EstimatedSize(metadata));
      Opened(lib, m, metadata, encryptedData)
  }

  method ReconstructFile(lib: Library, m: Manager, metadata: FileMetadata, shardData: seq<Option<Bytes>>)
    returns (result: Result<Bytes, StorageError>)
    ensures result == Reconstructed(lib, m, metadata, shardData)
  {
    hide Erasure.Decoded, Deserialize, Decrypt, Present, EstimatedSize;
    var k := metadata.erasureConfig.dataShards;
    var available := |Present(shardData)|;
    if available < k {
      return Err(InsufficientFragments(available, k));
    }
    var codec := NewCodec(metadata.erasureConfig);
    if codec.Err? {
      return Err(codec.error);
    }
    var encryptedData := Decode(codec.value, AsShards(k, shardData), EstimatedSize(metadata));
    if encryptedData.Err? {
      return Err(encryptedData.error);
    }
    var fileKey := Decrypt(lib.aead, m.identityKey, metadata.encryptedFileKey);
    if fileKey.Err? {
      return Err(StorageError.Encryption(KeyRejected));
    }
    if |fileKey.value| != 32 {
      return Err(StorageError.Encryption(KeyLength));
    }
    var file := Deserialize(encryptedData.value);
    if file.Err? {
      return Err(StorageError.Encryption(Malformed));
    }
    var plaintext := DecryptFile(lib.aead, fileKey.value, file.value);
    if plaintext.Err? {
      return Err(StorageError.Encryption(ContentRejected));
    }
    if lib.hash(plaintext.value) != metadata.fileId {
      return Err(IntegrityCheckFailed);
    }
    return Ok(plaintext.value);
  }

  // ---- What is checked ----------------------------------------------------------------------

  /** Whatever metadata and shards say, nothing comes back but bytes whose hash is the file id. */
  lemma ReconstructedIsChecked(lib: Library, m: Manager, metadata: FileMetadata, shardData: seq<Option<Bytes>>)
    ensures var r := Reconstructed(lib, m, metadata, shardData);
            r.Ok? ==> lib.hash(r.value) == metadata.fileId
  {
    hide Erasure.Decoded, EstimatedSize;
  }

  /** Each way in which opening fails, in the order in which it is noticed. */
  lemma OpenedExact(lib: Library, m: Manager, metadata: FileMetadata, bytes: Bytes)
    ensures var key := Decrypt(lib.aead, m.identityKey, metadata.encryptedFileKey);
            var result := Opened(lib, m, metadata, bytes);
            && (result == Err(StorageError.Encryption(KeyRejected)) <==> key.Err?)
            && (result == Err(StorageError.Encryption(KeyLength)) <==> key.Ok? && |key.value| != 32)
            && (result == Err(StorageError.Encryption(Malformed)) <==> key.Ok? && |key.value| == 32 && Deserialize(bytes).Err?)
            && (key.Ok? && |key.value| == 32 && Deserialize(bytes).Ok? ==>
                  var plaintext := DecryptedFrom(lib.aead, key.value, Deserialize(bytes).value, 0);
                  && (result == Err(StorageError.Encryption(ContentRejected)) <==> plaintext.Err?)
                  && (result == Err(IntegrityCheckFailed) <==> plaintext.Ok? && lib.hash(plaintext.value) != metadata.fileId)
                  && (result.Ok? <==> plaintext.Ok? && lib.hash(plaintext.value) == metadata.fileId)
                  && (result.Ok? ==> result.value == plaintext.value))
  {
    hide Decrypt, Deserialize, DecryptedFrom;
  }

  /** Missing shards are noticed first, then a configuration that cannot be decoded. */
  lemma ReconstructedRefuses(lib: Library, m: Manager, metadata: FileMetadata, shardData: seq<Option<Bytes>>)
    ensures var c := metadata.erasureConfig;
            var r := Reconstructed(lib, m, metadata, shardData);
            && (|Present(shardData)| < c.dataShards ==> r == Err(InsufficientFragments(|Present(shardData)|, c.dataShards)))
            && (|Present(shardData)| >= c.dataShards && !Codable(c) ==>
                  r == Err(ErasureCoding(ConfigError(c.dataShards, c.parityShards).value)))
  {
    hide Erasure.Decoded, EstimatedSize, Opened, Present;
  }

  // ---- What is recorded ---------------------------------------------------------------------

  /** The metadata of an upload and of each of its shards. */
  lemma PreparedMetadata(lib: Library, m: Manager, draws: Draws, data: Bytes, filename: string, i: nat)
    requires Codable(m.erasureConfig)
    ensures var p := Prepared(lib, m, draws, data, filename);
            && p.Ok?
            && var meta := p.value.metadata;
            && meta.fileId == lib.hash(data) && meta.filename == filename && meta.size == |data|
            && meta.encryptedHash == lib.hash(Sealed(lib, draws, data))
            && meta.erasureConfig == m.erasureConfig && meta.createdAt == draws.now
            && meta.encryptedFileKey[..12] == draws.keyNonce
            && Decrypt(lib.aead, m.identityKey, meta.encryptedFileKey) == Ok(draws.fileKey)
            && |meta.shards| == |p.value.shards| == m.erasureConfig.dataShards + m.erasureConfig.parityShards
            && (i < |meta.shards| ==>
                  var shard, location := p.value.shards[i], meta.shards[i];
                  && location.index == shard.index == i && location.size == |shard.data| && location.hash == lib.hash(shard.data)
                  && location.shardId == lib.hash(data) + "-shard-" + TwoDigits(i))
  {
    hide Sealed, Encrypt, CodeShard, Times, CeilDiv;
    SealedNonempty(lib, draws, data);
    EncryptExact(lib.aead, m.identityKey, draws.keyNonce, draws.fileKey);
    if i < 100 { ShardIdForm(lib.hash(data), i); }
    if 100 <= i { DecimalAgrees(i); }
  }

  /** An index in at least two digits. */
  function TwoDigits(i: nat): string {
    if i < 100 then ["0123456789"[i / 10], "0123456789"[i % 10]]
    else TwoDigits(i / 10) + ["0123456789"[i % 10]]
  }

  lemma {:induction false} DecimalAgrees(i: nat)
    requires i >= 10
    ensures Decimal(i) == TwoDigits(i)
  {
    DecimalEnds(i);
    assert Decimal(i) == Decimal(i / 10) + [Digit(i % 10)];
    if i >= 100 {
      DecimalAgrees(i / 10);
    } else {
      assert Decimal(i / 10) == [Digit(i / 10)];
    }
  }

  lemma ShardIdForm(fileHash: string, i: nat)
    requires i < 100
    ensures ShardId(fileHash, i) == fileHash + "-shard-" + TwoDigits(i)
  {
    if i >= 10 {
      DecimalAgrees(i);
    } else {
      assert "0" + Decimal(i) == TwoDigits(i);
    }
  }

  /** What is split into shards: chunks of 64 KiB under the drawn key and nonces. */
  lemma SealedLayout(lib: Library, draws: Draws, data: Bytes, i: nat)
    requires Addressable(data)
    ensures var file := Deserialize(Sealed(lib, draws, data));
            && file.Ok? && file.value.originalSize == |data| && file.value.chunkSize == 65536
            && |file.value.data| == |data| + 28 * CeilDiv(|data|, 65536)
            && (i * 65536 < |data| ==>
                  var start, from := i * 65564, i * 65536;
                  var plaintext := data[from..Min(from + 65536, |data|)];
                  && start + 28 + |plaintext| <= |file.value.data|
                  && file.value.data[start..start + 12] == draws.nonces(i)
                  && file.value.data[start + 12..start + 28 + |plaintext|]
                     == lib.aead.seal(draws.fileKey, draws.nonces(i), plaintext))
  {
    hide Serialize, Deserialize, Encrypted, CeilDiv;
    var e := FileEncryptor(draws.fileKey, DEFAULT_CHUNK_SIZE);
    assert e.chunkSize == 65536;
    var file := Encrypted(lib.aead, e, draws.nonces, data);
    EncryptedFits64(lib.aead, draws.fileKey, draws.nonces, data);
    DeserializeSerialize(file, []);
    assert Serialize(file) + [] == Serialize(file);
    EncryptedSize(lib.aead, e, draws.nonces, data);
    EncryptedSizes(lib.aead, e, draws.nonces, data);
    if i * 65536 < |data| {
      ChunkLayout(lib.aead, e, draws.nonces, data, i);
    }
  }

  // ---- The size estimate --------------------------------------------------------------------

  lemma {:induction false} TotalOfEqualSizes(locations: seq<ShardLocation>, size: nat)
    requires forall i :: 0 <= i < |locations| ==> locations[i].size == size
    ensures TotalSize(locations) == Times(|locations|, size)
  {
    hide Times;
    TimesStep(0, size);
    if locations != [] {
      TotalOfEqualSizes(locations[1..], size);
      TimesStep(|locations| - 1, size);
    }
  }

  /**
   The estimate is exactly the size of the padded data, so the decoder returns the sealed bytes
   followed by fewer than `k` zeros.
   */
  lemma EstimateExact(lib: Library, m: Manager, draws: Draws, data: Bytes, filename: string)
    requires Codable(m.erasureConfig)
    ensures var sealed := Sealed(lib, draws, data);
            var p := Prepared(lib, m, draws, data, filename);
            var k := m.erasureConfig.dataShards;
            && p.Ok?
            && EstimatedSize(p.value.metadata) == Times(k, CeilDiv(|sealed|, k)) == |Padded(m.erasureConfig, sealed)|
            && |sealed| <= |Padded(m.erasureConfig, sealed)| < |sealed| + k
  {
    hide Times, CeilDiv, Serialize, Encrypted, CodeShard, Encrypt, ShardId;
    var c: Codec := m.erasureConfig;
    var sealed := Sealed(lib, draws, data);
    SerializeNonempty(Encrypted(lib.aead, FileEncryptor(draws.fileKey, DEFAULT_CHUNK_SIZE), draws.nonces, data));
    var size := ShardSize(c, |sealed|);
    var metadata := Prepared(lib, m, draws, data, filename).value.metadata;
    TotalOfEqualSizes(metadata.shards, size);
    DivTimes(TotalShards(c), size);
    TimesComm(c.dataShards, size);
    assert EstimatedSize(metadata) == Times(size, c.dataShards) by { TimesIsProduct(size, c.dataShards); }
    CeilDivBounds(|sealed|, c.dataShards);
  }

  // ---- End to end ---------------------------------------------------------------------------

  /** The encrypted file fits in the address space, as it must to exist at all. */
  predicate Addressable(data: Bytes) {
    |data| + OVERHEAD * CeilDiv(|data|, DEFAULT_CHUNK_SIZE) < U64_LIMIT
  }

  lemma EncryptedFits64(aead: Aead, key: Key, nonces: nat -> Nonce, data: Bytes)
    requires Addressable(data)
    ensures Fits64(Encrypted(aead, FileEncryptor(key, DEFAULT_CHUNK_SIZE), nonces, data))
  {
    hide Times, CeilDiv, Encrypt, Chunk;
    var e := FileEncryptor(key, DEFAULT_CHUNK_SIZE);
    EncryptedSize(aead, e, nonces, data);
    var file := Encrypted(aead, e, nonces, data);
    forall i | 0 <= i < |file.chunkOffsets| ensures file.chunkOffsets[i] < U64_LIMIT {
      OffsetsTile(aead, e, nonces, data, i);
    }
  }

  /** Opening the sealed bytes, followed by anything, returns the file. */
  lemma OpenSealed(lib: Library, m: Manager, draws: Draws, data: Bytes, metadata: FileMetadata, trailing: Bytes)
    requires Addressable(data)
    requires metadata.fileId == lib.hash(data)
    requires metadata.encryptedFileKey == Encrypt(lib.aead, m.identityKey, draws.keyNonce, draws.fileKey)
    ensures Opened(lib, m, metadata, Sealed(lib, draws, data) + trailing) == Ok(data)
  {
    hide Sealed, Opened;
    OpenSealedUnderAnyId(lib, m, draws, data, metadata, trailing);
  }

  /** Under any file id, sealed bytes open to the file or, if its hash is not that id, fail the integrity check. */
  lemma OpenSealedUnderAnyId(lib: Library, m: Manager, draws: Draws, data: Bytes, metadata: FileMetadata, trailing: Bytes)
    requires Addressable(data)
    requires metadata.encryptedFileKey == Encrypt(lib.aead, m.identityKey, draws.keyNonce, draws.fileKey)
    ensures Opened(lib, m, metadata, Sealed(lib, draws, data) + trailing) ==
            if metadata.fileId == lib.hash(data) then Ok(data) else Err(IntegrityCheckFailed)
  {
    hide Serialize, Deserialize, Encrypted, Encrypt, Decrypt, DecryptedFrom;
    var e := FileEncryptor(draws.fileKey, DEFAULT_CHUNK_SIZE);
    EncryptedFits64(lib.aead, draws.fileKey, draws.nonces, data);
    DeserializeSerialize(Encrypted(lib.aead, e, draws.nonces, data), trailing);
    FileRoundTrip(lib.aead, e, draws.nonces, data);
  }

  /** The decoder is given each shard with its position, and as parity from `k` on. */
  lemma AsShardsExact(k: nat, shardData: seq<Option<Bytes>>, i: nat)
    requires i < |shardData|
    ensures var shards := AsShards(k, shardData);
            && |shards| == |shardData| && (shards[i].Some? <==> shardData[i].Some?)
            && (shards[i].Some? ==>
                  var shard := shards[i].value;
                  && shard.index == i && shard.data == shardData[i].value && shard.originalSize == 0
                  && (shard.isParity <==> i >= k))
  {}

  lemma {:induction false} PresentAsShards(k: nat, shardData: seq<Option<Bytes>>)
    ensures Present(AsShards(k, shardData)) == Present(shardData)
    decreases |shardData|
  {
    if shardData != [] {
      var n := |shardData| - 1;
      assert AsShards(k, shardData)[..n] == AsShards(k, shardData[..n]);
      PresentAsShards(k, shardData[..n]);
    }
  }

  /**
   Any `k` of the shards, whichever they are, reconstruct the file byte for byte if it is asked for
   under its own id, and fail the integrity check under any other; fewer are reported as such.
   */
  lemma ReconstructUnderAnyId(lib: Library, m: Manager, draws: Draws, data: Bytes, filename: string,
                              shardData: seq<Option<Bytes>>, fileId: string)
    requires Addressable(data) && Codable(m.erasureConfig)
    requires Prepared(lib, m, draws, data, filename).Ok?
    requires var p := Prepared(lib, m, draws, data, filename).value;
             && |shardData| == |p.shards|
             && forall i :: 0 <= i < |shardData| && shardData[i].Some? ==> shardData[i].value == p.shards[i].data
    ensures var metadata := Prepared(lib, m, draws, data, filename).value.metadata.(fileId := fileId);
            Reconstructed(lib, m, metadata, shardData) ==
            if |Present(shardData)| < m.erasureConfig.dataShards
            then Err(InsufficientFragments(|Present(shardData)|, m.erasureConfig.dataShards))
            else if fileId == lib.hash(data) then Ok(data) else Err(IntegrityCheckFailed)
  {
    hide Sealed, Decoded, Padded, Opened, Encrypt, ShardId, ShardAt, Times, Present, TotalSize;
    var c: Codec := m.erasureConfig;
    EstimateExact(lib, m, draws, data, filename);
    var p := Prepared(lib, m, draws, data, filename).value;
    var metadata := p.metadata.(fileId := fileId);
    assert EstimatedSize(metadata) == EstimatedSize(p.metadata);
    var sealed := Sealed(lib, draws, data);
    var shards := AsShards(c.dataShards, shardData);
    PresentAsShards(c.dataShards, shardData);
    assert sealed != [] by { SealedNonempty(lib, draws, data); }
    hide EstimatedSize;
    DecodeSurvivors(c, sealed, shards, EstimatedSize(metadata));
    PaddedIsData(c, sealed);
    OpenSealedUnderAnyId(lib, m, draws, data, metadata, Padded(c, sealed)[|sealed|..]);
  }

  /**
   Uploading succeeds exactly when the erasure configuration can be coded, and then any `k` of the
   shards, whichever they are, reconstruct the file byte for byte; fewer are reported as such.
   */
  lemma EndToEnd(lib: Library, m: Manager, draws: Draws, data: Bytes, filename: string, shardData: seq<Option<Bytes>>)
    requires Addressable(data)
    ensures var p := Prepared(lib, m, draws, data, filename);
            && (p.Ok? <==> Codable(m.erasureConfig))
            && (p.Ok? && |shardData| == |p.value.shards|
                && (forall i :: 0 <= i < |shardData| && shardData[i].Some? ==> shardData[i].value == p.value.shards[i].data)
                ==> Reconstructed(lib, m, p.value.metadata, shardData) ==
                    if |Present(shardData)| < m.erasureConfig.dataShards
                    then Err(InsufficientFragments(|Present(shardData)|, m.erasureConfig.dataShards))
                    else Ok(data))
  {
    hide Sealed, Reconstructed, Encrypt, ShardId, ShardAt, Times, Present;
    if Codable(m.erasureConfig) {
      EstimateExact(lib, m, draws, data, filename);
      var p := Prepared(lib, m, draws, data, filename).value;
      assert p.metadata.(fileId := lib.hash(data)) == p.metadata;
      if |shardData| == |p.shards|
        && forall i :: 0 <= i < |shardData| && shardData[i].Some? ==> shardData[i].value == p.shards[i].data
      {
        ReconstructUnderAnyId(lib, m, draws, data, filename, shardData, lib.hash(data));
      }
    }
  }

  lemma SealedNonempty(lib: Library, draws: Draws, data: Bytes)
    ensures Sealed(lib, draws, data) != []
  {
    SerializeNonempty(Encrypted(lib.aead, FileEncryptor(draws.fileKey, DEFAULT_CHUNK_SIZE), draws.nonces, data));
  }

  lemma PaddedIsData(c: Codec, data: Bytes)
    ensures var p := Padded(c, data);
            && |data| <= |p| && p == data + p[|data|..] && p[..|p|] == p
            && forall i :: |data| <= i < |p| ==> p[i] == 0
  {
    CeilDivBounds(|data|, c.dataShards);
  }
}
