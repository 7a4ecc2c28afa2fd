/** The local store of encrypted files: a box of shards and a box of metadata (secure_storage_service.dart). */
module SecureStorage {
  import opened Basics
  import Encryption
  import opened HexMerkle
  import opened CryptoService
  import opened Sharding

  const DATA_SHARDS: nat := 10
  const PARITY_SHARDS: nat := 4
  const TOTAL_SHARDS: nat := DATA_SHARDS + PARITY_SHARDS

  datatype Metadata = Metadata(
    fileId: string,
    fileName: string,
    originalSize: nat,
    encryptedSize: nat,
    merkleRoot: HexDigest,
    originalHash: HexDigest,
    shardIds: seq<string>,
    totalShards: nat,
    dataShards: nat,
    parityShards: nat)

  datatype IntegrityReport = IntegrityReport(isValid: bool, errors: seq<IntegrityError>, shardsChecked: nat, shardsValid: nat)

  datatype IntegrityError = MetadataNotFound | ShardMissing(id: string) | ShardCorrupted(id: string)

  datatype Boxes = Boxes(shards: map<string, Shard>, metas: map<string, Metadata>)

  /** What one upload draws from its environment: nonces, the clock, and the text hashed into the id. */
  datatype Draws = Draws(nonces: nat -> Encryption.Nonce, now: int, stamp: Bytes)

  // ---- What the operations do ---------------------------------------------------------------

  function FileId(lib: Library, data: Bytes, draws: Draws): string { lib.sha(data + draws.stamp) }

  function CiphertextSize(chunks: seq<EncryptedChunk>): nat {
    if chunks == [] then 0 else CiphertextSize(chunks[..|chunks| - 1]) + |chunks[|chunks| - 1].data.ciphertext|
  }

  function Uploaded(lib: Library, data: Bytes, draws: Draws): EncryptedFile {
    EncryptedOf(lib, data, FileId(lib, data, draws), draws.nonces, draws.now)
  }

  function ShardsOf(lib: Library, mask: Mask, file: EncryptedFile): Result<seq<Shard>, DartError> {
    Created(lib.sha, mask, file.fileId, Serialize(lib, file), DATA_SHARDS, PARITY_SHARDS)
  }

  function ShardIds(fileId: string): (ids: seq<string>)
    ensures |ids| == TOTAL_SHARDS
  {
    seq(TOTAL_SHARDS, i requires 0 <= i => ShardId(fileId, i))
  }

  function MetadataOf(file: EncryptedFile, data: Bytes, fileName: string): Metadata {
    Metadata(file.fileId, fileName, |data|, CiphertextSize(file.chunks), file.merkleRoot, file.originalHash,
             ShardIds(file.fileId), TOTAL_SHARDS, DATA_SHARDS, PARITY_SHARDS)
  }

  function PutShards(box: map<string, Shard>, shards: seq<Shard>): map<string, Shard> {
    if shards == [] then box
    else
      var last := shards[|shards| - 1];
      PutShards(box, shards[..|shards| - 1])[ShardId(last.fileId, last.index) := last]
  }

  /** An upload either throws before anything is saved, or saves all shards and the metadata. */
  function Upload(lib: Library, mask: Mask, b: Boxes, data: Bytes, fileName: string, draws: Draws)
    : (Boxes, Result<Metadata, DartError>)
  {
    var file := Uploaded(lib, data, draws);
    match ShardsOf(lib, mask, file)
    case Err(e) => (b, Err(e))
    case Ok(shards) =>
      var metadata := MetadataOf(file, data, fileName);
      (Boxes(PutShards(b.shards, shards), b.metas[file.fileId := metadata]), Ok(metadata))
  }

  function Delete(b: Boxes, fileId: string): Boxes {
    if fileId !in b.metas then b
    else Boxes(b.shards - (set id | id in b.metas[fileId].shardIds), b.metas - {fileId})
  }

  function Fetched(b: Boxes, ids: seq<string>): (s: seq<Option<Shard>>)
    ensures |s| == |ids|
  {
    seq(|ids|, i requires 0 <= i < |ids| => if ids[i] in b.shards then Some(b.shards[ids[i]]) else None)
  }

  function Download(lib: Library, b: Boxes, fileId: string): Result<Bytes, DartError> {
    if fileId !in b.metas then Err(FileNotFound)
    else
      var metadata := b.metas[fileId];
      var shards := Fetched(b, metadata.shardIds);
      if AvailableCount(shards) < metadata.dataShards then Err(NotEnoughShards(AvailableCount(shards), metadata.dataShards))
      else
        var file :- Sharding.Reconstructed(lib, shards, metadata.dataShards);
        var decrypted :- DecryptedOf(lib, file);
        if lib.sha(decrypted) != metadata.originalHash then Err(FileIntegrity) else Ok(decrypted)
  }

  function ShardError(lib: Library, b: Boxes, id: string): Option<IntegrityError> {
    if id !in b.shards then Some(ShardMissing(id))
    else if lib.sha(b.shards[id].data) != b.shards[id].hash then Some(ShardCorrupted(id))
    else None
  }

  function ShardErrors(lib: Library, b: Boxes, ids: seq<string>): (e: seq<IntegrityError>)
    ensures |e| <= |ids|
  {
    if ids == [] then []
    else
      var last := ShardError(lib, b, ids[|ids| - 1]);
      ShardErrors(lib, b, ids[..|ids| - 1]) + if last.Some? then [last.value] else []
  }

  function Verify(lib: Library, b: Boxes, fileId: string): IntegrityReport {
    if fileId !in b.metas then IntegrityReport(false, [MetadataNotFound], 0, 0)
    else
      var ids := b.metas[fileId].shardIds;
      var errors := ShardErrors(lib, b, ids);
      var valid := |ids| - |errors|;
      IntegrityReport(valid >= b.metas[fileId].dataShards && errors == [], errors, |ids|, valid)
  }

  // ---- The service --------------------------------------------------------------------------

  class SecureStorageService {
    const lib: Library
    const mask: Mask
    var shardsBox: map<string, Shard>
    var filesMetaBox: map<string, Metadata>

    ghost function View(): Boxes
      reads this
    {
      Boxes(shardsBox, filesMetaBox)
    }

    constructor (lib: Library, mask: Mask)
      ensures this.lib == lib && this.mask == mask && View() == Boxes(map[], map[])
    {
      this.lib := lib;
      this.mask := mask;
      shardsBox := map[];
      filesMetaBox := map[];
    }

    method UploadFile(fileData: Bytes, fileName: string, draws: Draws) returns (result: Result<Metadata, DartError>)
      modifies this
      ensures (View(), result) == Upload(lib, mask, old(View()), fileData, fileName, draws)
    {
      hide EncryptedOf, Created, Serialize;
      var fileId := FileId(lib, fileData, draws);
      var encryptedFile := EncryptFile(lib, fileData, fileId, draws.nonces, draws.now);
      var created := CreateShards(lib.sha, mask, encryptedFile.fileId, Serialize(lib, encryptedFile), DATA_SHARDS, PARITY_SHARDS);
      if created.Err? {
        return Err(created.error);
      }
      var shards := created.value;
      for i := 0 to |shards|
        invariant filesMetaBox == old(filesMetaBox)
        invariant shardsBox == PutShards(old(shardsBox), shards[..i])
      {
        assert shards[..i + 1][..i] == shards[..i];
        shardsBox := shardsBox[ShardId(shards[i].fileId, shards[i].index) := shards[i]];
      }
      assert shards[..|shards|] == shards;
      CreatedIds(lib.sha, mask, encryptedFile.fileId, Serialize(lib, encryptedFile), DATA_SHARDS, PARITY_SHARDS);
      var shardIds := seq(|shards|, i requires 0 <= i < |shards| => ShardId(shards[i].fileId, shards[i].index));
      assert shardIds == ShardIds(encryptedFile.fileId);
      var metadata := Metadata(
        fileId, fileName, |fileData|, CiphertextSize(encryptedFile.chunks), encryptedFile.merkleRoot,
        encryptedFile.originalHash, shardIds, |shards|, DATA_SHARDS, PARITY_SHARDS);
      EncryptedIdentity(lib, fileData, fileId, draws);
      filesMetaBox := filesMetaBox[fileId := metadata];
      return Ok(metadata);
    }

    method DownloadFile(fileId: string) returns (result: Result<Bytes, DartError>)
      ensures result == Download(lib, View(), fileId)
    {
      if fileId !in filesMetaBox {
        return Err(FileNotFound);
      }
      var metadata := filesMetaBox[fileId];
      var shards: seq<Option<Shard>> := [];
      for i := 0 to |metadata.shardIds|
        invariant shards == Fetched(View(), metadata.shardIds)[..i]
      {
        var id := metadata.shardIds[i];
        shards := shards + [if id in shardsBox then Some(shardsBox[id]) else None];
      }
      assert shards == Fetched(View(), metadata.shardIds);
      var availableShards := AvailableCount(shards);
      if availableShards < metadata.dataShards {
        return Err(NotEnoughShards(availableShards, metadata.dataShards));
      }
      var encryptedFile := ReconstructFromShards(lib, shards, metadata.dataShards);
      if encryptedFile.Err? {
        return Err(encryptedFile.error);
      }
      var decrypted := DecryptFile(lib, encryptedFile.value);
      if decrypted.Err? {
        return Err(decrypted.error);
      }
      if lib.sha(decrypted.value) != metadata.originalHash {
        return Err(FileIntegrity);
      }
      return Ok(decrypted.value);
    }

    method DeleteFile(fileId: string)
      modifies this
      ensures View() == Delete(old(View()), fileId)
    {
      if fileId !in filesMetaBox {
        return;
      }
      var ids := filesMetaBox[fileId].shardIds;
      for i := 0 to |ids|
        invariant filesMetaBox == old(filesMetaBox)
        invariant shardsBox == old(shardsBox) - (set k | 0 <= k < i :: ids[k])
      {
        shardsBox := shardsBox - {ids[i]};
      }
      assert (set k | 0 <= k < |ids| :: ids[k]) == set id | id in ids;
      filesMetaBox := filesMetaBox - {fileId};
    }

    method VerifyFileIntegrity(fileId: string) returns (report: IntegrityReport)
      ensures report == Verify(lib, View(), fileId)
    {
      if fileId !in filesMetaBox {
        return IntegrityReport(false, [MetadataNotFound], 0, 0);
      }
      var metadata := filesMetaBox[fileId];
      var errors: seq<IntegrityError> := [];
      var shardsValid := 0;
      for i := 0 to |metadata.shardIds|
        invariant errors == ShardErrors(lib, View(), metadata.shardIds[..i])
        invariant shardsValid == i - |errors|
      {
        assert metadata.shardIds[..i + 1][..i] == metadata.shardIds[..i];
        var id := metadata.shardIds[i];
        if id !in shardsBox {
          errors := errors + [ShardMissing(id)];
        } else {
          var calculatedHash := lib.sha(shardsBox[id].data);
          if calculatedHash != shardsBox[id].hash {
            errors := errors + [ShardCorrupted(id)];
          } else {
            shardsValid := shardsValid + 1;
          }
        }
      }
      assert metadata.shardIds[..|metadata.shardIds|] == metadata.shardIds;
      var isValid := shardsValid >= metadata.dataShards && errors == [];
      return IntegrityReport(isValid, errors, |metadata.shardIds|, shardsValid);
    }
  }

  lemma CreatedIds(sha: Sha, mask: Mask, fileId: string, bytes: Bytes, d: nat, p: nat)
    requires Created(sha, mask, fileId, bytes, d, p).Ok?
    ensures var shards := Created(sha, mask, fileId, bytes, d, p).value;
            |shards| == d + p && forall i :: 0 <= i < |shards| ==>
              shards[i].fileId == fileId && shards[i].index == i && shards[i].hash == sha(shards[i].data)
  {}

  lemma EncryptedIdentity(lib: Library, data: Bytes, fileId: string, draws: Draws)
    ensures EncryptedOf(lib, data, fileId, draws.nonces, draws.now).fileId == fileId
    ensures EncryptedOf(lib, data, fileId, draws.nonces, draws.now).originalHash == lib.sha(data)
  {}

  // ---- What is recorded and what is checked -------------------------------------------------

  lemma {:induction false} CiphertextsAreAsLong(chunks: seq<EncryptedChunk>, data: Bytes)
    requires |data| <= |chunks| * 65536
    requires forall i :: 0 <= i < |chunks| ==> i * 65536 < |data| && |chunks[i].data.ciphertext| == |Piece(data, i)|
    ensures CiphertextSize(chunks) == |data|
    decreases |chunks|
  {
    if chunks != [] {
      var n := |chunks| - 1;
      var front := data[..n * 65536];
      forall i | 0 <= i < n ensures Piece(front, i) == Piece(data, i) {}
      CiphertextsAreAsLong(chunks[..n], front);
    }
  }

  /** The metadata of an upload; its encrypted size is that of the data, as nonces and tags are not counted. */
  lemma MetadataExact(lib: Library, data: Bytes, fileName: string, draws: Draws, i: nat)
    ensures var m := MetadataOf(Uploaded(lib, data, draws), data, fileName);
            && m.fileId == lib.sha(data + draws.stamp) && m.fileName == fileName
            && m.originalSize == m.encryptedSize == |data| && m.originalHash == lib.sha(data)
            && m.merkleRoot == Uploaded(lib, data, draws).merkleRoot
            && m.totalShards == |m.shardIds| == 14 && m.dataShards == 10 && m.parityShards == 4
            && (i < 14 ==> m.shardIds[i] == m.fileId + "_shard_" + Decimal(i))
  {
    hide EncryptedOf, Decimal;
    var file := Uploaded(lib, data, draws);
    EncryptedExact(lib, data, FileId(lib, data, draws), draws.nonces, draws.now, |file.chunks|);
    forall k | 0 <= k < |file.chunks| ensures k * 65536 < |data| && |file.chunks[k].data.ciphertext| == |Piece(data, k)| {
      EncryptedExact(lib, data, FileId(lib, data, draws), draws.nonces, draws.now, k);
      var d := file.chunks[k].data;
      assert |d.ciphertext + d.mac| == |Piece(data, k)| + 16;
    }
    CiphertextsAreAsLong(file.chunks, data);
  }

  /** Whatever is in the boxes, nothing is downloaded but bytes with the recorded hash; what is missing is named. */
  lemma DownloadIsChecked(lib: Library, b: Boxes, fileId: string)
    ensures var r := Download(lib, b, fileId);
            && (r == Err(FileNotFound) <== fileId !in b.metas)
            && (r.Ok? ==> fileId in b.metas && lib.sha(r.value) == b.metas[fileId].originalHash)
            && (fileId in b.metas ==>
                  var ids, d := b.metas[fileId].shardIds, b.metas[fileId].dataShards;
                  var available := |set i | 0 <= i < |ids| && ids[i] in b.shards|;
                  && (available < d ==> r == Err(NotEnoughShards(available, d)))
                  && (r.Ok? ==> available >= d))
  {
    hide DecryptedOf, Sharding.Reconstructed;
    if fileId in b.metas {
      var ids := b.metas[fileId].shardIds;
      var shards := Fetched(b, ids);
      AvailableExact(shards);
      assert (set i | 0 <= i < |shards| && shards[i].Some?) == set i | 0 <= i < |ids| && ids[i] in b.shards;
    }
  }

  /** A shard is in order if it is there and hashes to what it says. */
  ghost predicate InOrder(lib: Library, b: Boxes, id: string) {
    id in b.shards && lib.sha(b.shards[id].data) == b.shards[id].hash
  }

  lemma ShardErrorsPush(lib: Library, b: Boxes, ids: seq<string>, last: string)
    ensures ShardErrors(lib, b, ids + [last]) ==
            ShardErrors(lib, b, ids) + if last !in b.shards then [ShardMissing(last)]
                                       else if InOrder(lib, b, last) then [] else [ShardCorrupted(last)]
  {
    assert (ids + [last])[..|ids|] == ids;
  }

  /** The positions of ids whose shards are in order. */
  ghost function Good(lib: Library, b: Boxes, ids: seq<string>): set<int> {
    set i | 0 <= i < |ids| && InOrder(lib, b, ids[i])
  }

  lemma GoodPush(lib: Library, b: Boxes, ids: seq<string>, last: string)
    ensures |Good(lib, b, ids + [last])| == |Good(lib, b, ids)| + if InOrder(lib, b, last) then 1 else 0
    ensures Good(lib, b, []) == {}
  {
    hide InOrder;
    var all := ids + [last];
    forall i | 0 <= i < |ids| ensures all[i] == ids[i] {}
    if InOrder(lib, b, last) {
      assert Good(lib, b, all) == Good(lib, b, ids) + {|ids|};
    } else {
      assert Good(lib, b, all) == Good(lib, b, ids);
    }
  }

  lemma {:induction false} ShardErrorsCount(lib: Library, b: Boxes, ids: seq<string>)
    ensures |ids| - |ShardErrors(lib, b, ids)| == |Good(lib, b, ids)|
    decreases |ids|
  {
    hide ShardErrors, InOrder, Good;
    if ids == [] {
      NoIdsNoErrors(lib, b);
      GoodPush(lib, b, [], "");
    } else {
      var n := |ids| - 1;
      ShardErrorsCount(lib, b, ids[..n]);
      assert ids == ids[..n] + [ids[n]];
      ShardErrorsPush(lib, b, ids[..n], ids[n]);
      InOrderSplit(lib, b, ids[n]);
      GoodPush(lib, b, ids[..n], ids[n]);
    }
  }

  lemma InOrderSplit(lib: Library, b: Boxes, id: string)
    ensures id !in b.shards ==> !InOrder(lib, b, id)
  {}

  lemma NoIdsNoErrors(lib: Library, b: Boxes)
    ensures ShardErrors(lib, b, []) == []
  {}

  lemma {:induction false} ShardErrorsExact(lib: Library, b: Boxes, ids: seq<string>, id: string)
    ensures ShardMissing(id) in ShardErrors(lib, b, ids) <==> id in ids && id !in b.shards
    ensures ShardCorrupted(id) in ShardErrors(lib, b, ids) <==> id in ids && id in b.shards && !InOrder(lib, b, id)
    ensures MetadataNotFound !in ShardErrors(lib, b, ids)
    decreases |ids|
  {
    hide ShardErrors, InOrder;
    if ids == [] {
      NoIdsNoErrors(lib, b);
    } else {
      var n := |ids| - 1;
      ShardErrorsExact(lib, b, ids[..n], id);
      ShardErrorsPush(lib, b, ids[..n], ids[n]);
      assert ids == ids[..n] + [ids[n]];
    }
  }

  /**
   A file is reported valid exactly if all its shards are in order and there are enough of them; every
   missing and every corrupted shard is reported, and nothing else.
   */
  lemma VerifyExact(lib: Library, b: Boxes, fileId: string, id: string)
    ensures fileId !in b.metas ==> Verify(lib, b, fileId) == IntegrityReport(false, [MetadataNotFound], 0, 0)
    ensures fileId in b.metas ==>
              var ids := b.metas[fileId].shardIds;
              var report := Verify(lib, b, fileId);
              && (report.isValid <==> |ids| >= b.metas[fileId].dataShards && forall i :: 0 <= i < |ids| ==> InOrder(lib, b, ids[i]))
              && (ShardMissing(id) in report.errors <==> id in ids && id !in b.shards)
              && (ShardCorrupted(id) in report.errors <==> id in ids && id in b.shards && !InOrder(lib, b, id))
              && MetadataNotFound !in report.errors
              && report.shardsChecked == |ids|
              && report.shardsValid == |ids| - |report.errors| == |set i | 0 <= i < |ids| && InOrder(lib, b, ids[i])|
  {
    hide ShardErrors, InOrder;
    if fileId in b.metas {
      var ids := b.metas[fileId].shardIds;
      var errors := ShardErrors(lib, b, ids);
      ShardErrorsExact(lib, b, ids, id);
      ShardErrorsCount(lib, b, ids);
      if errors == [] {
        forall i | 0 <= i < |ids| ensures InOrder(lib, b, ids[i]) { NoErrorInOrder(lib, b, ids, ids[i]); }
      } else {
        SomeErrorNotInOrder(lib, b, ids);
      }
    }
  }

  lemma NoErrorInOrder(lib: Library, b: Boxes, ids: seq<string>, id: string)
    requires ShardErrors(lib, b, ids) == [] && id in ids
    ensures InOrder(lib, b, id)
  {
    hide ShardErrors;
    ShardErrorsExact(lib, b, ids, id);
  }

  lemma SomeErrorNotInOrder(lib: Library, b: Boxes, ids: seq<string>)
    requires ShardErrors(lib, b, ids) != []
    ensures exists i :: 0 <= i < |ids| && !InOrder(lib, b, ids[i])
  {
    hide ShardErrors;
    var e := ShardErrors(lib, b, ids)[0];
    assert e in ShardErrors(lib, b, ids);
    match e
    case MetadataNotFound => ShardErrorsExact(lib, b, ids, "");
    case ShardMissing(id) =>
      ShardErrorsExact(lib, b, ids, id);
      var i :| 0 <= i < |ids| && ids[i] == id;
      assert !InOrder(lib, b, ids[i]);
    case ShardCorrupted(id) =>
      ShardErrorsExact(lib, b, ids, id);
      var i :| 0 <= i < |ids| && ids[i] == id;
      assert !InOrder(lib, b, ids[i]);
  }

  // ---- Invariants ---------------------------------------------------------------------------

  /** Metadata lists the shard ids of its own file and no others. */
  ghost predicate WellFormed(b: Boxes) {
    forall id :: id in b.metas ==> b.metas[id].fileId == id && b.metas[id].shardIds == ShardIds(id)
  }

  /** The metadata and all shards of a file are in their boxes. */
  ghost predicate Holds(b: Boxes, fileId: string, metadata: Metadata, shards: seq<Shard>) {
    && fileId in b.metas && b.metas[fileId] == metadata
    && |shards| == TOTAL_SHARDS
    && forall i :: 0 <= i < TOTAL_SHARDS ==> ShardId(fileId, i) in b.shards && b.shards[ShardId(fileId, i)] == shards[i]
  }

  lemma {:induction false} PutShardsEffect(box: map<string, Shard>, shards: seq<Shard>, fileId: string)
    requires forall i :: 0 <= i < |shards| ==> shards[i].fileId == fileId && shards[i].index == i
    ensures var after := PutShards(box, shards);
            && (forall i :: 0 <= i < |shards| ==> ShardId(fileId, i) in after && after[ShardId(fileId, i)] == shards[i])
            && (forall key :: (forall i :: 0 <= i < |shards| ==> key != ShardId(fileId, i)) ==>
                  (key in after <==> key in box) && (key in box ==> after[key] == box[key]))
    decreases |shards|
  {
    hide ShardId;
    if shards != [] {
      var n := |shards| - 1;
      PutShardsEffect(box, shards[..n], fileId);
      forall i | 0 <= i < n ensures ShardId(fileId, i) != ShardId(fileId, n) {
        if ShardId(fileId, i) == ShardId(fileId, n) { ShardIdInjective(fileId, i, fileId, n); }
      }
    }
  }

  /** An upload never throws, and saves its file completely. */
  lemma UploadHolds(lib: Library, mask: Mask, b: Boxes, data: Bytes, fileName: string, draws: Draws)
    ensures var file := Uploaded(lib, data, draws);
            && ShardsOf(lib, mask, file).Ok?
            && Holds(Upload(lib, mask, b, data, fileName, draws).0, file.fileId,
                     MetadataOf(file, data, fileName), ShardsOf(lib, mask, file).value)
  {
    hide Created, Serialize, EncryptedOf, ShardId;
    ShardsCreated(lib, mask, data, draws);
    var file := Uploaded(lib, data, draws);
    CreatedIds(lib.sha, mask, file.fileId, Serialize(lib, file), DATA_SHARDS, PARITY_SHARDS);
    PutShardsEffect(b.shards, ShardsOf(lib, mask, file).value, file.fileId);
  }

  lemma EightyOne()
    ensures Times(DATA_SHARDS - 1, DATA_SHARDS - 1) == 81
  {}

  lemma ShardsCreated(lib: Library, mask: Mask, data: Bytes, draws: Draws)
    ensures ShardsOf(lib, mask, Uploaded(lib, data, draws)).Ok?
  {
    hide Serialize, EncryptedOf, Enveloped, Created;
    var file := Uploaded(lib, data, draws);
    EncryptedEnveloped(lib, data, FileId(lib, data, draws), draws.nonces, draws.now);
    SerializeRoundTrip(lib, file);
    EightyOne();
    hide Times, RangesValid;
    RangesValidFrom(|Serialize(lib, file)|, DATA_SHARDS);
    CreatedWhenValid(lib.sha, mask, file.fileId, Serialize(lib, file), DATA_SHARDS, PARITY_SHARDS);
  }

  /** Uploading a file leaves every other file alone. */
  lemma UploadElsewhere(lib: Library, mask: Mask, b: Boxes, data: Bytes, fileName: string, draws: Draws,
                        id: string, metadata: Metadata, shards: seq<Shard>)
    requires WellFormed(b)
    requires FileId(lib, data, draws) != id && Holds(b, id, metadata, shards)
    ensures Holds(Upload(lib, mask, b, data, fileName, draws).0, id, metadata, shards)
  {
    hide Created, Serialize, ShardId;
    ShardsCreated(lib, mask, data, draws);
    var file := Uploaded(lib, data, draws);
    EncryptedIdentity(lib, data, FileId(lib, data, draws), draws);
    CreatedIds(lib.sha, mask, file.fileId, Serialize(lib, file), DATA_SHARDS, PARITY_SHARDS);
    PutShardsEffect(b.shards, ShardsOf(lib, mask, file).value, file.fileId);
    forall i, j | 0 <= i < TOTAL_SHARDS && 0 <= j < TOTAL_SHARDS ensures ShardId(id, i) != ShardId(file.fileId, j) {
      if ShardId(id, i) == ShardId(file.fileId, j) { ShardIdInjective(id, i, file.fileId, j); }
    }
  }

  lemma OperationsWellFormed(lib: Library, mask: Mask, b: Boxes, data: Bytes, fileName: string, draws: Draws, fileId: string)
    requires WellFormed(b)
    ensures WellFormed(Upload(lib, mask, b, data, fileName, draws).0)
    ensures WellFormed(Delete(b, fileId))
  {
    hide ShardIds, Created, EncryptedOf;
  }

  /**
   Deleting a file removes its metadata and all of its shards, and touches no shard and no metadata
   of any other file.
   */
  lemma DeleteExact(b: Boxes, fileId: string)
    requires WellFormed(b) && fileId in b.metas
    ensures var after := Delete(b, fileId);
            && fileId !in after.metas
            && (forall i :: 0 <= i < TOTAL_SHARDS ==> ShardId(fileId, i) !in after.shards)
            && (forall id :: id != fileId ==> (id in after.metas <==> id in b.metas)
                                              && (id in b.metas ==> after.metas[id] == b.metas[id]))
            && (forall id, i :: id != fileId ==>
                  (ShardId(id, i) in after.shards <==> ShardId(id, i) in b.shards)
                  && (ShardId(id, i) in b.shards ==> after.shards[ShardId(id, i)] == b.shards[ShardId(id, i)]))
  {
    hide ShardId;
    var ids := ShardIds(fileId);
    forall i | 0 <= i < TOTAL_SHARDS ensures ShardId(fileId, i) in ids {
      assert ids[i] == ShardId(fileId, i);
    }
    forall id, i: nat | id != fileId ensures ShardId(id, i) !in ids {
      if ShardId(id, i) in ids {
        var j :| 0 <= j < TOTAL_SHARDS && ids[j] == ShardId(id, i);
        ShardIdInjective(id, i, fileId, j);
      }
    }
  }

  lemma DeleteElsewhere(b: Boxes, fileId: string, id: string, metadata: Metadata, shards: seq<Shard>)
    requires WellFormed(b) && fileId != id && Holds(b, id, metadata, shards)
    ensures Holds(Delete(b, fileId), id, metadata, shards)
  {
    hide ShardId;
    if fileId in b.metas {
      DeleteExact(b, fileId);
    }
  }

  // ---- Runs ---------------------------------------------------------------------------------

  datatype Operation =
    | UploadOp(data: Bytes, fileName: string, draws: Draws)
    | DeleteOp(fileId: string)

  function Step(lib: Library, mask: Mask, b: Boxes, op: Operation): Boxes {
    match op
    case UploadOp(data, fileName, draws) => Upload(lib, mask, b, data, fileName, draws).0
    case DeleteOp(fileId) => Delete(b, fileId)
  }

  function Run(lib: Library, mask: Mask, b: Boxes, ops: seq<Operation>): Boxes
    decreases |ops|
  {
    if ops == [] then b else Run(lib, mask, Step(lib, mask, b, ops[0]), ops[1..])
  }

  predicate Elsewhere(lib: Library, op: Operation, id: string) {
    match op
    case UploadOp(data, _, draws) => FileId(lib, data, draws) != id
    case DeleteOp(fileId) => fileId != id
  }

  lemma {:induction false} RunWellFormed(lib: Library, mask: Mask, b: Boxes, ops: seq<Operation>)
    requires WellFormed(b)
    ensures WellFormed(Run(lib, mask, b, ops))
    decreases |ops|
  {
    hide WellFormed, Upload, Delete;
    if ops != [] {
      match ops[0] {
        case UploadOp(data, fileName, draws) => OperationsWellFormed(lib, mask, b, data, fileName, draws, "");
        case DeleteOp(fileId) => OperationsWellFormed(lib, mask, b, [], "", NoDraws(), fileId);
      }
      RunWellFormed(lib, mask, Step(lib, mask, b, ops[0]), ops[1..]);
    }
  }

  function NoDraws(): Draws { Draws(_ => Zeros(12), 0, []) }

  lemma {:induction false} RunElsewhere(lib: Library, mask: Mask, b: Boxes, ops: seq<Operation>,
                                        id: string, metadata: Metadata, shards: seq<Shard>)
    requires WellFormed(b) && Holds(b, id, metadata, shards)
    requires forall i :: 0 <= i < |ops| ==> Elsewhere(lib, ops[i], id)
    ensures Holds(Run(lib, mask, b, ops), id, metadata, shards)
    decreases |ops|
  {
    hide WellFormed, Holds, Upload, Delete;
    if ops != [] {
      assert Elsewhere(lib, ops[0], id);
      match ops[0] {
        case UploadOp(data, fileName, draws) => UploadElsewhere(lib, mask, b, data, fileName, draws, id, metadata, shards);
        case DeleteOp(fileId) => DeleteElsewhere(b, fileId, id, metadata, shards);
      }
      RunWellFormed(lib, mask, b, ops[..1]);
      OneStep(lib, mask, b, ops[0]);
      assert ops[..1] == [ops[0]];
      RunElsewhere(lib, mask, Step(lib, mask, b, ops[0]), ops[1..], id, metadata, shards);
    }
  }

  lemma OneStep(lib: Library, mask: Mask, b: Boxes, op: Operation)
    ensures Run(lib, mask, b, [op]) == Step(lib, mask, b, op)
  {}

  /** What is held completely is downloaded byte for byte and found valid. */
  lemma HeldIsReadable(lib: Library, mask: Mask, b: Boxes, data: Bytes, fileName: string, draws: Draws)
    requires var file := Uploaded(lib, data, draws);
             && ShardsOf(lib, mask, file).Ok?
             && Holds(b, file.fileId, MetadataOf(file, data, fileName), ShardsOf(lib, mask, file).value)
    ensures var file := Uploaded(lib, data, draws);
            && Download(lib, b, file.fileId) == Ok(data)
            && Verify(lib, b, file.fileId).isValid
  {
    hide Created, Serialize, EncryptedOf, ShardId, Sharding.Reconstructed, DecryptedOf, Enveloped, AvailableCount;
    var file := Uploaded(lib, data, draws);
    var created := ShardsOf(lib, mask, file).value;
    var ids := ShardIds(file.fileId);
    var shards := Fetched(b, ids);
    forall i | 0 <= i < TOTAL_SHARDS ensures shards[i] == Some(created[i]) {
      assert ids[i] == ShardId(file.fileId, i);
    }
    EncryptedIdentity(lib, data, FileId(lib, data, draws), draws);
    EncryptedEnveloped(lib, data, FileId(lib, data, draws), draws.nonces, draws.now);
    SerializeRoundTrip(lib, file);
    assert Times(DATA_SHARDS - 1, DATA_SHARDS - 1) == 81;
    CreatedIds(lib.sha, mask, file.fileId, Serialize(lib, file), DATA_SHARDS, PARITY_SHARDS);
    ReconstructsFile(lib, mask, file, DATA_SHARDS, PARITY_SHARDS, shards);
    AvailableAtLeast(shards, DATA_SHARDS);
    CryptoService.FileRoundTrip(lib, data, FileId(lib, data, draws), draws.nonces, draws.now);
    forall i | 0 <= i < TOTAL_SHARDS ensures ShardError(lib, b, ids[i]).None? {
      assert ids[i] == ShardId(file.fileId, i);
    }
    NoShardErrors(lib, b, ids);
  }

  lemma {:induction false} NoShardErrors(lib: Library, b: Boxes, ids: seq<string>)
    requires forall i :: 0 <= i < |ids| ==> ShardError(lib, b, ids[i]).None?
    ensures ShardErrors(lib, b, ids) == []
  {
    if ids != [] {
      NoShardErrors(lib, b, ids[..|ids| - 1]);
    }
  }

  /**
   Over every run from empty boxes: once a file is uploaded, uploads and deletes of files with other
   ids leave it downloadable byte for byte and valid.
   */
  lemma UploadedStaysReadable(lib: Library, mask: Mask, before: seq<Operation>, data: Bytes, fileName: string, draws: Draws,
                              after: seq<Operation>)
    requires forall i :: 0 <= i < |after| ==> Elsewhere(lib, after[i], FileId(lib, data, draws))
    ensures var b := Run(lib, mask, Boxes(map[], map[]), before);
            var end := Run(lib, mask, Upload(lib, mask, b, data, fileName, draws).0, after);
            && Download(lib, end, FileId(lib, data, draws)) == Ok(data)
            && Verify(lib, end, FileId(lib, data, draws)).isValid
  {
    hide Run, Upload, Download, Verify, EncryptedOf, ShardsOf;
    RunWellFormed(lib, mask, Boxes(map[], map[]), before);
    var b := Run(lib, mask, Boxes(map[], map[]), before);
    var file := Uploaded(lib, data, draws);
    EncryptedIdentity(lib, data, FileId(lib, data, draws), draws);
    UploadHolds(lib, mask, b, data, fileName, draws);
    OperationsWellFormed(lib, mask, b, data, fileName, draws, "");
    var b1 := Upload(lib, mask, b, data, fileName, draws).0;
    RunElsewhere(lib, mask, b1, after, file.fileId, MetadataOf(file, data, fileName), ShardsOf(lib, mask, file).value);
    HeldIsReadable(lib, mask, Run(lib, mask, b1, after), data, fileName, draws);
  }
}
