/** Data shards and XOR parity shards of the Dart application (crypto_service.dart). */
module Sharding {
  import opened Basics
  import opened GaloisField
  import opened HexMerkle
  import opened CryptoService

  datatype Shard = Shard(index: nat, data: Bytes, hash: HexDigest, isParityShard: bool, fileId: string)

  /** `mask(seed)(j)` is the `j`th byte drawn from a pseudorandom generator with that seed. */
  type Mask = (nat, nat) -> Byte

  /** SHA-256 in hex. */
  type Sha = Bytes -> HexDigest

  function ShardId(fileId: string, index: nat): string { fileId + "_shard_" + Decimal(index) }

  /** Shard ids never clash, whatever the file ids look like. */
  lemma ShardIdInjective(f: string, i: nat, g: string, j: nat)
    requires ShardId(f, i) == ShardId(g, j)
    ensures f == g && i == j
  {
    hide Decimal;
    var s := ShardId(f, i);
    var di, dj := Decimal(i), Decimal(j);
    assert s[|s| - |di| - 1] == '_' && s[|s| - |dj| - 1] == '_';
    assert s[|s| - |di|..] == di && s[|s| - |dj|..] == dj;
    assert |di| == |dj|;
    DecimalInjective(i, j);
    assert f == s[..|s| - |di| - 7] && g == s[..|s| - |dj| - 7];
  }

  // ---- Data shards --------------------------------------------------------------------------

  function ShardSize(n: nat, d: nat): nat
    requires d > 0
  {
    CeilDiv(n, d)
  }

  /** The list of ranges that `sublist` is asked for is legal. */
  predicate RangesValid(n: nat, d: nat)
    requires d > 0
  {
    forall i :: 0 <= i < d ==> Times(i, ShardSize(n, d)) <= n
  }

  function DataSlice(bytes: Bytes, d: nat, i: nat): Bytes
    requires i < d && RangesValid(|bytes|, d)
  {
    var start := Times(i, ShardSize(|bytes|, d));
    bytes[start..Min(start + ShardSize(|bytes|, d), |bytes|)]
  }

  function DataSlices(bytes: Bytes, d: nat): (s: seq<Bytes>)
    requires d > 0 && RangesValid(|bytes|, d)
    ensures |s| == d
  {
    seq(d, i requires 0 <= i < d => DataSlice(bytes, d, i))
  }

  /** The ranges are legal exactly when the last shard starts within the bytes. */
  lemma RangesValidExact(n: nat, d: nat)
    requires d > 0
    ensures RangesValid(n, d) <==> Times(d - 1, ShardSize(n, d)) <= n
  {
    hide Times, CeilDiv;
    forall i | 0 <= i < d - 1 ensures Times(i, ShardSize(n, d)) <= Times(d - 1, ShardSize(n, d)) {
      TimesFits(i, d - 1, ShardSize(n, d));
    }
  }

  /** They are legal for every length from (d-1)^2 on. */
  lemma RangesValidFrom(n: nat, d: nat)
    requires d > 0 && n >= Times(d - 1, d - 1)
    ensures RangesValid(n, d)
  {
    hide Times, CeilDiv;
    var size := ShardSize(n, d);
    CeilDivBounds(n, d);
    TimesStep(d - 1, size);
    RangesValidExact(n, d);
    if size < d - 1 {
      // Then n <= d*(d-2) < (d-1)^2.
      TimesComm(d, size); TimesComm(d, d - 2);
      if size < d - 2 { TimesFits(size, d - 2, d); }
      TimesStep(d - 2, d - 1); TimesComm(d - 2, d - 1); TimesComm(d - 2, d);
      TimesStep(d - 1, d - 2);
    }
  }

  /** Every length from five on can be refused: all but one of as many shards take two bytes each. */
  lemma RangesInvalid(n: nat)
    requires n >= 5
    ensures !RangesValid(n, n - 1)
  {
    var d := n - 1;
    assert ShardSize(n, d) == 2 by { assert (n + d - 1) == 2 * d; }
    TimesIsProduct(d - 1, 2);
    RangesValidExact(n, d);
  }

  lemma {:induction false} FlattenPrefix(bytes: Bytes, d: nat, i: nat)
    requires 0 < d && i <= d && RangesValid(|bytes|, d)
    ensures Flatten(DataSlices(bytes, d)[..i]) == bytes[..Min(Times(i, ShardSize(|bytes|, d)), |bytes|)]
  {
    hide Times, CeilDiv;
    var size := ShardSize(|bytes|, d);
    var slices := DataSlices(bytes, d);
    if i == 0 {
      TimesStep(0, size);
    } else {
      FlattenPrefix(bytes, d, i - 1);
      TimesStep(i - 1, size);
      assert slices[..i] == slices[..i - 1] + [slices[i - 1]];
      FlattenPush(slices[..i - 1], slices[i - 1]);
      assert slices[i - 1] == DataSlice(bytes, d, i - 1);
    }
  }

  lemma FlattenDataSlices(bytes: Bytes, d: nat)
    requires d > 0 && RangesValid(|bytes|, d)
    ensures Flatten(DataSlices(bytes, d)) == bytes
  {
    hide Times, CeilDiv;
    FlattenPrefix(bytes, d, d);
    CeilDivBounds(|bytes|, d);
    assert DataSlices(bytes, d)[..d] == DataSlices(bytes, d);
    assert bytes[..|bytes|] == bytes;
  }

  // ---- Parity shards ------------------------------------------------------------------------

  /** The XOR of the bytes at position `j`, shards that are too short counting as zero. */
  function XorAt(shards: seq<Bytes>, j: nat): Byte {
    if shards == [] then 0
    else
      var last := shards[|shards| - 1];
      Add(XorAt(shards[..|shards| - 1], j), if j < |last| then last[j] else 0)
  }

  /** The parity shard computed from the shards made so far. */
  function ParityOver(shards: seq<Bytes>, mask: Mask, seed: nat, size: nat): Bytes {
    seq(size, j requires 0 <= j => Add(XorAt(shards, j), mask(seed, j)))
  }

  lemma XorOfNone()
    ensures forall j: nat :: XorAt([], j) == 0
  {}

  lemma XorOneMore(shards: seq<Bytes>, i: nat)
    requires i < |shards|
    ensures forall j: nat :: XorAt(shards[..i + 1], j) == Add(XorAt(shards[..i], j), if j < |shards[i]| then shards[i][j] else 0)
  {
    hide Add;
    assert shards[..i + 1][..i] == shards[..i];
  }

  method CreateParityShard(shards: seq<Shard>, mask: Mask, parityIndex: nat, size: nat) returns (parity: Bytes)
    ensures parity == ParityOver(Payloads(shards), mask, parityIndex, size)
  {
    hide Add, XorAt;
    ghost var payloads := Payloads(shards);
    XorOfNone();
    var result := new Byte[size](_ => 0);
    for i := 0 to |shards|
      invariant forall j :: 0 <= j < size ==> result[j] == XorAt(payloads[..i], j)
    {
      var data := shards[i].data;
      XorOneMore(payloads, i);
      for j := 0 to Min(size, |data|)
        invariant forall k :: 0 <= k < size ==> result[k] == XorAt(payloads[..if k < j then i + 1 else i], k)
      {
        result[j] := Add(result[j], data[j]);
      }
      forall k | 0 <= k < size ensures result[k] == XorAt(payloads[..i + 1], k) {
        AddZero(XorAt(payloads[..i], k));
      }
    }
    assert payloads[..|shards|] == payloads;
    for i := 0 to size
      invariant forall k :: 0 <= k < size ==>
        result[k] == if k < i then Add(XorAt(payloads, k), mask(parityIndex, k)) else XorAt(payloads, k)
    {
      result[i] := Add(result[i], mask(parityIndex, i));
    }
    return result[..];
  }

  function Payloads(shards: seq<Shard>): (p: seq<Bytes>)
    ensures |p| == |shards|
  {
    seq(|shards|, i requires 0 <= i < |shards| => shards[i].data)
  }

  /**
   The parity shards in closed form.  Only the first depends on the data: each later one is the
   XOR of two consecutive masks.
   */
  function ParitySlice(slices: seq<Bytes>, mask: Mask, i: nat, size: nat): Bytes {
    seq(size, j requires 0 <= j => Add(if i == 0 then XorAt(slices, j) else mask(i - 1, j), mask(i, j)))
  }

  function ParitySlices(slices: seq<Bytes>, mask: Mask, p: nat, size: nat): (s: seq<Bytes>)
    ensures |s| == p
  {
    seq(p, i requires 0 <= i => ParitySlice(slices, mask, i, size))
  }

  /** After `i` parity shards the running XOR has become the last mask. */
  lemma {:induction false} RunningXor(slices: seq<Bytes>, mask: Mask, i: nat, size: nat, j: nat)
    requires j < size
    ensures XorAt(slices + ParitySlices(slices, mask, i, size), j) == if i == 0 then XorAt(slices, j) else mask(i - 1, j)
    decreases i
  {
    hide Add;
    var all := slices + ParitySlices(slices, mask, i, size);
    if i == 0 {
      assert all == slices;
    } else {
      var before := slices + ParitySlices(slices, mask, i - 1, size);
      assert all[..|all| - 1] == before;
      RunningXor(slices, mask, i - 1, size, j);
      var x := XorAt(before, j);
      assert all[|all| - 1][j] == Add(x, mask(i - 1, j));
      AddComm(x, mask(i - 1, j)); AddComm(x, Add(mask(i - 1, j), x)); AddCancel(mask(i - 1, j), x);
    }
  }

  /** The parity computed from all shards made so far is the closed form. */
  lemma ParityClosedForm(slices: seq<Bytes>, mask: Mask, i: nat, size: nat)
    ensures ParityOver(slices + ParitySlices(slices, mask, i, size), mask, i, size) == ParitySlice(slices, mask, i, size)
  {
    hide Add, XorAt;
    forall j | 0 <= j < size
      ensures ParityOver(slices + ParitySlices(slices, mask, i, size), mask, i, size)[j]
           == ParitySlice(slices, mask, i, size)[j]
    {
      RunningXor(slices, mask, i, size, j);
    }
  }

  // ---- All shards ---------------------------------------------------------------------------

  function AllSlices(bytes: Bytes, mask: Mask, d: nat, p: nat): (s: seq<Bytes>)
    requires d > 0 && RangesValid(|bytes|, d)
    ensures |s| == d + p
  {
    DataSlices(bytes, d) + ParitySlices(DataSlices(bytes, d), mask, p, ShardSize(|bytes|, d))
  }

  function ShardOf(sha: Sha, fileId: string, data: Bytes, index: nat, d: nat): Shard {
    Shard(index, data, sha(data), index >= d, fileId)
  }

  /** The result of sharding `bytes` into `d` data and `p` parity shards. */
  function Created(sha: Sha, mask: Mask, fileId: string, bytes: Bytes, d: nat, p: nat): Result<seq<Shard>, DartError> {
    if d == 0 then Err(UnsupportedError)
    else if !RangesValid(|bytes|, d) then Err(RangeError)
    else
      var slices := AllSlices(bytes, mask, d, p);
      Ok(seq(d + p, i requires 0 <= i < d + p => ShardOf(sha, fileId, slices[i], i, d)))
  }

  lemma CreatedWhenValid(sha: Sha, mask: Mask, fileId: string, bytes: Bytes, d: nat, p: nat)
    requires d > 0 && RangesValid(|bytes|, d)
    ensures Created(sha, mask, fileId, bytes, d, p).Ok?
  {}

  method CreateShards(sha: Sha, mask: Mask, fileId: string, fileBytes: Bytes, dataShards: nat, parityShards: nat)
    returns (result: Result<seq<Shard>, DartError>)
    ensures result == Created(sha, mask, fileId, fileBytes, dataShards, parityShards)
  {
    hide Times, CeilDiv, XorAt, Add, ParitySlice, ParityOver;
    if dataShards == 0 {
      return Err(UnsupportedError);
    }
    var shardSize := ShardSize(|fileBytes|, dataShards);
    var shards: seq<Shard> := [];
    for i := 0 to dataShards
      invariant |shards| == i
      invariant forall k :: 0 <= k < i ==> Times(k, shardSize) <= |fileBytes|
      invariant forall k :: 0 <= k < i ==> shards[k] == ShardOf(sha, fileId,
        fileBytes[Times(k, shardSize)..Min(Times(k, shardSize) + shardSize, |fileBytes|)], k, dataShards)
    {
      var start := Times(i, shardSize);
      var end := Min(start + shardSize, |fileBytes|);
      if start > end {
        return Err(RangeError);
      }
      var data := fileBytes[start..end];
      shards := shards + [Shard(i, data, sha(data), false, fileId)];
    }
    ghost var slices := DataSlices(fileBytes, dataShards);
    ghost var all := AllSlices(fileBytes, mask, dataShards, parityShards);
    assert Payloads(shards) == slices;
    for i := 0 to parityShards
      invariant |shards| == dataShards + i
      invariant Payloads(shards) == slices + ParitySlices(slices, mask, i, shardSize)
      invariant forall k :: 0 <= k < dataShards + i ==> shards[k] == ShardOf(sha, fileId, all[k], k, dataShards)
    {
      var parityData := CreateParityShard(shards, mask, i, shardSize);
      ParityClosedForm(slices, mask, i, shardSize);
      var shard := Shard(dataShards + i, parityData, sha(parityData), true, fileId);
      assert Payloads(shards + [shard]) == Payloads(shards) + [parityData];
      shards := shards + [shard];
      assert ParitySlices(slices, mask, i + 1, shardSize)
          == ParitySlices(slices, mask, i, shardSize) + [ParitySlice(slices, mask, i, shardSize)];
    }
    assert shards == Created(sha, mask, fileId, fileBytes, dataShards, parityShards).value;
    return Ok(shards);
  }

  /**
   Sharding fails without data shards or if the last of them would start behind the end.  Otherwise
   shard `i` is labelled, and holds its slice or the parity bytes.
   */
  lemma CreatedExact(sha: Sha, mask: Mask, fileId: string, bytes: Bytes, d: nat, p: nat, i: nat)
    ensures d == 0 ==> Created(sha, mask, fileId, bytes, d, p) == Err(UnsupportedError)
    ensures d > 0 && (d - 1) * CeilDiv(|bytes|, d) > |bytes| ==> Created(sha, mask, fileId, bytes, d, p) == Err(RangeError)
    ensures d > 0 && (d - 1) * CeilDiv(|bytes|, d) <= |bytes| ==>
              && RangesValid(|bytes|, d)
              && var created := Created(sha, mask, fileId, bytes, d, p);
              && created.Ok? && |created.value| == d + p
              && (i < d + p ==>
                    var shard := created.value[i];
                    && shard.index == i && shard.fileId == fileId && shard.hash == sha(shard.data)
                    && (shard.isParityShard <==> i >= d))
              && (i < d ==>
                    var from := i * CeilDiv(|bytes|, d);
                    from <= |bytes| && created.value[i].data == bytes[from..Min(from + CeilDiv(|bytes|, d), |bytes|)])
              && (d <= i < d + p ==>
                    && |created.value[i].data| == CeilDiv(|bytes|, d)
                    && forall j :: 0 <= j < CeilDiv(|bytes|, d) ==>
                         created.value[i].data[j]
                         == Add(if i == d then XorAt(DataSlices(bytes, d), j) else mask(i - d - 1, j), mask(i - d, j)))
  {
    hide CeilDiv, XorAt, Add, Times;
    if d > 0 {
      RangesValidExact(|bytes|, d);
      TimesIsProduct(d - 1, CeilDiv(|bytes|, d));
      TimesIsProduct(i, CeilDiv(|bytes|, d));
    }
  }

  /**
   The XOR over all shards and the XOR over all but one differ by the bytes of that one.  So the first
   parity shard would be enough to recover any one data shard.
   */
  lemma {:induction false} OneShardRecoverable(shards: seq<Bytes>, i: nat, j: nat)
    requires i < |shards|
    ensures Add(XorAt(shards, j), XorAt(shards[i := []], j)) == if j < |shards[i]| then shards[i][j] else 0
    decreases |shards|
  {
    hide Add;
    var n := |shards| - 1;
    var byte := if j < |shards[i]| then shards[i][j] else 0;
    var front, front' := XorAt(shards[..n], j), XorAt(shards[i := []][..n], j);
    var last := if j < |shards[n]| then shards[n][j] else 0;
    if i == n {
      assert shards[i := []][..n] == shards[..n];
      AddZero(front);
      AddComm(Add(front, last), front); AddComm(front, last); AddCancel(last, front);
      AddComm(front, Add(last, front));
    } else {
      OneShardRecoverable(shards[..n], i, j);
      assert shards[i := []][..n] == shards[..n][i := []];
      AddInterchange(front, last, front', last);
      AddZero(last);
      AddZero(byte);
    }
  }

  /** From the second on, parity shards say nothing about the file. */
  lemma LaterParityIgnoresFile(sha: Sha, mask: Mask, f: string, a: Bytes, b: Bytes, d: nat, p: nat, i: nat)
    requires d > 0 && RangesValid(|a|, d) && RangesValid(|b|, d) && ShardSize(|a|, d) == ShardSize(|b|, d)
    requires d < i < d + p
    ensures Created(sha, mask, f, a, d, p).value[i] == Created(sha, mask, f, b, d, p).value[i]
  {
    hide Times, CeilDiv, XorAt;
    var size := ShardSize(|a|, d);
    assert ParitySlice(DataSlices(a, d), mask, i - d, size) == ParitySlice(DataSlices(b, d), mask, i - d, size);
  }

  // ---- Reconstruction -----------------------------------------------------------------------

  /** The data shards among the first `d` that are there. */
  function Collected(shards: seq<Option<Shard>>, d: nat): Bytes
    requires d <= |shards|
  {
    if d == 0 then []
    else Collected(shards, d - 1) + if shards[d - 1].Some? then shards[d - 1].value.data else []
  }

  function AvailableCount<T>(shards: seq<Option<T>>): (n: nat)
    ensures n <= |shards|
  {
    if shards == [] then 0 else AvailableCount(shards[..|shards| - 1]) + if shards[|shards| - 1].Some? then 1 else 0
  }

  function Reconstructed(lib: Library, shards: seq<Option<Shard>>, d: nat): Result<EncryptedFile, DartError> {
    if AvailableCount(shards) < d then Err(NotEnoughShards(AvailableCount(shards), d))
    else Deserialize(lib, Collected(shards, d))
  }

  method ReconstructFromShards(lib: Library, shards: seq<Option<Shard>>, dataShards: nat)
    returns (result: Result<EncryptedFile, DartError>)
    ensures result == Reconstructed(lib, shards, dataShards)
  {
    var availableShards := AvailableCount(shards);
    if availableShards < dataShards {
      return Err(NotEnoughShards(availableShards, dataShards));
    }
    var dataBytes: Bytes := [];
    for i := 0 to dataShards
      invariant dataBytes == Collected(shards, i)
    {
      if shards[i].Some? {
        dataBytes := dataBytes + shards[i].value.data;
      }
    }
    return Deserialize(lib, dataBytes);
  }

  lemma {:induction false} AvailableExact<T>(shards: seq<Option<T>>)
    ensures AvailableCount(shards) == |set i | 0 <= i < |shards| && shards[i].Some?|
    decreases |shards|
  {
    if shards != [] {
      var n := |shards| - 1;
      AvailableExact(shards[..n]);
      var before, all := (set i | 0 <= i < n && shards[..n][i].Some?), (set i | 0 <= i < |shards| && shards[i].Some?);
      assert all == before + if shards[n].Some? then {n} else {};
    }
  }

  /** Too few shards, of whichever kind, are reported with their number; otherwise the text decides. */
  lemma ReconstructedExact(lib: Library, shards: seq<Option<Shard>>, d: nat)
    requires d <= |shards|
    ensures var available := |set i | 0 <= i < |shards| && shards[i].Some?|;
            Reconstructed(lib, shards, d) ==
            if available < d then Err(NotEnoughShards(available, d)) else Deserialize(lib, Collected(shards, d))
  {
    AvailableExact(shards);
  }

  /** Each shard is missing or is the one created at its position. */
  ghost predicate Survivors(created: seq<Shard>, shards: seq<Option<Shard>>) {
    |shards| == |created| && forall i :: 0 <= i < |shards| && shards[i].Some? ==> shards[i].value == created[i]
  }

  lemma {:induction false} CollectedLength(slices: seq<Bytes>, shards: seq<Option<Shard>>, d: nat)
    requires d <= |slices| && d <= |shards|
    requires forall i :: 0 <= i < d && shards[i].Some? ==> shards[i].value.data == slices[i]
    ensures |Collected(shards, d)| <= |Flatten(slices[..d])|
    ensures Collected(shards, d) == Flatten(slices[..d]) <==>
            forall i :: 0 <= i < d && shards[i].None? ==> slices[i] == []
    decreases d
  {
    if d == 0 {
      assert slices[..0] == [];
    } else {
      CollectedLength(slices, shards, d - 1);
      assert slices[..d] == slices[..d - 1] + [slices[d - 1]];
      FlattenPush(slices[..d - 1], slices[d - 1]);
      var last := if shards[d - 1].Some? then slices[d - 1] else [];
      if Collected(shards, d) == Flatten(slices[..d]) {
        SameSplit(Collected(shards, d - 1), last, Flatten(slices[..d - 1]), slices[d - 1]);
      }
    }
  }

  lemma SameSplit(a: Bytes, b: Bytes, c: Bytes, d: Bytes)
    requires a + b == c + d && |a| <= |c| && |b| <= |d|
    ensures a == c && b == d
  {
    assert a == (a + b)[..|a|] && c == (c + d)[..|c|];
    assert b == (a + b)[|a|..] && d == (c + d)[|c|..];
  }

  /**
   The bytes put together are the bytes that were sharded exactly when no data shard with content
   is missing; parity shards play no part in it.
   */
  lemma CollectedExact(sha: Sha, mask: Mask, fileId: string, bytes: Bytes, d: nat, p: nat, shards: seq<Option<Shard>>)
    requires Created(sha, mask, fileId, bytes, d, p).Ok?
    requires Survivors(Created(sha, mask, fileId, bytes, d, p).value, shards)
    ensures Collected(shards, d) == bytes <==>
            forall i :: 0 <= i < d && shards[i].None? ==> DataSlice(bytes, d, i) == []
  {
    hide Times, CeilDiv, DataSlice, ParitySlice, Collected;
    var slices := DataSlices(bytes, d);
    CollectedLength(slices, shards, d);
    FlattenDataSlices(bytes, d);
    assert slices[..d] == slices;
    assert forall i :: 0 <= i < d ==> slices[i] == DataSlice(bytes, d, i);
  }

  /** With all data shards in place, and enough shards in all, the sharded file comes back. */
  lemma ReconstructsFile(lib: Library, mask: Mask, file: EncryptedFile, d: nat, p: nat, shards: seq<Option<Shard>>)
    requires Enveloped(file.chunks)
    requires d > 0 && |Serialize(lib, file)| >= Times(d - 1, d - 1)
    ensures Created(lib.sha, mask, file.fileId, Serialize(lib, file), d, p).Ok?
    ensures Survivors(Created(lib.sha, mask, file.fileId, Serialize(lib, file), d, p).value, shards)
            && (forall i :: 0 <= i < d ==> shards[i].Some?)
            ==> Reconstructed(lib, shards, d) == Ok(file)
  {
    hide Times, CeilDiv, Collected, Serialize, Deserialize, Enveloped;
    var bytes := Serialize(lib, file);
    RangesValidFrom(|bytes|, d);
    if Survivors(Created(lib.sha, mask, file.fileId, bytes, d, p).value, shards) && forall i :: 0 <= i < d ==> shards[i].Some? {
      CollectedExact(lib.sha, mask, file.fileId, bytes, d, p, shards);
      AvailableAtLeast(shards, d);
      SerializeRoundTrip(lib, file);
    }
  }

  /** A serialised file of n bytes is not split into n - 1 data shards, whatever the file. */
  lemma RefusesToShard(lib: Library, mask: Mask, file: EncryptedFile, p: nat)
    requires Enveloped(file.chunks)
    ensures var bytes := Serialize(lib, file);
            |bytes| >= 128 && Created(lib.sha, mask, file.fileId, bytes, |bytes| - 1, p) == Err(RangeError)
  {
    hide Serialize, RangesValid, AllSlices;
    SerializeRoundTrip(lib, file);
    RangesInvalid(|Serialize(lib, file)|);
  }

  lemma {:induction false} AvailableAtLeast<T>(shards: seq<Option<T>>, d: nat)
    requires d <= |shards| && forall i :: 0 <= i < d ==> shards[i].Some?
    ensures AvailableCount(shards) >= d
    decreases |shards|
  {
    if shards != [] {
      var n := |shards| - 1;
      AvailableAtLeast(shards[..n], Min(d, n));
    }
  }
}
