/** Splitting data into shards with parity, and putting it back together (erasure.rs). */
module Erasure {
  import opened Basics
  import opened ReedSolomon

  datatype StorageError =
    | ErasureCoding(code: CodeError)
    | InsufficientFragments(have: nat, need: nat)
    | Encryption(cause: SealError)
    | IntegrityCheckFailed

  /** Why sealed bytes could not be opened. */
  datatype SealError = KeyRejected | KeyLength | Malformed | ContentRejected

  datatype ErasureConfig = ErasureConfig(dataShards: nat, parityShards: nat)

  function TotalShards(c: ErasureConfig): nat { c.dataShards + c.parityShards }

  datatype Shard = Shard(index: nat, data: Bytes, isParity: bool, originalSize: nat)

  /** A configuration for which the encoder and the decoder can be built. */
  predicate Codable(c: ErasureConfig) { ConfigError(c.dataShards, c.parityShards).None? }

  type Codec = c: ErasureConfig | Codable(c) witness ErasureConfig(10, 4)

  /** Building an encoder or a decoder. */
  function NewCodec(c: ErasureConfig): Result<Codec, StorageError> {
    match ConfigError(c.dataShards, c.parityShards)
    case None => Ok(c)
    case Some(e) => Err(ErasureCoding(e))
  }

  function ShardSize(c: Codec, n: nat): nat { CeilDiv(n, c.dataShards) }

  // ---- What encoding means ------------------------------------------------------------------

  /** `data` followed by zeros, as many as are needed to fill all data shards. */
  function Padded(c: Codec, data: Bytes): (p: Bytes)
    ensures |p| == Times(c.dataShards, ShardSize(c, |data|))
  {
    CeilDivBounds(|data|, c.dataShards);
    data + Zeros(Times(c.dataShards, ShardSize(c, |data|)) - |data|)
  }

  /** Data shard `i` is the `i`th of `k` equal slices of the padded data. */
  function DataShard(c: Codec, data: Bytes, i: nat): (s: Bytes)
    requires i < c.dataShards
    ensures |s| == ShardSize(c, |data|)
  {
    var size := ShardSize(c, |data|);
    TimesFits(i, c.dataShards, size);
    Padded(c, data)[Times(i, size)..Times(i, size) + size]
  }

  function DataShards(c: Codec, data: Bytes): (s: seq<Bytes>)
    ensures |s| == c.dataShards && SameSize(s, ShardSize(c, |data|))
  {
    seq(c.dataShards, i requires 0 <= i < c.dataShards => DataShard(c, data, i))
  }

  function ShardAt(c: Codec, data: Bytes, r: nat): Shard
    requires r < TotalShards(c)
  {
    var size := ShardSize(c, |data|);
    Shard(r, CodeShard(DataShards(c, data), size, r), r >= c.dataShards, size)
  }

  /** The result of encoding: the crate refuses empty shards, so empty data cannot be encoded. */
  function Encoded(c: Codec, data: Bytes): Result<seq<Shard>, StorageError> {
    if data == [] then Err(ErasureCoding(EmptyShard))
    else Ok(seq(TotalShards(c), r requires 0 <= r < TotalShards(c) => ShardAt(c, data, r)))
  }

  /** The encoder and the decoder can be built for one to 255 data shards with parity, 256 in all. */
  lemma CodableExact(c: ErasureConfig)
    ensures Codable(c) <==> c.dataShards >= 1 && c.parityShards >= 1 && c.dataShards + c.parityShards <= 256
    ensures NewCodec(c).Ok? <==> Codable(c)
    ensures Codable(c) ==> NewCodec(c) == Ok(c)
    ensures c.dataShards == 0 ==> NewCodec(c) == Err(ErasureCoding(TooFewDataShards))
    ensures c.dataShards > 0 && c.parityShards == 0 ==> NewCodec(c) == Err(ErasureCoding(TooFewParityShards))
    ensures c.dataShards > 0 && c.parityShards > 0 && !Codable(c) ==> NewCodec(c) == Err(ErasureCoding(TooManyShards))
  {}

  /** Empty data is refused; otherwise shard `r` says where it belongs and holds a slice or parity. */
  lemma EncodedExact(c: Codec, data: Bytes, r: nat)
    requires r < c.dataShards + c.parityShards
    ensures data == [] ==> Encoded(c, data) == Err(ErasureCoding(EmptyShard))
    ensures data != [] ==>
              && Encoded(c, data).Ok? && |Encoded(c, data).value| == c.dataShards + c.parityShards
              && var shard := Encoded(c, data).value[r];
              && shard.index == r && (shard.isParity <==> r >= c.dataShards)
              && shard.originalSize == |shard.data| == CeilDiv(|data|, c.dataShards)
              && forall j :: 0 <= j < |shard.data| ==>
                   var at := r * |shard.data| + j;
                   r < c.dataShards ==> shard.data[j] == if at < |data| then data[at] else 0
  {
    hide CodeShard, CeilDiv, ConfigError;
    CodecBounds(c);
    if data != [] && r < c.dataShards {
      var size := ShardSize(c, |data|);
      SystematicShard(DataShards(c, data), size, r);
      TimesIsProduct(r, size);
      TimesFits(r, c.dataShards, size);
      CeilDivBounds(|data|, c.dataShards);
    }
  }

  // ---- The encoder --------------------------------------------------------------------------

  method Encode(c: Codec, data: Bytes) returns (result: Result<seq<Shard>, StorageError>)
    ensures result == Encoded(c, data)
  {
    hide Times, CeilDiv, CodeShard, ConfigError;
    CodecBounds(c);
    var size := ShardSize(c, |data|);
    CeilDivBounds(|data|, c.dataShards);
    var shards: seq<Bytes> := [];
    for i := 0 to c.dataShards
      invariant |shards| == i
      invariant forall j :: 0 <= j < i ==> shards[j] == DataShard(c, data, j)
    {
      TimesFits(i, c.dataShards, size);
      var start := Times(i, size);
      var end := Min(start + size, |data|);
      var shard := if start < |data| then data[start..end] else [];
      shard := shard + Zeros(size - |shard|);
      assert shard == DataShard(c, data, i);
      shards := shards + [shard];
    }
    assert shards == DataShards(c, data);
    for i := 0 to c.parityShards
      invariant |shards| == c.dataShards + i && shards[..c.dataShards] == DataShards(c, data)
    {
      shards := shards + [Zeros(size)];
    }
    if size == 0 {
      return Err(ErasureCoding(EmptyShard));
    }
    shards := FillParity(c, shards, size);
    var labelled := Label(c, shards);
    assert labelled == Encoded(c, data).value;
    return Ok(labelled);
  }

  lemma CodecBounds(c: Codec)
    ensures 1 <= c.dataShards && 1 <= c.parityShards && TotalShards(c) <= 256
  {}

  /** The crate's encoder: overwrites the parity shards that follow the data shards. */
  method FillParity(c: Codec, shards: seq<Bytes>, size: nat) returns (filled: seq<Bytes>)
    requires |shards| == TotalShards(c) && SameSize(shards[..c.dataShards], size)
    ensures |filled| == TotalShards(c)
    ensures forall r :: 0 <= r < TotalShards(c) ==> filled[r] == CodeShard(shards[..c.dataShards], size, r)
  {
    hide CodeShard;
    filled := shards;
    for i := 0 to c.parityShards
      invariant |filled| == TotalShards(c) && filled[..c.dataShards] == shards[..c.dataShards]
      invariant forall r :: c.dataShards <= r < c.dataShards + i ==> filled[r] == CodeShard(shards[..c.dataShards], size, r)
    {
      var r := c.dataShards + i;
      filled := filled[r := CodeShard(filled[..c.dataShards], size, r)];
    }
    forall r | 0 <= r < c.dataShards ensures filled[r] == CodeShard(shards[..c.dataShards], size, r) {
      assert filled[r] == filled[..c.dataShards][r];
      SystematicShard(shards[..c.dataShards], size, r);
    }
  }

  /** Adds the metadata of each shard. */
  method Label(c: Codec, shards: seq<Bytes>) returns (labelled: seq<Shard>)
    ensures |labelled| == |shards|
    ensures forall r :: 0 <= r < |shards| ==> labelled[r] == Shard(r, shards[r], r >= c.dataShards, |shards[r]|)
  {
    labelled := [];
    for r := 0 to |shards|
      invariant |labelled| == r
      invariant forall q :: 0 <= q < r ==> labelled[q] == Shard(q, shards[q], q >= c.dataShards, |shards[q]|)
    {
      labelled := labelled + [Shard(r, shards[r], r >= c.dataShards, |shards[r]|)];
    }
  }

  lemma SystematicShard(data: seq<Bytes>, size: nat, r: nat)
    requires r < |data| <= 256 && SameSize(data, size)
    ensures CodeShard(data, size, r) == data[r]
  {
    hide Codeword;
    forall j | 0 <= j < size ensures CodeShard(data, size, r)[j] == data[r][j] {
      Systematic(Column(data, j), r);
    }
  }

  // ---- The decoder --------------------------------------------------------------------------

  function Contents(shards: seq<Option<Shard>>): (d: seq<Option<Bytes>>)
    ensures |d| == |shards|
  {
    seq(|shards|, i requires 0 <= i < |shards| => if shards[i].Some? then Some(shards[i].value.data) else None)
  }

  method Decode(c: Codec, shards: seq<Option<Shard>>, originalSize: nat) returns (result: Result<Bytes, StorageError>)
    ensures result == Decoded(c, shards, originalSize)
  {
    hide Reconstruct;
    if |shards| != TotalShards(c) {
      return Err(ErasureCoding(WrongShardCount));
    }
    var available := |Present(shards)|;
    if available < c.dataShards {
      return Err(InsufficientFragments(available, c.dataShards));
    }
    var rebuilt := Reconstruct(c.dataShards, c.parityShards, Contents(shards));
    if rebuilt.Err? {
      return Err(ErasureCoding(rebuilt.error));
    }
    var whole := rebuilt.value;
    PresentContents(shards);
    ReconstructFillsAll(c.dataShards, c.parityShards, Contents(shards));
    var out := Join(Values(whole, c.dataShards));
    return Ok(out[..Min(originalSize, |out|)]);
  }

  /** The first `k` buffers of a list without gaps. */
  function Values(whole: seq<Option<Bytes>>, k: nat): seq<Bytes>
    requires k <= |whole| && forall i :: 0 <= i < |whole| ==> whole[i].Some?
  {
    seq(k, i requires 0 <= i < k => whole[i].value)
  }

  /** What decoding returns, for any list of shards. */
  function Decoded(c: Codec, shards: seq<Option<Shard>>, originalSize: nat): Result<Bytes, StorageError> {
    if |shards| != TotalShards(c) then Err(ErasureCoding(WrongShardCount))
    else if |Present(shards)| < c.dataShards then Err(InsufficientFragments(|Present(shards)|, c.dataShards))
    else
      match Reconstruct(c.dataShards, c.parityShards, Contents(shards))
      case Err(e) => Err(ErasureCoding(e))
      case Ok(whole) =>
        PresentContents(shards);
        ReconstructFillsAll(c.dataShards, c.parityShards, Contents(shards));
        var out := Flatten(Values(whole, c.dataShards));
        Ok(out[..Min(originalSize, |out|)])
  }

  /** What the decoder refuses, in the order in which it notices. */
  lemma DecodedRefuses(c: Codec, shards: seq<Option<Shard>>, n: nat)
    ensures |shards| != c.dataShards + c.parityShards ==> Decoded(c, shards, n) == Err(ErasureCoding(WrongShardCount))
    ensures |shards| == c.dataShards + c.parityShards && |Present(shards)| < c.dataShards ==>
              Decoded(c, shards, n) == Err(InsufficientFragments(|Present(shards)|, c.dataShards))
    ensures |shards| == c.dataShards + c.parityShards && |Present(shards)| >= c.dataShards ==>
              && (Decoded(c, shards, n).Err? <==> SizeError(Contents(shards), None).Some?)
              && (Decoded(c, shards, n).Err? ==>
                    Decoded(c, shards, n) == Err(ErasureCoding(SizeError(Contents(shards), None).value)))
  {
    hide Rebuild, SizeError;
    PresentContents(shards);
  }

  lemma {:induction false} PresentContents(shards: seq<Option<Shard>>)
    ensures Present(Contents(shards)) == Present(shards)
    decreases |shards|
  {
    if shards != [] {
      var n := |shards| - 1;
      assert Contents(shards)[..n] == Contents(shards[..n]);
      PresentContents(shards[..n]);
    }
  }

  lemma ReconstructFillsAll(k: nat, m: nat, shards: seq<Option<Bytes>>)
    requires ConfigError(k, m).None? && Reconstruct(k, m, shards).Ok?
    ensures var whole := Reconstruct(k, m, shards).value;
            |whole| == k + m && forall i :: 0 <= i < |whole| ==> whole[i].Some?
  {
    hide Rebuild;
    if |Present(shards)| == k + m {
      AllPresent(shards);
    }
  }

  // ---- Round trip ---------------------------------------------------------------------------

  lemma FlattenDataShards(c: Codec, data: Bytes)
    ensures Flatten(DataShards(c, data)) == Padded(c, data)
  {
    hide Times, CeilDiv;
    var size := ShardSize(c, |data|);
    forall i | 0 <= i < c.dataShards ensures Slice(Padded(c, data), i, size) == Some(DataShards(c, data)[i]) {
      TimesFits(i, c.dataShards, size);
    }
    FlattenSlices(DataShards(c, data), Padded(c, data), size);
  }

  /** The shards that survived: each is missing or is the shard encoded at its own position. */
  ghost predicate Survivors(c: Codec, data: Bytes, shards: seq<Option<Bytes>>) {
    |shards| == TotalShards(c)
    && forall r :: 0 <= r < |shards| && shards[r].Some? ==> shards[r].value == ShardAt(c, data, r).data
  }

  /**
   Any `k` of the `k + m` shards, whichever they are, give back the padded data up to the size
   asked for; fewer than `k` are always reported as insufficient.
   */
  lemma DecodeSurvivors(c: Codec, data: Bytes, shards: seq<Option<Shard>>, n: nat)
    requires data != [] && Survivors(c, data, Contents(shards))
    ensures Decoded(c, shards, n) ==
      if |Present(shards)| < c.dataShards
      then Err(InsufficientFragments(|Present(shards)|, c.dataShards))
      else Ok(Padded(c, data)[..Min(n, |Padded(c, data)|)])
  {
    hide CodeShard, DataShard, Padded, Times, CeilDiv, Reconstruct;
    if |Present(shards)| >= c.dataShards {
      var size := ShardSize(c, |data|);
      CeilDivBounds(|data|, c.dataShards);
      PresentContents(shards);
      ReconstructCorrect(c.dataShards, c.parityShards, Contents(shards), DataShards(c, data), size);
      var whole := Reconstruct(c.dataShards, c.parityShards, Contents(shards)).value;
      forall i | 0 <= i < c.dataShards ensures whole[i].value == DataShards(c, data)[i] {
        SystematicShard(DataShards(c, data), size, i);
      }
      assert Values(whole, c.dataShards) == DataShards(c, data);
      FlattenDataShards(c, data);
    }
  }

  /** Asking for the original length returns the original bytes. */
  lemma RoundTrip(c: Codec, data: Bytes, shards: seq<Option<Shard>>)
    requires data != [] && Survivors(c, data, Contents(shards))
    ensures Decoded(c, shards, |data|) ==
      if |Present(shards)| < c.dataShards
      then Err(InsufficientFragments(|Present(shards)|, c.dataShards))
      else Ok(data)
  {
    DecodeSurvivors(c, data, shards, |data|);
    CeilDivBounds(|data|, c.dataShards);
    assert Padded(c, data)[..|data|] == data;
  }
}
