/**
 The byte layout of a serialized encrypted file: bincode's fixed-width little-endian encoding, whose
 decoder accepts trailing bytes (`EncryptedFile::to_bytes` and `from_bytes` in encryption.rs).
 */
module Bincode {
  import opened Basics
  import opened Encryption

  const U64_SIZE: nat := 8

  // ---- Numbers ------------------------------------------------------------------------------

  function Pow256(width: nat): (p: nat)
    ensures p > 0
  {
    if width == 0 then 1 else 256 * Pow256(width - 1)
  }

  /** The low `width` bytes of `n`, least significant first. */
  function LittleEndian(n: nat, width: nat): (b: Bytes)
    ensures |b| == width
  {
    if width == 0 then [] else [ByteOf(n % 256)] + LittleEndian(n / 256, width - 1)
  }

  function FromLittleEndian(b: Bytes): nat {
    if b == [] then 0 else ByteValue(b[0]) + 256 * FromLittleEndian(b[1..])
  }

  lemma {:induction false} ReadBack(n: nat, width: nat)
    requires n < Pow256(width)
    ensures FromLittleEndian(LittleEndian(n, width)) == n
    decreases width
  {
    hide ByteOf, ByteValue;
    if width > 0 {
      ValueOfByte(n % 256);
      ReadBack(n / 256, width - 1);
      assert LittleEndian(n, width)[1..] == LittleEndian(n / 256, width - 1);
    }
  }

  lemma {:induction false} WriteBack(b: Bytes)
    ensures FromLittleEndian(b) < Pow256(|b|)
    ensures LittleEndian(FromLittleEndian(b), |b|) == b
  {
    hide ByteOf, ByteValue;
    if b != [] {
      var low, high := ByteValue(b[0]), FromLittleEndian(b[1..]);
      WriteBack(b[1..]);
      ByteOfValue(b[0]);
      assert (low + 256 * high) % 256 == low && (low + 256 * high) / 256 == high;
      assert b == [b[0]] + b[1..];
    }
  }

  /** Byte `i` holds the digit that counts multiples of 256^i. */
  lemma {:induction false} LittleEndianDigit(n: nat, width: nat, i: nat)
    requires i < width
    ensures ByteValue(LittleEndian(n, width)[i]) == n / Pow256(i) % 256
    decreases width
  {
    hide ByteOf, ByteValue;
    if i == 0 {
      ValueOfByte(n % 256);
    } else {
      LittleEndianDigit(n / 256, width - 1, i - 1);
      DivTwice(n, Pow256(i - 1));
    }
  }

  lemma DivTwice(n: nat, d: nat)
    requires d > 0
    ensures n / 256 / d == n / (256 * d)
  {
    var q, r := n / 256 / d, n / 256 % d;
    var dq := d * q;
    assert n / 256 == dq + r;
    assert n == 256 * dq + (256 * r + n % 256);
    assert r < d && 256 * r + n % 256 < 256 * d;
    assert (256 * d) * q == 256 * dq by { TimesAssoc(256, d, q); }
    QuotientUnique(n, 256 * d, q, 256 * r + n % 256);
  }

  lemma TimesAssoc(a: nat, b: nat, c: nat)
    ensures (a * b) * c == a * (b * c)
  {}

  lemma QuotientUnique(n: nat, d: nat, q: nat, r: nat)
    requires d > 0 && n == d * q + r && r < d
    ensures n / d == q
  {
    var p := n / d;
    assert n == d * p + n % d;
    AtLeast(d, q - p); Distribute(d, p, q - p);
    AtLeast(d, p - q); Distribute(d, q, p - q);
  }

  lemma U64Limit()
    ensures Pow256(U64_SIZE) == U64_LIMIT
  {
    assert Pow256(4) == 0x1_0000_0000;
  }

  // ---- Encoding -----------------------------------------------------------------------------

  function WriteU64(n: nat): Bytes { LittleEndian(n, U64_SIZE) }

  function WriteU64s(ns: seq<nat>): Bytes {
    if ns == [] then [] else WriteU64(ns[0]) + WriteU64s(ns[1..])
  }

  function Serialize(file: EncryptedFile): Bytes {
    WriteU64(|file.data|) + file.data + WriteU64(|file.chunkOffsets|) + WriteU64s(file.chunkOffsets)
    + WriteU64(file.originalSize) + WriteU64(file.chunkSize)
  }

  lemma {:induction false} WrittenAt(ns: seq<nat>, i: nat)
    requires i < |ns|
    ensures |WriteU64s(ns)| == 8 * |ns| && WriteU64s(ns)[8 * i..8 * i + 8] == LittleEndian(ns[i], 8)
  {
    hide LittleEndian;
    var first := WriteU64(ns[0]);
    if i > 0 {
      WrittenAt(ns[1..], i - 1);
      assert WriteU64s(ns)[8 * i..8 * i + 8] == WriteU64s(ns[1..])[8 * (i - 1)..8 * (i - 1) + 8];
    } else if |ns| > 1 {
      WrittenAt(ns[1..], 0);
    }
  }

  /** Where everything is: all lengths and numbers take eight bytes, least significant first. */
  lemma SerializeLayout(file: EncryptedFile, i: nat)
    ensures var b := Serialize(file);
            var n, k := |file.data|, |file.chunkOffsets|;
            && |b| == 32 + n + 8 * k
            && b[..8] == LittleEndian(n, 8) && b[8..8 + n] == file.data
            && b[8 + n..16 + n] == LittleEndian(k, 8)
            && (i < k ==> b[16 + n + 8 * i..24 + n + 8 * i] == LittleEndian(file.chunkOffsets[i], 8))
            && b[16 + n + 8 * k..24 + n + 8 * k] == LittleEndian(file.originalSize, 8)
            && b[24 + n + 8 * k..] == LittleEndian(file.chunkSize, 8)
  {
    hide LittleEndian;
    var offsets := WriteU64s(file.chunkOffsets);
    if file.chunkOffsets != [] {
      WrittenAt(file.chunkOffsets, 0);
    }
    if i < |file.chunkOffsets| {
      WrittenAt(file.chunkOffsets, i);
      var at := 16 + |file.data|;
      assert Serialize(file)[at..at + |offsets|] == offsets;
      assert offsets[8 * i..8 * i + 8] == Serialize(file)[at + 8 * i..at + 8 * i + 8];
    }
  }

  /** Every number of the file fits in 64 bits, as all sizes and offsets in memory do. */
  predicate Fits64(file: EncryptedFile) {
    && |file.data| < U64_LIMIT
    && |file.chunkOffsets| < U64_LIMIT
    && (forall i :: 0 <= i < |file.chunkOffsets| ==> file.chunkOffsets[i] < U64_LIMIT)
    && file.originalSize < U64_LIMIT
    && file.chunkSize < U64_LIMIT
  }

  // ---- Decoding -----------------------------------------------------------------------------

  /** What a reader returns: the value and the bytes not yet read. */
  datatype Read<+T> = Read(value: T, rest: Bytes)

  function ReadU64(b: Bytes): Result<Read<nat>, CryptoError> {
    if |b| < U64_SIZE then Err(InvalidData) else Ok(Read(FromLittleEndian(b[..U64_SIZE]), b[U64_SIZE..]))
  }

  function ReadU64s(b: Bytes, count: nat): Result<Read<seq<nat>>, CryptoError>
    decreases count
  {
    if count == 0 then Ok(Read([], b))
    else
      var first :- ReadU64(b);
      var others :- ReadU64s(first.rest, count - 1);
      Ok(Read([first.value] + others.value, others.rest))
  }

  function ReadBytes(b: Bytes, count: nat): Result<Read<Bytes>, CryptoError> {
    if |b| < count then Err(InvalidData) else Ok(Read(b[..count], b[count..]))
  }

  function Deserialize(b: Bytes): Result<EncryptedFile, CryptoError> {
    var size :- ReadU64(b);
    var data :- ReadBytes(size.rest, size.value);
    var count :- ReadU64(data.rest);
    var offsets :- ReadU64s(count.rest, count.value);
    var originalSize :- ReadU64(offsets.rest);
    var chunkSize :- ReadU64(originalSize.rest);
    Ok(EncryptedFile(data.value, offsets.value, originalSize.value, chunkSize.value))
  }

  // ---- Writing then reading -----------------------------------------------------------------

  lemma ReadWrittenU64(n: nat, rest: Bytes)
    requires n < U64_LIMIT
    ensures ReadU64(WriteU64(n) + rest) == Ok(Read(n, rest))
  {
    hide FromLittleEndian, LittleEndian;
    U64Limit();
    ReadBack(n, U64_SIZE);
    assert (WriteU64(n) + rest)[..U64_SIZE] == WriteU64(n) && (WriteU64(n) + rest)[U64_SIZE..] == rest;
  }

  lemma {:induction false} ReadWrittenU64s(ns: seq<nat>, rest: Bytes)
    requires forall i :: 0 <= i < |ns| ==> ns[i] < U64_LIMIT
    ensures ReadU64s(WriteU64s(ns) + rest, |ns|) == Ok(Read(ns, rest))
  {
    hide ReadU64, WriteU64;
    if ns == [] {
      assert WriteU64s(ns) + rest == rest;
    } else {
      assert WriteU64s(ns) + rest == WriteU64(ns[0]) + (WriteU64s(ns[1..]) + rest);
      ReadWrittenU64(ns[0], WriteU64s(ns[1..]) + rest);
      ReadWrittenU64s(ns[1..], rest);
      assert [ns[0]] + ns[1..] == ns;
    }
  }

  /** Reading a serialized file back returns it, whatever follows it in the buffer. */
  lemma DeserializeSerialize(file: EncryptedFile, trailing: Bytes)
    requires Fits64(file)
    ensures Deserialize(Serialize(file) + trailing) == Ok(file)
  {
    hide ReadU64, ReadU64s, WriteU64, WriteU64s;
    var r6 := trailing;
    var r5 := WriteU64(file.chunkSize) + r6;
    var r4 := WriteU64(file.originalSize) + r5;
    var r3 := WriteU64s(file.chunkOffsets) + r4;
    var r2 := WriteU64(|file.chunkOffsets|) + r3;
    var r1 := file.data + r2;
    assert Serialize(file) + trailing == WriteU64(|file.data|) + r1;
    ReadWrittenU64(|file.data|, r1);
    assert r1[..|file.data|] == file.data && r1[|file.data|..] == r2;
    ReadWrittenU64(|file.chunkOffsets|, r3);
    ReadWrittenU64s(file.chunkOffsets, r4);
    ReadWrittenU64(file.originalSize, r5);
    ReadWrittenU64(file.chunkSize, r6);
  }

  // ---- Reading then writing -----------------------------------------------------------------

  lemma WriteReadU64(b: Bytes)
    requires ReadU64(b).Ok?
    ensures var r := ReadU64(b).value; r.value < U64_LIMIT && b == WriteU64(r.value) + r.rest
  {
    hide FromLittleEndian, LittleEndian;
    U64Limit();
    WriteBack(b[..U64_SIZE]);
  }

  lemma {:induction false} WriteReadU64s(b: Bytes, count: nat)
    requires ReadU64s(b, count).Ok?
    ensures var r := ReadU64s(b, count).value;
            && |r.value| == count
            && (forall i :: 0 <= i < count ==> r.value[i] < U64_LIMIT)
            && b == WriteU64s(r.value) + r.rest
    decreases count
  {
    hide ReadU64, WriteU64;
    var r := ReadU64s(b, count).value;
    if count == 0 {
      assert b == [] + b;
    } else {
      WriteReadU64(b);
      var first := ReadU64(b).value;
      WriteReadU64s(first.rest, count - 1);
      assert r.value[1..] == ReadU64s(first.rest, count - 1).value.value;
      assert WriteU64(first.value) + (WriteU64s(r.value[1..]) + r.rest) == WriteU64s(r.value) + r.rest;
    }
  }

  /**
   The decoder accepts exactly the buffers that start with a serialized file, and returns that
   file: the layout is canonical, and nothing is misread.
   */
  lemma DeserializeExact(b: Bytes, file: EncryptedFile)
    ensures Deserialize(b) == Ok(file) <==>
            Fits64(file) && |Serialize(file)| <= |b| && b[..|Serialize(file)|] == Serialize(file)
  {
    hide ReadU64, ReadU64s, WriteU64, WriteU64s;
    if Fits64(file) && |Serialize(file)| <= |b| && b[..|Serialize(file)|] == Serialize(file) {
      DeserializeSerialize(file, b[|Serialize(file)|..]);
      assert b == Serialize(file) + b[|Serialize(file)|..];
    }
    if Deserialize(b) == Ok(file) {
      var r1 := ReadU64(b).value;
      var r2 := ReadBytes(r1.rest, r1.value).value;
      var r3 := ReadU64(r2.rest).value;
      var r4 := ReadU64s(r3.rest, r3.value).value;
      var r5 := ReadU64(r4.rest).value;
      var r6 := ReadU64(r5.rest).value;
      WriteReadU64(b); WriteReadU64(r2.rest); WriteReadU64s(r3.rest, r3.value);
      WriteReadU64(r4.rest); WriteReadU64(r5.rest);
      assert b == Serialize(file) + r6.rest;
    }
  }

  /** A serialized file is never empty. */
  lemma SerializeNonempty(file: EncryptedFile)
    ensures |Serialize(file)| >= 4 * U64_SIZE
  {}
}
