/** The JSON text of encrypted files in the Dart application, of which only two laws are used. */
module JsonText {
  import opened Basics
  import opened HexMerkle

  /** The JSON form, in which envelopes have become (base64) byte strings. */
  datatype ChunkJson = ChunkJson(index: nat, data: Bytes, originalHash: HexDigest)

  datatype FileJson = FileJson(
    fileId: string,
    chunks: seq<ChunkJson>,
    merkleRoot: HexDigest,
    originalHash: HexDigest,
    originalSize: nat,
    chunkSize: nat,
    createdAt: int)

  /** UTF-8 encoded JSON text, which is read back and spells out the strings it holds. */
  datatype CodecOps = CodecOps(encode: FileJson -> Bytes, decode: Bytes -> Option<FileJson>)

  ghost predicate Lawful(c: CodecOps) {
    forall j: FileJson ::
      c.decode(c.encode(j)) == Some(j) && |c.encode(j)| >= |j.fileId| + |j.merkleRoot| + |j.originalHash|
  }

  type Codec = c: CodecOps | Lawful(c) ghost witness UnaryCodec()

  // ---- A text that obeys the laws: numbers in unary, lists after their length ----------------

  ghost function Unary(n: nat): Bytes { seq(n, _ => 1) + [0] }

  ghost function Chars(s: string): (b: Bytes)
    ensures |b| >= |s|
  {
    if s == "" then [] else Unary(s[0] as int) + Chars(s[1..])
  }

  ghost function Text(s: string): (b: Bytes)
    ensures |b| >= |s|
  {
    Unary(|s|) + Chars(s)
  }

  ghost function ChunkText(c: ChunkJson): Bytes { Unary(c.index) + (Unary(|c.data|) + (c.data + Text(c.originalHash))) }

  ghost function ChunkTexts(chunks: seq<ChunkJson>): Bytes {
    if chunks == [] then [] else ChunkText(chunks[0]) + ChunkTexts(chunks[1..])
  }

  ghost function Natural(i: int): nat { if i >= 0 then 2 * i else -2 * i - 1 }

  ghost function FileText(j: FileJson): (b: Bytes)
    ensures |b| >= |j.fileId| + |j.merkleRoot| + |j.originalHash|
  {
    Text(j.fileId) + (Text(j.merkleRoot) + (Text(j.originalHash) + (Unary(j.originalSize) + (Unary(j.chunkSize) +
    (Unary(Natural(j.createdAt)) + (Unary(|j.chunks|) + ChunkTexts(j.chunks)))))))
  }

  lemma UnaryAt(n: nat, r: Bytes)
    ensures var b := Unary(n) + r;
            b[n] == 0 && (forall k :: 0 <= k < n ==> b[k] == 1) && b[n + 1..] == r
  {}

  lemma UnaryUnique(m: nat, n: nat, r: Bytes, q: Bytes)
    requires Unary(m) + r == Unary(n) + q
    ensures m == n && r == q
  {
    hide Unary;
    UnaryAt(m, r);
    UnaryAt(n, q);
  }

  lemma {:induction false} CharsUnique(s: string, t: string, r: Bytes, q: Bytes)
    requires |s| == |t| && Chars(s) + r == Chars(t) + q
    ensures s == t && r == q
  {
    hide Unary;
    if s == "" {
      assert Chars(s) + r == r && Chars(t) + q == q;
    } else {
      assert Chars(s) + r == Unary(s[0] as int) + (Chars(s[1..]) + r);
      assert Chars(t) + q == Unary(t[0] as int) + (Chars(t[1..]) + q);
      UnaryUnique(s[0] as int, t[0] as int, Chars(s[1..]) + r, Chars(t[1..]) + q);
      CharsUnique(s[1..], t[1..], r, q);
      assert s == [s[0]] + s[1..] && t == [t[0]] + t[1..];
    }
  }

  lemma TextUnique(s: string, t: string, r: Bytes, q: Bytes)
    requires Text(s) + r == Text(t) + q
    ensures s == t && r == q
  {
    hide Unary, Chars;
    assert Text(s) + r == Unary(|s|) + (Chars(s) + r) && Text(t) + q == Unary(|t|) + (Chars(t) + q);
    UnaryUnique(|s|, |t|, Chars(s) + r, Chars(t) + q);
    CharsUnique(s, t, r, q);
  }

  lemma ChunkUnique(c: ChunkJson, d: ChunkJson, r: Bytes, q: Bytes)
    requires ChunkText(c) + r == ChunkText(d) + q
    ensures c == d && r == q
  {
    hide Unary, Text;
    var c1, d1 := Text(c.originalHash) + r, Text(d.originalHash) + q;
    assert ChunkText(c) + r == Unary(c.index) + (Unary(|c.data|) + (c.data + c1));
    assert ChunkText(d) + q == Unary(d.index) + (Unary(|d.data|) + (d.data + d1));
    UnaryUnique(c.index, d.index, Unary(|c.data|) + (c.data + c1), Unary(|d.data|) + (d.data + d1));
    UnaryUnique(|c.data|, |d.data|, c.data + c1, d.data + d1);
    assert (c.data + c1)[..|c.data|] == c.data && (d.data + d1)[..|d.data|] == d.data;
    assert (c.data + c1)[|c.data|..] == c1 && (d.data + d1)[|d.data|..] == d1;
    TextUnique(c.originalHash, d.originalHash, r, q);
  }

  lemma {:induction false} ChunksUnique(a: seq<ChunkJson>, b: seq<ChunkJson>)
    requires |a| == |b| && ChunkTexts(a) == ChunkTexts(b)
    ensures a == b
  {
    hide ChunkText;
    if a != [] {
      ChunkUnique(a[0], b[0], ChunkTexts(a[1..]), ChunkTexts(b[1..]));
      ChunksUnique(a[1..], b[1..]);
      assert a == [a[0]] + a[1..] && b == [b[0]] + b[1..];
    }
  }

  lemma FileTextUnique(a: FileJson, b: FileJson)
    requires FileText(a) == FileText(b)
    ensures a == b
  {
    hide Unary, Text, ChunkTexts;
    var a6, b6 := Unary(|a.chunks|) + ChunkTexts(a.chunks), Unary(|b.chunks|) + ChunkTexts(b.chunks);
    var a5, b5 := Unary(Natural(a.createdAt)) + a6, Unary(Natural(b.createdAt)) + b6;
    var a4, b4 := Unary(a.chunkSize) + a5, Unary(b.chunkSize) + b5;
    var a3, b3 := Unary(a.originalSize) + a4, Unary(b.originalSize) + b4;
    var a2, b2 := Text(a.originalHash) + a3, Text(b.originalHash) + b3;
    var a1, b1 := Text(a.merkleRoot) + a2, Text(b.merkleRoot) + b2;
    TextUnique(a.fileId, b.fileId, a1, b1);
    TextUnique(a.merkleRoot, b.merkleRoot, a2, b2);
    TextUnique(a.originalHash, b.originalHash, a3, b3);
    UnaryUnique(a.originalSize, b.originalSize, a4, b4);
    UnaryUnique(a.chunkSize, b.chunkSize, a5, b5);
    UnaryUnique(Natural(a.createdAt), Natural(b.createdAt), a6, b6);
    UnaryUnique(|a.chunks|, |b.chunks|, ChunkTexts(a.chunks), ChunkTexts(b.chunks));
    ChunksUnique(a.chunks, b.chunks);
  }

  ghost function ParseFile(b: Bytes): Option<FileJson> {
    if exists j :: FileText(j) == b then
      var j :| FileText(j) == b;
      Some(j)
    else None
  }

  ghost function UnaryCodec(): (c: CodecOps)
    ensures Lawful(c)
  {
    var c := CodecOps(j => FileText(j), b => ParseFile(b));
    assert Lawful(c) by {
      forall j: FileJson ensures c.decode(c.encode(j)) == Some(j) {
        var k := ParseFile(FileText(j)).value;
        FileTextUnique(j, k);
      }
    }
    c
  }
}
