/**
 Seed phrases (seed_phrase_service.dart): 128 bits of entropy and a 4-bit checksum, packed into
 twelve 11-bit word indices, as in the section "Generating the mnemonic" of BIP-39.
 */
module SeedPhrase {
  import opened Basics

  // ---- Bits of numbers ----------------------------------------------------------------------

  /** `n >> i` */
  function ShiftRight(n: nat, i: nat): nat
    decreases i
  {
    if i == 0 then n else ShiftRight(n / 2, i - 1)
  }

  /** `n << i` */
  function ShiftLeft(n: nat, i: nat): nat {
    if i == 0 then n else 2 * ShiftLeft(n, i - 1)
  }

  /** `n | (1 << i)` */
  function SetBit(n: nat, i: nat): nat
    decreases i
  {
    if i == 0 then (if n % 2 == 1 then n else n + 1) else 2 * SetBit(n / 2, i - 1) + n % 2
  }

  /** The low `width` bits of `n`, most significant first. */
  function Bits(n: nat, width: nat): (b: seq<bool>)
    ensures |b| == width
    decreases width
  {
    if width == 0 then [] else Bits(n / 2, width - 1) + [n % 2 == 1]
  }

  function FromBits(b: seq<bool>): nat
    decreases |b|
  {
    if b == [] then 0 else 2 * FromBits(b[..|b| - 1]) + (if b[|b| - 1] then 1 else 0)
  }

  lemma {:induction false} BitAt(n: nat, width: nat, k: nat)
    requires k < width
    ensures Bits(n, width)[k] == (ShiftRight(n, width - 1 - k) % 2 == 1)
    decreases width
  {
    if k < width - 1 {
      BitAt(n / 2, width - 1, k);
    }
  }

  lemma {:induction false} ReadBits(n: nat, width: nat)
    requires n < Pow2(width)
    ensures FromBits(Bits(n, width)) == n
    decreases width
  {
    if width > 0 {
      ReadBits(n / 2, width - 1);
      assert Bits(n, width)[..width - 1] == Bits(n / 2, width - 1);
    }
  }

  lemma {:induction false} WriteBits(b: seq<bool>)
    ensures FromBits(b) < Pow2(|b|) && Bits(FromBits(b), |b|) == b
    decreases |b|
  {
    if b != [] {
      WriteBits(b[..|b| - 1]);
      assert FromBits(b) / 2 == FromBits(b[..|b| - 1]);
      assert b == b[..|b| - 1] + [b[|b| - 1]];
    }
  }

  lemma {:induction false} BitsSplit(n: nat, high: nat, low: nat)
    ensures Bits(n, high + low) == Bits(ShiftRight(n, low), high) + Bits(n, low)
    decreases low
  {
    if low > 0 {
      BitsSplit(n / 2, high, low - 1);
      var a, b := Bits(ShiftRight(n / 2, low - 1), high), Bits(n / 2, low - 1);
      assert (a + b) + [n % 2 == 1] == a + (b + [n % 2 == 1]);
      assert high + low - 1 == high + (low - 1);
    } else {
      assert Bits(n, 0) == [];
    }
  }

  /** Setting the next bit below those already read. */
  lemma {:induction false} SetNextBit(n: nat, i: nat)
    ensures SetBit(ShiftLeft(n, i + 1), i) == ShiftLeft(2 * n + 1, i)
    ensures ShiftLeft(n, i + 1) == ShiftLeft(2 * n, i)
  {
    if i > 0 {
      SetNextBit(n, i - 1);
      assert ShiftLeft(n, i + 1) == 2 * ShiftLeft(n, i);
    }
  }

  /** A bit that is set already stays set. */
  lemma {:induction false} SetBitTwice(n: nat, i: nat)
    ensures SetBit(SetBit(n, i), i) == SetBit(n, i)
    decreases i
  {
    if i > 0 {
      SetBitTwice(n / 2, i - 1);
      assert SetBit(n, i) / 2 == SetBit(n / 2, i - 1) && SetBit(n, i) % 2 == n % 2;
    }
  }

  // ---- Lists of equally wide numbers --------------------------------------------------------

  function ToBits(ns: seq<nat>, width: nat): seq<bool> {
    Flatten(seq(|ns|, i requires 0 <= i < |ns| => Bits(ns[i], width)))
  }

  function Numbers(bits: seq<bool>, width: nat, count: nat): (ns: seq<nat>)
    requires |bits| >= Times(count, width)
    ensures |ns| == count
  {
    seq(count, i requires 0 <= i < count =>
      TimesFits(i, count, width);
      FromBits(bits[Times(i, width)..Times(i, width) + width]))
  }

  lemma ToBitsLength(ns: seq<nat>, width: nat)
    ensures |ToBits(ns, width)| == Times(|ns|, width)
  {
    FlattenEqualLength(seq(|ns|, i requires 0 <= i < |ns| => Bits(ns[i], width)), width);
  }

  lemma NumbersOfBits(ns: seq<nat>, width: nat)
    requires forall i :: 0 <= i < |ns| ==> ns[i] < Pow2(width)
    ensures |ToBits(ns, width)| == Times(|ns|, width) && Numbers(ToBits(ns, width), width, |ns|) == ns
  {
    hide Times, Bits, FromBits, Flatten;
    ToBitsLength(ns, width);
    var parts := seq(|ns|, i requires 0 <= i < |ns| => Bits(ns[i], width));
    forall i | 0 <= i < |ns| ensures Numbers(ToBits(ns, width), width, |ns|)[i] == ns[i] {
      TimesFits(i, |ns|, width);
      SliceFlatten(parts, i, width);
      ReadBits(ns[i], width);
    }
  }

  lemma BitsOfNumbers(bits: seq<bool>, width: nat, count: nat)
    requires |bits| == Times(count, width)
    ensures ToBits(Numbers(bits, width, count), width) == bits
    ensures forall i :: 0 <= i < count ==> Numbers(bits, width, count)[i] < Pow2(width)
  {
    hide Times, Bits, FromBits, Flatten;
    var ns := Numbers(bits, width, count);
    var parts := seq(|ns|, i requires 0 <= i < |ns| => Bits(ns[i], width));
    forall i | 0 <= i < count ensures Slice(bits, i, width) == Some(parts[i]) && ns[i] < Pow2(width) {
      TimesFits(i, count, width);
      WriteBits(bits[Times(i, width)..Times(i, width) + width]);
    }
    FlattenSlices(parts, bits, width);
  }

  // ---- Phrases ------------------------------------------------------------------------------

  ghost function NumberedWords(): (w: seq<string>)
    ensures |w| == 2048 && Distinct(w)
  {
    var w := seq(2048, i requires 0 <= i < 2048 => Decimal(i));
    assert Distinct(w) by {
      forall i, j | 0 <= i < j < 2048 ensures w[i] != w[j] {
        if Decimal(i) == Decimal(j) { DecimalInjective(i, j); }
      }
    }
    w
  }

  type WordList = w: seq<string> | |w| == 2048 && Distinct(w) ghost witness NumberedWords()

  /** The 16 bytes of entropy behind a phrase. */
  type Entropy = e: seq<nat> | |e| == 16 && forall i :: 0 <= i < 16 ==> e[i] < 256 witness seq(16, _ => 0)

  /** The first byte of a SHA-256 hash. */
  type Checksum = seq<nat> -> Octet

  /** The entropy followed by the first four bits of its hash. */
  function PhraseBits(sha: Checksum, e: Entropy): seq<bool> { ToBits(e, 8) + Bits(sha(e), 8)[..4] }

  lemma PhraseBitsLength(sha: Checksum, e: Entropy)
    ensures |ToBits(e, 8)| == 128 && |PhraseBits(sha, e)| == 132 == Times(12, 11)
  {
    ToBitsLength(e, 8);
  }

  function PhraseIndices(sha: Checksum, e: Entropy): seq<nat> {
    PhraseBitsLength(sha, e);
    Numbers(PhraseBits(sha, e), 11, 12)
  }

  /** What `GeneratePhrase` makes of the given entropy. */
  ghost predicate PhraseOf(list: WordList, sha: Checksum, e: Entropy, words: seq<string>) {
    var ix := PhraseIndices(sha, e);
    |words| == 12 && forall i :: 0 <= i < 12 ==> ix[i] < 2048 && words[i] == list[ix[i]]
  }

  /** The inner loops that append bits `high - 1` down to `low` of a number. */
  method PushBits(bits: seq<bool>, n: nat, high: nat, low: nat) returns (more: seq<bool>)
    requires low <= high
    ensures more == bits + Bits(n, high)[..high - low]
  {
    more := bits;
    for i := high downto low
      invariant more == bits + Bits(n, high)[..high - i]
    {
      BitAt(n, high, high - 1 - i);
      more := more + [ShiftRight(n, i) % 2 == 1];
      assert Bits(n, high)[..high - i] == Bits(n, high)[..high - 1 - i] + [Bits(n, high)[high - 1 - i]];
    }
  }

  /** The inner loops that assemble a number from the bits at `at`. */
  method PullBits(bits: seq<bool>, at: nat, width: nat) returns (n: nat)
    requires at + width <= |bits|
    ensures n == FromBits(bits[at..at + width])
  {
    n := 0;
    ZeroShifted(width);
    for j := 0 to width
      invariant n == ShiftLeft(FromBits(bits[at..at + j]), width - j)
    {
      SetNextBit(FromBits(bits[at..at + j]), width - 1 - j);
      assert bits[at..at + j + 1][..j] == bits[at..at + j];
      if bits[at + j] {
        n := SetBit(n, width - 1 - j);
      }
    }
  }

  lemma {:induction false} ZeroShifted(i: nat)
    ensures ShiftLeft(0, i) == 0
  {
    if i > 0 { ZeroShifted(i - 1); }
  }

  method GeneratePhrase(list: WordList, sha: Checksum, entropy: Entropy) returns (words: seq<string>)
    ensures PhraseOf(list, sha, entropy, words)
  {
    hide Times, Bits, FromBits, Flatten, Distinct;
    var checksumByte := sha(entropy);
    var bits: seq<bool> := [];
    ToBitsPush([], 0, 8);
    assert entropy[..0] == [];
    for i := 0 to 16
      invariant bits == ToBits(entropy[..i], 8)
    {
      bits := PushBits(bits, entropy[i], 8, 0);
      ToBitsPush(entropy[..i], entropy[i], 8);
      assert entropy[..i + 1] == entropy[..i] + [entropy[i]];
    }
    assert entropy[..16] == entropy;
    bits := PushBits(bits, checksumByte, 8, 4);
    PhraseBitsLength(sha, entropy);
    Pow2Of11();
    words := [];
    for i := 0 to 12
      invariant |words| == i
      invariant forall k :: 0 <= k < i ==>
        PhraseIndices(sha, entropy)[k] < 2048 && words[k] == list[PhraseIndices(sha, entropy)[k]]
    {
      TimesFits(i, 12, 11);
      TimesIsProduct(i, 11);
      var index := PullBits(bits, i * 11, 11);
      WriteBits(bits[i * 11..i * 11 + 11]);
      words := words + [list[index]];
    }
  }

  lemma Pow2Of11()
    ensures Pow2(11) == 2048 && Pow2(8) == 256 && Pow2(4) == 16
  {}

  lemma ToBitsPush(ns: seq<nat>, n: nat, width: nat)
    ensures ToBits(ns + [n], width) == ToBits(ns, width) + Bits(n, width)[..width]
    ensures ToBits([], width) == []
  {
    hide Bits;
    var parts := seq(|ns|, i requires 0 <= i < |ns| => Bits(ns[i], width));
    FlattenPush(parts, Bits(n, width));
    assert seq(|ns + [n]|, i requires 0 <= i < |ns + [n]| => Bits((ns + [n])[i], width)) == parts + [Bits(n, width)];
  }

  // ---- The phrase as one number -------------------------------------------------------------

  /** The number with the given digits, the most significant first. */
  function FromDigits(digits: seq<nat>, base: nat): nat
    decreases |digits|
  {
    if digits == [] then 0 else FromDigits(digits[..|digits| - 1], base) * base + digits[|digits| - 1]
  }

  lemma {:induction false} FromBitsAppend(a: seq<bool>, b: seq<bool>)
    ensures FromBits(a + b) == FromBits(a) * Pow2(|b|) + FromBits(b)
    decreases |b|
  {
    if b == [] {
      assert a + b == a;
    } else {
      var n := |b| - 1;
      assert (a + b)[..|a + b| - 1] == a + b[..n];
      FromBitsAppend(a, b[..n]);
      TimesTwo(FromBits(a), Pow2(n));
    }
  }

  lemma TimesTwo(a: nat, b: nat)
    ensures 2 * (a * b) == a * (2 * b)
  {}

  lemma {:induction false} BitsAreDigits(ns: seq<nat>, width: nat)
    requires forall i :: 0 <= i < |ns| ==> ns[i] < Pow2(width)
    ensures FromBits(ToBits(ns, width)) == FromDigits(ns, Pow2(width))
    decreases |ns|
  {
    hide Bits, FromBits, ToBits;
    if ns == [] {
      ToBitsPush([], 0, width);
      assert FromBits([]) == 0 by { NoBits(); }
    } else {
      var n := |ns| - 1;
      BitsAreDigits(ns[..n], width);
      ToBitsPush(ns[..n], ns[n], width);
      assert ns == ns[..n] + [ns[n]];
      assert Bits(ns[n], width)[..width] == Bits(ns[n], width);
      FromBitsAppend(ToBits(ns[..n], width), Bits(ns[n], width));
      ReadBits(ns[n], width);
    }
  }

  lemma NoBits()
    ensures FromBits([]) == 0
  {}

  /**
   Read as digits to the base 2048, the word indices are the entropy, read as digits to the base 256,
   times 16, plus the upper half of the first byte of its hash.
   */
  lemma PhraseNumber(sha: Checksum, e: Entropy)
    ensures FromDigits(PhraseIndices(sha, e), 2048) == FromDigits(e, 256) * 16 + sha(e) / 16
  {
    hide Bits, FromBits, ToBits, FromDigits, Times, Numbers;
    PhraseBitsLength(sha, e);
    Pow2Of11();
    var bits := PhraseBits(sha, e);
    BitsOfNumbers(bits, 11, 12);
    BitsAreDigits(PhraseIndices(sha, e), 11);
    BitsAreDigits(e, 8);
    var half := Bits(sha(e), 8)[..4];
    FromBitsAppend(ToBits(e, 8), half);
    UpperHalf(sha(e));
    HalfByte(sha(e));
  }

  lemma HalfByte(h: Octet)
    ensures ShiftRight(h, 4) == h / 16
  {
    assert ShiftRight(h, 4) == ShiftRight(h / 2, 3);
    assert ShiftRight(h / 2, 3) == ShiftRight(h / 4, 2);
    assert ShiftRight(h / 4, 2) == ShiftRight(h / 8, 1);
    assert ShiftRight(h / 8, 1) == ShiftRight(h / 16, 0);
  }

  // ---- Validation ---------------------------------------------------------------------------

  /** The position of the first occurrence of a word. */
  function IndexOf(list: seq<string>, word: string): (i: nat)
    requires word in list
    ensures i < |list| && list[i] == word
  {
    if list[0] == word then 0 else 1 + IndexOf(list[1..], word)
  }

  function WordIndices(list: WordList, words: seq<string>): (ix: seq<nat>)
    requires forall i :: 0 <= i < |words| ==> words[i] in list
    ensures |ix| == |words| && forall i :: 0 <= i < |ix| ==> ix[i] < 2048 && list[ix[i]] == words[i]
  {
    seq(|words|, i requires 0 <= i < |words| => IndexOf(list, words[i]))
  }

  /** The entropy encoded by twelve word indices. */
  function DecodedEntropy(ix: seq<nat>): Entropy
    requires |ix| == 12
  {
    ToBitsLength(ix, 11);
    var bits := ToBits(ix, 11)[..128];
    BitsOfNumbers(bits, 8, 16);
    Pow2Of11();
    Numbers(bits, 8, 16)
  }

  /** What the validator computes from the words, once they are known to be in the list. */
  predicate ChecksumMatches(sha: Checksum, ix: seq<nat>)
    requires |ix| == 12
  {
    ToBitsLength(ix, 11);
    ShiftRight(sha(DecodedEntropy(ix)), 4) % 16 == FromBits(ToBits(ix, 11)[128..132])
  }

  predicate Valid(list: WordList, sha: Checksum, words: seq<string>) {
    |words| == 12 && (forall i :: 0 <= i < 12 ==> words[i] in list) && ChecksumMatches(sha, WordIndices(list, words))
  }

  /** `words` is the phrase in lower case, trimmed and split at white space. */
  method ValidatePhrase(list: WordList, sha: Checksum, words: seq<string>) returns (ok: bool)
    ensures ok == Valid(list, sha, words)
  {
    hide Times, Bits, FromBits, Flatten, Distinct;
    if |words| != 12 {
      return false;
    }
    for i := 0 to 12
      invariant forall k :: 0 <= k < i ==> words[k] in list
    {
      if words[i] !in list {
        return false;
      }
    }
    ghost var ix := WordIndices(list, words);
    var bits: seq<bool> := [];
    ToBitsPush([], 0, 11);
    for i := 0 to 12
      invariant bits == ToBits(ix[..i], 11)
    {
      var index := IndexOf(list, words[i]);
      bits := PushBits(bits, index, 11, 0);
      ToBitsPush(ix[..i], ix[i], 11);
      assert ix[..i + 1] == ix[..i] + [ix[i]];
    }
    assert ix[..12] == ix;
    ToBitsLength(ix, 11);
    TimesIsProduct(12, 11);
    var entropy: seq<nat> := [];
    for i := 0 to 16
      invariant |entropy| == i
      invariant forall k :: 0 <= k < i ==> entropy[k] == DecodedEntropy(ix)[k]
    {
      TimesFits(i, 16, 8);
      TimesIsProduct(i, 8);
      var byte := PullBits(bits, i * 8, 8);
      assert bits[..128][i * 8..i * 8 + 8] == bits[i * 8..i * 8 + 8];
      entropy := entropy + [byte];
    }
    assert entropy == DecodedEntropy(ix);
    var expectedChecksum := ShiftRight(sha(entropy), 4) % 16;
    var actualChecksum := PullBits(bits, 128, 4);
    return expectedChecksum == actualChecksum;
  }

  // ---- Exactness ----------------------------------------------------------------------------

  lemma {:induction false} IndexOfEntry(list: seq<string>, i: nat)
    requires i < |list| && Distinct(list)
    ensures list[i] in list && IndexOf(list, list[i]) == i
  {
    if i > 0 {
      assert list[0] != list[i];
      IndexOfEntry(list[1..], i - 1);
    }
  }

  /** The upper half of a byte, read in three ways. */
  lemma UpperHalf(h: Octet)
    ensures Bits(h, 8)[..4] == Bits(ShiftRight(h, 4), 4)
    ensures ShiftRight(h, 4) % 16 == ShiftRight(h, 4) < 16
    ensures FromBits(Bits(h, 8)[..4]) == ShiftRight(h, 4)
  {
    BitsSplit(h, 4, 4);
    assert ShiftRight(h, 4) == h / 2 / 2 / 2 / 2;
    Pow2Of11();
    ReadBits(ShiftRight(h, 4), 4);
  }

  /** The bits of valid word indices are the phrase bits of the entropy they encode. */
  lemma ChecksumMeansPhraseBits(sha: Checksum, ix: seq<nat>)
    requires |ix| == 12
    ensures |ToBits(ix, 11)| == 132
    ensures ChecksumMatches(sha, ix) <==> ToBits(ix, 11) == PhraseBits(sha, DecodedEntropy(ix))
  {
    hide Times, Bits, FromBits, Flatten, ToBits;
    ToBitsLength(ix, 11);
    TimesIsProduct(12, 11); TimesIsProduct(16, 8);
    var bits, e := ToBits(ix, 11), DecodedEntropy(ix);
    BitsOfNumbers(bits[..128], 8, 16);
    UpperHalf(sha(e));
    WriteBits(bits[128..132]);
    assert bits == bits[..128] + bits[128..132];
    if bits == PhraseBits(sha, e) {
      assert bits[128..132] == Bits(sha(e), 8)[..4];
    }
  }

  /** Decoding the indices of a phrase gives back the entropy and a matching checksum. */
  lemma PhraseDecodes(sha: Checksum, e: Entropy)
    ensures var ix := PhraseIndices(sha, e);
            && (forall i :: 0 <= i < 12 ==> ix[i] < 2048)
            && ToBits(ix, 11) == PhraseBits(sha, e)
            && DecodedEntropy(ix) == e
            && ChecksumMatches(sha, ix)
  {
    hide Times, Bits, FromBits, Flatten, ToBits;
    PhraseBitsLength(sha, e);
    BitsOfNumbers(PhraseBits(sha, e), 11, 12);
    Pow2Of11();
    var ix := PhraseIndices(sha, e);
    assert ToBits(ix, 11)[..128] == ToBits(e, 8);
    NumbersOfBits(e, 8);
    ChecksumMeansPhraseBits(sha, ix);
  }

  lemma WordIndicesOfPhrase(list: WordList, ix: seq<nat>, words: seq<string>)
    requires |ix| == |words| && forall i :: 0 <= i < |ix| ==> ix[i] < 2048 && words[i] == list[ix[i]]
    ensures (forall i :: 0 <= i < |words| ==> words[i] in list) && WordIndices(list, words) == ix
  {
    forall i | 0 <= i < |words| ensures words[i] in list && IndexOf(list, words[i]) == ix[i] {
      IndexOfEntry(list, ix[i]);
    }
  }

  /** The entropy of a phrase; for valid phrases it is the one the phrase was generated from. */
  function EntropyOf(list: WordList, words: seq<string>): Entropy
    requires |words| == 12 && forall i :: 0 <= i < 12 ==> words[i] in list
  {
    DecodedEntropy(WordIndices(list, words))
  }

  /** Generation followed by validation: every generated phrase is valid and has its own entropy. */
  lemma GeneratedIsValid(list: WordList, sha: Checksum, e: Entropy, words: seq<string>)
    requires PhraseOf(list, sha, e, words)
    ensures Valid(list, sha, words) && EntropyOf(list, words) == e
  {
    PhraseDecodes(sha, e);
    WordIndicesOfPhrase(list, PhraseIndices(sha, e), words);
  }

  /** Validation followed by generation: a valid phrase is what its entropy generates. */
  lemma ValidIsGenerated(list: WordList, sha: Checksum, words: seq<string>)
    requires Valid(list, sha, words)
    ensures PhraseOf(list, sha, EntropyOf(list, words), words)
  {
    hide Times, Bits, FromBits, Flatten, ToBits;
    var ix := WordIndices(list, words);
    ChecksumMeansPhraseBits(sha, ix);
    Pow2Of11();
    NumbersOfBits(ix, 11);
  }

  /**
   The validator accepts exactly the phrases that can be generated, and each of them is generated
   from exactly one entropy.
   */
  lemma ValidationExact(list: WordList, sha: Checksum, words: seq<string>)
    ensures Valid(list, sha, words) <==> exists e: Entropy :: PhraseOf(list, sha, e, words)
    ensures forall e, f: Entropy :: PhraseOf(list, sha, e, words) && PhraseOf(list, sha, f, words) ==> e == f
  {
    hide PhraseOf, EntropyOf, ChecksumMatches;
    if Valid(list, sha, words) {
      ValidIsGenerated(list, sha, words);
    }
    forall e: Entropy | PhraseOf(list, sha, e, words)
      ensures Valid(list, sha, words) && EntropyOf(list, words) == e
    {
      GeneratedIsValid(list, sha, e, words);
    }
  }

  // ---- The last word ------------------------------------------------------------------------

  /** Seven bits of entropy and four bits of checksum in one index. */
  lemma LastIndexBits(t: nat, c: nat)
    requires t < 128 && c < 16
    ensures Bits(16 * t + c, 11) == Bits(t, 7) + Bits(c, 4)
  {
    var n := 16 * t + c;
    BitsSplit(n, 7, 4);
    assert ShiftRight(n, 4) == n / 2 / 2 / 2 / 2 == t;
    LowFourBits(t, c);
  }

  lemma LowFourBits(t: nat, c: nat)
    requires c < 16
    ensures Bits(16 * t + c, 4) == Bits(c, 4)
  {
    assert (16 * t + c) % 2 == c % 2 && (16 * t + c) / 2 == 8 * t + c / 2;
    assert (8 * t + c / 2) % 2 == c / 2 % 2 && (8 * t + c / 2) / 2 == 4 * t + c / 4;
    assert (4 * t + c / 4) % 2 == c / 4 % 2 && (4 * t + c / 4) / 2 == 2 * t + c / 8;
    assert (2 * t + c / 8) % 2 == c / 8 % 2;
    assert c / 2 / 2 == c / 4 && c / 4 / 2 == c / 8;
    assert Bits(16 * t + c, 4)[..] == [c / 8 % 2 == 1, c / 4 % 2 == 1, c / 2 % 2 == 1, c % 2 == 1];
    assert Bits(c, 4)[..] == [c / 8 % 2 == 1, c / 4 % 2 == 1, c / 2 % 2 == 1, c % 2 == 1];
  }

  function LeadingBits(list: WordList, eleven: seq<string>): (b: seq<bool>)
    requires |eleven| == 11 && forall i :: 0 <= i < 11 ==> eleven[i] in list
    ensures |b| == 121
  {
    ToBitsLength(WordIndices(list, eleven), 11);
    ToBits(WordIndices(list, eleven), 11)
  }

  /** The entropy that eleven words and seven more bits stand for. */
  function CompletedEntropy(list: WordList, eleven: seq<string>, t: nat): Entropy
    requires |eleven| == 11 && forall i :: 0 <= i < 11 ==> eleven[i] in list
  {
    var bits := LeadingBits(list, eleven) + Bits(t, 7);
    BitsOfNumbers(bits, 8, 16);
    Pow2Of11();
    Numbers(bits, 8, 16)
  }

  /** The index of the one valid last word that continues with the seven bits `t`. */
  function LastIndex(list: WordList, sha: Checksum, eleven: seq<string>, t: nat): (i: nat)
    requires t < 128 && |eleven| == 11 && forall i :: 0 <= i < 11 ==> eleven[i] in list
    ensures i < 2048 && i / 16 == t
  {
    var h := sha(CompletedEntropy(list, eleven, t));
    UpperHalf(h);
    16 * t + ShiftRight(h, 4)
  }

  lemma LastWordExact(list: WordList, sha: Checksum, eleven: seq<string>, index: nat)
    requires index < 2048 && |eleven| == 11 && forall i :: 0 <= i < 11 ==> eleven[i] in list
    ensures Valid(list, sha, eleven + [list[index]]) <==> index == LastIndex(list, sha, eleven, index / 16)
  {
    hide Times, Bits, FromBits, Flatten, ToBits, ShiftRight, Numbers, IndexOf;
    var t, c := index / 16, index % 16;
    var words := eleven + [list[index]];
    var ix := WordIndices(list, eleven);
    WordIndicesOfPhrase(list, ix + [index], words);
    ToBitsPush(ix, index, 11);
    assert Bits(index, 11)[..11] == Bits(index, 11);
    LastIndexBits(t, c);
    var bits := ToBits(ix + [index], 11);
    assert bits == LeadingBits(list, eleven) + Bits(t, 7) + Bits(c, 4);
    assert bits[..128] == LeadingBits(list, eleven) + Bits(t, 7) && bits[128..132] == Bits(c, 4);
    Pow2Of11();
    ReadBits(c, 4);
    UpperHalf(sha(CompletedEntropy(list, eleven, t)));
  }

  function LastWords(list: WordList, sha: Checksum, eleven: seq<string>): set<string>
    requires |eleven| == 11 && forall i :: 0 <= i < 11 ==> eleven[i] in list
  {
    set w | w in list && Valid(list, sha, eleven + [w])
  }

  ghost function CompletionsBelow(list: WordList, sha: Checksum, eleven: seq<string>, n: nat): set<string>
    requires n <= 128 && |eleven| == 11 && forall i :: 0 <= i < 11 ==> eleven[i] in list
  {
    set t | 0 <= t < n :: list[LastIndex(list, sha, eleven, t)]
  }

  lemma {:induction false} CountCompletions(list: WordList, sha: Checksum, eleven: seq<string>, n: nat)
    requires n <= 128 && |eleven| == 11 && forall i :: 0 <= i < 11 ==> eleven[i] in list
    ensures |CompletionsBelow(list, sha, eleven, n)| == n
    decreases n
  {
    hide LastIndex, LeadingBits, Distinct;
    var all := CompletionsBelow(list, sha, eleven, n);
    if n == 0 {
      assert all == {};
    } else {
      CountCompletions(list, sha, eleven, n - 1);
      var last := LastIndex(list, sha, eleven, n - 1);
      forall t | 0 <= t < n - 1 ensures list[LastIndex(list, sha, eleven, t)] != list[last] {
        DifferentEntries(list, LastIndex(list, sha, eleven, t), last);
      }
      assert all == CompletionsBelow(list, sha, eleven, n - 1) + {list[last]};
    }
  }

  lemma DifferentEntries(list: WordList, i: nat, j: nat)
    requires i < 2048 && j < 2048 && i != j
    ensures list[i] != list[j]
  {}

  /** Any eleven words of the list can be completed to a valid phrase by exactly 128 last words. */
  lemma LastWordCount(list: WordList, sha: Checksum, eleven: seq<string>)
    requires |eleven| == 11 && forall i :: 0 <= i < 11 ==> eleven[i] in list
    ensures |LastWords(list, sha, eleven)| == 128
  {
    hide LastIndex, Valid;
    CountCompletions(list, sha, eleven, 128);
    var all := CompletionsBelow(list, sha, eleven, 128);
    forall w | w in LastWords(list, sha, eleven) ensures w in all {
      var i := IndexOf(list, w);
      LastWordExact(list, sha, eleven, i);
    }
    forall t | 0 <= t < 128 ensures list[LastIndex(list, sha, eleven, t)] in LastWords(list, sha, eleven) {
      LastWordExact(list, sha, eleven, LastIndex(list, sha, eleven, t));
    }
    assert LastWords(list, sha, eleven) == all;
  }
}
