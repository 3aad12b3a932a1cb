/** The BIP-39 checksum: 11-bit word indices, their packing into bytes, and the comparison with the hash. */
module Mnemonic {
  import opened Bytes

  const WORD_BITS: nat := 11

  type Digest = s: seq<byte> | |s| == 32 witness Zeros(32)
  type Hash = seq<byte> -> Digest

  // ---------------------------------------------------------------- bits

  function Shr(v: nat, n: nat): nat {
    if n == 0 then v else Shr(v / 2, n - 1)
  }

  /** v with bit k set: bitwise or with 1 << k. */
  function SetBit(v: nat, k: nat): nat {
    if k == 0 then v / 2 * 2 + 1 else 2 * SetBit(v / 2, k - 1) + v % 2
  }

  /** The low w bits of v, most significant first. */
  function BitsOf(v: nat, w: nat): (r: seq<bool>)
    ensures |r| == w
  {
    if w == 0 then [] else BitsOf(v / 2, w - 1) + [v % 2 == 1]
  }

  function NumberOf(bits: seq<bool>): nat {
    if bits == [] then 0 else 2 * NumberOf(bits[..|bits| - 1]) + if bits[|bits| - 1] then 1 else 0
  }

  function Falses(n: nat): seq<bool> {
    seq(n, i => false)
  }

  lemma {:induction false} BitsOfAt(v: nat, w: nat, j: nat)
    requires j < w
    ensures BitsOf(v, w)[j] <==> Shr(v, w - 1 - j) % 2 == 1
  {
    if j < w - 1 {
      BitsOfAt(v / 2, w - 1, j);
    }
  }

  lemma {:induction false} BitsOfSetBit(v: nat, w: nat, k: nat)
    requires k < w && v < Pow2(w)
    ensures SetBit(v, k) < Pow2(w) && BitsOf(SetBit(v, k), w) == BitsOf(v, w)[w - 1 - k := true]
  {
    assert v / 2 < Pow2(w - 1);
    if k == 0 {
      Halve(v / 2, 1);
    } else {
      BitsOfSetBit(v / 2, w - 1, k - 1);
      Halve(SetBit(v / 2, k - 1), v % 2);
    }
  }

  lemma {:induction false} NumberOfBitsOf(v: nat, w: nat)
    requires v < Pow2(w)
    ensures NumberOf(BitsOf(v, w)) == v
  {
    if w > 0 {
      NumberOfBitsOf(v / 2, w - 1);
      assert BitsOf(v, w)[..w - 1] == BitsOf(v / 2, w - 1);
    }
  }

  lemma {:induction false} BitsOfNumberOf(bits: seq<bool>)
    ensures NumberOf(bits) < Pow2(|bits|) && BitsOf(NumberOf(bits), |bits|) == bits
  {
    if bits != [] {
      var n := |bits| - 1;
      BitsOfNumberOf(bits[..n]);
      Halve(NumberOf(bits[..n]), if bits[n] then 1 else 0);
      assert bits == bits[..n] + [bits[n]];
    }
  }

  // ---------------------------------------------------------------- streams of fixed-width numbers

  /** The number of bits in n rows of w. */
  function Rows(n: nat, w: nat): nat {
    if n == 0 then 0 else Rows(n - 1, w) + w
  }

  lemma {:induction false} RowsAbove(i: nat, n: nat, w: nat)
    requires i < n
    ensures Rows(i, w) + w <= Rows(n, w)
  {
    if i < n - 1 {
      RowsAbove(i, n - 1, w);
    }
  }

  lemma {:induction false} RowsOfBytes(n: nat)
    ensures Rows(n, 8) == 8 * n
  {
    if n > 0 {
      RowsOfBytes(n - 1);
    }
  }

  lemma {:induction false} RowsOfWords(n: nat)
    ensures Rows(n, WORD_BITS) == 11 * n
  {
    if n > 0 {
      RowsOfWords(n - 1);
    }
  }

  /** The numbers written one after the other, w bits each. */
  function Stream(vs: seq<nat>, w: nat): (r: seq<bool>)
    ensures |r| == Rows(|vs|, w)
  {
    if vs == [] then [] else Stream(vs[..|vs| - 1], w) + BitsOf(vs[|vs| - 1], w)
  }

  /** The w-bit groups of a stream, as numbers. */
  function Groups(bits: seq<bool>, w: nat): (r: seq<nat>)
    requires w > 0
  {
    if |bits| < w then [] else Groups(bits[..|bits| - w], w) + [NumberOf(bits[|bits| - w..])]
  }

  lemma StreamSnoc(vs: seq<nat>, v: nat, w: nat)
    ensures Stream(vs + [v], w) == Stream(vs, w) + BitsOf(v, w)
  {
    assert (vs + [v])[..|vs|] == vs;
  }

  lemma {:induction false} StreamConcat(a: seq<nat>, b: seq<nat>, w: nat)
    ensures Stream(a + b, w) == Stream(a, w) + Stream(b, w)
  {
    if b == [] {
      assert a + b == a && Stream(a, w) + [] == Stream(a, w);
    } else {
      var init, last := b[..|b| - 1], b[|b| - 1];
      StreamConcat(a, init, w);
      assert b == init + [last];
      Associative(a, init, [last]);
      StreamSnoc(a + init, last, w);
      Associative(Stream(a, w), Stream(init, w), BitsOf(last, w));
    }
  }

  lemma Middle<T>(s: seq<T>, t: seq<T>, a: seq<T>, m: seq<T>, b: seq<T>, j: nat, x: T)
    requires j < |m| && s == a + m + b && t == a + m[j := x] + b
    ensures |a| + j < |s| && s[|a| + j] == m[j] && t == s[|a| + j := x]
  {
  }

  lemma Around<T>(s: seq<T>, i: nat, x: T)
    requires i < |s|
    ensures s == s[..i] + [s[i]] + s[i + 1..] && s[i := x] == s[..i] + [x] + s[i + 1..]
  {
  }

  lemma StreamParts(a: seq<nat>, v: nat, b: seq<nat>, w: nat)
    ensures Stream(a + [v] + b, w) == Stream(a, w) + BitsOf(v, w) + Stream(b, w)
  {
    StreamSnoc(a, v, w);
    StreamConcat(a + [v], b, w);
  }

  lemma StreamAt(vs: seq<nat>, w: nat, i: nat, j: nat)
    requires i < |vs| && j < w
    ensures Rows(i, w) + j < Rows(|vs|, w) && Stream(vs, w)[Rows(i, w) + j] == BitsOf(vs[i], w)[j]
  {
    var a, m, b := Stream(vs[..i], w), BitsOf(vs[i], w), Stream(vs[i + 1..], w);
    Around(vs, i, vs[i]);
    StreamParts(vs[..i], vs[i], vs[i + 1..], w);
    Middle(Stream(vs, w), a + m[j := true] + b, a, m, b, j, true);
  }

  lemma GroupsSnoc(init: seq<bool>, last: seq<bool>, w: nat)
    requires w > 0 && |last| == w
    ensures Groups(init + last, w) == Groups(init, w) + [NumberOf(last)]
  {
    var bits := init + last;
    assert bits[..|bits| - w] == init && bits[|bits| - w..] == last;
  }

  ghost predicate Narrow(vs: seq<nat>, w: nat) {
    forall i :: 0 <= i < |vs| ==> vs[i] < Pow2(w)
  }

  lemma NarrowSnoc(vs: seq<nat>, v: nat, w: nat)
    requires Narrow(vs, w) && v < Pow2(w)
    ensures Narrow(vs + [v], w)
  {
  }

  lemma {:induction false} GroupsOfStream(vs: seq<nat>, w: nat)
    requires w > 0 && Narrow(vs, w)
    ensures Groups(Stream(vs, w), w) == vs
  {
    if vs != [] {
      var n := |vs| - 1;
      assert vs == vs[..n] + [vs[n]];
      GroupsOfStream(vs[..n], w);
      NumberOfBitsOf(vs[n], w);
      GroupsSnoc(Stream(vs[..n], w), BitsOf(vs[n], w), w);
    }
  }

  lemma OneMoreGroup(init: seq<bool>, last: seq<bool>, w: nat)
    requires w > 0 && |last| == w && Stream(Groups(init, w), w) == init && Narrow(Groups(init, w), w)
    ensures var gs := Groups(init + last, w);
            |gs| == |Groups(init, w)| + 1 && Stream(gs, w) == init + last && Narrow(gs, w)
  {
    var vs, v := Groups(init, w), NumberOf(last);
    BitsOfNumberOf(last);
    GroupsSnoc(init, last, w);
    StreamSnoc(vs, v, w);
    NarrowSnoc(vs, v, w);
  }

  lemma {:induction false} StreamOfGroups(bits: seq<bool>, w: nat, n: nat)
    requires w > 0 && |bits| == Rows(n, w)
    ensures |Groups(bits, w)| == n && Stream(Groups(bits, w), w) == bits && Narrow(Groups(bits, w), w)
    decreases n
  {
    if n > 0 {
      var rest, last := bits[..|bits| - w], bits[|bits| - w..];
      StreamOfGroups(rest, w, n - 1);
      OneMoreGroup(rest, last, w);
      assert bits == rest + last;
    }
  }

  lemma StreamPrefix(vs: seq<nat>, w: nat, k: nat)
    requires k <= |vs|
    ensures Rows(k, w) <= Rows(|vs|, w) && Stream(vs[..k], w) == Stream(vs, w)[..Rows(k, w)]
  {
    assert vs == vs[..k] + vs[k..];
    StreamConcat(vs[..k], vs[k..], w);
    Prefix(Stream(vs[..k], w), Stream(vs[k..], w));
  }

  lemma Prefix<T>(a: seq<T>, b: seq<T>)
    ensures (a + b)[..|a|] == a && |a| <= |a + b|
  {
  }

  lemma StreamInjective(a: seq<nat>, b: seq<nat>, w: nat)
    requires w > 0 && Stream(a, w) == Stream(b, w) && Narrow(a, w) && Narrow(b, w)
    ensures a == b
  {
    GroupsOfStream(a, w);
    GroupsOfStream(b, w);
  }

  /** Setting one bit of one number sets one bit of the stream. */
  lemma StreamSetBit(vs: seq<nat>, w: nat, i: nat, j: nat, v: nat)
    requires i < |vs| && j < w && vs[i] < Pow2(w) && v == SetBit(vs[i], w - 1 - j)
    ensures Rows(i, w) + j < Rows(|vs|, w)
    ensures Stream(vs[i := v], w) == Stream(vs, w)[Rows(i, w) + j := true]
  {
    var a, m, b := Stream(vs[..i], w), BitsOf(vs[i], w), Stream(vs[i + 1..], w);
    Around(vs, i, v);
    StreamParts(vs[..i], vs[i], vs[i + 1..], w);
    StreamParts(vs[..i], v, vs[i + 1..], w);
    BitsOfSetBit(vs[i], w, w - 1 - j);
    assert w - 1 - (w - 1 - j) == j;
    Middle(Stream(vs, w), Stream(vs[i := v], w), a, m, b, j, true);
  }

  // ---------------------------------------------------------------- streams of bytes and of words

  function ByteBits(bytes: seq<byte>): (r: seq<bool>)
    ensures |r| == 8 * |bytes|
  {
    RowsOfBytes(|bytes|);
    Stream(bytes, 8)
  }

  function WordBits(words: seq<nat>): (r: seq<bool>)
    ensures |r| == 11 * |words|
  {
    RowsOfWords(|words|);
    Stream(words, WORD_BITS)
  }

  lemma Widths()
    ensures Pow2(8) == 256 && Pow2(WORD_BITS) == 2048
  {
    assert Pow2(4) == 16 && Pow2(8) == 16 * Pow2(4) && Pow2(11) == 8 * Pow2(8);
  }

  lemma BytesAreNarrow(bytes: seq<byte>)
    ensures Narrow(bytes, 8)
  {
    Widths();
  }

  lemma ByteBitsInjective(a: seq<byte>, b: seq<byte>)
    requires ByteBits(a) == ByteBits(b)
    ensures a == b
  {
    BytesAreNarrow(a);
    BytesAreNarrow(b);
    StreamInjective(a, b, 8);
  }

  lemma ByteBitsPrefix(bytes: seq<byte>, n: nat)
    requires n <= |bytes|
    ensures ByteBits(bytes[..n]) == ByteBits(bytes)[..8 * n]
  {
    RowsOfBytes(n);
    StreamPrefix(bytes, 8, n);
  }

  lemma ByteBit(bytes: seq<byte>, q: nat, i: nat)
    requires q < |bytes| && i < 8
    ensures ByteBits(bytes)[8 * q + i] <==> Shr(bytes[q], 7 - i) % 2 == 1
  {
    RowsOfBytes(q);
    StreamAt(bytes, 8, q, i);
    BitsOfAt(bytes[q], 8, i);
  }

  lemma ByteBitAt(bytes: seq<byte>, pos: nat)
    requires pos < 8 * |bytes|
    ensures ByteBits(bytes)[pos] <==> Shr(bytes[pos / 8], 7 - pos % 8) % 2 == 1
  {
    var q, i := pos / 8, pos % 8;
    assert pos == 8 * q + i;
    ByteBit(bytes, q, i);
  }

  lemma WordBitFromTop(words: seq<nat>, i: nat, j: nat)
    requires i < |words| && j < 11
    ensures WordBits(words)[11 * i + j] <==> Shr(words[i], 10 - j) % 2 == 1
  {
    RowsOfWords(i);
    StreamAt(words, WORD_BITS, i, j);
    BitsOfAt(words[i], WORD_BITS, j);
  }

  lemma WordBit(words: seq<nat>, i: nat, bit: nat)
    requires i < |words| && bit < 11
    ensures WordBits(words)[11 * i + (10 - bit)] <==> Shr(words[i], bit) % 2 == 1
  {
    WordBitFromTop(words, i, 10 - bit);
  }

  lemma ByteBitsSet(bytes: seq<byte>, q: nat, i: nat)
    requires q < |bytes| && i < 8
    ensures var v := SetBit(bytes[q], 7 - i);
            v < 256 && ByteBits(bytes[q := v]) == ByteBits(bytes)[8 * q + i := true]
  {
    Widths();
    BitsOfSetBit(bytes[q], 8, 7 - i);
    RowsOfBytes(q);
    StreamSetBit(bytes, 8, q, i, SetBit(bytes[q], 7 - i));
  }

  /** Bits that fill n bytes are those of n bytes. */
  function BytesOf(bits: seq<bool>, n: nat): (r: seq<byte>)
    requires |bits| == 8 * n
    ensures |r| == n && ByteBits(r) == bits
  {
    RowsOfBytes(n);
    StreamOfGroups(bits, 8, n);
    Widths();
    Groups(bits, 8)
  }

  /** Bits that fill n words are those of n words. */
  function WordsIn(bits: seq<bool>, n: nat): (r: seq<nat>)
    requires |bits| == 11 * n
    ensures |r| == n && WordBits(r) == bits && Narrow(r, WORD_BITS)
  {
    RowsOfWords(n);
    StreamOfGroups(bits, WORD_BITS, n);
    Groups(bits, WORD_BITS)
  }

  lemma WordsInWordBits(words: seq<nat>)
    requires Narrow(words, WORD_BITS)
    ensures WordsIn(WordBits(words), |words|) == words
  {
    GroupsOfStream(words, WORD_BITS);
  }

  // ---------------------------------------------------------------- the check

  function PackedLength(words: nat): nat {
    (words * 11 + 7) / 8
  }

  /** The words' bits, filled up with zeros, as bytes. */
  function Packed(indices: seq<uint16>): (r: seq<byte>)
    ensures |r| == PackedLength(|indices|)
    ensures ByteBits(r) == WordBits(indices) + Falses(8 * |r| - 11 * |indices|)
  {
    var n := PackedLength(|indices|);
    BytesOf(WordBits(indices) + Falses(8 * n - 11 * |indices|), n)
  }

  function ChecksumBits(words: nat): nat {
    words / 3
  }

  function EntropyBytes(words: nat): nat {
    (words * 11 - ChecksumBits(words)) / 8
  }

  lemma ChecksumFits(words: nat)
    ensures EntropyBytes(words) <= PackedLength(words)
    ensures 8 * EntropyBytes(words) + ChecksumBits(words) <= 8 * PackedLength(words)
  {
  }

  /** Bit i of the digest is bit i after the entropy. */
  predicate SameBit(digest: Digest, packed: seq<byte>, entropyBytes: nat, i: nat)
    requires i < 256 && 8 * entropyBytes + i < 8 * |packed|
  {
    ByteBits(digest)[i] == ByteBits(packed)[8 * entropyBytes + i]
  }

  predicate ChecksumMatches(digest: Digest, packed: seq<byte>, entropyBytes: nat, n: nat)
    requires n <= 256 && 8 * entropyBytes + n <= 8 * |packed|
  {
    forall i :: 0 <= i < n ==> SameBit(digest, packed, entropyBytes, i)
  }

  /** What validateChecksum answers for as many indices as words. */
  predicate ValidChecksum(hash: Hash, indices: seq<uint16>)
    requires ChecksumBits(|indices|) <= 256
  {
    ChecksumFits(|indices|);
    var packed, e := Packed(indices), EntropyBytes(|indices|);
    ChecksumMatches(hash(packed[..e]), packed, e, ChecksumBits(|indices|))
  }

  /** The first pos bits of s are in place, the rest are clear. */
  ghost predicate PackedUpTo(bytes: seq<byte>, s: seq<bool>, pos: nat)
    requires pos <= |s| <= 8 * |bytes|
  {
    ByteBits(bytes) == s[..pos] + Falses(8 * |bytes| - pos)
  }

  lemma PackOneBit(bytes: seq<byte>, s: seq<bool>, pos: nat)
    requires pos < |s| <= 8 * |bytes| && PackedUpTo(bytes, s, pos)
    ensures var v := SetBit(bytes[pos / 8], 7 - pos % 8);
            v < 256 && PackedUpTo(if s[pos] then bytes[pos / 8 := v] else bytes, s, pos + 1)
  {
    assert 8 * (pos / 8) + pos % 8 == pos && pos / 8 < |bytes|;
    ByteBitsSet(bytes, pos / 8, pos % 8);
    OneMoreBit(s, pos, 8 * |bytes| - pos);
  }

  lemma OneMoreBit(s: seq<bool>, pos: nat, m: nat)
    requires pos < |s| && m > 0
    ensures (s[..pos] + Falses(m))[pos := s[pos]] == s[..pos + 1] + Falses(m - 1)
    ensures !s[pos] ==> s[..pos] + Falses(m) == s[..pos + 1] + Falses(m - 1)
  {
    var was, now := s[..pos] + Falses(m), s[..pos + 1] + Falses(m - 1);
    assert |was| == |now|;
    forall j | 0 <= j < |now| && j != pos
      ensures was[j] == now[j]
    {
    }
  }

  method PackBit(bits: array<byte>, ghost s: seq<bool>, pos: nat, on: bool)
    requires pos < |s| <= 8 * bits.Length && on == s[pos] && PackedUpTo(bits[..], s, pos)
    modifies bits
    ensures PackedUpTo(bits[..], s, pos + 1)
  {
    PackOneBit(bits[..], s, pos);
    if on {
      ghost var was := bits[..];
      bits[pos / 8] := SetBit(bits[pos / 8], 7 - pos % 8);
      assert bits[..] == was[pos / 8 := bits[pos / 8]];
    }
  }

  method PackWord(bits: array<byte>, indices: seq<uint16>, i: nat)
    requires i < |indices| && 11 * |indices| <= 8 * bits.Length
    requires PackedUpTo(bits[..], WordBits(indices), 11 * i)
    modifies bits
    ensures PackedUpTo(bits[..], WordBits(indices), 11 * i + 11)
  {
    ghost var s := WordBits(indices);
    for bit := 11 downto 0
      invariant PackedUpTo(bits[..], s, 11 * i + (11 - bit))
    {
      WordBit(indices, i, bit);
      PackBit(bits, s, 11 * i + (10 - bit), Shr(indices[i], bit) % 2 == 1);
    }
  }

  method PackWords(indices: seq<uint16>) returns (bits: array<byte>)
    ensures fresh(bits) && bits[..] == Packed(indices)
  {
    bits := new byte[PackedLength(|indices|)](i => 0);
    ZeroBits(bits[..]);
    for i := 0 to |indices|
      invariant PackedUpTo(bits[..], WordBits(indices), 11 * i)
    {
      PackWord(bits, indices, i);
    }
    FullyPacked(bits[..], indices);
  }

  lemma FullyPacked(bytes: seq<byte>, indices: seq<uint16>)
    requires |bytes| == PackedLength(|indices|) && PackedUpTo(bytes, WordBits(indices), 11 * |indices|)
    ensures bytes == Packed(indices)
  {
    var s := WordBits(indices);
    assert s[..|s|] == s;
    ByteBitsInjective(bytes, Packed(indices));
  }

  lemma ZeroBits(bytes: seq<byte>)
    requires forall i :: 0 <= i < |bytes| ==> bytes[i] == 0
    ensures ByteBits(bytes) == Falses(8 * |bytes|)
  {
    forall j | 0 <= j < 8 * |bytes|
      ensures !ByteBits(bytes)[j]
    {
      ByteBitAt(bytes, j);
      ShrZero(7 - j % 8);
    }
  }

  lemma {:induction false} ShrZero(n: nat)
    ensures Shr(0, n) == 0
  {
    if n > 0 {
      ShrZero(n - 1);
    }
  }

  lemma SameBitIff(digest: Digest, packed: seq<byte>, entropyBytes: nat, i: nat)
    requires i < 256 && 8 * entropyBytes + i < 8 * |packed|
    ensures SameBit(digest, packed, entropyBytes, i)
       <==> Shr(digest[i / 8], 7 - i % 8) % 2 == Shr(packed[entropyBytes + i / 8], 7 - i % 8) % 2
  {
    var pos := 8 * entropyBytes + i;
    assert pos / 8 == entropyBytes + i / 8 && pos % 8 == i % 8;
    ByteBitAt(digest, i);
    ByteBitAt(packed, pos);
  }

  method CompareBits(digest: Digest, bits: array<byte>, entropyBytes: nat, n: nat) returns (ok: bool)
    requires n <= 256 && 8 * entropyBytes + n <= 8 * bits.Length
    ensures ok == ChecksumMatches(digest, bits[..], entropyBytes, n)
  {
    for i := 0 to n
      invariant ChecksumMatches(digest, bits[..], entropyBytes, i)
    {
      var expectedBit := Shr(digest[i / 8], 7 - i % 8) % 2;
      var actualBit := Shr(bits[entropyBytes + i / 8], 7 - i % 8) % 2;
      SameBitIff(digest, bits[..], entropyBytes, i);
      if expectedBit != actualBit {
        return false;
      }
    }
    return true;
  }

  lemma CheckIsComparison(hash: Hash, indices: seq<uint16>, packed: seq<byte>, e: nat, n: nat)
    requires n == ChecksumBits(|indices|) <= 256 && e == EntropyBytes(|indices|) && packed == Packed(indices)
    ensures e <= |packed| && 8 * e + n <= 8 * |packed|
    ensures ValidChecksum(hash, indices) <==> ChecksumMatches(hash(packed[..e]), packed, e, n)
  {
    ChecksumFits(|indices|);
  }

  method ValidateChecksum(hash: Hash, indices: seq<uint16>) returns (ok: bool)
    requires ChecksumBits(|indices|) <= 256
    ensures ok == ValidChecksum(hash, indices)
  {
    var checksumLenBits := |indices| / 3;
    var entropyLenBytes := (|indices| * 11 - checksumLenBits) / 8;
    var bits := PackWords(indices);
    CheckIsComparison(hash, indices, bits[..], entropyLenBytes, checksumLenBits);
    var entropy := bits[..entropyLenBytes];
    assert bits[..][..entropyLenBytes] == entropy;
    ok := CompareBits(hash(entropy), bits, entropyLenBytes, checksumLenBits);
  }

  // ---------------------------------------------------------------- BIP-39

  /** The words BIP-39 assigns to entropy: its bits and the first k bits of its hash, in groups of eleven. */
  function WordsOf(hash: Hash, entropy: seq<byte>, k: nat): seq<nat>
    requires |entropy| == 4 * k && k <= 256
  {
    WordsIn(ByteBits(entropy) + ByteBits(hash(entropy))[..k], 3 * k)
  }

  lemma PackedBit(indices: seq<uint16>, j: nat)
    requires j < 11 * |indices|
    ensures j < 8 * |Packed(indices)| && ByteBits(Packed(indices))[j] == WordBits(indices)[j]
  {
  }

  lemma PackedPrefix(indices: seq<uint16>, n: nat)
    requires 8 * n <= 11 * |indices|
    ensures n <= |Packed(indices)| && ByteBits(Packed(indices)[..n]) == WordBits(indices)[..8 * n]
  {
    ByteBitsPrefix(Packed(indices), n);
    var s, f := WordBits(indices), Falses(8 * |Packed(indices)| - 11 * |indices|);
    assert (s + f)[..8 * n] == s[..8 * n];
  }

  /** Entropy of 4k bytes and k checksum bits, in the positions where 3k words keep them. */
  lemma Layout(k: nat)
    ensures EntropyBytes(3 * k) == 4 * k && ChecksumBits(3 * k) == k
  {
  }

  /** The words begin with the entropy's bits and end with the checksum's. */
  lemma WordsOfBits(hash: Hash, entropy: seq<byte>, k: nat)
    requires |entropy| == 4 * k && k <= 256
    ensures var s := WordBits(WordsOf(hash, entropy, k));
            && |s| == 33 * k && s[..32 * k] == ByteBits(entropy)
            && forall i :: 0 <= i < k ==> s[32 * k + i] == ByteBits(hash(entropy))[i]
  {
  }

  lemma ChecksumOfWords(hash: Hash, entropy: seq<byte>, k: nat, indices: seq<uint16>)
    requires |entropy| == 4 * k && k <= 256 && indices == WordsOf(hash, entropy, k)
    ensures ChecksumMatches(hash(entropy), Packed(indices), 4 * k, k)
  {
    WordsOfBits(hash, entropy, k);
    forall i | 0 <= i < k
      ensures SameBit(hash(entropy), Packed(indices), 4 * k, i)
    {
      PackedBit(indices, 32 * k + i);
    }
  }

  lemma EntropyOfWords(hash: Hash, entropy: seq<byte>, k: nat, indices: seq<uint16>)
    requires |entropy| == 4 * k && k <= 256 && indices == WordsOf(hash, entropy, k)
    ensures 4 * k <= |Packed(indices)| && Packed(indices)[..4 * k] == entropy
  {
    WordsOfBits(hash, entropy, k);
    PackedPrefix(indices, 4 * k);
    ByteBitsInjective(Packed(indices)[..4 * k], entropy);
  }

  /** The words of entropy pass the check and pack to that entropy. */
  lemma WordsAreValid(hash: Hash, entropy: seq<byte>, k: nat, indices: seq<uint16>)
    requires |entropy| == 4 * k && k <= 256 && indices == WordsOf(hash, entropy, k)
    ensures |indices| == 3 * k && Packed(indices)[..4 * k] == entropy && ValidChecksum(hash, indices)
  {
    Layout(k);
    EntropyOfWords(hash, entropy, k, indices);
    ChecksumOfWords(hash, entropy, k, indices);
  }

  lemma JoinAt(s: seq<bool>, a: seq<bool>, b: seq<bool>, k: nat)
    requires |a| + k == |s| && k <= |b| && s[..|a|] == a
    requires forall i :: 0 <= i < k ==> s[|a| + i] == b[i]
    ensures s == a + b[..k]
  {
    forall j | |a| <= j < |s|
      ensures s[j] == b[j - |a|]
    {
      assert s[|a| + (j - |a|)] == b[j - |a|];
    }
  }

  lemma SameBitAt(digest: Digest, packed: seq<byte>, k: nat, i: nat)
    requires i < k <= 256 && 33 * k <= 8 * |packed| && SameBit(digest, packed, 4 * k, i)
    ensures ByteBits(packed)[32 * k + i] == ByteBits(digest)[i]
  {
  }

  lemma ChecksumTail(digest: Digest, indices: seq<uint16>, k: nat)
    requires |indices| == 3 * k && k <= 256 && ChecksumMatches(digest, Packed(indices), 4 * k, k)
    ensures forall i :: 0 <= i < k ==> WordBits(indices)[32 * k + i] == ByteBits(digest)[i]
  {
    forall i | 0 <= i < k
      ensures WordBits(indices)[32 * k + i] == ByteBits(digest)[i]
    {
      SameBitAt(digest, Packed(indices), k, i);
      PackedBit(indices, 32 * k + i);
    }
  }

  lemma MatchingAreWords(hash: Hash, indices: seq<uint16>, k: nat, entropy: seq<byte>)
    requires |indices| == 3 * k && k <= 256 && Narrow(indices, WORD_BITS)
    requires 4 * k <= |Packed(indices)| && entropy == Packed(indices)[..4 * k]
    requires ChecksumMatches(hash(entropy), Packed(indices), 4 * k, k)
    ensures indices == WordsOf(hash, entropy, k)
  {
    ChecksumTail(hash(entropy), indices, k);
    PackedPrefix(indices, 4 * k);
    JoinAt(WordBits(indices), ByteBits(entropy), ByteBits(hash(entropy)), k);
    WordsInWordBits(indices);
  }

  /** Valid indices are the words of the entropy they pack to. */
  lemma ValidAreWords(hash: Hash, indices: seq<uint16>, k: nat)
    requires |indices| == 3 * k && k <= 256 && ValidChecksum(hash, indices) && Narrow(indices, WORD_BITS)
    ensures 4 * k <= |Packed(indices)| && indices == WordsOf(hash, Packed(indices)[..4 * k], k)
  {
    Layout(k);
    MatchingAreWords(hash, indices, k, Packed(indices)[..4 * k]);
  }

  /** indices are the words of entropy. */
  ghost predicate Encodes(hash: Hash, entropy: seq<byte>, indices: seq<uint16>, k: nat)
    requires k <= 256
  {
    |entropy| == 4 * k && indices == WordsOf(hash, entropy, k)
  }

  /**
   For every hash, 3k word indices pass the check exactly when they are the words of some entropy of 4k
   bytes; and then that entropy is what they pack to.
   */
  lemma ValidIffWords(hash: Hash, indices: seq<uint16>, k: nat)
    requires |indices| == 3 * k && k <= 256
    requires forall i :: 0 <= i < |indices| ==> indices[i] < 2048
    ensures ValidChecksum(hash, indices) <==> exists entropy :: Encodes(hash, entropy, indices, k)
    ensures 4 * k <= |Packed(indices)|
    ensures forall entropy :: Encodes(hash, entropy, indices, k) ==> entropy == Packed(indices)[..4 * k]
  {
    Widths();
    if ValidChecksum(hash, indices) {
      ValidAreWords(hash, indices, k);
      assert Encodes(hash, Packed(indices)[..4 * k], indices, k);
    }
    forall entropy | Encodes(hash, entropy, indices, k)
      ensures ValidChecksum(hash, indices) && entropy == Packed(indices)[..4 * k]
    {
      WordsAreValid(hash, entropy, k, indices);
    }
  }
}
