/** Machine integers, exclusive or, and big-endian numbers, shared by every other module. */
module Bytes {
  datatype Option<+T> = None | Some(value: T)
  datatype Result<+T, +E> = Ok(value: T) | Err(error: E)

  type byte = x: int | 0 <= x < 256
  type uint16 = x: int | 0 <= x < 0x1_0000
  type uint32 = x: int | 0 <= x < 0x1_0000_0000
  type uint64 = x: int | 0 <= x < 0x1_0000_0000_0000_0000

  function Min(a: int, b: int): int {
    if a < b then a else b
  }

  function Zeros(n: nat): (r: seq<byte>)
    ensures |r| == n
  {
    seq(n, i => 0)
  }

  lemma Regroup(a: seq<byte>, b: seq<byte>, c: seq<byte>, d: seq<byte>)
    ensures a + (b + c) + d == a + b + (c + d)
    ensures a + (b + c) + d == (a + b) + c + d
  {
  }

  function Flatten<T>(parts: seq<seq<T>>): seq<T> {
    if parts == [] then [] else parts[0] + Flatten(parts[1..])
  }

  lemma Associative<T>(a: seq<T>, b: seq<T>, c: seq<T>)
    ensures a + (b + c) == (a + b) + c
  {
  }

  lemma {:induction false} FlattenConcat<T>(a: seq<seq<T>>, b: seq<seq<T>>)
    ensures Flatten(a + b) == Flatten(a) + Flatten(b)
  {
    if a == [] {
      assert a + b == b;
    } else {
      FlattenConcat(a[1..], b);
      assert (a + b)[0] == a[0] && (a + b)[1..] == a[1..] + b;
      Associative(a[0], Flatten(a[1..]), Flatten(b));
    }
  }

  // ---------------------------------------------------------------- powers

  function Pow2(n: nat): (r: nat)
    ensures r > 0
  {
    if n == 0 then 1 else 2 * Pow2(n - 1)
  }

  function Pow256(n: nat): (r: nat)
    ensures r > 0
  {
    if n == 0 then 1 else 256 * Pow256(n - 1)
  }

  // ---------------------------------------------------------------- exclusive or

  const BYTE_WIDTH: nat := 8

  lemma ByteWidthBound()
    ensures Pow2(BYTE_WIDTH) == 256
  {
    assert Pow2(4) == 16;
    assert Pow2(8) == 16 * Pow2(4);
  }

  /** Exclusive or of the low w bits of a and b. */
  function XorBits(w: nat, a: nat, b: nat): (r: nat)
    ensures r < Pow2(w)
  {
    if w == 0 then 0 else 2 * XorBits(w - 1, a / 2, b / 2) + (a % 2 + b % 2) % 2
  }

  lemma Halve(q: nat, d: nat)
    requires d < 2
    ensures (2 * q + d) / 2 == q && (2 * q + d) % 2 == d
  {
  }

  lemma ParityTwice(x: nat, y: nat)
    requires x < 2 && y < 2
    ensures ((x + y) % 2 + y) % 2 == x
  {
  }

  lemma {:induction false} XorBitsTwice(w: nat, a: nat, b: nat)
    requires a < Pow2(w)
    ensures XorBits(w, XorBits(w, a, b), b) == a
  {
    if w > 0 {
      XorBitsTwice(w - 1, a / 2, b / 2);
      var q, d := XorBits(w - 1, a / 2, b / 2), (a % 2 + b % 2) % 2;
      Halve(q, d);
      ParityTwice(a % 2, b % 2);
    }
  }

  lemma {:induction false} XorBitsZero(w: nat, a: nat)
    requires a < Pow2(w)
    ensures XorBits(w, a, 0) == a
  {
    if w > 0 {
      XorBitsZero(w - 1, a / 2);
    }
  }

  function Xor(a: byte, b: byte): byte {
    ByteWidthBound();
    XorBits(BYTE_WIDTH, a, b)
  }

  lemma XorTwice(a: byte, b: byte)
    ensures Xor(Xor(a, b), b) == a
  {
    ByteWidthBound();
    XorBitsTwice(BYTE_WIDTH, a, b);
  }

  lemma {:induction false} XorBitsCommute(w: nat, a: nat, b: nat)
    ensures XorBits(w, a, b) == XorBits(w, b, a)
  {
    if w > 0 {
      XorBitsCommute(w - 1, a / 2, b / 2);
    }
  }

  lemma XorCommutes(a: byte, b: byte)
    ensures Xor(a, b) == Xor(b, a)
  {
    XorBitsCommute(BYTE_WIDTH, a, b);
  }

  lemma XorZero(a: byte)
    ensures Xor(a, 0) == a
  {
    ByteWidthBound();
    XorBitsZero(BYTE_WIDTH, a);
  }

  /** Exclusive or of a with the first |a| bytes of b. */
  function XorSeq(a: seq<byte>, b: seq<byte>): (r: seq<byte>)
    requires |a| <= |b|
    ensures |r| == |a|
    ensures forall i {:trigger r[i]} :: 0 <= i < |a| ==> r[i] == Xor(a[i], b[i])
  {
    seq(|a|, i requires 0 <= i < |a| => Xor(a[i], b[i]))
  }

  lemma XorSeqTwice(a: seq<byte>, b: seq<byte>)
    requires |a| <= |b|
    ensures XorSeq(XorSeq(a, b), b) == a
  {
    forall i | 0 <= i < |a|
      ensures XorSeq(XorSeq(a, b), b)[i] == a[i]
    {
      XorTwice(a[i], b[i]);
    }
  }

  /** In-place exclusive or of data[off..off+|key|] with key. */
  method XorRange(data: array<byte>, off: nat, key: seq<byte>)
    requires off + |key| <= data.Length
    modifies data
    ensures data[..] == old(data[..off]) + XorSeq(old(data[off..off + |key|]), key) + old(data[off + |key|..])
  {
    for i := 0 to |key|
      invariant forall j :: 0 <= j < i ==> data[off + j] == Xor(old(data[off + j]), key[j])
      invariant forall j :: 0 <= j < off || off + i <= j < data.Length ==> data[j] == old(data[j])
    {
      data[off + i] := Xor(data[off + i], key[i]);
    }
    var want := old(data[..off]) + XorSeq(old(data[off..off + |key|]), key) + old(data[off + |key|..]);
    forall j | 0 <= j < data.Length
      ensures data[j] == want[j]
    {
      if off <= j < off + |key| {
        assert data[off + (j - off)] == want[j];
      }
    }
  }

  // ---------------------------------------------------------------- big-endian numbers

  /** The number a byte string denotes, most significant byte first. */
  function BigEndian(s: seq<byte>): nat {
    if s == [] then 0 else BigEndian(s[..|s| - 1]) * 256 + s[|s| - 1]
  }

  /** The low w bytes of n, most significant first. */
  function ToBytes(n: nat, w: nat): (r: seq<byte>)
    ensures |r| == w
  {
    if w == 0 then [] else ToBytes(n / 256, w - 1) + [n % 256]
  }

  lemma {:induction false} BigEndianBound(s: seq<byte>)
    ensures BigEndian(s) < Pow256(|s|)
  {
    if s != [] {
      BigEndianBound(s[..|s| - 1]);
    }
  }

  lemma {:induction false} BigEndianToBytes(n: nat, w: nat)
    requires n < Pow256(w)
    ensures BigEndian(ToBytes(n, w)) == n
  {
    if w > 0 {
      BigEndianToBytes(n / 256, w - 1);
      assert ToBytes(n, w)[..w - 1] == ToBytes(n / 256, w - 1);
    }
  }

  lemma {:induction false} ToBytesBigEndian(s: seq<byte>)
    ensures ToBytes(BigEndian(s), |s|) == s
  {
    if s != [] {
      ToBytesBigEndian(s[..|s| - 1]);
      assert s == s[..|s| - 1] + [s[|s| - 1]];
    }
  }

  lemma BigEndianInjective(s: seq<byte>, t: seq<byte>)
    requires |s| == |t| && BigEndian(s) == BigEndian(t)
    ensures s == t
  {
    ToBytesBigEndian(s);
    ToBytesBigEndian(t);
  }

  lemma {:induction false} BigEndianConcat(s: seq<byte>, t: seq<byte>)
    ensures BigEndian(s + t) == BigEndian(s) * Pow256(|t|) + BigEndian(t)
  {
    if t == [] {
      assert s + t == s;
    } else {
      var n := |t| - 1;
      BigEndianConcat(s, t[..n]);
      assert (s + t)[..|s + t| - 1] == s + t[..n];
      assert Pow256(|t|) == Pow256(n) * 256;
      assert BigEndian(s) * Pow256(|t|) == BigEndian(s) * Pow256(n) * 256;
    }
  }

  lemma {:induction false} BigEndianZeros(n: nat)
    ensures BigEndian(Zeros(n)) == 0
  {
    if n > 0 {
      BigEndianZeros(n - 1);
      assert Zeros(n)[..n - 1] == Zeros(n - 1);
    }
  }

  /** Left padding with zeros gives the fixed-width form of the same number. */
  lemma PaddedValue(s: seq<byte>, w: nat)
    requires |s| <= w
    ensures Zeros(w - |s|) + s == ToBytes(BigEndian(s), w)
  {
    var z := Zeros(w - |s|);
    BigEndianZeros(w - |s|);
    BigEndianConcat(z, s);
    ToBytesBigEndian(z + s);
  }

  // ---------------------------------------------------------------- increment

  /** Big-endian increment of a fixed-width counter: wraps to zero after the largest value. */
  function Increment(s: seq<byte>): (r: seq<byte>)
    ensures |r| == |s|
  {
    if s == [] then []
    else
      var n := |s| - 1;
      if s[n] == 255 then Increment(s[..n]) + [0] else s[..n] + [s[n] + 1]
  }

  lemma {:induction false} IncrementValue(s: seq<byte>)
    ensures BigEndian(Increment(s)) == if BigEndian(s) + 1 == Pow256(|s|) then 0 else BigEndian(s) + 1
  {
    if s != [] {
      var n := |s| - 1;
      IncrementValue(s[..n]);
      BigEndianBound(s[..n]);
      if s[n] == 255 {
        assert Increment(s)[..n] == Increment(s[..n]);
      } else {
        assert Increment(s)[..n] == s[..n];
      }
    }
  }

  /** An increment that does not wrap the suffix leaves the prefix alone. */
  lemma {:induction false} IncrementSuffix(p: seq<byte>, s: seq<byte>)
    requires BigEndian(s) + 1 < Pow256(|s|)
    ensures Increment(p + s) == p + Increment(s)
  {
    if s != [] {
      var n := |s| - 1;
      assert (p + s)[..|p + s| - 1] == p + s[..n];
      if s[n] == 255 {
        IncrementSuffix(p, s[..n]);
      }
    }
  }
}
