/**
 AES-CBC with ISO 7816-4 padding and the two CBC-MACs of Secure Channel V1. The cipher and its
 inverse are arbitrary functions; Inverse says how they belong together.
 */
module CbcCrypto {
  import opened Bytes
  import opened Ccm
  import opened Channels

  predicate AesKey(key: seq<byte>) {
    |key| == 16 || |key| == 24 || |key| == 32
  }

  ghost predicate Inverse(E: KeyedCipher, D: KeyedCipher) {
    forall key: seq<byte>, b: Block :: D(key, E(key, b)) == b
  }

  /** There is such a pair: masking every block with a fixed one. */
  lemma InversesExist(mask: Block)
    ensures var E: KeyedCipher := (key: seq<byte>, b: Block) => XorSeq(b, mask); Inverse(E, E)
  {
    forall b: Block
      ensures XorSeq(XorSeq(b, mask), mask) == b
    {
      XorSeqTwice(b, mask);
    }
  }

  // ---------------------------------------------------------------- CBC

  function CbcEncrypt(E: BlockCipher, iv: Block, data: seq<byte>): (c: seq<byte>)
    ensures |c| == |data| / 16 * 16
    decreases |data|
  {
    if |data| < 16 then [] else var c := E(XorSeq(iv, data[..16])); c + CbcEncrypt(E, c, data[16..])
  }

  function CbcDecrypt(D: BlockCipher, iv: Block, data: seq<byte>): (p: seq<byte>)
    ensures |p| == |data| / 16 * 16
    decreases |data|
  {
    if |data| < 16 then [] else XorSeq(D(data[..16]), iv) + CbcDecrypt(D, data[..16], data[16..])
  }

  /** Block k of the ciphertext encrypts block k of the data, masked by the block before it or the initial value. */
  lemma {:induction false} CbcBlock(E: BlockCipher, iv: Block, data: seq<byte>, k: nat)
    requires 16 * k + 16 <= |data|
    ensures var c := CbcEncrypt(E, iv, data);
            16 * k + 16 <= |c|
            && var before: Block := if k == 0 then iv else c[16 * k - 16..16 * k];
            c[16 * k..16 * k + 16] == E(XorSeq(before, data[16 * k..16 * k + 16]))
    decreases k
  {
    var head: Block := E(XorSeq(iv, data[..16]));
    var rest := CbcEncrypt(E, head, data[16..]);
    assert CbcEncrypt(E, iv, data) == head + rest;
    assert (head + rest)[..16] == head;
    if k > 0 {
      CbcBlock(E, head, data[16..], k - 1);
      assert data[16..][16 * (k - 1)..16 * (k - 1) + 16] == data[16 * k..16 * k + 16];
      assert rest[16 * (k - 1)..16 * (k - 1) + 16] == (head + rest)[16 * k..16 * k + 16];
      if k > 1 {
        assert rest[16 * (k - 1) - 16..16 * (k - 1)] == (head + rest)[16 * k - 16..16 * k];
      }
    }
  }

  /** The chaining value after the blocks of c. */
  function LastBlock(iv: Block, c: seq<byte>): Block {
    if |c| < 16 then iv else c[|c| - 16..]
  }

  lemma XorSeqOther(a: seq<byte>, b: seq<byte>)
    requires |a| == |b|
    ensures XorSeq(XorSeq(a, b), a) == b
  {
    forall i | 0 <= i < |a|
      ensures XorSeq(XorSeq(a, b), a)[i] == b[i]
    {
      XorCommutes(a[i], b[i]);
      XorTwice(b[i], a[i]);
    }
  }

  lemma {:induction false} CbcInverts(E: KeyedCipher, D: KeyedCipher, key: seq<byte>, iv: Block, data: seq<byte>)
    requires Inverse(E, D) && |data| % 16 == 0
    ensures CbcDecrypt(Keyed(D, key), iv, CbcEncrypt(Keyed(E, key), iv, data)) == data
    decreases |data|
  {
    if data != [] {
      var x: Block := XorSeq(iv, data[..16]);
      var c: Block := E(key, x);
      var rest := CbcEncrypt(Keyed(E, key), c, data[16..]);
      assert (c + rest)[..16] == c && (c + rest)[16..] == rest;
      XorSeqOther(iv, data[..16]);
      CbcInverts(E, D, key, c, data[16..]);
    }
  }

  lemma LastBlockAfter(iv: Block, c: Block, rest: seq<byte>)
    requires |rest| % 16 == 0
    ensures LastBlock(iv, c + rest) == LastBlock(c, rest)
  {
    if rest == [] {
      assert c + rest == c && c[0..] == c;
    } else {
      assert (c + rest)[16 + (|rest| - 16)..] == rest[|rest| - 16..];
    }
  }

  lemma {:induction false} CbcConcat(E: BlockCipher, iv: Block, a: seq<byte>, b: seq<byte>)
    requires |a| % 16 == 0
    ensures var ca := CbcEncrypt(E, iv, a); CbcEncrypt(E, iv, a + b) == ca + CbcEncrypt(E, LastBlock(iv, ca), b)
    decreases |a|
  {
    if a == [] {
      assert a + b == b;
    } else {
      var c := E(XorSeq(iv, a[..16]));
      assert (a + b)[..16] == a[..16] && (a + b)[16..] == a[16..] + b;
      CbcConcat(E, c, a[16..], b);
      var ra := CbcEncrypt(E, c, a[16..]);
      LastBlockAfter(iv, c, ra);
      Associative(c, ra, CbcEncrypt(E, LastBlock(c, ra), b));
    }
  }

  method StoreBlock(dst: array<byte>, off: nat, block: Block)
    requires off + 16 <= dst.Length
    modifies dst
    ensures dst[..off + 16] == old(dst[..off]) + block
  {
    for i := 0 to 16
      invariant dst[..off + i] == old(dst[..off]) + block[..i]
    {
      dst[off + i] := block[i];
    }
  }

  lemma WholeBlocks(off: nat, n: nat)
    requires off % 16 == n % 16 == 0 && off < n
    ensures off + 16 <= n && (off + 16) % 16 == 0
  {
  }

  lemma EncryptStep(E: BlockCipher, iv: Block, done: seq<byte>, src: seq<byte>, off: nat, c: Block)
    requires off + 16 <= |src| && c == E(XorSeq(iv, src[off..off + 16]))
    ensures done + CbcEncrypt(E, iv, src[off..]) == done + c + CbcEncrypt(E, c, src[off + 16..])
  {
    assert src[off..][..16] == src[off..off + 16] && src[off..][16..] == src[off + 16..];
    Associative(done, c, CbcEncrypt(E, c, src[off + 16..]));
  }

  lemma DecryptStep(D: BlockCipher, iv: Block, done: seq<byte>, src: seq<byte>, off: nat, p: Block)
    requires off + 16 <= |src| && p == XorSeq(D(src[off..off + 16]), iv)
    ensures done + CbcDecrypt(D, iv, src[off..]) == done + p + CbcDecrypt(D, src[off..off + 16], src[off + 16..])
  {
    assert src[off..][..16] == src[off..off + 16] && src[off..][16..] == src[off + 16..];
    Associative(done, p, CbcDecrypt(D, src[off..off + 16], src[off + 16..]));
  }

  lemma LastBlockAfterStore(iv: Block, done: seq<byte>, c: Block)
    ensures LastBlock(iv, done + c) == c
  {
    assert (done + c)[|done|..] == c;
  }

  /** A CBC encrypter of the library: the chaining value persists from one call to the next. */
  class CbcEncrypter {
    const E: BlockCipher
    var iv: Block

    constructor (E: BlockCipher, iv: Block)
      ensures this.E == E && this.iv == iv
    {
      this.E, this.iv := E, iv;
    }

    /** src may be the contents of dst. */
    method CryptBlocks(dst: array<byte>, src: seq<byte>)
      requires |src| % 16 == 0 && dst.Length == |src|
      modifies this, dst
      ensures dst[..] == CbcEncrypt(E, old(iv), src)
      ensures iv == LastBlock(old(iv), CbcEncrypt(E, old(iv), src))
    {
      var off := 0;
      assert src[0..] == src;
      while off < |src|
        invariant off % 16 == 0 && off <= |src|
        invariant dst[..off] + CbcEncrypt(E, iv, src[off..]) == CbcEncrypt(E, old(iv), src)
        invariant iv == LastBlock(old(iv), dst[..off])
      {
        WholeBlocks(off, |src|);
        var c := E(XorSeq(iv, src[off..off + 16]));
        ghost var done := dst[..off];
        StoreBlock(dst, off, c);
        EncryptStep(E, iv, done, src, off, c);
        LastBlockAfterStore(old(iv), done, c);
        iv := c;
        off := off + 16;
      }
      assert dst[..off] == dst[..];
    }
  }

  class CbcDecrypter {
    const D: BlockCipher
    var iv: Block

    constructor (D: BlockCipher, iv: Block)
      ensures this.D == D && this.iv == iv
    {
      this.D, this.iv := D, iv;
    }

    method CryptBlocks(dst: array<byte>, src: seq<byte>)
      requires |src| % 16 == 0 && dst.Length == |src|
      modifies this, dst
      ensures dst[..] == CbcDecrypt(D, old(iv), src)
    {
      var off := 0;
      assert src[0..] == src;
      while off < |src|
        invariant off % 16 == 0 && off <= |src|
        invariant dst[..off] + CbcDecrypt(D, iv, src[off..]) == CbcDecrypt(D, old(iv), src)
      {
        WholeBlocks(off, |src|);
        var c: Block := src[off..off + 16];
        var p := XorSeq(D(c), iv);
        ghost var done := dst[..off];
        StoreBlock(dst, off, p);
        DecryptStep(D, iv, done, src, off, p);
        iv := c;
        off := off + 16;
      }
      assert dst[..off] == dst[..];
    }
  }

  // ---------------------------------------------------------------- padding

  /** ISO 7816-4: the data, one byte 0x80, and as few zeros as fill the last block. */
  function Pad(data: seq<byte>): (r: seq<byte>)
    ensures |r| % 16 == 0 && |r| == |data| / 16 * 16 + 16
    ensures r[..|data|] == data && r[|data|] == 0x80 && forall k :: |data| < k < |r| ==> r[k] == 0
  {
    data + [0x80] + Zeros(15 - |data| % 16)
  }

  method AppendPadding(data: seq<byte>) returns (r: array<byte>)
    ensures fresh(r) && r[..] == Pad(data)
  {
    var paddingSize := 16 - |data| % 16;
    r := new byte[|data| + paddingSize](i => 0);
    forall i | 0 <= i < |data| {
      r[i] := data[i];
    }
    r[|data|] := 0x80;
    assert r[..] == Pad(data);
  }

  /** Where the backward scan stops: the last marker within the final block, else one block before the end. */
  function MarkerFrom(data: seq<byte>, i: int): int
    requires |data| >= 16 && |data| - 16 <= i < |data|
    decreases i
  {
    if i > |data| - 16 && data[i] != 0x80 then MarkerFrom(data, i - 1) else i
  }

  function Unpad(data: seq<byte>): seq<byte>
    requires |data| >= 16
  {
    MarkerRange(data, |data| - 1);
    data[..MarkerFrom(data, |data| - 1)]
  }

  lemma {:induction false} MarkerRange(data: seq<byte>, i: int)
    requires |data| >= 16 && |data| - 16 <= i < |data|
    ensures |data| - 16 <= MarkerFrom(data, i) <= i
    decreases i
  {
    if i > |data| - 16 && data[i] != 0x80 {
      MarkerRange(data, i - 1);
    }
  }

  method RemovePadding(data: seq<byte>) returns (r: seq<byte>)
    requires |data| >= 16
    ensures r == Unpad(data)
  {
    MarkerRange(data, |data| - 1);
    var i := |data| - 1;
    while i > |data| - 16
      invariant |data| - 16 <= i < |data|
      invariant MarkerFrom(data, i) == MarkerFrom(data, |data| - 1)
    {
      if data[i] == 0x80 {
        break;
      }
      i := i - 1;
    }
    return data[..i];
  }

  lemma {:induction false} MarkerAfterZeros(data: seq<byte>, m: int, i: int)
    requires |data| >= 16 && |data| - 16 <= m <= i < |data|
    requires data[m] == 0x80 && forall k :: m < k <= i ==> data[k] == 0
    ensures MarkerFrom(data, i) == m
    decreases i
  {
    if i > m {
      MarkerAfterZeros(data, m, i - 1);
    }
  }

  /** Removing the padding undoes appending it, for data of every length and content. */
  /** Of any block data, what stands before the last 0x80 of the final block, or before that block if it has none. */
  lemma UnpadCuts(data: seq<byte>)
    requires |data| >= 16
    ensures var r := Unpad(data);
            && |data| - 16 <= |r| < |data| && r == data[..|r|]
            && (data[|r|] == 0x80 || |r| == |data| - 16)
            && forall k :: |r| < k < |data| ==> data[k] != 0x80
  {
    MarkerStops(data, |data| - 1);
  }

  lemma {:induction false} MarkerStops(data: seq<byte>, i: int)
    requires |data| >= 16 && |data| - 16 <= i < |data|
    requires forall k :: i < k < |data| ==> data[k] != 0x80
    ensures var m := MarkerFrom(data, i);
            && |data| - 16 <= m <= i && (data[m] == 0x80 || m == |data| - 16)
            && forall k :: m < k < |data| ==> data[k] != 0x80
    decreases i
  {
    if i > |data| - 16 && data[i] != 0x80 {
      MarkerStops(data, i - 1);
    }
  }

  lemma UnpadPad(data: seq<byte>)
    ensures Unpad(Pad(data)) == data
  {
    MarkerAfterZeros(Pad(data), |data|, |Pad(data)| - 1);
  }

  // ---------------------------------------------------------------- encryption of messages

  /** What EncryptData answers. */
  function EncryptedData(E: KeyedCipher, key: seq<byte>, iv: seq<byte>, data: seq<byte>): Result<seq<byte>, Error> {
    if !AesKey(key) then Err(NoKey)
    else if |iv| != 16 then Err(BadIv)
    else Ok(CbcEncrypt(Keyed(E, key), iv, Pad(data)))
  }

  /** What DecryptData answers. */
  function DecryptedData(D: KeyedCipher, key: seq<byte>, iv: seq<byte>, data: seq<byte>): Result<seq<byte>, Error> {
    if !AesKey(key) then Err(NoKey)
    else if |iv| != 16 then Err(BadIv)
    else if |data| == 0 || |data| % 16 != 0 then Err(BadCiphertextLength)
    else Ok(Unpad(CbcDecrypt(Keyed(D, key), iv, data)))
  }

  method EncryptData(E: KeyedCipher, data: seq<byte>, key: seq<byte>, iv: seq<byte>) returns (r: Result<seq<byte>, Error>)
    ensures r == EncryptedData(E, key, iv, data)
  {
    if !AesKey(key) {
      return Err(NoKey);
    }
    if |iv| != 16 {
      return Err(BadIv);
    }
    var padded := AppendPadding(data);
    var ciphertext := new byte[padded.Length](i => 0);
    var mode := new CbcEncrypter(Keyed(E, key), iv);
    mode.CryptBlocks(ciphertext, padded[..]);
    return Ok(ciphertext[..]);
  }

  method DecryptData(D: KeyedCipher, data: seq<byte>, key: seq<byte>, iv: seq<byte>) returns (r: Result<seq<byte>, Error>)
    ensures r == DecryptedData(D, key, iv, data)
  {
    if !AesKey(key) {
      return Err(NoKey);
    }
    if |iv| != 16 {
      return Err(BadIv);
    }
    if |data| == 0 || |data| % 16 != 0 {
      return Err(BadCiphertextLength);
    }
    var plaintext := new byte[|data|](i => 0);
    var mode := new CbcDecrypter(Keyed(D, key), iv);
    mode.CryptBlocks(plaintext, data);
    var p := RemovePadding(plaintext[..]);
    return Ok(p);
  }

  /** Whatever was encrypted under a key and chaining value decrypts under them, to the byte. */
  lemma DecryptsEncrypted(E: KeyedCipher, D: KeyedCipher, key: seq<byte>, iv: seq<byte>, data: seq<byte>)
    requires Inverse(E, D) && EncryptedData(E, key, iv, data).Ok?
    ensures DecryptedData(D, key, iv, EncryptedData(E, key, iv, data).value) == Ok(data)
  {
    CbcInverts(E, D, key, iv, Pad(data));
    UnpadPad(data);
  }

  /** Exactly what is encrypted: AES keys of 16, 24 or 32 bytes and whole chaining values, any data. */
  lemma EncryptsIff(E: KeyedCipher, key: seq<byte>, iv: seq<byte>, data: seq<byte>)
    ensures EncryptedData(E, key, iv, data).Ok? <==> |key| in {16, 24, 32} && |iv| == 16
  {
  }

  /** Exactly what is decrypted: under such keys and chaining values, at least one block and whole blocks only. */
  lemma DecryptsIff(D: KeyedCipher, key: seq<byte>, iv: seq<byte>, data: seq<byte>)
    ensures DecryptedData(D, key, iv, data).Ok?
       <==> |key| in {16, 24, 32} && |iv| == 16 && |data| > 0 && |data| % 16 == 0
  {
  }

  // ---------------------------------------------------------------- the wrong chaining value

  /** Blocks decrypted under y that were encrypted under x: only the first one changes. */
  function Rechained(p: seq<byte>, x: Block, y: Block): (r: seq<byte>)
    requires |p| >= 16
    ensures |r| == |p| && r[16..] == p[16..]
  {
    XorSeq(XorSeq(p[..16], x), y) + p[16..]
  }

  lemma CbcOtherIv(D: BlockCipher, x: Block, y: Block, c: seq<byte>)
    requires |c| >= 16
    ensures CbcDecrypt(D, y, c) == Rechained(CbcDecrypt(D, x, c), x, y)
  {
    var b: Block := D(c[..16]);
    var rest := CbcDecrypt(D, c[..16], c[16..]);
    XorSeqTwice(b, x);
    assert (XorSeq(b, x) + rest)[..16] == XorSeq(b, x) && (XorSeq(b, x) + rest)[16..] == rest;
  }

  /** What is read, under chaining value y, of data encrypted under x. */
  function Misread(data: seq<byte>, x: Block, y: Block): seq<byte> {
    Unpad(Rechained(Pad(data), x, y))
  }

  lemma DecryptsUnderOtherIv(E: KeyedCipher, D: KeyedCipher, key: seq<byte>, x: Block, y: Block, data: seq<byte>)
    requires Inverse(E, D) && AesKey(key)
    ensures EncryptedData(E, key, x, data).Ok?
    ensures DecryptedData(D, key, y, EncryptedData(E, key, x, data).value) == Ok(Misread(data, x, y))
  {
    CbcInverts(E, D, key, x, Pad(data));
    CbcOtherIv(Keyed(D, key), x, y, CbcEncrypt(Keyed(E, key), x, Pad(data)));
  }

  /** Under the right chaining value nothing is misread. */
  lemma MisreadNothing(data: seq<byte>, x: Block)
    ensures Misread(data, x, x) == data
  {
    var p := Pad(data);
    XorSeqTwice(p[..16], x);
    assert p[..16] + p[16..] == p;
    UnpadPad(data);
  }

  /** From the second block on, data are read unchanged whatever the chaining value. */
  lemma MisreadFirstBlock(data: seq<byte>, x: Block, y: Block)
    requires |data| >= 16
    ensures Misread(data, x, y) == Rechained(data, x, y)
  {
    var m := Rechained(data, x, y);
    var fill := Zeros(15 - |data| % 16);
    assert Pad(data) == data + ([0x80] + fill) && Pad(m) == m + ([0x80] + fill);
    assert (data + ([0x80] + fill))[..16] == data[..16];
    assert (data + ([0x80] + fill))[16..] == data[16..] + ([0x80] + fill);
    assert Rechained(Pad(data), x, y) == Pad(m);
    UnpadPad(m);
  }

  // ---------------------------------------------------------------- CBC-MAC

  /** The state after absorbing the whole blocks of data; a partial block at the end is ignored. */
  function MacState(E: BlockCipher, x: Block, data: seq<byte>): Block
    decreases |data|
  {
    if |data| < 16 then x else MacState(E, E(XorSeq(x, data[..16])), data[16..])
  }

  /** What CalculateMAC answers. */
  function Mac(E: KeyedCipher, key: seq<byte>, meta: seq<byte>, data: seq<byte>): Result<seq<byte>, Error> {
    if !AesKey(key) then Err(NoKey)
    else if |meta| + |data| < 16 then Err(MacInputTooShort)
    else Ok(MacState(Keyed(E, key), Zeros(16), meta + data))
  }

  method CalculateMAC(E: KeyedCipher, meta: seq<byte>, data: seq<byte>, key: seq<byte>) returns (r: Result<seq<byte>, Error>)
    ensures r == Mac(E, key, meta, data)
  {
    if !AesKey(key) {
      return Err(NoKey);
    }
    var combined := meta + data;
    var numBlocks := |combined| / 16;
    if numBlocks == 0 {
      return Err(MacInputTooShort);
    }
    var state := new byte[16](i => 0);
    assert state[..] == Zeros(16) && combined[0..] == combined;
    var cipher := new CcmMode(Keyed(E, key));
    for i := 0 to numBlocks
      invariant MacState(Keyed(E, key), state[..], combined[i * 16..]) == MacState(Keyed(E, key), Zeros(16), combined)
    {
      var chunk := combined[i * 16..(i + 1) * 16];
      ghost var x, rest := state[..], combined[i * 16..];
      assert rest[..16] == chunk && rest[16..] == combined[(i + 1) * 16..];
      XorRange(state, 0, chunk);
      assert state[..] == XorSeq(x, chunk);
      cipher.EncryptBlock(state);
    }
    return Ok(state[..]);
  }

  /** What CalculateMac answers: the second-to-last block of the padded stream, after meta. */
  function LegacyMac(E: KeyedCipher, key: seq<byte>, meta: seq<byte>, data: seq<byte>): Result<seq<byte>, Error>
    requires |data| >= 16
  {
    if !AesKey(key) then Err(NoKey)
    else
      var iv := LastBlock(Zeros(16), CbcEncrypt(Keyed(E, key), Zeros(16), meta));
      var c := CbcEncrypt(Keyed(E, key), iv, Pad(data));
      Ok(c[|c| - 32..|c| - 16])
  }

  /** Encrypts meta in place on the way. */
  method CalculateMac(E: KeyedCipher, meta: array<byte>, data: seq<byte>, key: seq<byte>) returns (r: Result<seq<byte>, Error>)
    requires meta.Length % 16 == 0 && |data| >= 16
    modifies meta
    ensures r == LegacyMac(E, key, old(meta[..]), data)
    ensures meta[..] == if AesKey(key) then CbcEncrypt(Keyed(E, key), Zeros(16), old(meta[..])) else old(meta[..])
  {
    var padded := AppendPadding(data);
    if !AesKey(key) {
      return Err(NoKey);
    }
    var mode := new CbcEncrypter(Keyed(E, key), Zeros(16));
    mode.CryptBlocks(meta, meta[..]);
    mode.CryptBlocks(padded, padded[..]);
    var mac := padded[padded.Length - 32..padded.Length - 16];
    assert mac == padded[..][padded.Length - 32..padded.Length - 16];
    return Ok(mac);
  }

  /** The MAC state is the chaining value of CBC over the same whole blocks. */
  /** Exactly what gets a MAC: under such keys, at least one block in all. */
  lemma MacsIff(E: KeyedCipher, key: seq<byte>, meta: seq<byte>, data: seq<byte>)
    ensures Mac(E, key, meta, data).Ok? <==> |key| in {16, 24, 32} && |meta| + |data| >= 16
  {
  }

  lemma {:induction false} MacStateIsCbc(E: BlockCipher, x: Block, data: seq<byte>)
    ensures MacState(E, x, data) == LastBlock(x, CbcEncrypt(E, x, data))
    decreases |data|
  {
    if |data| >= 16 {
      var c := E(XorSeq(x, data[..16]));
      MacStateIsCbc(E, c, data[16..]);
      var rest := CbcEncrypt(E, c, data[16..]);
      assert LastBlock(x, c + rest) == LastBlock(c, rest);
    }
  }

  /** Whole blocks are all that CBC sees. */
  lemma {:induction false} CbcWholeBlocks(E: BlockCipher, iv: Block, a: seq<byte>, tail: seq<byte>)
    requires |a| % 16 == 0 && |tail| < 16
    ensures CbcEncrypt(E, iv, a + tail) == CbcEncrypt(E, iv, a)
  {
    CbcConcat(E, iv, a, tail);
    assert CbcEncrypt(E, LastBlock(iv, CbcEncrypt(E, iv, a)), tail) == [];
  }

  /** The two MACs agree wherever the legacy one is defined. */
  lemma MacRefinesLegacy(E: KeyedCipher, key: seq<byte>, meta: seq<byte>, data: seq<byte>)
    requires |meta| % 16 == 0 && |data| >= 16
    ensures Mac(E, key, meta, data) == LegacyMac(E, key, meta, data)
  {
    if AesKey(key) {
      var K := Keyed(E, key);
      var n := |data| / 16 * 16;
      var whole, tail, end := data[..n], data[n..], Pad(data)[n..];
      var iv := LastBlock(Zeros(16), CbcEncrypt(K, Zeros(16), meta));
      var c := CbcEncrypt(K, iv, whole);
      // The new MAC: the chaining value after meta and the whole blocks of data.
      MacStateIsCbc(K, Zeros(16), meta + data);
      CbcConcat(K, Zeros(16), meta, data);
      assert data == whole + tail;
      CbcWholeBlocks(K, iv, whole, tail);
      assert LastBlock(Zeros(16), CbcEncrypt(K, Zeros(16), meta) + c) == c[|c| - 16..];
      // The old one: the same block, followed by the one the padding completes.
      assert Pad(data) == whole + end && |end| == 16;
      CbcConcat(K, iv, whole, end);
      var all := CbcEncrypt(K, iv, Pad(data));
      assert all[..n] == c && |all| == n + 16;
      assert all[n - 16..n] == c[n - 16..];
    }
  }
}
