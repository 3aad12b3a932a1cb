/**
 AES-CCM as the secure channel uses it: 8-byte tag, 13-byte nonce, 2-byte length, no associated
 data. The block cipher is an arbitrary function on 16-byte blocks.

 Three layers: the sections 2.2 and 2.3 of RFC 3610 written down independently (Rfc...), the
 byte-level behaviour of the code (CbcMac, CtrCrypt, Seal, Open), and the class whose methods
 compute the latter with buffers and loops.
 */
module Ccm {
  import opened Bytes

  const BLOCK_SIZE: nat := 16
  const TAG_LEN: nat := 8
  const NONCE_LEN: nat := 13
  const MAX_PLAINTEXT: nat := 0xFFFE
  const CCM_FLAGS: byte := 0x19
  const CTR_FLAGS: byte := 0x01

  type Block = s: seq<byte> | |s| == 16 witness Zeros(16)
  type BlockCipher = Block -> Block
  type Nonce = s: seq<byte> | |s| == 13 witness Zeros(13)

  datatype CcmError = BadKeyLength | BadNonceLength | PlaintextTooLong | CiphertextTooShort | AuthenticationFailed

  // ---------------------------------------------------------------- RFC 3610

  /** Flags octet of B_0 (section 2.2): no associated data, tag length m, length field of l octets. */
  function RfcFlags(m: int, l: int): int {
    8 * ((m - 2) / 2) + (l - 1)
  }

  /** B_0 (section 2.2), M = 8 and L = 2. */
  function RfcB0(nonce: Nonce, len: nat): Block
    requires len < 0x1_0000
  {
    [RfcFlags(8, 2)] + nonce + ToBytes(len, 2)
  }

  /** A_i (section 2.3). */
  function RfcA(nonce: Nonce, i: nat): Block {
    [2 - 1] + nonce + ToBytes(i, 2)
  }

  /** The message as blocks B_1.., the last one padded with zeros (section 2.2). */
  function RfcBlocks(p: seq<byte>): seq<Block> {
    if p == [] then []
    else if |p| < 16 then [p + Zeros(16 - |p|)]
    else [p[..16]] + RfcBlocks(p[16..])
  }

  /** X_{n+1} from X_1 = x and the remaining blocks (section 2.2). */
  function RfcX(E: BlockCipher, x: Block, blocks: seq<Block>): Block
    decreases |blocks|
  {
    if blocks == [] then x else RfcX(E, E(XorSeq(x, blocks[0])), blocks[1..])
  }

  function RfcTag(E: BlockCipher, nonce: Nonce, p: seq<byte>): seq<byte>
    requires |p| < 0x1_0000
  {
    RfcX(E, E(RfcB0(nonce, |p|)), RfcBlocks(p))[..TAG_LEN]
  }

  /** Encrypted message then encrypted tag (sections 2.3 and 2.4), octet by octet. */
  function RfcSeal(E: BlockCipher, nonce: Nonce, p: seq<byte>): seq<byte>
    requires |p| < 0x1_0000
  {
    RfcEncrypted(E, nonce, p) + XorSeq(RfcTag(E, nonce, p), E(RfcA(nonce, 0)))
  }

  function RfcEncrypted(E: BlockCipher, nonce: Nonce, p: seq<byte>): seq<byte> {
    seq(|p|, j requires 0 <= j < |p| => Xor(p[j], E(RfcA(nonce, j / 16 + 1))[j % 16]))
  }

  // ---------------------------------------------------------------- what the code computes

  function B0(nonce: Nonce, len: nat): Block {
    [CCM_FLAGS] + nonce + [len / 256 % 256, len % 256]
  }

  function CtrBlock(nonce: Nonce, counter: uint16): Block {
    [CTR_FLAGS] + nonce + [counter / 256, counter % 256]
  }

  /** CBC-MAC state x after absorbing data, a trailing partial block touching only its own bytes. */
  function MacFrom(E: BlockCipher, x: Block, data: seq<byte>): Block
    decreases |data|
  {
    if data == [] then x
    else if |data| < 16 then E(XorSeq(x[..|data|], data) + x[|data|..])
    else MacFrom(E, E(XorSeq(x, data[..16])), data[16..])
  }

  function CbcMac(E: BlockCipher, b0: Block, data: seq<byte>): seq<byte> {
    MacFrom(E, E(b0), data)[..TAG_LEN]
  }

  /** Counter mode with a 128-bit big-endian counter, as the Go library's stream cipher runs it. */
  function CtrCrypt(E: BlockCipher, ctr: Block, data: seq<byte>): (r: seq<byte>)
    ensures |r| == |data|
    decreases |data|
  {
    var n := Min(16, |data|);
    if n == 0 then [] else XorSeq(data[..n], E(ctr)) + CtrCrypt(E, Increment(ctr), data[n..])
  }

  /** One counter-mode pass over tag, eight zero bytes and payload; then payload first, tag last. */
  function Seal(E: BlockCipher, nonce: Nonce, p: seq<byte>): (c: seq<byte>)
    ensures |c| == |p| + TAG_LEN
  {
    var buf := CtrCrypt(E, CtrBlock(nonce, 0), CbcMac(E, B0(nonce, |p|), p) + Zeros(8) + p);
    buf[16..] + buf[..TAG_LEN]
  }

  function Open(E: BlockCipher, nonce: Nonce, c: seq<byte>): (r: Result<seq<byte>, CcmError>) {
    if |c| < TAG_LEN then Err(CiphertextTooShort)
    else
      var n := |c| - TAG_LEN;
      Verified(E, nonce, CtrCrypt(E, CtrBlock(nonce, 0), c[n..] + Zeros(8) + c[..n]))
  }

  /** The payload of a decrypted buffer if its tag is the payload's. */
  function Verified(E: BlockCipher, nonce: Nonce, buf: seq<byte>): Result<seq<byte>, CcmError>
    requires |buf| >= 16
  {
    if buf[..TAG_LEN] == CbcMac(E, B0(nonce, |buf| - 16), buf[16..]) then Ok(buf[16..])
    else Err(AuthenticationFailed)
  }

  /** What EncryptAndAuthenticate answers. */
  function Encrypted(E: BlockCipher, nonce: seq<byte>, p: seq<byte>): Result<seq<byte>, CcmError> {
    if |nonce| != NONCE_LEN then Err(BadNonceLength)
    else if |p| > MAX_PLAINTEXT then Err(PlaintextTooLong)
    else Ok(Seal(E, nonce, p))
  }

  /** What DecryptAndAuthenticate answers. */
  function Decrypted(E: BlockCipher, nonce: seq<byte>, c: seq<byte>): Result<seq<byte>, CcmError> {
    if |nonce| != NONCE_LEN then Err(BadNonceLength) else Open(E, nonce, c)
  }

  /** A block cipher under every key; Keyed fixes the key. */
  type KeyedCipher = (seq<byte>, Block) -> Block

  const KEY_LEN: nat := 16

  function Keyed(E: KeyedCipher, key: seq<byte>): BlockCipher {
    (b: Block) => E(key, b)
  }

  /** What AESCCMEncrypt and AESCCMDecrypt answer. */
  function AesEncrypted(E: KeyedCipher, key: seq<byte>, nonce: seq<byte>, p: seq<byte>): Result<seq<byte>, CcmError> {
    if |key| != KEY_LEN then Err(BadKeyLength) else Encrypted(Keyed(E, key), nonce, p)
  }

  function AesDecrypted(E: KeyedCipher, key: seq<byte>, nonce: seq<byte>, c: seq<byte>): Result<seq<byte>, CcmError> {
    if |key| != KEY_LEN then Err(BadKeyLength) else Decrypted(Keyed(E, key), nonce, c)
  }

  // ---------------------------------------------------------------- the code

  method AesCcmEncrypt(E: KeyedCipher, key: seq<byte>, nonce: seq<byte>, p: seq<byte>) returns (r: Result<seq<byte>, CcmError>)
    ensures r == AesEncrypted(E, key, nonce, p)
  {
    if |key| != KEY_LEN {
      return Err(BadKeyLength);
    }
    if |nonce| != NONCE_LEN {
      return Err(BadNonceLength);
    }
    var ccm := new CcmMode(Keyed(E, key));
    r := ccm.EncryptAndAuthenticate(nonce, p);
  }

  method AesCcmDecrypt(E: KeyedCipher, key: seq<byte>, nonce: seq<byte>, c: seq<byte>) returns (r: Result<seq<byte>, CcmError>)
    ensures r == AesDecrypted(E, key, nonce, c)
  {
    if |key| != KEY_LEN {
      return Err(BadKeyLength);
    }
    if |nonce| != NONCE_LEN {
      return Err(BadNonceLength);
    }
    var ccm := new CcmMode(Keyed(E, key));
    r := ccm.DecryptAndAuthenticate(nonce, c);
  }

  class CcmMode {
    const E: BlockCipher

    constructor (E: BlockCipher)
      ensures this.E == E
    {
      this.E := E;
    }

    /** Encrypts a 16-byte buffer in place. */
    method EncryptBlock(block: array<byte>)
      requires block.Length == BLOCK_SIZE
      modifies block
      ensures block[..] == E(old(block[..]))
    {
      var out := E(block[..]);
      forall i | 0 <= i < 16 {
        block[i] := out[i];
      }
    }

    /** Exclusive or of a whole or partial block into the chaining buffer, then encryption. */
    method AbsorbBlock(block: array<byte>, data: seq<byte>)
      requires block.Length == BLOCK_SIZE && |data| <= BLOCK_SIZE
      modifies block
      ensures block[..] == E(XorSeq(old(block[..])[..|data|], data) + old(block[..])[|data|..])
    {
      ghost var x := block[..];
      XorRange(block, 0, data);
      assert block[..] == XorSeq(x[..|data|], data) + x[|data|..];
      EncryptBlock(block);
    }

    method ComputeCbcMac(data: seq<byte>, b0: Block) returns (tag: seq<byte>)
      ensures tag == CbcMac(E, b0, data)
    {
      var block := new byte[16](i requires 0 <= i < 16 => b0[i]);
      assert block[..] == b0;
      EncryptBlock(block);
      var rest := data;
      while |rest| >= 16
        invariant MacFrom(E, block[..], rest) == MacFrom(E, E(b0), data)
      {
        ghost var x := block[..];
        AbsorbBlock(block, rest[..16]);
        assert XorSeq(x[..16], rest[..16]) + x[16..] == XorSeq(x, rest[..16]);
        rest := rest[16..];
      }
      if |rest| > 0 {
        AbsorbBlock(block, rest);
      }
      tag := block[..TAG_LEN];
      assert tag == block[..][..TAG_LEN];
    }

    method CtrCryptInPlace(nonce: Nonce, data: array<byte>)
      modifies data
      ensures data[..] == CtrCrypt(E, CtrBlock(nonce, 0), old(data[..]))
    {
      var ctr: Block := CtrBlock(nonce, 0);
      var off := 0;
      ghost var was := data[..];
      while off < data.Length
        invariant off <= data.Length
        invariant data[..][..off] + CtrCrypt(E, ctr, data[..][off..]) == CtrCrypt(E, CtrBlock(nonce, 0), was)
      {
        var n := Min(16, data.Length - off);
        ghost var before := data[..];
        assert before[..off] == data[..off] && before[off..off + n] == data[off..off + n] && before[off + n..] == data[off + n..];
        XorRange(data, off, E(ctr)[..n]);
        InPlaceStep(E, ctr, before, data[..], off, n);
        ctr := Increment(ctr);
        off := off + n;
      }
      assert data[..][..off] == data[..];
    }

    method EncryptAndAuthenticate(nonce: seq<byte>, plaintext: seq<byte>) returns (r: Result<seq<byte>, CcmError>)
      ensures r == Encrypted(E, nonce, plaintext)
    {
      if |nonce| != NONCE_LEN {
        return Err(BadNonceLength);
      }
      if |plaintext| > MAX_PLAINTEXT {
        return Err(PlaintextTooLong);
      }
      var tag := ComputeCbcMac(plaintext, B0(nonce, |plaintext|));
      var buf := Laid(tag, plaintext);
      CtrCryptInPlace(nonce, buf);
      var result := buf[16..] + buf[..TAG_LEN];
      assert buf[16..] == buf[..][16..] && buf[..TAG_LEN] == buf[..][..TAG_LEN];
      return Ok(result);
    }

    method DecryptAndAuthenticate(nonce: seq<byte>, ciphertextWithTag: seq<byte>) returns (r: Result<seq<byte>, CcmError>)
      ensures r == Decrypted(E, nonce, ciphertextWithTag)
    {
      if |nonce| != NONCE_LEN {
        return Err(BadNonceLength);
      }
      if |ciphertextWithTag| < TAG_LEN {
        return Err(CiphertextTooShort);
      }
      var n := |ciphertextWithTag| - TAG_LEN;
      var buf := Laid(ciphertextWithTag[n..], ciphertextWithTag[..n]);
      CtrCryptInPlace(nonce, buf);
      var decryptedTag, plaintext := buf[..TAG_LEN], buf[16..];
      assert decryptedTag == buf[..][..TAG_LEN] && plaintext == buf[..][16..];
      var expectedTag := ComputeCbcMac(plaintext, B0(nonce, |plaintext|));
      if decryptedTag != expectedTag {
        return Err(AuthenticationFailed);
      }
      return Ok(plaintext);
    }

    /** A fresh buffer holding tag, eight zero bytes and payload. */
    method Laid(tag: seq<byte>, payload: seq<byte>) returns (buf: array<byte>)
      requires |tag| == TAG_LEN
      ensures fresh(buf) && buf[..] == tag + Zeros(8) + payload
    {
      var all := tag + Zeros(8) + payload;
      buf := new byte[16 + |payload|](i requires 0 <= i < 16 + |payload| => all[i]);
      assert buf[..] == all;
    }
  }

  /** One round of the counter-mode loop: a whole block, or the last, shorter one. */
  lemma CtrCryptStep(E: BlockCipher, ctr: Block, done: seq<byte>, chunk: seq<byte>, rest: seq<byte>)
    requires 0 < |chunk| <= 16 && (|chunk| == 16 || rest == [])
    ensures done + CtrCrypt(E, ctr, chunk + rest) == (done + XorSeq(chunk, E(ctr))) + CtrCrypt(E, Increment(ctr), rest)
  {
    var data := chunk + rest;
    assert data[..|chunk|] == chunk && data[|chunk|..] == rest;
    Associative(done, XorSeq(chunk, E(ctr)), CtrCrypt(E, Increment(ctr), rest));
  }

  // ---------------------------------------------------------------- decryption inverts encryption, and only it

  /** One block rewritten in place. */
  lemma InPlaceStep(E: BlockCipher, ctr: Block, before: seq<byte>, after: seq<byte>, off: nat, n: nat)
    requires off < |before| && n == Min(16, |before| - off)
    requires after == before[..off] + XorSeq(before[off..off + n], E(ctr)[..n]) + before[off + n..]
    ensures |after| == |before|
    ensures after[..off + n] + CtrCrypt(E, Increment(ctr), after[off + n..]) == before[..off] + CtrCrypt(E, ctr, before[off..])
  {
    var done, chunk, rest := before[..off], before[off..off + n], before[off + n..];
    assert before[off..] == chunk + rest;
    assert XorSeq(chunk, E(ctr)[..n]) == XorSeq(chunk, E(ctr));
    assert after[..off + n] == done + XorSeq(chunk, E(ctr)) && after[off + n..] == rest;
    CtrCryptStep(E, ctr, done, chunk, rest);
  }

  lemma {:induction false} CtrCryptTwice(E: BlockCipher, ctr: Block, data: seq<byte>)
    ensures CtrCrypt(E, ctr, CtrCrypt(E, ctr, data)) == data
    decreases |data|
  {
    var n := Min(16, |data|);
    if n > 0 {
      var c := CtrCrypt(E, ctr, data);
      XorSeqTwice(data[..n], E(ctr));
      CtrCryptTwice(E, Increment(ctr), data[n..]);
      assert c[..n] == XorSeq(data[..n], E(ctr)) && c[n..] == CtrCrypt(E, Increment(ctr), data[n..]);
    }
  }

  /** One pass over tag, eight zeros and payload: the first block masks the tag, the others the payload. */
  lemma OnePass(E: BlockCipher, ctr: Block, tag: seq<byte>, payload: seq<byte>)
    requires |tag| == TAG_LEN
    ensures var buf := CtrCrypt(E, ctr, tag + Zeros(8) + payload);
            && |buf| == 16 + |payload|
            && buf[..TAG_LEN] == XorSeq(tag, E(ctr))
            && buf[16..] == CtrCrypt(E, Increment(ctr), payload)
  {
    var data := tag + Zeros(8) + payload;
    var first := XorSeq(data[..16], E(ctr));
    assert data[16..] == payload;
    assert CtrCrypt(E, ctr, data) == first + CtrCrypt(E, Increment(ctr), payload);
    assert first[..TAG_LEN] == XorSeq(tag, E(ctr));
  }

  /** Seal without the padding: the tag is masked by the first block, the payload by the others. */
  lemma SealParts(E: BlockCipher, nonce: Nonce, p: seq<byte>)
    ensures Seal(E, nonce, p) == CtrCrypt(E, Increment(CtrBlock(nonce, 0)), p)
                                 + XorSeq(CbcMac(E, B0(nonce, |p|), p), E(CtrBlock(nonce, 0)))
  {
    var tag, ctr := CbcMac(E, B0(nonce, |p|), p), CtrBlock(nonce, 0);
    OnePass(E, ctr, tag, p);
  }

  lemma OpenParts(E: BlockCipher, nonce: Nonce, u: seq<byte>, c: seq<byte>)
    requires |u| == TAG_LEN
    ensures var p := CtrCrypt(E, Increment(CtrBlock(nonce, 0)), c);
            Open(E, nonce, c + u) == if XorSeq(u, E(CtrBlock(nonce, 0))) == CbcMac(E, B0(nonce, |c|), p) then Ok(p)
                                     else Err(AuthenticationFailed)
  {
    var ctr := CtrBlock(nonce, 0);
    var all := c + u;
    OnePass(E, ctr, u, c);
    assert |all| - TAG_LEN == |c| && all[|c|..] == u && all[..|c|] == c;
    assert Open(E, nonce, all) == Verified(E, nonce, CtrCrypt(E, ctr, u + Zeros(8) + c));
  }

  /** For messages of every length: what was sealed opens, and what opens is exactly what was sealed. */
  lemma OpenIffSealed(E: BlockCipher, nonce: Nonce, p: seq<byte>, c: seq<byte>)
    ensures Open(E, nonce, c) == Ok(p) <==> Seal(E, nonce, p) == c
  {
    SealParts(E, nonce, p);
    var ctr := CtrBlock(nonce, 0);
    var tag := CbcMac(E, B0(nonce, |p|), p);
    var body := CtrCrypt(E, Increment(ctr), p);
    if Seal(E, nonce, p) == c {
      OpenParts(E, nonce, XorSeq(tag, E(ctr)), body);
      CtrCryptTwice(E, Increment(ctr), p);
      XorSeqTwice(tag, E(ctr));
    }
    if Open(E, nonce, c) == Ok(p) {
      var n := |c| - TAG_LEN;
      assert c == c[..n] + c[n..];
      OpenParts(E, nonce, c[n..], c[..n]);
      CtrCryptTwice(E, Increment(ctr), c[..n]);
      XorSeqTwice(c[n..], E(ctr));
    }
  }

  /** The class accepts exactly what it produces, up to the length the encrypting side refuses. */
  lemma AcceptsExactlyWhatItProduces(E: BlockCipher, nonce: seq<byte>, p: seq<byte>, c: seq<byte>)
    ensures Encrypted(E, nonce, p) == Ok(c) <==> Decrypted(E, nonce, c) == Ok(p) && |p| <= MAX_PLAINTEXT
  {
    if |nonce| == NONCE_LEN {
      OpenIffSealed(E, nonce, p, c);
    }
  }

  // ---------------------------------------------------------------- refinement of RFC 3610

  lemma {:induction false} MacRefinesRfc(E: BlockCipher, x: Block, p: seq<byte>)
    ensures MacFrom(E, x, p) == RfcX(E, x, RfcBlocks(p))
    decreases |p|
  {
    if p == [] {
    } else if |p| < 16 {
      var padded: Block := p + Zeros(16 - |p|);
      forall j | |p| <= j < 16
        ensures XorSeq(x, padded)[j] == x[j]
      {
        XorZero(x[j]);
      }
      assert XorSeq(x, padded) == XorSeq(x[..|p|], p) + x[|p|..];
      assert RfcX(E, x, [padded]) == RfcX(E, E(XorSeq(x, padded)), []);
    } else {
      var blocks := RfcBlocks(p);
      assert blocks[0] == p[..16] && blocks[1..] == RfcBlocks(p[16..]);
      MacRefinesRfc(E, E(XorSeq(x, p[..16])), p[16..]);
    }
  }

  lemma CtrBlockIsA(nonce: Nonce, i: uint16)
    ensures CtrBlock(nonce, i) == RfcA(nonce, i)
  {
    assert ToBytes(i, 2) == ToBytes(i / 256, 1) + [i % 256];
    assert ToBytes(i / 256, 1) == [i / 256];
  }

  lemma B0IsRfcB0(nonce: Nonce, len: uint16)
    ensures B0(nonce, len) == RfcB0(nonce, len)
  {
    CtrBlockIsA(nonce, len);
    assert B0(nonce, len)[14..] == CtrBlock(nonce, len)[14..] == RfcA(nonce, len)[14..] == ToBytes(len, 2);
  }

  /** The 128-bit increment of a counter block is the next counter block: no carry into the nonce. */
  lemma NextCounterBlock(nonce: Nonce, i: uint16)
    requires i + 1 < 0x1_0000
    ensures Increment(RfcA(nonce, i)) == RfcA(nonce, i + 1)
  {
    var p := [2 - 1] + nonce;
    assert Pow256(2) == 0x1_0000;
    BigEndianToBytes(i, 2);
    IncrementSuffix(p, ToBytes(i, 2));
    IncrementValue(ToBytes(i, 2));
    BigEndianToBytes(i + 1, 2);
    BigEndianInjective(Increment(ToBytes(i, 2)), ToBytes(i + 1, 2));
  }

  lemma LessOneBlock(j: nat)
    requires j >= 16
    ensures (j - 16) / 16 == j / 16 - 1 && (j - 16) % 16 == j % 16
  {
  }

  /** Octet j of the stream that starts at counter i is masked by block i + j/16 while 16 bits suffice. */
  lemma {:induction false} CtrCryptAt(E: BlockCipher, nonce: Nonce, i: nat, data: seq<byte>, j: nat)
    requires j < |data| && i + j / 16 < 0x1_0000
    ensures CtrCrypt(E, RfcA(nonce, i), data)[j] == Xor(data[j], E(RfcA(nonce, i + j / 16))[j % 16])
    decreases |data|
  {
    var n := Min(16, |data|);
    if j >= 16 {
      LessOneBlock(j);
      NextCounterBlock(nonce, i);
      CtrCryptAt(E, nonce, i + 1, data[16..], j - 16);
      assert data[16..][j - 16] == data[j];
    }
  }

  lemma BodyRefinesRfc(E: BlockCipher, nonce: Nonce, p: seq<byte>)
    requires |p| <= MAX_PLAINTEXT
    ensures CtrCrypt(E, RfcA(nonce, 1), p) == RfcEncrypted(E, nonce, p)
  {
    var body, want := CtrCrypt(E, RfcA(nonce, 1), p), RfcEncrypted(E, nonce, p);
    forall j | 0 <= j < |p|
      ensures body[j] == want[j]
    {
      CtrCryptAt(E, nonce, 1, p, j);
    }
    assert body == want;
  }

  /** The single pass of the code is the encryption of RFC 3610 with M = 8 and L = 2. */
  lemma SealRefinesRfc3610(E: BlockCipher, nonce: Nonce, p: seq<byte>)
    requires |p| <= MAX_PLAINTEXT
    ensures Seal(E, nonce, p) == RfcSeal(E, nonce, p)
  {
    SealParts(E, nonce, p);
    CtrBlockIsA(nonce, 0);
    NextCounterBlock(nonce, 0);
    MacRefinesRfc(E, E(B0(nonce, |p|)), p);
    B0IsRfcB0(nonce, |p|);
    BodyRefinesRfc(E, nonce, p);
  }

  /** No two cipher inputs meet: tag input against counter blocks, counter blocks among themselves. */
  /** Exactly what is encrypted, and to what: a 16-byte key, a 13-byte nonce, at most 65534 bytes, as RFC 3610 seals them. */
  lemma EncryptsIff(E: KeyedCipher, key: seq<byte>, nonce: seq<byte>, p: seq<byte>, c: seq<byte>)
    ensures AesEncrypted(E, key, nonce, p) == Ok(c)
       <==> |key| == 16 && |nonce| == 13 && |p| <= 0xFFFE && c == RfcSeal(Keyed(E, key), nonce, p)
  {
    if |nonce| == 13 && |p| <= 0xFFFE {
      SealRefinesRfc3610(Keyed(E, key), nonce, p);
    }
  }

  /** Exactly what is decrypted, and to what: the sealed form of a plaintext under the same key and nonce. */
  lemma DecryptsIff(E: KeyedCipher, key: seq<byte>, nonce: seq<byte>, p: seq<byte>, c: seq<byte>)
    ensures AesDecrypted(E, key, nonce, c) == Ok(p) <==> |key| == 16 && |nonce| == 13 && c == Seal(Keyed(E, key), nonce, p)
  {
    if |nonce| == 13 {
      OpenIffSealed(Keyed(E, key), nonce, p, c);
    }
  }

  lemma CipherInputsDistinct(n1: Nonce, n2: Nonce, i: uint16, k: uint16, len: nat)
    ensures B0(n1, len) != CtrBlock(n2, i)
    ensures CtrBlock(n1, i) == CtrBlock(n2, k) ==> n1 == n2 && i == k
  {
    assert B0(n1, len)[0] != CtrBlock(n2, i)[0];
    if CtrBlock(n1, i) == CtrBlock(n2, k) {
      assert n1 == CtrBlock(n1, i)[1..14] == CtrBlock(n2, k)[1..14] == n2;
      assert i / 256 == CtrBlock(n1, i)[14] == CtrBlock(n2, k)[14] == k / 256;
      assert i % 256 == CtrBlock(n1, i)[15] == CtrBlock(n2, k)[15] == k % 256;
    }
  }
}
