/** The two readers of a DER-encoded ECDSA signature, and the encoding itself (section 8.3 of X.690). */
module DerSignature {
  import opened Bytes
  import opened Tlv

  const TAG_INTEGER: byte := 0x02
  const TAG_SEQUENCE: byte := 0x30
  const TAG_SCHNORR: byte := 0x88
  const SCALAR_SIZE: nat := 32

  datatype DerError =
    | NotSequence
    | Truncated
    | NotInteger
    | BadScalarLength
    | Malformed(e: TlvError)
    | NoSignature
    | BadSchnorrLength

  type Scalars = (seq<byte>, seq<byte>)

  // ---------------------------------------------------------------- the encoding

  /** Shortest big-endian form of n; empty for zero. */
  function MinimalBytes(n: nat): seq<byte> {
    if n == 0 then [] else MinimalBytes(n / 256) + [n % 256]
  }

  /** Content octets of a positive INTEGER: a zero octet keeps the sign bit clear. */
  function IntegerContent(n: nat): seq<byte>
    requires n > 0
  {
    var m := MinimalBytes(n);
    MinimalBytesNonEmpty(n);
    if m[0] >= 0x80 then [0] + m else m
  }

  function DerEncode(r: nat, s: nat): seq<byte>
    requires r > 0 && s > 0
  {
    TlvBytes(TAG_SEQUENCE, ItemsBytes([Item(TAG_INTEGER, IntegerContent(r)), Item(TAG_INTEGER, IntegerContent(s))]))
  }

  lemma {:induction false} MinimalBytesNonEmpty(n: nat)
    requires n > 0
    ensures MinimalBytes(n) != [] && MinimalBytes(n)[0] != 0 && BigEndian(MinimalBytes(n)) == n
  {
    var head := MinimalBytes(n / 256);
    assert MinimalBytes(n)[..|MinimalBytes(n)| - 1] == head;
    if n >= 256 {
      MinimalBytesNonEmpty(n / 256);
    }
  }

  lemma {:induction false} MinimalBytesLength(n: nat, w: nat)
    requires n < Pow256(w)
    ensures |MinimalBytes(n)| <= w
  {
    if n > 0 {
      MinimalBytesLength(n / 256, w - 1);
    }
  }

  /** The content octets denote n as a two's complement number, and no shorter ones do. */
  lemma IntegerContentIsDer(n: nat)
    requires n > 0
    ensures var c := IntegerContent(n);
            c != [] && c[0] < 0x80 && BigEndian(c) == n && (|c| > 1 && c[0] == 0 ==> c[1] >= 0x80)
  {
    MinimalBytesNonEmpty(n);
    BigEndianConcat([0], MinimalBytes(n));
    assert BigEndian([0]) == 0;
  }

  // ---------------------------------------------------------------- fixed-width scalars

  function LeftPad(s: seq<byte>): seq<byte>
    requires |s| <= SCALAR_SIZE
  {
    Zeros(SCALAR_SIZE - |s|) + s
  }

  lemma LeftPadZero(s: seq<byte>)
    requires |s| < SCALAR_SIZE
    ensures LeftPad([0] + s) == LeftPad(s)
  {
  }

  function WithoutSignOctet(content: seq<byte>): seq<byte> {
    if content != [] && content[0] == 0 then content[1..] else content
  }

  function ScalarOf(content: seq<byte>): Result<seq<byte>, DerError> {
    var c := WithoutSignOctet(content);
    if |c| == 0 || |c| > SCALAR_SIZE then Err(BadScalarLength) else Ok(LeftPad(c))
  }

  lemma WithoutSignOctetOfContent(n: nat)
    requires n > 0
    ensures WithoutSignOctet(IntegerContent(n)) == MinimalBytes(n)
    ensures |IntegerContent(n)| <= |MinimalBytes(n)| + 1
  {
    MinimalBytesNonEmpty(n);
  }

  lemma ScalarOfContent(n: nat)
    requires 0 < n < Pow256(SCALAR_SIZE)
    ensures ScalarOf(IntegerContent(n)) == Ok(ToBytes(n, SCALAR_SIZE))
    ensures |IntegerContent(n)| <= SCALAR_SIZE + 1
  {
    WithoutSignOctetOfContent(n);
    MinimalBytesNonEmpty(n);
    MinimalBytesLength(n, SCALAR_SIZE);
    PaddedValue(MinimalBytes(n), SCALAR_SIZE);
  }

  // ---------------------------------------------------------------- the two readers, as functions

  /** Two INTEGERs one after the other, as raw content octets. */
  function TwoIntegers(inner: seq<byte>): Result<Scalars, TlvError> {
    match ReadPrimitiveAt(inner, 0, TAG_INTEGER)
    case Read(Err(e), _) => Err(e)
    case Read(Ok(r), p) =>
      match ReadPrimitiveAt(inner, p, TAG_INTEGER)
      case Read(Err(e), _) => Err(e)
      case Read(Ok(s), _) => Ok((r, s))
  }

  /** The content octets of the two INTEGERs of a SEQUENCE. */
  function RawScalars(sig: seq<byte>): Result<Scalars, DerError> {
    if !NextTagIsAt(sig, 0, TAG_SEQUENCE) then Err(NotSequence)
    else
      match EnterConstructedAt(sig, 0, TAG_SEQUENCE)
      case Read(Err(_), _) => Err(Truncated)
      case Read(Ok(n), p) =>
        if p + n > |sig| then Err(Truncated)
        else
          match TwoIntegers(sig[p..][..n])
          case Err(_) => Err(NotInteger)
          case Ok(raw) => Ok(raw)
  }

  /** What parseDERSignature answers. */
  function ParsedDer(sig: seq<byte>): Result<Scalars, DerError> {
    match RawScalars(sig)
    case Err(e) => Err(e)
    case Ok(raw) =>
      match (ScalarOf(raw.0), ScalarOf(raw.1))
      case (Ok(r), Ok(s)) => Ok((r, s))
      case (_, _) => Err(BadScalarLength)
  }

  function LastBytes(s: seq<byte>): seq<byte> {
    if |s| > SCALAR_SIZE then s[|s| - SCALAR_SIZE..] else s
  }

  /** What DERSignatureToRS answers. */
  function DerToRs(sig: seq<byte>): Result<Scalars, DerError> {
    if NextTagIsAt(sig, 0, TAG_SEQUENCE) then
      match ReadPrimitiveAt(sig, 0, TAG_SEQUENCE)
      case Read(Err(e), _) => Err(Malformed(e))
      case Read(Ok(inner), _) =>
        match TwoIntegers(inner)
        case Err(e) => Err(Malformed(e))
        case Ok(raw) => Ok((LastBytes(raw.0), LastBytes(raw.1)))
    else if !NextTagIsAt(sig, 0, TAG_SCHNORR) then Err(NoSignature)
    else
      match ReadPrimitiveAt(sig, 0, TAG_SCHNORR)
      case Read(Err(e), _) => Err(Malformed(e))
      case Read(Ok(v), _) =>
        if v == [] then Err(NoSignature)
        else if |v| != 64 then Err(BadSchnorrLength)
        else Ok((v[..32], v[32..]))
  }

  // ---------------------------------------------------------------- the two readers, as the code drives its cursors

  method ScalarFromDerInteger(content: seq<byte>) returns (r: Result<seq<byte>, DerError>)
    ensures r == ScalarOf(content)
  {
    var c := content;
    if |c| > 0 && c[0] == 0 {
      c := c[1..];
    }
    if |c| == 0 || |c| > SCALAR_SIZE {
      return Err(BadScalarLength);
    }
    var out := new byte[32](i => 0);
    for i := 0 to |c|
      invariant forall j :: 0 <= j < SCALAR_SIZE - |c| ==> out[j] == 0
      invariant forall j :: 0 <= j < i ==> out[SCALAR_SIZE - |c| + j] == c[j]
    {
      out[SCALAR_SIZE - |c| + i] := c[i];
    }
    forall k | 0 <= k < SCALAR_SIZE
      ensures out[k] == LeftPad(c)[k]
    {
      if k >= SCALAR_SIZE - |c| {
        assert out[SCALAR_SIZE - |c| + (k - (SCALAR_SIZE - |c|))] == LeftPad(c)[k];
      }
    }
    assert out[..] == LeftPad(c);
    return Ok(out[..]);
  }

  method ParseDerSignature(sig: seq<byte>) returns (r: Result<Scalars, DerError>)
    ensures r == ParsedDer(sig)
  {
    var rd := new BerTlvReader(sig);
    var isSeq := rd.NextTagIs(TAG_SEQUENCE);
    if !isSeq {
      return Err(NotSequence);
    }
    var seqLen := rd.EnterConstructed(TAG_SEQUENCE);
    if seqLen.Err? {
      return Err(Truncated);
    }
    var content := rd.PeekUnread();
    if seqLen.value > |content| {
      return Err(Truncated);
    }
    assert content == sig[rd.pos..];
    var inner := new BerTlvReader(content[..seqLen.value]);
    var rRaw := inner.ReadPrimitive(TAG_INTEGER);
    if rRaw.Err? {
      return Err(NotInteger);
    }
    var sRaw := inner.ReadPrimitive(TAG_INTEGER);
    if sRaw.Err? {
      return Err(NotInteger);
    }
    var rv := ScalarFromDerInteger(rRaw.value);
    if rv.Err? {
      return Err(rv.error);
    }
    var sv := ScalarFromDerInteger(sRaw.value);
    if sv.Err? {
      return Err(sv.error);
    }
    return Ok((rv.value, sv.value));
  }

  method DerSignatureToRs(tlvData: seq<byte>) returns (r: Result<Scalars, DerError>)
    ensures r == DerToRs(tlvData)
  {
    var rd := new BerTlvReader(tlvData);
    var isSeq := rd.NextTagIs(TAG_SEQUENCE);
    if isSeq {
      var seqData := rd.ReadPrimitive(TAG_SEQUENCE);
      if seqData.Err? {
        return Err(Malformed(seqData.error));
      }
      var inner := new BerTlvReader(seqData.value);
      var rVal := inner.ReadPrimitive(TAG_INTEGER);
      if rVal.Err? {
        return Err(Malformed(rVal.error));
      }
      var rv := rVal.value;
      if |rv| > SCALAR_SIZE {
        rv := rv[|rv| - SCALAR_SIZE..];
      }
      var sVal := inner.ReadPrimitive(TAG_INTEGER);
      if sVal.Err? {
        return Err(Malformed(sVal.error));
      }
      var sv := sVal.value;
      if |sv| > SCALAR_SIZE {
        sv := sv[|sv| - SCALAR_SIZE..];
      }
      return Ok((rv, sv));
    }
    var isSchnorr := rd.NextTagIs(TAG_SCHNORR);
    if !isSchnorr {
      return Err(NoSignature);
    }
    var schnorr := rd.ReadPrimitive(TAG_SCHNORR);
    if schnorr.Err? {
      return Err(Malformed(schnorr.error));
    }
    if |schnorr.value| == 0 {
      return Err(NoSignature);
    }
    if |schnorr.value| != 64 {
      return Err(BadSchnorrLength);
    }
    return Ok((schnorr.value[..32], schnorr.value[32..]));
  }

  // ---------------------------------------------------------------- properties

  lemma TwoWrittenIntegers(buf: seq<byte>, items: seq<Item>)
    requires |items| == 2 && items[0].tag == items[1].tag == TAG_INTEGER && ItemsFit(items)
    requires buf == ItemsBytes(items)
    ensures TwoIntegers(buf) == Ok((items[0].value, items[1].value))
  {
    assert buf[0..] == buf == buf + [];
    NextItem(buf, 0, items, []);
    NextItem(buf, ReadPrimitiveAt(buf, 0, TAG_INTEGER).pos, items[1..], []);
  }

  lemma RawScalarsOfEncoding(r: seq<byte>, s: seq<byte>)
    requires |r| < 100 && |s| < 100
    ensures RawScalars(TlvBytes(TAG_SEQUENCE, ItemsBytes([Item(TAG_INTEGER, r), Item(TAG_INTEGER, s)]))) == Ok((r, s))
  {
    var items := [Item(TAG_INTEGER, r), Item(TAG_INTEGER, s)];
    var inner := ItemsBytes(items);
    TwoWrittenIntegers(inner, items);
    SmallItems(r, s);
    var sig := TlvBytes(TAG_SEQUENCE, inner);
    WrittenAlone(TAG_SEQUENCE, inner);
    assert sig[|sig| - |inner|..][..|inner|] == inner;
  }

  /** Every pair of positive 256-bit scalars comes back from its DER encoding in fixed width. */
  lemma DerRoundTrip(r: nat, s: nat)
    requires 0 < r < Pow256(SCALAR_SIZE) && 0 < s < Pow256(SCALAR_SIZE)
    ensures ParsedDer(DerEncode(r, s)) == Ok((ToBytes(r, SCALAR_SIZE), ToBytes(s, SCALAR_SIZE)))
  {
    ScalarOfContent(r);
    ScalarOfContent(s);
    RawScalarsOfEncoding(IntegerContent(r), IntegerContent(s));
  }

  lemma SmallItems(r: seq<byte>, s: seq<byte>)
    requires |r| < 100 && |s| < 100
    ensures |ItemsBytes([Item(TAG_INTEGER, r), Item(TAG_INTEGER, s)])| < 300
  {
    var w := Wires([Item(TAG_INTEGER, r), Item(TAG_INTEGER, s)]);
    assert Flatten(w) == w[0] + Flatten(w[1..]) && Flatten(w[1..]) == w[1] + Flatten(w[1..][1..]);
  }

  lemma ScalarIsPaddedTail(content: seq<byte>)
    requires ScalarOf(content).Ok?
    ensures ScalarOf(content) == Ok(LeftPad(LastBytes(content)))
  {
    if content[0] == 0 {
      assert content == [0] + content[1..];
      if |content| <= SCALAR_SIZE {
        LeftPadZero(content[1..]);
      }
    }
  }

  lemma LenientReadsRaw(sig: seq<byte>)
    requires RawScalars(sig).Ok?
    ensures var raw := RawScalars(sig).value; DerToRs(sig) == Ok((LastBytes(raw.0), LastBytes(raw.1)))
  {
    var enter := EnterConstructedAt(sig, 0, TAG_SEQUENCE);
    var n := enter.result.value;
    assert sig[enter.pos..][..n] == sig[enter.pos..enter.pos + n];
    assert ReadPrimitiveAt(sig, 0, TAG_SEQUENCE).result == Ok(sig[enter.pos..][..n]);
  }

  /** On every input the strict reader accepts, the lenient one accepts too and agrees up to left padding. */
  lemma ReadersAgree(sig: seq<byte>)
    requires ParsedDer(sig).Ok?
    ensures DerToRs(sig).Ok?
    ensures ParsedDer(sig) == Ok((LeftPad(DerToRs(sig).value.0), LeftPad(DerToRs(sig).value.1)))
  {
    LenientReadsRaw(sig);
    ScalarIsPaddedTail(RawScalars(sig).value.0);
    ScalarIsPaddedTail(RawScalars(sig).value.1);
  }

  // ---------------------------------------------------------------- what is accepted

  /** Two INTEGERs begin inner; what follows them is not looked at. */
  ghost predicate TwoIntegersIn(inner: seq<byte>, r: seq<byte>, s: seq<byte>) {
    exists mid, end :: TlvAt(inner, 0, 0x02, r, mid) && TlvAt(inner, mid, 0x02, s, end)
  }

  lemma TwoIntegersIff(inner: seq<byte>, r: seq<byte>, s: seq<byte>)
    ensures TwoIntegers(inner) == Ok((r, s)) <==> TwoIntegersIn(inner, r, s)
  {
    if TwoIntegers(inner) == Ok((r, s)) {
      var mid := ReadPrimitiveAt(inner, 0, TAG_INTEGER).pos;
      ReadPrimitiveIff(inner, 0, 0x02, r, mid);
      ReadPrimitiveIff(inner, mid, 0x02, s, ReadPrimitiveAt(inner, mid, TAG_INTEGER).pos);
    }
    if TwoIntegersIn(inner, r, s) {
      var mid, end :| TlvAt(inner, 0, 0x02, r, mid) && TlvAt(inner, mid, 0x02, s, end);
      ReadPrimitiveIff(inner, 0, 0x02, r, mid);
      ReadPrimitiveIff(inner, mid, 0x02, s, end);
    }
  }

  /** Both readers see the same pair of INTEGERs: those that begin a whole SEQUENCE at the start of the signature. */
  lemma RawScalarsIff(sig: seq<byte>, r: seq<byte>, s: seq<byte>)
    ensures RawScalars(sig) == Ok((r, s))
       <==> exists inner, next :: TlvAt(sig, 0, 0x30, inner, next) && TwoIntegersIn(inner, r, s)
  {
    if RawScalars(sig).Ok? {
      var read := EnterConstructedAt(sig, 0, TAG_SEQUENCE);
      var p, n := read.pos, read.result.value;
      EnterConstructedIff(sig, 0, 0x30, n, p);
      assert sig[p..][..n] == sig[p..p + n];
      assert TlvAt(sig, 0, 0x30, sig[p..p + n], p + n);
      TwoIntegersIff(sig[p..p + n], r, s);
      forall inner, next | TlvAt(sig, 0, 0x30, inner, next)
        ensures inner == sig[p..p + n]
      {
      }
    } else {
      forall inner: seq<byte>, next: nat | TlvAt(sig, 0, 0x30, inner, next)
        ensures !TwoIntegersIn(inner, r, s)
      {
        EnterConstructedIff(sig, 0, 0x30, |inner|, next - |inner|);
        assert sig[next - |inner|..][..|inner|] == inner;
        TwoIntegersIff(inner, r, s);
      }
    }
  }

  lemma SignOctetHasNoValue(content: seq<byte>)
    ensures BigEndian(WithoutSignOctet(content)) == BigEndian(content)
  {
    if content != [] && content[0] == 0 {
      BigEndianConcat([0], content[1..]);
      assert content == [0] + content[1..] && [0][..0] == [];
    }
  }

  lemma LeftPadValue(s: seq<byte>)
    requires |s| <= SCALAR_SIZE
    ensures LeftPad(s) == ToBytes(BigEndian(s), SCALAR_SIZE)
  {
    PaddedValue(s, SCALAR_SIZE);
  }

  /** Exactly the contents that are a scalar: 1 to 32 bytes, not counting one leading zero; the value is kept. */
  lemma ScalarOfIff(content: seq<byte>)
    ensures ScalarOf(content).Ok?
       <==> content != [] && content != [0] && (|content| <= 32 || (|content| == 33 && content[0] == 0))
    ensures ScalarOf(content).Ok? ==> ScalarOf(content) == Ok(ToBytes(BigEndian(content), SCALAR_SIZE))
  {
    var c := WithoutSignOctet(content);
    SignOctetHasNoValue(content);
    if c == [] && content != [] {
      assert content == [0];
    }
    if |c| <= SCALAR_SIZE {
      LeftPadValue(c);
    }
  }

  /** The strict reader accepts exactly a SEQUENCE of two such INTEGERs, r first. */
  lemma ParsedDerIff(sig: seq<byte>, r: seq<byte>, s: seq<byte>)
    ensures ParsedDer(sig) == Ok((r, s))
       <==> && RawScalars(sig).Ok?
            && ScalarOf(RawScalars(sig).value.0) == Ok(r) && ScalarOf(RawScalars(sig).value.1) == Ok(s)
  {
  }

  /** Of a SEQUENCE the lenient reader takes exactly what has the two INTEGERs, cut to their last 32 bytes, r first. */
  lemma LenientIff(sig: seq<byte>, r: seq<byte>, s: seq<byte>)
    requires sig != [] && sig[0] == 0x30
    ensures DerToRs(sig) == Ok((r, s))
       <==> && RawScalars(sig).Ok?
            && r == LastBytes(RawScalars(sig).value.0) && s == LastBytes(RawScalars(sig).value.1)
  {
    if RawScalars(sig).Ok? {
      LenientReadsRaw(sig);
    } else if DerToRs(sig).Ok? {
      var read := ReadPrimitiveAt(sig, 0, TAG_SEQUENCE);
      var inner := read.result.value;
      var raw := TwoIntegers(inner).value;
      ReadPrimitiveIff(sig, 0, 0x30, inner, read.pos);
      TwoIntegersIff(inner, raw.0, raw.1);
      RawScalarsIff(sig, raw.0, raw.1);
    }
  }

  /** The lenient reader takes a Schnorr signature exactly as 64 bytes under its tag, r first. */
  lemma SchnorrIff(sig: seq<byte>, r: seq<byte>, s: seq<byte>)
    requires sig == [] || sig[0] != 0x30
    ensures DerToRs(sig) == Ok((r, s)) <==> |r| == |s| == 32 && exists next :: TlvAt(sig, 0, 0x88, r + s, next)
  {
    var read := ReadPrimitiveAt(sig, 0, TAG_SCHNORR);
    if DerToRs(sig) == Ok((r, s)) {
      ReadPrimitiveIff(sig, 0, 0x88, r + s, read.pos);
      assert read.result.value == r + s;
    }
    if |r| == |s| == 32 && exists next :: TlvAt(sig, 0, 0x88, r + s, next) {
      var next :| TlvAt(sig, 0, 0x88, r + s, next);
      ReadPrimitiveIff(sig, 0, 0x88, r + s, next);
      assert (r + s)[..32] == r && (r + s)[32..] == s;
    }
  }
}
