/** BIP32 key pairs and their TLV form; deriving a public key is an arbitrary function. */
module Bip32KeyPairs {
  import opened Bytes
  import opened Tlv

  const TAG_KEY_TEMPLATE: byte := 0xA1
  const TAG_PUB_KEY: byte := 0x80
  const TAG_PRIV_KEY: byte := 0x81
  const TAG_CHAIN_CODE: byte := 0x82

  type PublicKey = s: seq<byte> | s != [] witness [0]
  type Derivation = seq<byte> -> PublicKey

  /** Absent parts are the nil slices of the original, which differ from empty ones. */
  datatype KeyPair = KeyPair(privateKey: Option<seq<byte>>, chainCode: Option<seq<byte>>, publicKey: Option<seq<byte>>)

  function StripLeadingZero(pk: seq<byte>): seq<byte> {
    if |pk| > 32 && pk[0] == 0 then pk[1..] else pk
  }

  function NewKeyPair(derive: Derivation, priv: Option<seq<byte>>, chain: Option<seq<byte>>, pub: Option<seq<byte>>): KeyPair {
    KeyPair(priv, chain, if priv.Some? && pub.None? then Some(derive(StripLeadingZero(priv.value))) else pub)
  }

  // ---------------------------------------------------------------- writing

  function PubItems(k: KeyPair, includePublic: bool): seq<Item> {
    if includePublic && k.publicKey.Some? && k.publicKey.value != [] then [Item(TAG_PUB_KEY, k.publicKey.value)] else []
  }

  function PrivItems(k: KeyPair): seq<Item> {
    if k.privateKey.Some? then [Item(TAG_PRIV_KEY, StripLeadingZero(k.privateKey.value))] else []
  }

  function ChainItems(k: KeyPair): seq<Item> {
    if k.chainCode.Some? then [Item(TAG_CHAIN_CODE, k.chainCode.value)] else []
  }

  function KeyItems(k: KeyPair, includePublic: bool): seq<Item> {
    PubItems(k, includePublic) + (PrivItems(k) + ChainItems(k))
  }

  function KeyTlv(k: KeyPair, includePublic: bool): seq<byte> {
    TlvBytes(TAG_KEY_TEMPLATE, ItemsBytes(KeyItems(k, includePublic)))
  }

  lemma KeyItemsBytes(k: KeyPair, includePublic: bool)
    ensures ItemsBytes(KeyItems(k, includePublic))
         == ItemsBytes(PubItems(k, includePublic)) + ItemsBytes(PrivItems(k)) + ItemsBytes(ChainItems(k))
  {
    ItemsBytesConcat(PrivItems(k), ChainItems(k));
    ItemsBytesConcat(PubItems(k, includePublic), PrivItems(k) + ChainItems(k));
  }

  method WriteItem(w: BerTlvWriter, item: Item)
    modifies w
    ensures w.buffer == old(w.buffer) + ItemsBytes([item])
  {
    w.WritePrimitive(item.tag, item.value);
    var wires := Wires([item]);
    assert Flatten(wires) == wires[0] + Flatten(wires[1..]) && Flatten(wires[1..]) == [];
  }

  method ToTlv(k: KeyPair, includePublic: bool) returns (bytes: seq<byte>)
    ensures bytes == KeyTlv(k, includePublic)
  {
    var writer := new BerTlvWriter();
    var w := new BerTlvWriter();
    assert ItemsBytes([]) == [];
    if includePublic && k.publicKey.Some? && |k.publicKey.value| > 0 {
      WriteItem(w, Item(TAG_PUB_KEY, k.publicKey.value));
    }
    assert w.buffer == ItemsBytes(PubItems(k, includePublic));
    if k.privateKey.Some? {
      WriteItem(w, Item(TAG_PRIV_KEY, StripLeadingZero(k.privateKey.value)));
    }
    assert w.buffer == ItemsBytes(PubItems(k, includePublic)) + ItemsBytes(PrivItems(k));
    if k.chainCode.Some? {
      WriteItem(w, Item(TAG_CHAIN_CODE, k.chainCode.value));
    }
    KeyItemsBytes(k, includePublic);
    writer.WriteConstructed(TAG_KEY_TEMPLATE, w);
    return writer.buffer;
  }

  // ---------------------------------------------------------------- reading

  /** A value that may be missing: the tag decides. */
  function OptionalAt(buf: seq<byte>, pos: nat, tag: byte): Read<Option<seq<byte>>> {
    if !NextTagIsAt(buf, pos, tag) then Read(Ok(None), pos)
    else
      match ReadPrimitiveAt(buf, pos, tag)
      case Read(Err(e), p) => Read(Err(e), p)
      case Read(Ok(v), p) => Read(Ok(Some(v)), p)
  }

  /** What Bip32KeyPairFromTLV answers. */
  function FromTlv(derive: Derivation, data: seq<byte>): Result<KeyPair, TlvError> {
    match EnterConstructedAt(data, 0, TAG_KEY_TEMPLATE)
    case Read(Err(e), _) => Err(e)
    case Read(Ok(_), p0) =>
      match OptionalAt(data, p0, TAG_PUB_KEY)
      case Read(Err(e), _) => Err(e)
      case Read(Ok(pub), p1) =>
        match OptionalAt(data, p1, TAG_PRIV_KEY)
        case Read(Err(e), _) => Err(e)
        case Read(Ok(priv), p2) =>
          match OptionalAt(data, p2, TAG_CHAIN_CODE)
          case Read(Err(e), _) => Err(e)
          case Read(Ok(chain), _) => Ok(NewKeyPair(derive, priv, chain, pub))
  }

  method ReadOptional(reader: BerTlvReader, tag: byte) returns (r: Result<Option<seq<byte>>, TlvError>)
    modifies reader
    ensures Read(r, reader.pos) == OptionalAt(reader.buffer, old(reader.pos), tag)
  {
    var present := reader.NextTagIs(tag);
    if !present {
      return Ok(None);
    }
    var v := reader.ReadPrimitive(tag);
    return if v.Ok? then Ok(Some(v.value)) else Err(v.error);
  }

  method KeyPairFromTlv(derive: Derivation, data: seq<byte>) returns (r: Result<KeyPair, TlvError>)
    ensures r == FromTlv(derive, data)
  {
    var reader := new BerTlvReader(data);
    var entered := reader.EnterConstructed(TAG_KEY_TEMPLATE);
    if entered.Err? {
      return Err(entered.error);
    }
    var pub := ReadOptional(reader, TAG_PUB_KEY);
    if pub.Err? {
      return Err(pub.error);
    }
    var priv := ReadOptional(reader, TAG_PRIV_KEY);
    if priv.Err? {
      return Err(priv.error);
    }
    var chain := ReadOptional(reader, TAG_CHAIN_CODE);
    if chain.Err? {
      return Err(chain.error);
    }
    return Ok(NewKeyPair(derive, priv.value, chain.value, pub.value));
  }

  // ---------------------------------------------------------------- round trip

  /** At the start of written items, a wanted tag is read and an unwanted one is left alone. */
  lemma OptionalReadsItems(buf: seq<byte>, pos: nat, items: seq<Item>, tag: byte)
    requires pos <= |buf| && buf[pos..] == ItemsBytes(items) && ItemsFit(items)
    ensures items == [] || items[0].tag != tag ==> OptionalAt(buf, pos, tag) == Read(Ok(None), pos)
    ensures items != [] && items[0].tag == tag ==>
              var r := OptionalAt(buf, pos, tag);
              r.result == Ok(Some(items[0].value)) && r.pos <= |buf| && buf[r.pos..] == ItemsBytes(items[1..])
  {
    if items != [] {
      assert buf[pos..] == ItemsBytes(items) + [];
      NextItem(buf, pos, items, []);
      assert ItemsBytes(items[1..]) + [] == ItemsBytes(items[1..]);
    }
  }

  function Rebuilt(derive: Derivation, k: KeyPair, includePublic: bool): KeyPair {
    var priv, pub := WrittenPriv(k), WrittenPub(k, includePublic);
    KeyPair(priv, k.chainCode, if priv.Some? && pub.None? then Some(derive(StripLeadingZero(priv.value))) else pub)
  }

  /** One optional part, written or not, followed by other parts. */
  lemma OptionalReadsPart(buf: seq<byte>, pos: nat, part: Option<seq<byte>>, tag: byte, items: seq<Item>, rest: seq<Item>)
    requires pos <= |buf| && buf[pos..] == ItemsBytes(items) && ItemsFit(items)
    requires items == (if part.Some? then [Item(tag, part.value)] else []) + rest
    requires rest != [] ==> rest[0].tag != tag
    ensures var r := OptionalAt(buf, pos, tag);
            r.result == Ok(part) && r.pos <= |buf| && buf[r.pos..] == ItemsBytes(rest)
  {
    OptionalReadsItems(buf, pos, items, tag);
    if part.None? {
      assert items == rest;
    } else {
      assert items[1..] == rest;
    }
  }

  function WrittenPub(k: KeyPair, includePublic: bool): Option<seq<byte>> {
    if includePublic && k.publicKey != Some([]) then k.publicKey else None
  }

  function WrittenPriv(k: KeyPair): Option<seq<byte>> {
    if k.privateKey.Some? then Some(StripLeadingZero(k.privateKey.value)) else None
  }

  lemma TailsFit(a: seq<Item>, b: seq<Item>)
    requires ItemsFit(a + b)
    ensures ItemsFit(b)
  {
    assert forall i :: 0 <= i < |b| ==> b[i] == (a + b)[i + |a|];
  }

  lemma PrivAndChainRead(data: seq<byte>, pos: nat, k: KeyPair)
    requires pos <= |data| && data[pos..] == ItemsBytes(PrivItems(k) + ChainItems(k))
    requires ItemsFit(PrivItems(k) + ChainItems(k))
    ensures var priv := OptionalAt(data, pos, TAG_PRIV_KEY);
            priv.result == Ok(WrittenPriv(k)) && OptionalAt(data, priv.pos, TAG_CHAIN_CODE).result == Ok(k.chainCode)
  {
    var last := ChainItems(k);
    OptionalReadsPart(data, pos, WrittenPriv(k), TAG_PRIV_KEY, PrivItems(k) + last, last);
    assert last == last + [];
    TailsFit(PrivItems(k), last);
    OptionalReadsPart(data, OptionalAt(data, pos, TAG_PRIV_KEY).pos, k.chainCode, TAG_CHAIN_CODE, last, []);
  }

  lemma FromTlvReadsParts(derive: Derivation, k: KeyPair, includePublic: bool)
    requires |ItemsBytes(KeyItems(k, includePublic))| < 0x1_0000_0000 && ItemsFit(KeyItems(k, includePublic))
    ensures FromTlv(derive, KeyTlv(k, includePublic))
         == Ok(NewKeyPair(derive, WrittenPriv(k), k.chainCode, WrittenPub(k, includePublic)))
  {
    var tail := PrivItems(k) + ChainItems(k);
    var data, inner := KeyTlv(k, includePublic), ItemsBytes(KeyItems(k, includePublic));
    WrittenAlone(TAG_KEY_TEMPLATE, inner);
    var p0 := |data| - |inner|;
    TailsFit(PubItems(k, includePublic), tail);
    OptionalReadsPart(data, p0, WrittenPub(k, includePublic), TAG_PUB_KEY, KeyItems(k, includePublic), tail);
    PrivAndChainRead(data, OptionalAt(data, p0, TAG_PUB_KEY).pos, k);
  }

  /** What is written is read back: the private key stripped, a missing public key derived from the stripped one. */
  lemma FromTlvReads(derive: Derivation, k: KeyPair, includePublic: bool)
    requires |ItemsBytes(KeyItems(k, includePublic))| < 0x1_0000_0000 && ItemsFit(KeyItems(k, includePublic))
    ensures FromTlv(derive, KeyTlv(k, includePublic)) == Ok(Rebuilt(derive, k, includePublic))
  {
    FromTlvReadsParts(derive, k, includePublic);
  }

  /** A key pair comes back exactly when its private key is stripped and its public key is really there. */
  lemma KeyPairRoundTripIff(derive: Derivation, k: KeyPair)
    requires |ItemsBytes(KeyItems(k, true))| < 0x1_0000_0000 && ItemsFit(KeyItems(k, true))
    ensures FromTlv(derive, KeyTlv(k, true)) == Ok(k) <==>
            && (k.privateKey.Some? && |k.privateKey.value| > 32 ==> k.privateKey.value[0] != 0)
            && (k.privateKey.Some? ==> k.publicKey.Some?)
            && k.publicKey != Some([])
  {
    FromTlvReads(derive, k, true);
    StripsOneZero(if k.privateKey.Some? then k.privateKey.value else []);
  }

  /** Only a zero in front of 32 or more bytes is taken off, and only one. */
  lemma StripsOneZero(pk: seq<byte>)
    ensures if |pk| > 32 && pk[0] == 0 then pk == [0] + StripLeadingZero(pk) else pk == StripLeadingZero(pk)
  {
  }

  /** The template of a whole key pair: public key, private key and chain code under their tags, in this order. */
  lemma KeyLayout(pub: seq<byte>, priv: seq<byte>, chain: seq<byte>)
    requires pub != [] && |priv| == 32
    ensures KeyTlv(KeyPair(Some(priv), Some(chain), Some(pub)), true)
         == TlvBytes(0xA1, TlvBytes(0x80, pub) + TlvBytes(0x81, priv) + TlvBytes(0x82, chain))
  {
    var k := KeyPair(Some(priv), Some(chain), Some(pub));
    KeyItemsBytes(k, true);
    OneItem(Item(0x80, pub));
    OneItem(Item(0x81, priv));
    OneItem(Item(0x82, chain));
  }

  lemma OneItem(item: Item)
    ensures ItemsBytes([item]) == TlvBytes(item.tag, item.value)
  {
    ItemsBytesCons([item]);
    assert ItemsBytes([]) == [];
  }

  // ---------------------------------------------------------------- what is accepted

  /** An optional TLV at pos: a whole one under its tag, or another tag or the end. */
  ghost predicate OptionalTlv(buf: seq<byte>, pos: nat, tag: byte, value: Option<seq<byte>>, next: nat) {
    if pos < |buf| && buf[pos] == tag then value.Some? && TlvAt(buf, pos, tag, value.value, next)
    else value == None && next == pos
  }

  lemma OptionalIff(buf: seq<byte>, pos: nat, tag: byte, value: Option<seq<byte>>, next: nat)
    ensures OptionalAt(buf, pos, tag) == Read(Ok(value), next) <==> OptionalTlv(buf, pos, tag, value, next)
  {
    if pos < |buf| && buf[pos] == tag && value.Some? {
      ReadPrimitiveIff(buf, pos, tag, value.value, next);
    }
  }

  /** The three optional parts stand one behind the other from p0 on. */
  ghost predicate PartsAt(data: seq<byte>, p0: nat, pub: Option<seq<byte>>, priv: Option<seq<byte>>, chain: Option<seq<byte>>) {
    exists p1, p2, p3 ::
      && OptionalTlv(data, p0, 0x80, pub, p1)
      && OptionalTlv(data, p1, 0x81, priv, p2)
      && OptionalTlv(data, p2, 0x82, chain, p3)
  }

  function PartsFrom(data: seq<byte>, p0: nat): (r: Option<(Option<seq<byte>>, Option<seq<byte>>, Option<seq<byte>>)>) {
    match OptionalAt(data, p0, TAG_PUB_KEY)
    case Read(Err(_), _) => None
    case Read(Ok(pub), p1) =>
      match OptionalAt(data, p1, TAG_PRIV_KEY)
      case Read(Err(_), _) => None
      case Read(Ok(priv), p2) =>
        match OptionalAt(data, p2, TAG_CHAIN_CODE)
        case Read(Err(_), _) => None
        case Read(Ok(chain), _) => Some((pub, priv, chain))
  }

  lemma PartsIff(data: seq<byte>, p0: nat, pub: Option<seq<byte>>, priv: Option<seq<byte>>, chain: Option<seq<byte>>)
    ensures PartsFrom(data, p0) == Some((pub, priv, chain)) <==> PartsAt(data, p0, pub, priv, chain)
  {
    var r1 := OptionalAt(data, p0, TAG_PUB_KEY);
    var r2 := OptionalAt(data, r1.pos, TAG_PRIV_KEY);
    var r3 := OptionalAt(data, r2.pos, TAG_CHAIN_CODE);
    if PartsFrom(data, p0) == Some((pub, priv, chain)) {
      OptionalIff(data, p0, 0x80, pub, r1.pos);
      OptionalIff(data, r1.pos, 0x81, priv, r2.pos);
      OptionalIff(data, r2.pos, 0x82, chain, r3.pos);
    }
    if PartsAt(data, p0, pub, priv, chain) {
      var p1, p2, p3 :| OptionalTlv(data, p0, 0x80, pub, p1) && OptionalTlv(data, p1, 0x81, priv, p2)
                        && OptionalTlv(data, p2, 0x82, chain, p3);
      OptionalIff(data, p0, 0x80, pub, p1);
      OptionalIff(data, p1, 0x81, priv, p2);
      OptionalIff(data, p2, 0x82, chain, p3);
    }
  }

  /**
   Exactly what is read as a key pair: a template tag and length, and behind them the optional parts in their order;
   what follows is not looked at. A missing public key is derived from the private one without a leading zero.
   */
  lemma FromTlvIff(derive: Derivation, data: seq<byte>, k: KeyPair)
    ensures FromTlv(derive, data) == Ok(k)
       <==> && |data| > 0 && data[0] == 0xA1 && BerLength(data, 1).Ok?
            && exists pub :: PartsAt(data, BerLength(data, 1).value.1, pub, k.privateKey, k.chainCode)
                             && PublicOf(derive, k.privateKey, pub) == k.publicKey
  {
    if |data| > 0 && data[0] == 0xA1 && BerLength(data, 1).Ok? {
      var p0 := BerLength(data, 1).value.1;
      EnterConstructedIff(data, 0, 0xA1, BerLength(data, 1).value.0, p0);
      var parts := PartsFrom(data, p0);
      if FromTlv(derive, data) == Ok(k) {
        assert parts.Some?;
        PartsIff(data, p0, parts.value.0, k.privateKey, k.chainCode);
      }
      forall pub | PartsAt(data, p0, pub, k.privateKey, k.chainCode) && PublicOf(derive, k.privateKey, pub) == k.publicKey
        ensures FromTlv(derive, data) == Ok(k)
      {
        PartsIff(data, p0, pub, k.privateKey, k.chainCode);
      }
    }
  }

  /** The public key of a pair that was read with priv and pub. */
  function PublicOf(derive: Derivation, priv: Option<seq<byte>>, pub: Option<seq<byte>>): Option<seq<byte>> {
    if pub.Some? || priv.None? then pub
    else Some(derive(if |priv.value| > 32 && priv.value[0] == 0 then priv.value[1..] else priv.value))
  }
}
