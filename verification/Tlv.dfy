/** BER lengths (section 8.1.3 of X.690), and the cursor reader and the writer of tag-length-value data. */
module Tlv {
  import opened Bytes

  datatype TlvError =
    | EndOfBuffer
    | IndefiniteLength
    | LengthTooLong
    | LengthTruncated
    | WrongTag(expected: byte, actual: byte)
    | ValueTruncated

  // ---------------------------------------------------------------- lengths

  /** Short form below 128; otherwise a count byte and as many big-endian bytes. */
  function EncodeBerLength(n: uint32): (r: seq<byte>)
    ensures r != []
  {
    if n < 0x80 then [n] else [0x80 + LongFormWidth(n)] + ToBytes(n, LongFormWidth(n))
  }

  function LongFormWidth(n: uint32): (k: nat)
    ensures 1 <= k <= 4
  {
    if n < 0x100 then 1 else if n < 0x1_0000 then 2 else if n < 0x100_0000 then 3 else 4
  }

  /** What DecodeBerLength answers at off: the length and the offset after it. */
  function BerLength(data: seq<byte>, off: nat): (r: Result<(uint32, nat), TlvError>)
    ensures r.Ok? ==> off < r.value.1 <= |data|
  {
    if off >= |data| then Err(EndOfBuffer)
    else if data[off] < 0x80 then Ok((data[off], off + 1))
    else if data[off] == 0x80 then Err(IndefiniteLength)
    else if data[off] > 0x84 then Err(LengthTooLong)
    else
      var k := data[off] - 0x80;
      if off + 1 + k > |data| then Err(LengthTruncated)
      else
        BigEndianBound(data[off + 1..off + 1 + k]);
        Pow256AtMost4(k);
        Ok((BigEndian(data[off + 1..off + 1 + k]), off + 1 + k))
  }

  lemma Pow256AtMost4(k: nat)
    requires k <= 4
    ensures Pow256(k) <= 0x1_0000_0000
  {
    assert Pow256(4) == 256 * Pow256(3) && Pow256(3) == 256 * Pow256(2);
    assert k < 4 ==> k == 0 || k == 1 || k == 2 || k == 3;
  }

  method DecodeBerLength(data: seq<byte>, off: nat) returns (r: Result<(uint32, nat), TlvError>)
    ensures r == BerLength(data, off)
  {
    if off >= |data| {
      return Err(EndOfBuffer);
    }
    var first := data[off];
    var pos: nat := off + 1;
    if first < 0x80 {
      return Ok((first, pos));
    } else if first == 0x80 {
      return Err(IndefiniteLength);
    }
    var numBytes: nat := first % 0x80;
    if numBytes > 4 {
      return Err(LengthTooLong);
    }
    if pos + numBytes > |data| {
      return Err(LengthTruncated);
    }
    var length: uint32 := 0;
    for i := 0 to numBytes
      invariant length == BigEndian(data[pos..pos + i])
    {
      ghost var s := data[pos..pos + i + 1];
      assert s[..i] == data[pos..pos + i];
      BigEndianBound(s);
      Pow256AtMost4(i + 1);
      length := length * 256 % 0x1_0000_0000 + data[pos + i];
    }
    return Ok((length, pos + numBytes));
  }

  lemma EncodedForm(n: uint32)
    ensures var e := EncodeBerLength(n);
            if n < 0x80 then e == [n]
            else 1 < |e| <= 5 && e[0] == 0x80 + (|e| - 1) && BigEndian(e[1..]) == n
  {
    if n >= 0x80 {
      var k := LongFormWidth(n);
      assert EncodeBerLength(n)[1..] == ToBytes(n, k);
      assert Pow256(1) == 0x100 && Pow256(2) == 0x1_0000 && Pow256(3) == 0x100_0000 && Pow256(4) == 0x1_0000_0000;
      BigEndianToBytes(n, k);
    }
  }

  /** Decoding undoes encoding for every length, wherever it stands and whatever follows. */
  lemma BerLengthRoundTrip(pre: seq<byte>, n: uint32, post: seq<byte>)
    ensures BerLength(pre + EncodeBerLength(n) + post, |pre|) == Ok((n, |pre| + |EncodeBerLength(n)|))
  {
    var e := EncodeBerLength(n);
    var data := pre + e + post;
    assert data[|pre|] == e[0];
    assert data[|pre| + 1..|pre| + |e|] == e[1..];
    EncodedForm(n);
  }

  /** No accepted encoding of a length is shorter than the one the encoder writes. */
  lemma EncodeBerLengthShortest(data: seq<byte>, off: nat)
    requires BerLength(data, off).Ok?
    ensures var (n, next) := BerLength(data, off).value; off + |EncodeBerLength(n)| <= next
  {
    if data[off] > 0x80 {
      BigEndianBound(data[off + 1..off + 1 + (data[off] - 0x80)]);
      assert Pow256(1) == 0x100 && Pow256(2) == 0x1_0000 && Pow256(3) == 0x100_0000;
    }
  }

  /** Exactly the lengths that are read, by their value: one byte below 128, or one to four big-endian bytes. */
  lemma BerLengthIff(data: seq<byte>, off: nat, n: uint32, next: nat)
    ensures BerLength(data, off) == Ok((n, next))
       <==> && off < next <= |data|
            && if next == off + 1 then data[off] == n < 0x80
               else next <= off + 5 && data[off] == 0x80 + (next - off - 1) && BigEndian(data[off + 1..next]) == n
  {
  }

  // ---------------------------------------------------------------- reading, as functions of buffer and cursor

  /** The outcome of a read and where it leaves the cursor, also when it fails. */
  datatype Read<+T> = Read(result: Result<T, TlvError>, pos: nat)

  function ReadTagAt(buf: seq<byte>, pos: nat): (r: Read<byte>)
    ensures r.result.Ok? <==> pos < |buf|
    ensures pos <= |buf| ==> pos <= r.pos <= |buf|
  {
    if pos < |buf| then Read(Ok(buf[pos]), pos + 1) else Read(Err(EndOfBuffer), pos)
  }

  function ReadLengthAt(buf: seq<byte>, pos: nat): (r: Read<uint32>)
    ensures pos <= |buf| ==> pos <= r.pos <= |buf|
  {
    match BerLength(buf, pos)
    case Ok(v) => Read(Ok(v.0), v.1)
    case Err(e) => Read(Err(e), pos)
  }

  function EnterConstructedAt(buf: seq<byte>, pos: nat, tag: byte): (r: Read<uint32>)
    ensures pos <= |buf| ==> pos <= r.pos <= |buf|
  {
    match ReadTagAt(buf, pos)
    case Read(Err(e), p) => Read(Err(e), p)
    case Read(Ok(t), p) => if t != tag then Read(Err(WrongTag(tag, t)), p) else ReadLengthAt(buf, p)
  }

  function ReadPrimitiveAt(buf: seq<byte>, pos: nat, tag: byte): (r: Read<seq<byte>>)
    ensures pos <= |buf| ==> pos <= r.pos <= |buf|
  {
    match EnterConstructedAt(buf, pos, tag)
    case Read(Err(e), p) => Read(Err(e), p)
    case Read(Ok(n), p) => if p + n <= |buf| then Read(Ok(buf[p..p + n]), p + n) else Read(Err(ValueTruncated), p)
  }

  function SkipPrimitiveAt(buf: seq<byte>, pos: nat): (r: Read<()>)
    ensures pos <= |buf| ==> pos <= r.pos <= |buf|
  {
    match ReadTagAt(buf, pos)
    case Read(Err(e), p) => Read(Err(e), p)
    case Read(Ok(_), p) =>
      match ReadLengthAt(buf, p)
      case Read(Err(e), q) => Read(Err(e), q)
      case Read(Ok(n), q) => if q + n <= |buf| then Read(Ok(()), q + n) else Read(Err(ValueTruncated), q)
  }

  function NextTagIsAt(buf: seq<byte>, pos: nat, tag: byte): bool {
    pos < |buf| && buf[pos] == tag
  }

  class BerTlvReader {
    const buffer: seq<byte>
    var pos: nat

    constructor (buffer: seq<byte>)
      ensures this.buffer == buffer && pos == 0
    {
      this.buffer := buffer;
      this.pos := 0;
    }

    method ReadTag() returns (r: Result<byte, TlvError>)
      modifies this
      ensures Read(r, pos) == ReadTagAt(buffer, old(pos))
    {
      if pos >= |buffer| {
        return Err(EndOfBuffer);
      }
      var tag := buffer[pos];
      pos := pos + 1;
      return Ok(tag);
    }

    method NextTagIs(expected: byte) returns (b: bool)
      ensures b == NextTagIsAt(buffer, pos, expected)
    {
      if pos < |buffer| {
        return buffer[pos] == expected;
      }
      return false;
    }

    method ReadLength() returns (r: Result<uint32, TlvError>)
      modifies this
      ensures Read(r, pos) == ReadLengthAt(buffer, old(pos))
    {
      var d := DecodeBerLength(buffer, pos);
      match d {
        case Err(e) => return Err(e);
        case Ok(v) =>
          pos := v.1;
          return Ok(v.0);
      }
    }

    method EnterConstructed(tag: byte) returns (r: Result<uint32, TlvError>)
      modifies this
      ensures Read(r, pos) == EnterConstructedAt(buffer, old(pos), tag)
    {
      var actual := ReadTag();
      if actual.Err? {
        return Err(actual.error);
      }
      if actual.value != tag {
        return Err(WrongTag(tag, actual.value));
      }
      r := ReadLength();
    }

    method ReadPrimitive(tag: byte) returns (r: Result<seq<byte>, TlvError>)
      modifies this
      ensures Read(r, pos) == ReadPrimitiveAt(buffer, old(pos), tag)
    {
      var actual := ReadTag();
      if actual.Err? {
        return Err(actual.error);
      }
      if actual.value != tag {
        return Err(WrongTag(tag, actual.value));
      }
      var length := ReadLength();
      if length.Err? {
        return Err(length.error);
      }
      if pos + length.value > |buffer| {
        return Err(ValueTruncated);
      }
      var value := buffer[pos..pos + length.value];
      pos := pos + length.value;
      return Ok(value);
    }

    method Skip(length: uint32) returns (r: Result<(), TlvError>)
      modifies this
      ensures r == if old(pos) + length <= |buffer| then Ok(()) else Err(ValueTruncated)
      ensures pos == if r.Ok? then old(pos) + length else old(pos)
    {
      if pos + length > |buffer| {
        return Err(ValueTruncated);
      }
      pos := pos + length;
      return Ok(());
    }

    method SkipPrimitive() returns (r: Result<(), TlvError>)
      modifies this
      ensures Read(r, pos) == SkipPrimitiveAt(buffer, old(pos))
    {
      var tag := ReadTag();
      if tag.Err? {
        return Err(tag.error);
      }
      var length := ReadLength();
      if length.Err? {
        return Err(length.error);
      }
      r := Skip(length.value);
    }

    function PeekUnread(): seq<byte>
      reads this
    {
      if pos < |buffer| then buffer[pos..] else []
    }
  }

  // ---------------------------------------------------------------- writing

  /** One TLV on the wire; the length field holds the low 32 bits of the length. */
  function TlvBytes(tag: byte, value: seq<byte>): seq<byte> {
    [tag] + EncodeBerLength(|value| % 0x1_0000_0000) + value
  }

  class BerTlvWriter {
    var buffer: seq<byte>

    constructor ()
      ensures buffer == []
    {
      buffer := [];
    }

    method WriteNumLength(length: uint32)
      modifies this
      ensures buffer == old(buffer) + EncodeBerLength(length)
    {
      buffer := buffer + EncodeBerLength(length);
    }

    method WritePrimitive(tag: byte, value: seq<byte>)
      modifies this
      ensures buffer == old(buffer) + TlvBytes(tag, value)
    {
      buffer := buffer + [tag];
      WriteNumLength(|value| % 0x1_0000_0000);
      buffer := buffer + value;
    }

    /** The callback of the original has already filled content, its temporary writer. */
    method WriteConstructed(tag: byte, content: BerTlvWriter)
      requires content != this
      modifies this
      ensures buffer == old(buffer) + TlvBytes(tag, content.buffer)
    {
      buffer := buffer + [tag];
      WriteNumLength(|content.buffer| % 0x1_0000_0000);
      buffer := buffer + content.buffer;
    }
  }

  /** At pos stands a TLV with this tag and value, and post is what follows it. */
  ghost predicate HoldsTlv(buf: seq<byte>, pos: nat, tag: byte, value: seq<byte>, post: seq<byte>) {
    var start := |buf| - |post| - |value|;
    && pos < start
    && |value| < 0x1_0000_0000
    && buf[pos] == tag
    && BerLength(buf, pos + 1) == Ok((|value|, start))
    && buf[start..] == value + post
  }

  /** The cursor operations on such a TLV: entering, reading and skipping it. */
  lemma CursorOnTlv(buf: seq<byte>, pos: nat, tag: byte, value: seq<byte>, post: seq<byte>)
    requires HoldsTlv(buf, pos, tag, value, post)
    ensures var next := |buf| - |post|;
            && NextTagIsAt(buf, pos, tag)
            && EnterConstructedAt(buf, pos, tag) == Read(Ok(|value|), next - |value|)
            && ReadPrimitiveAt(buf, pos, tag) == Read(Ok(value), next)
            && SkipPrimitiveAt(buf, pos) == Read(Ok(()), next)
            && buf[next..] == post
  {
    var start, next := |buf| - |post| - |value|, |buf| - |post|;
    assert ReadTagAt(buf, pos) == Read(Ok(tag), pos + 1);
    assert ReadLengthAt(buf, pos + 1) == Read(Ok(|value|), start);
    assert buf[start..next] == buf[start..][..|value|] == value;
    assert buf[next..] == buf[start..][|value|..] == post;
  }

  /** A written TLV stands where it was written, in any buffer. */
  lemma WrittenTlv(pre: seq<byte>, tag: byte, value: seq<byte>, post: seq<byte>)
    requires |value| < 0x1_0000_0000
    ensures HoldsTlv(pre + TlvBytes(tag, value) + post, |pre|, tag, value, post)
  {
    var e, buf := EncodeBerLength(|value|), pre + TlvBytes(tag, value) + post;
    BerLengthRoundTrip(pre + [tag], |value|, value + post);
    Regroup(pre, [tag] + e, value, post);
    Regroup(pre, [tag], e, value + post);
    assert buf[|pre|] == tag;
    var front := pre + [tag] + e;
    assert buf == front + (value + post);
    assert buf[|front|..] == value + post;
  }

  /** A buffer that is one written TLV: entered, it leaves exactly the value ahead. */
  lemma WrittenAlone(tag: byte, value: seq<byte>)
    requires |value| < 0x1_0000_0000
    ensures var buf := TlvBytes(tag, value);
            && NextTagIsAt(buf, 0, tag)
            && EnterConstructedAt(buf, 0, tag) == Read(Ok(|value|), |buf| - |value|)
            && buf[|buf| - |value|..] == value
  {
    var buf := TlvBytes(tag, value);
    WrittenTlv([], tag, value, []);
    assert [] + buf + [] == buf;
    CursorOnTlv(buf, 0, tag, value, []);
    assert value + [] == value;
  }

  // ---------------------------------------------------------------- sequences and nested structures

  /** One tag and its value. */
  datatype Item = Item(tag: byte, value: seq<byte>)

  function Wires(items: seq<Item>): (r: seq<seq<byte>>)
    ensures |r| == |items|
  {
    seq(|items|, i requires 0 <= i < |items| => TlvBytes(items[i].tag, items[i].value))
  }

  function ItemsBytes(items: seq<Item>): seq<byte> {
    Flatten(Wires(items))
  }

  predicate ItemsFit(items: seq<Item>) {
    forall i :: 0 <= i < |items| ==> |items[i].value| < 0x1_0000_0000
  }

  lemma ItemsBytesCons(items: seq<Item>)
    requires items != []
    ensures ItemsBytes(items) == TlvBytes(items[0].tag, items[0].value) + ItemsBytes(items[1..])
  {
    assert Wires(items)[1..] == Wires(items[1..]);
  }

  lemma ItemsBytesConcat(a: seq<Item>, b: seq<Item>)
    ensures ItemsBytes(a + b) == ItemsBytes(a) + ItemsBytes(b)
  {
    var all := Wires(a + b);
    assert all == Wires(a) + Wires(b);
    FlattenConcat(Wires(a), Wires(b));
  }

  /** A whole TLV stands at pos, and next is behind it. */
  ghost predicate TlvAt(buf: seq<byte>, pos: nat, tag: byte, value: seq<byte>, next: nat) {
    && pos < |buf| && buf[pos] == tag && next <= |buf| && |value| < 0x1_0000_0000
    && BerLength(buf, pos + 1) == Ok((|value|, next - |value|))
    && buf[next - |value|..next] == value
  }

  /** A primitive is read exactly where a whole TLV of the expected tag stands: no other tag, nothing cut off. */
  lemma ReadPrimitiveIff(buf: seq<byte>, pos: nat, tag: byte, value: seq<byte>, next: nat)
    ensures ReadPrimitiveAt(buf, pos, tag) == Read(Ok(value), next) <==> TlvAt(buf, pos, tag, value, next)
  {
  }

  /** A TLV is skipped exactly where a whole one stands, of any tag. */
  lemma SkipPrimitiveIff(buf: seq<byte>, pos: nat, next: nat)
    ensures SkipPrimitiveAt(buf, pos) == Read(Ok(()), next)
       <==> exists tag, value :: TlvAt(buf, pos, tag, value, next)
  {
    if SkipPrimitiveAt(buf, pos) == Read(Ok(()), next) {
      var n := BerLength(buf, pos + 1).value.0;
      assert TlvAt(buf, pos, buf[pos], buf[next - n..next], next);
    }
  }

  /** Content is entered exactly behind the expected tag and a length, whatever follows. */
  lemma EnterConstructedIff(buf: seq<byte>, pos: nat, tag: byte, n: uint32, next: nat)
    ensures EnterConstructedAt(buf, pos, tag) == Read(Ok(n), next)
       <==> pos < |buf| && buf[pos] == tag && BerLength(buf, pos + 1) == Ok((n, next))
  {
  }

  /** A failed read has passed the tag if there is one, and the length only if that tag and the length were right. */
  lemma CursorAfterError(buf: seq<byte>, pos: nat, tag: byte)
    ensures var stuck := if pos < |buf| then pos + 1 else pos;
            var e, r, s := EnterConstructedAt(buf, pos, tag), ReadPrimitiveAt(buf, pos, tag), SkipPrimitiveAt(buf, pos);
            && (e.result.Err? ==> e.pos == stuck)
            && (r.result.Err? ==> r.pos == if e.result.Ok? then e.pos else stuck)
            && (s.result.Err? ==>
                  s.pos == if pos < |buf| && BerLength(buf, pos + 1).Ok? then BerLength(buf, pos + 1).value.1 else stuck)
  {
  }

  /** With written items ahead, reading or skipping the first one leaves exactly the others ahead. */
  lemma NextItem(buf: seq<byte>, pos: nat, items: seq<Item>, post: seq<byte>)
    requires pos <= |buf| && items != [] && |items[0].value| < 0x1_0000_0000
    requires buf[pos..] == ItemsBytes(items) + post
    ensures NextTagIsAt(buf, pos, items[0].tag)
    ensures var r := ReadPrimitiveAt(buf, pos, items[0].tag);
            && r.result == Ok(items[0].value)
            && SkipPrimitiveAt(buf, pos) == Read(Ok(()), r.pos)
            && r.pos <= |buf| && buf[r.pos..] == ItemsBytes(items[1..]) + post
  {
    var tag, value, after := items[0].tag, items[0].value, ItemsBytes(items[1..]) + post;
    WrittenTlv(buf[..pos], tag, value, after);
    ItemsBytesCons(items);
    assert buf == buf[..pos] + buf[pos..];
    Associative(TlvBytes(tag, value), ItemsBytes(items[1..]), post);
    Associative(buf[..pos], TlvBytes(tag, value), after);
    CursorOnTlv(buf, pos, tag, value, after);
  }

  /** The cursor after skipping k TLVs from pos, if all the skips succeed. */
  function SkipMany(buf: seq<byte>, pos: nat, k: nat): Option<nat>
    decreases k
  {
    if k == 0 then Some(pos)
    else
      var s := SkipPrimitiveAt(buf, pos);
      if s.result.Ok? then SkipMany(buf, s.pos, k - 1) else None
  }

  /** Skipping k of the written items lands exactly where item k begins, or at the end. */
  lemma {:induction false} SkipsLandOnBoundaries(buf: seq<byte>, pos: nat, items: seq<Item>, post: seq<byte>, k: nat)
    requires ItemsFit(items) && k <= |items|
    requires pos <= |buf| && buf[pos..] == ItemsBytes(items) + post
    ensures var r := SkipMany(buf, pos, k);
            r.Some? && r.value <= |buf| && buf[r.value..] == ItemsBytes(items[k..]) + post
    decreases k
  {
    if k == 0 {
      assert items[0..] == items;
    } else {
      NextItem(buf, pos, items, post);
      SkipsLandOnBoundaries(buf, SkipPrimitiveAt(buf, pos).pos, items[1..], post, k - 1);
      assert items[1..][k - 1..] == items[k..];
    }
  }

  /** A nested structure: leaves are primitive, inner nodes hold further structures as their value. */
  datatype Tree = Leaf(tag: byte, value: seq<byte>) | Node(tag: byte, children: seq<Tree>)

  function ItemOf(t: Tree): Item
    decreases t
  {
    Item(t.tag, if t.Leaf? then t.value else ItemsBytes(ItemsOf(t.children)))
  }

  function ItemsOf(ts: seq<Tree>): (r: seq<Item>)
    ensures |r| == |ts|
    decreases ts
  {
    if ts == [] then [] else [ItemOf(ts[0])] + ItemsOf(ts[1..])
  }

  /** Every length fits its 32-bit field, and inner nodes are those with a constructed tag. */
  predicate WellFormed(ts: seq<Tree>, constructed: set<byte>)
    decreases ts
  {
    if ts == [] then true
    else
      && WellFormed(ts[1..], constructed)
      && |ItemOf(ts[0]).value| < 0x1_0000_0000
      && (ts[0].tag in constructed <==> ts[0].Node?)
      && (ts[0].Node? ==> WellFormed(ts[0].children, constructed))
  }

  /** Reads a whole buffer with the reader's operations, entering constructed tags through an inner reader. */
  function ReadForest(buf: seq<byte>, constructed: set<byte>): Result<seq<Tree>, TlvError>
    decreases |buf|
  {
    if buf == [] then Ok([])
    else
      match ReadPrimitiveAt(buf, 0, buf[0])
      case Read(Err(e), _) => Err(e)
      case Read(Ok(value), next) =>
        match ReadForest(buf[next..], constructed)
        case Err(e) => Err(e)
        case Ok(rest) =>
          if buf[0] !in constructed then Ok([Leaf(buf[0], value)] + rest)
          else
            match ReadForest(value, constructed)
            case Err(e) => Err(e)
            case Ok(children) => Ok([Node(buf[0], children)] + rest)
  }

  lemma ReadForestStep(buf: seq<byte>, t: Tree, value: seq<byte>, next: nat, rest: seq<Tree>, constructed: set<byte>)
    requires buf != [] && buf[0] == t.tag
    requires ReadPrimitiveAt(buf, 0, t.tag) == Read(Ok(value), next)
    requires ReadForest(buf[next..], constructed) == Ok(rest)
    requires t.tag in constructed <==> t.Node?
    requires if t.Leaf? then t.value == value else ReadForest(value, constructed) == Ok(t.children)
    ensures ReadForest(buf, constructed) == Ok([t] + rest)
  {
  }

  /** The first TLV of a written forest is read whole, and the rest is the rest of the forest. */
  lemma FirstTree(ts: seq<Tree>, constructed: set<byte>)
    requires ts != [] && WellFormed(ts, constructed)
    ensures var buf := ItemsBytes(ItemsOf(ts));
            && buf != [] && buf[0] == ts[0].tag
            && var r := ReadPrimitiveAt(buf, 0, ts[0].tag);
            && r.result == Ok(ItemOf(ts[0]).value) && r.pos <= |buf| && buf[r.pos..] == ItemsBytes(ItemsOf(ts[1..]))
  {
    var items := ItemsOf(ts);
    var buf := ItemsBytes(items);
    assert buf[0..] == buf + [];
    NextItem(buf, 0, items, []);
    assert items[1..] == ItemsOf(ts[1..]);
    assert ItemsBytes(items[1..]) + [] == ItemsBytes(items[1..]);
  }

  /** Whatever forest was written is the forest that is read, to the last byte. */
  lemma {:induction false} ForestRoundTrip(ts: seq<Tree>, constructed: set<byte>)
    requires WellFormed(ts, constructed)
    ensures ReadForest(ItemsBytes(ItemsOf(ts)), constructed) == Ok(ts)
    decreases ts
  {
    if ts == [] {
      assert ItemsBytes(ItemsOf(ts)) == [];
    } else {
      var buf := ItemsBytes(ItemsOf(ts));
      FirstTree(ts, constructed);
      var next := ReadPrimitiveAt(buf, 0, ts[0].tag).pos;
      assert [ts[0]] + ts[1..] == ts;
      ForestRoundTrip(ts[1..], constructed);
      if ts[0].Node? {
        ForestRoundTrip(ts[0].children, constructed);
      }
      ReadForestStep(buf, ts[0], ItemOf(ts[0]).value, next, ts[1..], constructed);
    }
  }
}
