/** The split-based path parser, the two printers, and how the two parsers and the printers agree. */
module KeyPaths {
  import opened Bytes
  import opened PathText
  import opened PathDecoder

  const MAX_COMPONENTS: nat := 10

  datatype KeyPath = KeyPath(source: byte, data: seq<byte>)

  function SourceByte(start: StartingPoint): byte {
    match start
    case Master => 0x00
    case Parent => 0x40
    case Current => 0x80
  }

  // ---------------------------------------------------------------- trimming

  /** unicode.IsSpace. */
  predicate IsSpace(c: char) {
    || '\U{0009}' <= c <= '\U{000D}'
    || c in ['\U{0020}', '\U{0085}', '\U{00A0}', '\U{1680}', '\U{2028}', '\U{2029}', '\U{202F}', '\U{205F}', '\U{3000}']
    || '\U{2000}' <= c <= '\U{200A}'
  }

  /** strings.TrimSpace. */
  function TrimSpace(s: string): (r: string)
    ensures r == s <==> s == "" || (!IsSpace(s[0]) && !IsSpace(s[|s| - 1]))
    ensures |r| <= |s|
  {
    if s == "" then s
    else if IsSpace(s[0]) then TrimSpace(s[1..])
    else if IsSpace(s[|s| - 1]) then TrimSpace(s[..|s| - 1])
    else s
  }

  predicate AllSpaces(s: string) {
    forall i :: 0 <= i < |s| ==> IsSpace(s[i])
  }

  lemma {:induction false} TrimsLeft(a: string, t: string)
    requires AllSpaces(a)
    ensures TrimSpace(a + t) == TrimSpace(t)
  {
    if a == "" {
      assert a + t == t;
    } else {
      assert (a + t)[0] == a[0] && (a + t)[1..] == a[1..] + t;
      TrimsLeft(a[1..], t);
    }
  }

  lemma {:induction false} TrimsRight(s: string, b: string)
    requires AllSpaces(b) && s != "" && TrimSpace(s) == s
    ensures TrimSpace(s + b) == s
  {
    if b == "" {
      assert s + b == s;
    } else {
      var init := b[..|b| - 1];
      assert (s + b)[..|s + b| - 1] == s + init && (s + b)[0] == s[0] && (s + b)[|s + b| - 1] == b[|b| - 1];
      TrimsRight(s, init);
    }
  }

  /** Whatever spaces stand around a text without any at its ends, the text is what is left. */
  lemma TrimsAround(a: string, s: string, b: string)
    requires AllSpaces(a) && AllSpaces(b) && s != "" && TrimSpace(s) == s
    ensures TrimSpace(a + s + b) == s
  {
    TrimsLeft(a, s + b);
    TrimsRight(s, b);
    Associative(a, s, b);
  }

  /** No space at either end of the first part. */
  predicate Trimmed(s: string) {
    TrimSpace(Split(s)[0]) == Split(s)[0]
  }

  // ---------------------------------------------------------------- words as bytes

  /** Each component as four bytes. */
  function DataOf(ws: seq<uint32>): (r: seq<byte>)
    ensures |r| == 4 * |ws|
  {
    if ws == [] then [] else ToBytes(ws[0], 4) + DataOf(ws[1..])
  }

  /** The whole four-byte words of data; a shorter rest is ignored. */
  function WordsIn(data: seq<byte>): (r: seq<uint32>)
    ensures |r| == |data| / 4
  {
    if |data| < 4 then [] else [WordAt(data)] + WordsIn(data[4..])
  }

  function WordAt(data: seq<byte>): uint32
    requires |data| >= 4
  {
    FourBytes();
    BigEndianBound(data[..4]);
    BigEndian(data[..4])
  }

  lemma FourBytes()
    ensures Pow256(4) == 0x1_0000_0000
  {
    assert Pow256(2) == 0x1_0000;
    assert Pow256(4) == 0x1_0000 * Pow256(2);
  }

  lemma {:induction false} WordsInDataOf(ws: seq<uint32>)
    ensures WordsIn(DataOf(ws)) == ws
  {
    if ws != [] {
      FourBytes();
      BigEndianToBytes(ws[0], 4);
      assert DataOf(ws)[..4] == ToBytes(ws[0], 4) && DataOf(ws)[4..] == DataOf(ws[1..]);
      WordsInDataOf(ws[1..]);
    }
  }

  lemma {:induction false} DataOfWordsIn(data: seq<byte>)
    ensures DataOf(WordsIn(data)) == data[..|data| / 4 * 4]
  {
    if |data| >= 4 {
      DataOfWordsIn(data[4..]);
      ToBytesBigEndian(data[..4]);
      assert data[..|data| / 4 * 4] == data[..4] + data[4..][..|data[4..]| / 4 * 4];
    }
  }

  lemma {:induction false} DataOfSnoc(ws: seq<uint32>, w: uint32)
    ensures DataOf(ws + [w]) == DataOf(ws) + ToBytes(w, 4)
  {
    if ws == [] {
      assert ws + [w] == [w] && [w][1..] == [];
    } else {
      DataOfSnoc(ws[1..], w);
      assert (ws + [w])[1..] == ws[1..] + [w];
      Associative(ToBytes(ws[0], 4), DataOf(ws[1..]), ToBytes(w, 4));
    }
  }

  // ---------------------------------------------------------------- the parser

  /** Every part as a component, or nothing. */
  function AllComponents(cs: seq<string>): (r: Option<seq<uint32>>)
    ensures r.Some? ==> |r.value| == |cs|
  {
    if cs == [] then Some([])
    else
      match AllComponents(cs[..|cs| - 1])
      case None => None
      case Some(ws) => match Component(cs[|cs| - 1]) case None => None case Some(v) => Some(ws + [v])
  }

  /** Part by part, in order. */
  lemma {:induction false} AllComponentsIff(cs: seq<string>, ws: seq<uint32>)
    ensures AllComponents(cs) == Some(ws)
       <==> |ws| == |cs| && forall i :: 0 <= i < |cs| ==> Component(cs[i]) == Some(ws[i])
    decreases |cs|
  {
    if cs != [] && |ws| == |cs| {
      var n := |cs| - 1;
      AllComponentsIff(cs[..n], ws[..n]);
      assert ws == ws[..n] + [ws[n]];
      if AllComponents(cs).Some? {
        var init := AllComponents(cs[..n]).value;
        assert AllComponents(cs).value[..n] == init;
      }
    }
  }

  /** The source, and the parts that must be components. */
  function Operands(parts: seq<string>): (r: (StartingPoint, seq<string>))
    requires parts != []
  {
    match SourceOf(parts[0])
    case None => (Current, parts)
    case Some(start) => (start, parts[1..])
  }

  function AsKeyPath(p: Path): KeyPath {
    KeyPath(SourceByte(p.start), DataOf(p.components))
  }

  /** At most ten parts, each a component. */
  function FromOperands(start: StartingPoint, cs: seq<string>): (r: Option<KeyPath>)
    ensures r.Some? ==> |r.value.data| == 4 * |cs| <= 4 * MAX_COMPONENTS && r.value.source == SourceByte(start)
  {
    if |cs| > MAX_COMPONENTS then None
    else match AllComponents(cs) case None => None case Some(ws) => Some(AsKeyPath(Path(start, ws)))
  }

  /** What KeyPathFromString answers. */
  function Parsed(s: string): Option<KeyPath> {
    var parts := Split(s);
    var first := TrimSpace(parts[0]);
    if first == "" then None
    else
      var (start, cs) := Operands([first] + parts[1..]);
      FromOperands(start, cs)
  }

  lemma OneMoreComponent(cs: seq<string>, i: nat, ws: seq<uint32>)
    requires i < |cs| && AllComponents(cs[..i]) == Some(ws)
    ensures match Component(cs[i])
            case None => AllComponents(cs) == None
            case Some(v) =>
              && AllComponents(cs[..i + 1]) == Some(ws + [v])
              && DataOf(ws + [v]) == DataOf(ws) + [v / 0x100_0000, v / 0x1_0000 % 256, v / 0x100 % 256, v % 256]
  {
    assert cs[..i + 1][..i] == cs[..i];
    match Component(cs[i]) {
      case None => NoComponents(cs, i);
      case Some(v) =>
        BytesOfWord(v);
        DataOfSnoc(ws, v);
    }
  }

  /**
   Exactly the paths that are read: behind an optional source, at most ten components, four bytes each; a first part
   that is no source is a component itself.
   */
  lemma ParsedIff(s: string, kp: KeyPath)
    ensures var parts := Split(s);
            var first := TrimSpace(parts[0]);
            var source := if first == "m" then 0x00 else if first == ".." then 0x40 else 0x80;
            var cs := if first in ["m", "..", "."] then parts[1..] else [first] + parts[1..];
            Parsed(s) == Some(kp) <==>
              && first != "" && kp.source == source && |cs| <= 10
              && exists ws :: AllComponents(cs) == Some(ws) && kp.data == DataOf(ws)
  {
    var parts := Split(s);
    var all := [TrimSpace(parts[0])] + parts[1..];
    assert all[1..] == parts[1..];
  }

  method KeyPathFromString(path: string) returns (kp: Option<KeyPath>)
    ensures kp == Parsed(path)
  {
    var components := Split(path);
    var first := TrimSpace(components[0]);
    if first == "" {
      return None;
    }
    ghost var parts := [first] + components[1..];
    components := components[1..];
    var source: byte;
    if first == "m" {
      source := 0x00;
    } else if first == ".." {
      source := 0x40;
    } else if first == "." {
      source := 0x80;
    } else {
      components := [first] + components;
      source := 0x80;
    }
    assert source == SourceByte(Operands(parts).0) && components == Operands(parts).1;
    if |components| > MAX_COMPONENTS {
      return None;
    }
    var data: seq<byte> := [];
    ghost var ws: seq<uint32> := [];
    for i := 0 to |components|
      invariant AllComponents(components[..i]) == Some(ws) && data == DataOf(ws)
    {
      var num := Component(components[i]);
      OneMoreComponent(components, i, ws);
      if num == None {
        return None;
      }
      data := data + [num.value / 0x100_0000, num.value / 0x1_0000 % 256, num.value / 0x100 % 256, num.value % 256];
      ws := ws + [num.value];
    }
    assert components[..|components|] == components;
    return Some(KeyPath(source, data));
  }

  lemma BytesOfWord(w: uint32)
    ensures ToBytes(w, 4) == [w / 0x100_0000, w / 0x1_0000 % 256, w / 0x100 % 256, w % 256]
  {
    assert w / 256 / 256 == w / 0x1_0000 && w / 256 / 256 / 256 == w / 0x100_0000;
    assert ToBytes(w, 4) == ToBytes(w / 256, 3) + [w % 256];
    assert ToBytes(w / 256, 3) == ToBytes(w / 256 / 256, 2) + [w / 256 % 256];
    assert ToBytes(w / 256 / 256, 2) == ToBytes(w / 256 / 256 / 256, 1) + [w / 256 / 256 % 256];
  }

  lemma {:induction false} NoComponents(cs: seq<string>, k: nat)
    requires k < |cs| && Component(cs[k]) == None
    ensures AllComponents(cs) == None
    decreases |cs|
  {
    if k < |cs| - 1 {
      NoComponents(cs[..|cs| - 1], k);
    }
  }

  // ---------------------------------------------------------------- the printers

  function Texts(ws: seq<uint32>): (r: seq<string>)
    ensures |r| == |ws|
  {
    if ws == [] then [] else Texts(ws[..|ws| - 1]) + [ComponentText(ws[|ws| - 1])]
  }

  lemma TextsPrefix(ws: seq<uint32>, k: nat)
    requires k < |ws|
    ensures Texts(ws[..k + 1]) == Texts(ws[..k]) + [ComponentText(ws[k])]
  {
    assert ws[..k + 1][..k] == ws[..k];
  }

  function Encoded(ws: seq<uint32>): string {
    Join(["m"] + Texts(ws))
  }

  /** derivationpath.Encode. */
  method Encode(rawPath: seq<uint32>) returns (s: string)
    ensures s == Encoded(rawPath)
  {
    var segments: seq<string> := ["m"];
    for k := 0 to |rawPath|
      invariant segments == ["m"] + Texts(rawPath[..k])
    {
      TextsPrefix(rawPath, k);
      var i := rawPath[k];
      var suffix := "";
      if i >= HARDENED {
        i := i - HARDENED;
        suffix := "'";
      }
      assert Decimal(i) + "" == Decimal(i);
      segments := segments + [Decimal(i) + suffix];
    }
    assert rawPath[..|rawPath|] == rawPath;
    return Join(segments);
  }

  method EncodeFromBytes(data: seq<byte>) returns (s: string)
    ensures s == Encoded(WordsIn(data))
  {
    var rawPath: seq<uint32> := [];
    for k := 0 to |data| / 4
      invariant rawPath == WordsIn(data)[..k]
    {
      WordsInAt(data, k);
      rawPath := rawPath + [WordAt(data[4 * k..])];
    }
    assert WordsIn(data)[..|data| / 4] == WordsIn(data);
    s := Encode(rawPath);
  }

  lemma {:induction false} WordsInAt(data: seq<byte>, k: nat)
    requires k < |data| / 4
    ensures WordsIn(data)[k] == WordAt(data[4 * k..])
  {
    if k > 0 {
      WordsInAt(data[4..], k - 1);
      assert data[4..][4 * (k - 1)..] == data[4 * k..];
    } else {
      assert data[0..] == data;
    }
  }

  function SourceText(source: byte): string {
    if source == 0x00 then "m" else if source == 0x40 then ".." else "."
  }

  function Printed(kp: KeyPath): string {
    Join([SourceText(kp.source)] + Texts(WordsIn(kp.data)))
  }

  /** The number in a chunk without its top bit, assembled byte by byte. */
  function ChunkNumber(chunk: seq<byte>): nat
    requires |chunk| == 4
  {
    (chunk[0] as int % 0x80) * 0x100_0000 + chunk[1] as int * 0x1_0000 + chunk[2] as int * 0x100 + chunk[3]
  }

  lemma ChunkValue(chunk: seq<byte>)
    requires |chunk| == 4
    ensures BigEndian(chunk) == ((chunk[0] as int * 256 + chunk[1]) * 256 + chunk[2]) * 256 + chunk[3]
  {
    assert chunk[..3][..2] == chunk[..2] && chunk[..2][..1] == chunk[..1] && chunk[..1][..0] == [];
    assert BigEndian(chunk[..1]) == chunk[0];
    assert BigEndian(chunk[..2]) == BigEndian(chunk[..1]) * 256 + chunk[1];
    assert BigEndian(chunk[..3]) == BigEndian(chunk[..2]) * 256 + chunk[2];
  }

  lemma ChunkBits(chunk: seq<byte>)
    requires |chunk| == 4
    ensures ChunkNumber(chunk) < HARDENED
    ensures BigEndian(chunk) == if chunk[0] >= 0x80 then ChunkNumber(chunk) + HARDENED else ChunkNumber(chunk)
  {
    ChunkValue(chunk);
  }

  function ChunkTextOf(chunk: seq<byte>): string
    requires |chunk| == 4
  {
    if chunk[0] >= 0x80 then Decimal(ChunkNumber(chunk)) + "'" else Decimal(ChunkNumber(chunk))
  }

  lemma ChunkText(chunk: seq<byte>)
    requires |chunk| == 4
    ensures ChunkTextOf(chunk) == ComponentText(WordAt(chunk))
  {
    assert chunk[..4] == chunk;
    ChunkBits(chunk);
  }

  lemma PrintStep(source: string, data: seq<byte>, k: nat, chunk: seq<byte>)
    requires 4 * k + 4 <= |data| && chunk == data[4 * k..4 * k + 4]
    ensures k < |WordsIn(data)|
    ensures Join([source] + Texts(WordsIn(data)[..k + 1])) == Join([source] + Texts(WordsIn(data)[..k])) + "/" + ChunkTextOf(chunk)
  {
    var ws := WordsIn(data);
    WordsInAt(data, k);
    assert WordAt(data[4 * k..]) == WordAt(chunk) by {
      assert data[4 * k..][..4] == chunk == chunk[..4];
    }
    ChunkText(chunk);
    TextsPrefix(ws, k);
    JoinSnoc([source] + Texts(ws[..k]), ComponentText(ws[k]));
    Associative([source], Texts(ws[..k]), [ComponentText(ws[k])]);
  }

  method WriteChunk(sb: string, chunk: seq<byte>) returns (s: string)
    requires |chunk| == 4
    ensures s == sb + "/" + ChunkTextOf(chunk)
  {
    var hardened := chunk[0] >= 0x80;
    var num := ChunkNumber(chunk);
    s := sb + "/";
    s := s + Decimal(num);
    if hardened {
      s := s + "'";
      Associative(sb + "/", Decimal(num), "'");
    }
  }

  /** KeyPath.String. */
  method KeyPathString(kp: KeyPath) returns (s: string)
    ensures s == Printed(kp)
  {
    match kp.source {
      case 0x00 => s := "m";
      case 0x40 => s := "..";
      case _ => s := ".";
    }
    ghost var source, ws := s, WordsIn(kp.data);
    assert source == SourceText(kp.source) && ws[..0] == [] && [source] + [] == [source];
    ghost var k := 0;
    var i := 0;
    while i + 4 <= |kp.data|
      invariant i == 4 * k && k <= |ws|
      invariant s == Join([source] + Texts(ws[..k]))
    {
      var chunk := kp.data[i..i + 4];
      PrintStep(source, kp.data, k, chunk);
      s := WriteChunk(s, chunk);
      i, k := i + 4, k + 1;
    }
    assert k == |ws| && ws[..k] == ws;
  }

  // ---------------------------------------------------------------- reading what was printed

  lemma {:induction false} TextsHaveNoSlash(ws: seq<uint32>)
    ensures NoSlashes(Texts(ws))
  {
    if ws != [] {
      TextsHaveNoSlash(ws[..|ws| - 1]);
      ComponentRoundTrip(ws[|ws| - 1]);
    }
  }

  lemma AllComponentsSnoc(cs: seq<string>, c: string)
    ensures AllComponents(cs + [c])
         == match AllComponents(cs)
            case None => None
            case Some(ws) => match Component(c) case None => None case Some(v) => Some(ws + [v])
  {
    assert (cs + [c])[..|cs|] == cs;
  }

  lemma {:induction false} AllTexts(ws: seq<uint32>)
    ensures AllComponents(Texts(ws)) == Some(ws)
  {
    if ws != [] {
      var n := |ws| - 1;
      AllTexts(ws[..n]);
      ComponentRoundTrip(ws[n]);
      AllComponentsSnoc(Texts(ws[..n]), ComponentText(ws[n]));
      assert ws == ws[..n] + [ws[n]];
    }
  }

  lemma SplitPrinted(source: string, ws: seq<uint32>)
    requires !HasSlash(source)
    ensures Split(Join([source] + Texts(ws))) == [source] + Texts(ws)
  {
    TextsHaveNoSlash(ws);
    SplitJoin([source] + Texts(ws));
  }

  /** The components that Decode keeps: all but a hardened last one. */
  function Kept(cs: seq<string>): seq<string> {
    if cs != [] && HardenedDigits(cs[|cs| - 1]) then cs[..|cs| - 1] else cs
  }

  function After(path: seq<uint32>, rest: Option<seq<uint32>>): Option<seq<uint32>> {
    match rest
    case None => None
    case Some(ws) => Some(path + ws)
  }

  lemma AllComponentsOne(c: string)
    ensures AllComponents([c]) == match Component(c) case None => None case Some(v) => Some([v])
    ensures Component(c).Some? ==> [Component(c).value] + [] == [Component(c).value]
  {
    assert [c][..0] == [] && AllComponents([]) == Some([]);
    if Component(c).Some? {
      assert [] + [Component(c).value] == [Component(c).value];
    }
  }

  lemma {:induction false} AllComponentsCons(c: string, cs: seq<string>)
    ensures AllComponents([c] + cs)
         == match Component(c)
            case None => None
            case Some(v) => After([v], AllComponents(cs))
    decreases |cs|
  {
    if cs == [] {
      AllComponentsOne(c);
      assert [c] + cs == [c];
    } else {
      var n := |cs| - 1;
      AllComponentsCons(c, cs[..n]);
      AllComponentsSnoc([c] + cs[..n], cs[n]);
      assert [c] + cs == [c] + cs[..n] + [cs[n]];
      if Component(c).Some? && AllComponents(cs).Some? {
        Associative([Component(c).value], AllComponents(cs[..n]).value, [Component(cs[n]).value]);
      }
    }
  }

  /** The state machine's components are the kept ones, each read on its own. */
  lemma {:induction false} ComponentsAreKept(path: seq<uint32>, cs: seq<string>)
    requires cs != []
    ensures Components(path, cs) == After(path, AllComponents(Kept(cs)))
    decreases |cs|
  {
    var c, rest := cs[0], cs[1..];
    assert cs == [c] + rest;
    if rest == [] {
      AllComponentsOne(c);
      assert path + [] == path && cs == [c] && cs[..0] == [];
    } else {
      assert Kept(cs) == [c] + Kept(rest);
      AllComponentsCons(c, Kept(rest));
      if Component(c).Some? {
        var v := Component(c).value;
        ComponentsAreKept(path + [v], rest);
        if AllComponents(Kept(rest)).Some? {
          Associative(path, [v], AllComponents(Kept(rest)).value);
        }
      }
    }
  }

  /** Decode, in the terms of the other parser. */
  lemma DecodedIsKept(s: string)
    ensures s != "" ==>
              var (start, cs) := Operands(Split(s));
              Decoded(s) == Located(start, AllComponents(Kept(cs)))
  {
    if s != "" {
      var (start, cs) := Operands(Split(s));
      if cs != [] {
        ComponentsAreKept([], cs);
        assert AllComponents(Kept(cs)).Some? ==> [] + AllComponents(Kept(cs)).value == AllComponents(Kept(cs)).value;
      }
    }
  }

  /** What is left of a path after Decode has read its printed form. */
  function Surviving(ws: seq<uint32>): seq<uint32> {
    if ws != [] && ws[|ws| - 1] >= HARDENED then ws[..|ws| - 1] else ws
  }

  lemma KeptTexts(ws: seq<uint32>)
    ensures Kept(Texts(ws)) == Texts(Surviving(ws))
  {
    if ws != [] {
      var n := |ws| - 1;
      var text := ComponentText(ws[n]);
      if ws[n] >= HARDENED {
        assert text[..|text| - 1] == Decimal(ws[n] - HARDENED);
        assert Texts(ws)[..n] == Texts(ws[..n]);
      } else {
        assert IsDigit(text[|text| - 1]);
      }
    }
  }

  /** Decode reads back every printed path, but drops its last component when that one is hardened. */
  lemma DecodeEncode(ws: seq<uint32>)
    ensures Decoded(Encoded(ws)) == Some(Path(Master, Surviving(ws)))
  {
    SplitPrinted("m", ws);
    DecodedIsKept(Encoded(ws));
    assert (["m"] + Texts(ws))[1..] == Texts(ws);
    KeptTexts(ws);
    AllTexts(Surviving(ws));
  }

  /** So it undoes Encode exactly on paths that are empty or end unhardened. */
  lemma DecodeEncodeIff(ws: seq<uint32>)
    ensures Decoded(Encoded(ws)) == Some(Path(Master, ws)) <==> ws == [] || ws[|ws| - 1] < HARDENED
  {
    DecodeEncode(ws);
  }

  lemma PrintedOperands(kp: KeyPath)
    ensures var source, texts := SourceText(kp.source), Texts(WordsIn(kp.data));
            && Split(Printed(kp)) == [source] + texts
            && TrimSpace(source) == source != ""
            && Operands([source] + texts).1 == texts
            && SourceByte(Operands([source] + texts).0) == if kp.source in [0x00, 0x40] then kp.source else 0x80
  {
    var source, texts := SourceText(kp.source), Texts(WordsIn(kp.data));
    SplitPrinted(source, WordsIn(kp.data));
    assert ([source] + texts)[1..] == texts;
  }

  lemma ParsedPrinted(kp: KeyPath)
    ensures Parsed(Printed(kp))
         == if |kp.data| / 4 > MAX_COMPONENTS then None
            else Some(KeyPath(if kp.source in [0x00, 0x40] then kp.source else 0x80, kp.data[..|kp.data| / 4 * 4]))
  {
    PrintedOperands(kp);
    var source, texts := SourceText(kp.source), Texts(WordsIn(kp.data));
    assert [source] + ([source] + texts)[1..] == [source] + texts;
    AllTexts(WordsIn(kp.data));
    DataOfWordsIn(kp.data);
  }

  /** Printing and parsing give a key path back exactly when it has whole words, at most ten, and a known source. */
  lemma KeyPathRoundTripIff(kp: KeyPath)
    ensures Parsed(Printed(kp)) == Some(kp)
       <==> |kp.data| % 4 == 0 && |kp.data| <= 4 * MAX_COMPONENTS && kp.source in [0x00, 0x40, 0x80]
  {
    ParsedPrinted(kp);
    var n := |kp.data|;
    assert n / 4 * 4 == n <==> n % 4 == 0;
    assert n / 4 <= MAX_COMPONENTS && n % 4 == 0 <==> n <= 4 * MAX_COMPONENTS && n % 4 == 0;
    assert kp.data[..n] == kp.data;
  }

  lemma ParsedShape(s: string)
    requires Parsed(s).Some?
    ensures var kp := Parsed(s).value;
            |kp.data| % 4 == 0 && |kp.data| <= 4 * MAX_COMPONENTS && kp.source in [0x00, 0x40, 0x80]
  {
  }

  /** Whatever the parser accepts, it accepts again after printing, unchanged. */
  lemma ParsedIsStable(s: string)
    requires Parsed(s).Some?
    ensures Parsed(Printed(Parsed(s).value)) == Parsed(s)
  {
    ParsedShape(s);
    KeyPathRoundTripIff(Parsed(s).value);
  }

  /** The three sources, as both parsers read them and the printer writes them. */
  lemma SourceNames()
    ensures Parsed("m") == Some(KeyPath(0x00, [])) && Decoded("m") == Some(Path(Master, [])) && SourceText(0x00) == "m"
    ensures Parsed("..") == Some(KeyPath(0x40, [])) && Decoded("..") == Some(Path(Parent, [])) && SourceText(0x40) == ".."
    ensures Parsed(".") == Some(KeyPath(0x80, [])) && Decoded(".") == Some(Path(Current, [])) && SourceText(0x80) == "."
  {
    SplitWhole("m");
    SplitWhole("..");
    SplitWhole(".");
  }

  /** Spaces around the first part make no difference to the split-based parser. */
  lemma SpacesIgnored(a: string, first: string, b: string, rest: seq<string>)
    requires AllSpaces(a) && AllSpaces(b) && first != "" && TrimSpace(first) == first
    requires NoSlashes([a + first + b] + rest) && !HasSlash(first)
    ensures Parsed(Join([a + first + b] + rest)) == Parsed(Join([first] + rest))
  {
    var padded := [a + first + b] + rest;
    assert padded[0] == a + first + b && padded[1..] == rest;
    assert NoSlashes([first] + rest) by {
      assert forall i :: 1 <= i < |rest| + 1 ==> ([first] + rest)[i] == padded[i];
    }
    SplitJoin(padded);
    SplitJoin([first] + rest);
    TrimsAround(a, first, b);
  }

  // ---------------------------------------------------------------- the two parsers

  /** Both refuse, or both accept the same path. */
  predicate SameAnswer(d: Option<Path>, k: Option<KeyPath>) {
    match d
    case None => k == None
    case Some(p) => k == Some(AsKeyPath(p))
  }

  lemma ParsedWhenTrimmed(s: string)
    requires s != "" && Trimmed(s)
    ensures var (start, cs) := Operands(Split(s));
            && Parsed(s) == FromOperands(start, cs)
            && (Split(s)[0] == "" ==> Parsed(s) == None)
  {
    var parts := Split(s);
    assert parts == [parts[0]] + parts[1..];
    if parts[0] == "" {
      NoComponents(parts, 0);
    }
  }

  /** A space at an end of the first part: Decode refuses. */
  lemma DecodeRefusesSpaces(s: string)
    requires !Trimmed(s)
    ensures Decoded(s) == None
  {
    var first := Split(s)[0];
    var k := if IsSpace(first[0]) then 0 else |first| - 1;
    assert IsSpace(first[k]);
    SpoiledBy([], Split(s), k);
  }

  /** The string ends in a quote exactly when its last part does. */
  lemma LastPartQuoted(s: string)
    ensures EndsInQuote(s) <==> EndsInQuote(Split(s)[|Split(s)| - 1])
  {
    SplitLast(s);
  }

  lemma KeptIff(s: string)
    requires s != "" && AllComponents(Kept(Operands(Split(s)).1)).Some?
    ensures var cs := Operands(Split(s)).1;
            EndsInQuote(s) <==> Kept(cs) != cs
  {
    LastPartQuoted(s);
    LastOperand(Split(s));
    var cs := Operands(Split(s)).1;
    if cs != [] && Kept(cs) == cs {
      LastComponent(cs);
    }
  }

  /** The last part is the last operand, or a lone source. */
  lemma LastOperand(parts: seq<string>)
    requires parts != []
    ensures var cs := Operands(parts).1;
            if cs == [] then !EndsInQuote(parts[|parts| - 1]) else cs[|cs| - 1] == parts[|parts| - 1]
  {
    if Operands(parts).1 == [] {
      assert |parts| == 1 && SourceOf(parts[0]).Some?;
    }
  }

  lemma LastComponent(cs: seq<string>)
    requires cs != [] && AllComponents(cs).Some?
    ensures EndsInQuote(cs[|cs| - 1]) ==> HardenedDigits(cs[|cs| - 1])
  {
    if EndsInQuote(cs[|cs| - 1]) {
      QuotedComponents(cs[|cs| - 1]);
    }
  }

  /** The answers differ by the dropped component and by the bound. */
  lemma AgreeOn(start: StartingPoint, cs: seq<string>)
    requires Kept(cs) != cs ==> |Kept(cs)| == |cs| - 1
    requires AllComponents(Kept(cs)) == None ==> AllComponents(cs) == None
    ensures var d, k := Located(start, AllComponents(Kept(cs))), FromOperands(start, cs);
            SameAnswer(d, k) <==> (d.Some? ==> Kept(cs) == cs && |d.value.components| <= MAX_COMPONENTS)
  {
    var kept := AllComponents(Kept(cs));
    assert kept.Some? ==> |DataOf(kept.value)| == 4 * |Kept(cs)|;
  }

  lemma KeptComponents(cs: seq<string>)
    ensures AllComponents(Kept(cs)) == None ==> AllComponents(cs) == None
    ensures Kept(cs) != cs <==> |Kept(cs)| == |cs| - 1
  {
  }

  /** Where the two parsers can differ, in terms of their answers. */
  lemma AgreementCases(s: string)
    ensures SameAnswer(Decoded(s), Parsed(s))
       <==> && (Decoded(s).Some? ==> s != "" && !EndsInQuote(s) && |Decoded(s).value.components| <= MAX_COMPONENTS)
            && (Parsed(s).Some? ==> Trimmed(s))
  {
    if s == "" {
      assert Parsed(s) == None;
    } else if !Trimmed(s) {
      DecodeRefusesSpaces(s);
    } else {
      var (start, cs) := Operands(Split(s));
      DecodedIsKept(s);
      ParsedWhenTrimmed(s);
      if AllComponents(Kept(cs)).Some? {
        KeptIff(s);
      }
      KeptComponents(cs);
      AgreeOn(start, cs);
    }
  }

  /** A string that a caller can see to be read alike. */
  predicate ReadAlike(s: string) {
    s != "" && !EndsInQuote(s) && Trimmed(s) && |Operands(Split(s)).1| <= MAX_COMPONENTS
  }

  /** The parsers agree on every such string. */
  lemma ParsersAgree(s: string)
    requires ReadAlike(s)
    ensures SameAnswer(Decoded(s), Parsed(s))
  {
    AgreementCases(s);
    DecodedIsKept(s);
  }

  /**
   And of the strings that either of them accepts, on no other: not on the empty string, nor with a final quote, nor
   with spaces around the first part, nor with more than ten components.
   */
  lemma ParsersAgreeIff(s: string)
    ensures Decoded(s).Some? || Parsed(s).Some? ==> (SameAnswer(Decoded(s), Parsed(s)) <==> ReadAlike(s))
  {
    AgreementCases(s);
    if ReadAlike(s) {
      ParsersAgree(s);
    } else if Decoded(s).Some? && SameAnswer(Decoded(s), Parsed(s)) {
      DecodedIsKept(s);
      KeptIff(s);
    }
  }

  /** Every string ending in a quote that Decode accepts loses that component, which the other parser keeps or refuses. */
  lemma LastHardenedIsDropped(s: string)
    requires EndsInQuote(s) && Decoded(s).Some? && Parsed(s).Some?
    ensures |Parsed(s).value.data| == 4 * |Decoded(s).value.components| + 4
  {
    if !Trimmed(s) {
      DecodeRefusesSpaces(s);
    }
    DecodedIsKept(s);
    ParsedWhenTrimmed(s);
    KeptIff(s);
  }
}
