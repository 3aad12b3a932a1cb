/** The state machine that reads a BIP32 path, and the grammar it accepts. */
module PathDecoder {
  import opened Bytes
  import opened PathText

  datatype StartingPoint = Master | Current | Parent

  datatype Path = Path(start: StartingPoint, components: seq<uint32>)

  // ---------------------------------------------------------------- the grammar

  function SourceOf(first: string): Option<StartingPoint> {
    if first == "m" then Some(Master)
    else if first == ".." then Some(Parent)
    else if first == "." then Some(Current)
    else None
  }

  /** The components in cs after those already read; a hardened one at the very end is dropped, unchecked. */
  function Components(path: seq<uint32>, cs: seq<string>): Option<seq<uint32>>
    requires cs != []
    decreases |cs|
  {
    if |cs| == 1 && HardenedDigits(cs[0]) then Some(path)
    else
      match Component(cs[0])
      case None => None
      case Some(v) => if |cs| == 1 then Some(path + [v]) else Components(path + [v], cs[1..])
  }

  function Located(start: StartingPoint, components: Option<seq<uint32>>): Option<Path> {
    match components
    case None => None
    case Some(ws) => Some(Path(start, ws))
  }

  /** What Decode answers, said in terms of the parts between slashes. */
  function Decoded(s: string): Option<Path> {
    var parts := Split(s);
    if s == "" then Some(Path(Current, []))
    else
      match SourceOf(parts[0])
      case None => Located(Current, Components([], parts))
      case Some(start) => if |parts| == 1 then Some(Path(start, [])) else Located(start, Components([], parts[1..]))
  }

  // ---------------------------------------------------------------- the machine's steps

  datatype ParseFunc = ParseStart | ParseSeparator | ParseSegment

  datatype Step = Continue | Eof | Failed

  /** Inside a component: token is read, rest is not. */
  function InSegment(start: StartingPoint, path: seq<uint32>, token: string, rest: string): Option<Path> {
    Located(start, Components(path, Split(token + rest)))
  }

  /** After the source. */
  function AfterSource(start: StartingPoint, rest: string): Option<Path> {
    if rest == "" then Some(Path(start, []))
    else if rest[0] == SEPARATOR then InSegment(start, [], "", rest[1..])
    else None
  }

  /** After a quote. */
  function AfterQuote(start: StartingPoint, path: seq<uint32>, token: string, rest: string): Option<Path> {
    InSegment(start, path, token + [QUOTE], rest)
  }

  lemma DigitsHaveNoSlash(token: string)
    requires AllDigits(token)
    ensures !HasSlash(token) && !HasSlash(token + [QUOTE])
  {
    forall i | 0 <= i < |token|
      ensures token[i] != SEPARATOR
    {
      assert IsDigit(token[i]);
    }
  }

  /** A first part that is no component and no dropped one spoils everything. */
  lemma SpoiledBy(path: seq<uint32>, cs: seq<string>, k: nat)
    requires cs != [] && k < |cs[0]|
    requires !IsDigit(cs[0][k]) && (cs[0][k] != QUOTE || k == 0 || k < |cs[0]| - 1)
    ensures Components(path, cs) == None
  {
    Malformed(cs[0], k);
  }

  lemma SourceThen(start: StartingPoint, name: string, rest: string)
    requires SourceOf(name) == Some(start) && (name == "." && rest != "" ==> rest[0] != '.')
    ensures Decoded(name + rest) == AfterSource(start, rest)
  {
    assert !HasSlash(name);
    if rest == "" {
      SplitWhole(name);
      assert name + rest == name;
    } else if rest[0] == SEPARATOR {
      assert [SEPARATOR] + rest[1..] == rest;
      SplitAtSlash(name, rest[1..]);
      assert "" + rest[1..] == rest[1..];
    } else {
      SplitKeeps(name, rest);
      var first := Split(name + rest)[0];
      assert first[0] == name[0];
      assert first[1] == if |name| == 1 then rest[0] else name[1];
      assert SourceOf(first) == None;
      SpoiledBy([], Split(name + rest), 0);
    }
  }

  lemma NoSource(s: string)
    requires s != "" && s[0] != 'm' && s[0] != '.'
    ensures Decoded(s) == InSegment(Current, [], "", s)
  {
    assert "" + s == s;
    if s[0] != SEPARATOR {
      SplitKeeps("", s);
    }
  }

  /** A separator after a component, hardened or not. */
  lemma SeparatorStep(start: StartingPoint, path: seq<uint32>, token: string, rest: string)
    requires !HasSlash(token) && rest != "" && rest[0] == SEPARATOR
    ensures InSegment(start, path, token, rest)
         == match Component(token)
            case None => None
            case Some(v) => InSegment(start, path + [v], "", rest[1..])
  {
    assert [SEPARATOR] + rest[1..] == rest && "" + rest[1..] == rest[1..];
    SplitAtSlash(token, rest[1..]);
    assert ([token] + Split(rest[1..]))[1..] == Split(rest[1..]);
  }

  lemma SegmentEnds(start: StartingPoint, path: seq<uint32>, token: string)
    requires AllDigits(token)
    ensures InSegment(start, path, token, "")
         == match Component(token)
            case None => None
            case Some(v) => Some(Path(start, path + [v]))
  {
    DigitsHaveNoSlash(token);
    SplitWhole(token);
    assert token + "" == token;
    assert token != "" ==> IsDigit(token[|token| - 1]);
  }

  lemma QuoteEnds(start: StartingPoint, path: seq<uint32>, token: string)
    requires AllDigits(token) && token != ""
    ensures AfterQuote(start, path, token, "") == Some(Path(start, path))
  {
    DigitsHaveNoSlash(token);
    var quoted := token + [QUOTE];
    SplitWhole(quoted);
    assert quoted + "" == quoted && quoted[..|quoted| - 1] == token;
  }

  lemma SegmentSpoiled(start: StartingPoint, path: seq<uint32>, token: string, rest: string)
    requires AllDigits(token) && rest != "" && !IsDigit(rest[0])
    requires token != "" ==> rest[0] != SEPARATOR && rest[0] != QUOTE
    ensures InSegment(start, path, token, rest) == None
  {
    DigitsHaveNoSlash(token);
    if rest[0] == SEPARATOR {
      SeparatorStep(start, path, token, rest);
    } else {
      SplitKeeps(token, rest);
      SpoiledBy(path, Split(token + rest), |token|);
    }
  }

  lemma QuoteSpoiled(start: StartingPoint, path: seq<uint32>, token: string, rest: string)
    requires AllDigits(token) && rest != "" && rest[0] != SEPARATOR
    ensures AfterQuote(start, path, token, rest) == None
  {
    DigitsHaveNoSlash(token);
    var quoted := token + [QUOTE];
    SplitKeeps(quoted, rest);
    var first := Split(quoted + rest)[0];
    assert first[|token|] == first[..|quoted|][|token|] == QUOTE;
    SpoiledBy(path, Split(quoted + rest), |token|);
  }

  /** What saveSegment computes from the token and the hardened flag is the component they spell. */
  lemma TokenComponent(token: string, hardened: bool)
    requires AllDigits(token) && token != ""
    ensures Component(if hardened then token + [QUOTE] else token)
         == match ParseUint32(token)
            case None => None
            case Some(v) => if v >= HARDENED then None else Some(if hardened then v + HARDENED else v)
  {
    assert IsDigit(token[|token| - 1]) && IsDigit(token[0]);
    assert (token + [QUOTE])[..|token|] == token;
  }

  // ---------------------------------------------------------------- the machine

  class Decoder {
    const input: string
    var off: nat
    var f: ParseFunc
    var path: seq<uint32>
    var start: StartingPoint
    var currentToken: string
    var currentTokenHardened: bool

    ghost predicate Valid()
      reads this
    {
      && off <= |input|
      && AllDigits(currentToken)
      && (f.ParseStart? ==> off == 0 && start == Current && path == [] && currentToken == "")
      && (currentTokenHardened ==> f.ParseSeparator?)
      && (f.ParseSeparator? ==> (currentTokenHardened <==> currentToken != "") && (currentToken == "" ==> path == []))
    }

    ghost function Rest(): string
      reads this
      requires Valid()
    {
      input[off..]
    }

    /** What the machine will answer from here. */
    ghost function Answer(): Option<Path>
      reads this
      requires Valid()
    {
      match f
      case ParseStart => Decoded(input)
      case ParseSeparator =>
        if currentTokenHardened then AfterQuote(start, path, currentToken, Rest()) else AfterSource(start, Rest())
      case ParseSegment => InSegment(start, path, currentToken, Rest())
    }

    /** Twice the unread bytes, and one more in the start state. */
    ghost function Measure(): nat
      reads this
      requires Valid()
    {
      2 * |Rest()| + if f.ParseStart? then 1 else 0
    }

    constructor (path: string)
      ensures Valid() && input == path && f.ParseStart?
    {
      input := path;
      off := 0;
      f := ParseStart;
      this.path := [];
      start := Current;
      currentToken := "";
      currentTokenHardened := false;
    }

    method ReadByte() returns (b: Option<char>)
      requires off <= |input|
      modifies `off
      ensures b == if old(off) == |input| then None else Some(input[old(off)])
      ensures off == if b.Some? then old(off) + 1 else old(off)
    {
      if off == |input| {
        return None;
      }
      b := Some(input[off]);
      off := off + 1;
    }

    method UnreadByte()
      requires off > 0
      modifies `off
      ensures off == old(off) - 1
    {
      off := off - 1;
    }

    method ParseStartStep() returns (step: Step)
      requires Valid() && f.ParseStart?
      modifies this
      ensures step == Continue ==> Valid() && Answer() == old(Answer()) && Measure() < old(Measure())
      ensures step == Eof ==> old(Answer()) == Some(Path(start, path))
      ensures step == Failed ==> old(Answer()) == None
    {
      var b := ReadByte();
      if b == None {
        return Eof;
      }
      assert input == [b.value] + input[1..];
      if b == Some('m') {
        start, f := Master, ParseSeparator;
        SourceThen(Master, "m", input[1..]);
        return Continue;
      }
      if b == Some('.') {
        var b2 := ReadByte();
        if b2 == None {
          SourceThen(Current, ".", "");
          assert input == "." + "";
          return Eof;
        }
        if b2 == Some('.') {
          f, start := ParseSeparator, Parent;
          SourceThen(Parent, "..", input[2..]);
          assert input == ".." + input[2..];
          return Continue;
        }
        f, start := ParseSeparator, Current;
        SourceThen(Current, ".", input[1..]);
        UnreadByte();
        return Continue;
      }
      f := ParseSegment;
      NoSource(input);
      UnreadByte();
      return Continue;
    }

    /** The number in the current token joins the path; false when it is not below 2^31. */
    method SaveSegment() returns (ok: bool)
      requires AllDigits(currentToken)
      modifies `f, `path, `currentToken, `currentTokenHardened
      ensures ok ==> f.ParseSegment? && currentToken == "" && !currentTokenHardened
      ensures old(currentToken) == "" ==> ok && path == old(path)
      ensures old(currentToken) != "" ==>
                var c := Component(if old(currentTokenHardened) then old(currentToken) + [QUOTE] else old(currentToken));
                ok == c.Some? && path == if ok then old(path) + [c.value] else old(path)
      ensures !ok ==> f == old(f) && currentToken == old(currentToken) && currentTokenHardened == old(currentTokenHardened)
    {
      if |currentToken| > 0 {
        TokenComponent(currentToken, currentTokenHardened);
        var parsed := ParseUint32(currentToken);
        if parsed == None {
          return false;
        }
        var i := parsed.value;
        if i >= HARDENED {
          return false;
        }
        path := path + [if currentTokenHardened then i + HARDENED else i];
      }
      f := ParseSegment;
      currentToken, currentTokenHardened := "", false;
      return true;
    }

    method ParseSeparatorStep() returns (step: Step)
      requires Valid() && f.ParseSeparator?
      modifies this
      ensures step == Continue ==> Valid() && Answer() == old(Answer()) && Measure() < old(Measure())
      ensures step == Eof ==> old(Answer()) == Some(Path(start, path))
      ensures step == Failed ==> old(Answer()) == None
    {
      ghost var rest := Rest();
      ghost var quoted := currentToken + [QUOTE];
      var b := ReadByte();
      if b == None {
        if currentTokenHardened {
          QuoteEnds(start, path, currentToken);
        }
        return Eof;
      }
      assert input[off..] == rest[1..];
      if b == Some(SEPARATOR) {
        if currentTokenHardened {
          DigitsHaveNoSlash(currentToken);
          SeparatorStep(start, path, quoted, rest);
        }
        var ok := SaveSegment();
        return if ok then Continue else Failed;
      }
      if currentTokenHardened {
        QuoteSpoiled(start, path, currentToken, rest);
      }
      return Failed;
    }

    method ParseSegmentStep() returns (step: Step)
      requires Valid() && f.ParseSegment?
      modifies this
      ensures step == Continue ==> Valid() && Answer() == old(Answer()) && Measure() < old(Measure())
      ensures step == Eof ==> old(Answer()) == Some(Path(start, path))
      ensures step == Failed ==> old(Answer()) == None
    {
      ghost var rest := Rest();
      var b := ReadByte();
      if b == None {
        SegmentEnds(start, path, currentToken);
        if |currentToken| == 0 {
          return Failed;
        }
        var ok := SaveSegment();
        return if ok then Eof else Failed;
      }
      assert input[off..] == rest[1..];
      if |currentToken| > 0 && b == Some(SEPARATOR) {
        DigitsHaveNoSlash(currentToken);
        SeparatorStep(start, path, currentToken, rest);
        var ok := SaveSegment();
        return if ok then Continue else Failed;
      }
      assert currentToken + rest == (currentToken + [b.value]) + rest[1..];
      if |currentToken| > 0 && b == Some(QUOTE) {
        currentTokenHardened := true;
        f := ParseSeparator;
        return Continue;
      }
      if !IsDigit(b.value) {
        SegmentSpoiled(start, path, currentToken, rest);
        return Failed;
      }
      currentToken := currentToken + [b.value];
      return Continue;
    }

    /** The loop ends on every input, and its answer is the grammar's. */
    method Parse() returns (path: Option<Path>)
      requires Valid()
      modifies this
      ensures path == old(Answer())
    {
      while true
        invariant Valid() && Answer() == old(Answer())
        decreases Measure()
      {
        var step: Step;
        match f {
          case ParseStart => step := ParseStartStep();
          case ParseSeparator => step := ParseSeparatorStep();
          case ParseSegment => step := ParseSegmentStep();
        }
        if step == Eof {
          return Some(Path(start, this.path));
        }
        if step == Failed {
          return None;
        }
      }
    }
  }

  method Decode(s: string) returns (path: Option<Path>)
    ensures path == Decoded(s)
  {
    var d := new Decoder(s);
    path := d.Parse();
  }
}
