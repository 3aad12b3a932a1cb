/** The text of BIP32 paths: decimal numbers, one path component, and splitting at slashes. */
module PathText {
  import opened Bytes

  /** A component at or above this index is hardened. */
  const HARDENED: nat := 0x8000_0000

  const SEPARATOR: char := '/'
  const QUOTE: char := '\''

  // ---------------------------------------------------------------- decimal numbers

  predicate IsDigit(c: char) {
    '0' <= c <= '9'
  }

  predicate AllDigits(s: string) {
    forall i :: 0 <= i < |s| ==> IsDigit(s[i])
  }

  function DecimalValue(s: string): nat
    requires AllDigits(s)
  {
    if s == "" then 0 else 10 * DecimalValue(s[..|s| - 1]) + (s[|s| - 1] as int - '0' as int)
  }

  /** strconv.ParseUint in base ten for 32 bits: digits only, at least one, and no overflow. */
  function ParseUint32(s: string): Option<uint32> {
    if s == "" || !AllDigits(s) || DecimalValue(s) > 0xFFFF_FFFF then None else Some(DecimalValue(s))
  }

  function Decimal(n: nat): (r: string)
    ensures r != "" && AllDigits(r) && DecimalValue(r) == n
  {
    var last := ['0' + (n % 10) as char];
    if n < 10 then last else Decimal(n / 10) + last
  }

  // ---------------------------------------------------------------- one component

  predicate EndsInQuote(s: string) {
    s != "" && s[|s| - 1] == QUOTE
  }

  /** One component: a number below 2^31, hardened when a quote follows it. */
  function Component(c: string): Option<uint32> {
    var number := if EndsInQuote(c) then c[..|c| - 1] else c;
    if number == "" || number[0] == '+' || number[0] == '-' then None
    else
      match ParseUint32(number)
      case None => None
      case Some(v) => if v > 0x7FFF_FFFF then None else Some(if EndsInQuote(c) then v + HARDENED else v)
  }

  /** Exactly the components: digits of a value below 2^31, and at most one quote, which adds 2^31. */
  lemma ComponentIff(c: string, i: uint32)
    ensures var digits := if EndsInQuote(c) then c[..|c| - 1] else c;
            Component(c) == Some(i) <==>
              && digits != "" && AllDigits(digits) && DecimalValue(digits) < 0x8000_0000
              && i == DecimalValue(digits) + if EndsInQuote(c) then 0x8000_0000 else 0
  {
    var digits := if EndsInQuote(c) then c[..|c| - 1] else c;
    if digits != "" && AllDigits(digits) {
      assert IsDigit(digits[0]);
    }
  }

  function ComponentText(i: uint32): string {
    if i >= HARDENED then Decimal(i - HARDENED) + [QUOTE] else Decimal(i)
  }

  predicate HasSlash(s: string) {
    exists i :: 0 <= i < |s| && s[i] == SEPARATOR
  }

  /** Printing and parsing a component are inverse for every index. */
  lemma ComponentRoundTrip(i: uint32)
    ensures Component(ComponentText(i)) == Some(i) && !HasSlash(ComponentText(i))
  {
    var text := ComponentText(i);
    if i >= HARDENED {
      assert text[..|text| - 1] == Decimal(i - HARDENED);
    } else {
      assert IsDigit(text[|text| - 1]);
    }
  }

  /** Digits and then a quote. */
  predicate HardenedDigits(c: string) {
    EndsInQuote(c) && |c| > 1 && AllDigits(c[..|c| - 1])
  }

  /** A character out of place spoils a component. */
  lemma Malformed(c: string, k: nat)
    requires k < |c| && !IsDigit(c[k]) && (c[k] != QUOTE || k == 0 || k < |c| - 1)
    ensures Component(c) == None && !HardenedDigits(c)
  {
    if EndsInQuote(c) && k < |c| - 1 {
      assert c[..|c| - 1][k] == c[k];
    }
  }

  lemma QuotedComponents(c: string)
    requires EndsInQuote(c) && Component(c).Some?
    ensures HardenedDigits(c)
  {
  }

  // ---------------------------------------------------------------- splitting and joining

  /** strings.Split at slashes. */
  function Split(s: string): (r: seq<string>)
    ensures r != []
  {
    if s == "" then [""]
    else
      var rest := Split(s[1..]);
      if s[0] == SEPARATOR then [""] + rest else [[s[0]] + rest[0]] + rest[1..]
  }

  /** strings.Join with slashes. */
  function Join(parts: seq<string>): string {
    if parts == [] then ""
    else if |parts| == 1 then parts[0]
    else parts[0] + [SEPARATOR] + Join(parts[1..])
  }

  lemma {:induction false} SplitHead(t: string, r: string)
    requires !HasSlash(t)
    ensures Split(t + r) == [t + Split(r)[0]] + Split(r)[1..]
  {
    if t == "" {
      assert t + r == r && t + Split(r)[0] == Split(r)[0];
      assert Split(r) == [Split(r)[0]] + Split(r)[1..];
    } else {
      var tail := t[1..];
      assert !HasSlash(tail) by {
        assert forall i :: 0 <= i < |tail| ==> tail[i] == t[i + 1];
      }
      SplitHead(tail, r);
      assert (t + r)[1..] == tail + r && (t + r)[0] == t[0];
      assert [t[0]] + (tail + Split(r)[0]) == t + Split(r)[0];
    }
  }

  lemma SplitWhole(t: string)
    requires !HasSlash(t)
    ensures Split(t) == [t]
  {
    SplitHead(t, "");
    assert t + "" == t;
  }

  lemma SplitAtSlash(t: string, r: string)
    requires !HasSlash(t)
    ensures Split(t + ([SEPARATOR] + r)) == [t] + Split(r)
  {
    SplitHead(t, [SEPARATOR] + r);
    assert ([SEPARATOR] + r)[1..] == r;
    assert t + "" == t;
  }

  /** A character that is no slash stays in the part it is in. */
  lemma SplitKeeps(t: string, r: string)
    requires !HasSlash(t) && r != "" && r[0] != SEPARATOR
    ensures var first := Split(t + r)[0];
            && |t| < |first| <= |t| + |r|
            && first[..|t|] == t && first[|t|] == r[0]
            && (|first| == |t| + 1 ==> |r| == 1 || r[1] == SEPARATOR)
  {
    SplitHead(t, r);
    SplitFirst(r[1..]);
  }

  lemma {:induction false} SplitFirst(r: string)
    ensures |Split(r)[0]| <= |r| && (Split(r)[0] == "" <==> r == "" || r[0] == SEPARATOR)
  {
    if r != "" {
      SplitFirst(r[1..]);
    }
  }

  /** What the last part of a split string ends in. */
  lemma {:induction false} SplitLast(s: string)
    ensures var last := Split(s)[|Split(s)| - 1];
            if s == "" || s[|s| - 1] == SEPARATOR then last == ""
            else last != "" && last[|last| - 1] == s[|s| - 1]
  {
    if s != "" {
      SplitLast(s[1..]);
    }
  }

  ghost predicate NoSlashes(parts: seq<string>) {
    forall i :: 0 <= i < |parts| ==> !HasSlash(parts[i])
  }

  lemma {:induction false} SplitJoin(parts: seq<string>)
    requires parts != [] && NoSlashes(parts)
    ensures Split(Join(parts)) == parts
  {
    if |parts| == 1 {
      SplitWhole(parts[0]);
    } else {
      SplitJoin(parts[1..]);
      SplitAtSlash(parts[0], Join(parts[1..]));
      Associative(parts[0], [SEPARATOR], Join(parts[1..]));
    }
  }

  lemma {:induction false} JoinSnoc(parts: seq<string>, last: string)
    requires parts != []
    ensures Join(parts + [last]) == Join(parts) + [SEPARATOR] + last
  {
    if |parts| > 1 {
      JoinSnoc(parts[1..], last);
      assert (parts + [last])[1..] == parts[1..] + [last];
      Associative(parts[0] + [SEPARATOR], Join(parts[1..]), [SEPARATOR] + last);
      Associative(Join(parts[1..]), [SEPARATOR], last);
      Associative(Join(parts), [SEPARATOR], last);
    }
  }
}
