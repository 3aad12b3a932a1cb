/** Wallet metadata: a sorted list of wallet IDs, its compression into ranges, and the byte format. */
module WalletMetadata {
  import opened Bytes
  import opened Tlv

  const MAX_WALLET_RANGE_COUNT: nat := 100000
  const MAX_TOTAL_WALLETS: nat := 100000
  const MAX_NAME: nat := 20

  datatype MetadataError =
    | Empty
    | BadVersion
    | NameTruncated
    | NameTooLong
    | BadLength(e: TlvError)
    | RangeTooLarge
    | TooManyWallets

  type Wallets = seq<uint64>

  // ---------------------------------------------------------------- sorted lists as sets

  predicate Increasing(ws: seq<int>) {
    forall i, j :: 0 <= i < j < |ws| ==> ws[i] < ws[j]
  }

  function IdSet(ws: Wallets): set<uint64> {
    set w | w in ws
  }

  lemma NonEmptySet(ws: Wallets)
    requires ws != []
    ensures IdSet(ws) != {}
  {
    assert ws[0] in IdSet(ws);
  }

  lemma {:induction false} IncreasingListIsItsSet(a: Wallets, b: Wallets)
    requires Increasing(a) && Increasing(b) && IdSet(a) == IdSet(b)
    ensures a == b
  {
    if a == [] {
      if b != [] {
        NonEmptySet(b);
      }
    } else {
      var n := |a| - 1;
      assert a[n] in IdSet(b) && b != [];
      var m := |b| - 1;
      assert b[m] in IdSet(b);
      assert b[m] in a && a[n] in b;
      assert a[n] == b[m];
      assert IdSet(a[..n]) == IdSet(a) - {a[n]} by { SetOfPrefix(a); }
      assert IdSet(b[..m]) == IdSet(b) - {b[m]} by { SetOfPrefix(b); }
      IncreasingListIsItsSet(a[..n], b[..m]);
      assert a == a[..n] + [a[n]] && b == b[..m] + [b[m]];
    }
  }

  lemma SetOfPrefix(a: Wallets)
    requires a != [] && Increasing(a)
    ensures IdSet(a[..|a| - 1]) == IdSet(a) - {a[|a| - 1]}
  {
    var n := |a| - 1;
    forall w
      ensures w in IdSet(a[..n]) <==> w in IdSet(a) && w != a[n]
    {
      if w in IdSet(a) && w != a[n] {
        var i :| 0 <= i < |a| && a[i] == w;
        assert a[..n][i] == w;
      }
    }
  }

  // ---------------------------------------------------------------- binary search, insertion, removal

  /** Where the binary search between low and high ends up, for any list. */
  function LowerBound(ws: Wallets, id: uint64, low: nat, high: nat): (r: nat)
    requires low <= high <= |ws|
    ensures low <= r <= high
    decreases high - low
  {
    if low == high then low
    else
      var mid := (low + high) / 2;
      if ws[mid] < id then LowerBound(ws, id, mid + 1, high) else LowerBound(ws, id, low, mid)
  }

  /** In an increasing list it separates the smaller IDs from the others. */
  lemma {:induction false} LowerBoundSeparates(ws: Wallets, id: uint64, low: nat, high: nat)
    requires low <= high <= |ws| && Increasing(ws)
    requires forall i :: 0 <= i < low ==> ws[i] < id
    requires forall i :: high <= i < |ws| ==> id <= ws[i]
    ensures var r := LowerBound(ws, id, low, high);
            (forall i :: 0 <= i < r ==> ws[i] < id) && (forall i :: r <= i < |ws| ==> id <= ws[i])
    decreases high - low
  {
    if low < high {
      var mid := (low + high) / 2;
      assert low <= mid < high;
      if ws[mid] < id {
        LowerBoundSeparates(ws, id, mid + 1, high);
      } else {
        LowerBoundSeparates(ws, id, low, mid);
      }
    }
  }

  function Position(ws: Wallets, id: uint64): nat {
    LowerBound(ws, id, 0, |ws|)
  }

  /** The list after AddWallet: unchanged if the search hits id. */
  function Added(ws: Wallets, id: uint64): Wallets {
    var p := Position(ws, id);
    if p < |ws| && ws[p] == id then ws else ws[..p] + [id] + ws[p..]
  }

  /** The list after RemoveWallet: unchanged unless the search hits id. */
  function Removed(ws: Wallets, id: uint64): Wallets {
    var p := Position(ws, id);
    if p < |ws| && ws[p] == id then ws[..p] + ws[p + 1..] else ws
  }

  lemma SetOfConcat(a: Wallets, b: Wallets)
    ensures IdSet(a + b) == IdSet(a) + IdSet(b)
  {
  }

  lemma SetOfInsertion(low: Wallets, id: uint64, high: Wallets)
    ensures IdSet(low + [id] + high) == IdSet(low + high) + {id}
  {
    SetOfConcat(low + [id], high);
    SetOfConcat(low, [id]);
    SetOfConcat(low, high);
  }

  lemma IncreasingJoin(a: seq<int>, b: seq<int>, id: int)
    requires Increasing(a) && Increasing(b)
    requires (forall i :: 0 <= i < |a| ==> a[i] < id) && forall i :: 0 <= i < |b| ==> id < b[i]
    ensures Increasing(a + b) && Increasing(a + [id] + b) && id !in a + b
  {
  }

  lemma IncreasingSplit(ws: seq<int>, p: nat, q: nat)
    requires Increasing(ws) && p <= q <= |ws|
    ensures Increasing(ws[..p]) && Increasing(ws[q..])
  {
  }

  lemma WithElement(ws: Wallets, p: nat, id: uint64)
    requires Increasing(ws) && p <= |ws|
    requires (forall i :: 0 <= i < p ==> ws[i] < id) && forall i :: p <= i < |ws| ==> id < ws[i]
    ensures var more := ws[..p] + [id] + ws[p..]; Increasing(more) && IdSet(more) == IdSet(ws) + {id}
  {
    var low, high := ws[..p], ws[p..];
    IncreasingSplit(ws, p, p);
    assert forall i :: 0 <= i < |high| ==> high[i] == ws[p + i];
    IncreasingJoin(low, high, id);
    SetOfInsertion(low, id, high);
    assert low + high == ws;
  }

  lemma AddedInserts(ws: Wallets, id: uint64)
    requires Increasing(ws)
    ensures Increasing(Added(ws, id)) && IdSet(Added(ws, id)) == IdSet(ws) + {id}
  {
    LowerBoundSeparates(ws, id, 0, |ws|);
    var p := Position(ws, id);
    if p < |ws| && ws[p] == id {
      assert id in IdSet(ws);
    } else {
      WithElement(ws, p, id);
    }
  }

  lemma WithoutElement(ws: Wallets, p: nat)
    requires Increasing(ws) && p < |ws|
    ensures var rest := ws[..p] + ws[p + 1..]; Increasing(rest) && IdSet(rest) == IdSet(ws) - {ws[p]}
  {
    var low, high := ws[..p], ws[p + 1..];
    IncreasingSplit(ws, p, p + 1);
    IncreasingJoin(low, high, ws[p]);
    SetOfInsertion(low, ws[p], high);
    assert low + [ws[p]] + high == ws;
    assert ws[p] !in IdSet(low + high);
  }

  lemma RemovedDeletes(ws: Wallets, id: uint64)
    requires Increasing(ws)
    ensures Increasing(Removed(ws, id)) && IdSet(Removed(ws, id)) == IdSet(ws) - {id}
  {
    LowerBoundSeparates(ws, id, 0, |ws|);
    var p := Position(ws, id);
    if p < |ws| && ws[p] == id {
      WithoutElement(ws, p);
    } else {
      assert id !in IdSet(ws);
    }
  }

  datatype Change = Add(id: uint64) | Remove(id: uint64)

  function ChangedList(ws: Wallets, changes: seq<Change>): Wallets
    decreases |changes|
  {
    if changes == [] then ws
    else
      var c := changes[0];
      ChangedList(if c.Add? then Added(ws, c.id) else Removed(ws, c.id), changes[1..])
  }

  function ChangedSet(s: set<uint64>, changes: seq<Change>): set<uint64>
    decreases |changes|
  {
    if changes == [] then s
    else
      var c := changes[0];
      ChangedSet(if c.Add? then s + {c.id} else s - {c.id}, changes[1..])
  }

  /** Over any sequence of changes, the list stays increasing and is the set of the same changes. */
  lemma {:induction false} ListFollowsSet(ws: Wallets, changes: seq<Change>)
    requires Increasing(ws)
    ensures Increasing(ChangedList(ws, changes))
    ensures IdSet(ChangedList(ws, changes)) == ChangedSet(IdSet(ws), changes)
    decreases |changes|
  {
    if changes != [] {
      var c := changes[0];
      AddedInserts(ws, c.id);
      RemovedDeletes(ws, c.id);
      ListFollowsSet(if c.Add? then Added(ws, c.id) else Removed(ws, c.id), changes[1..]);
    }
  }

  /** Histories that end in the same set end in the same bytes. */
  lemma BytesDependOnTheSetOnly(name: seq<byte>, c1: seq<Change>, c2: seq<Change>)
    requires ChangedSet({}, c1) == ChangedSet({}, c2)
    ensures Serialized(name, ChangedList([], c1)) == Serialized(name, ChangedList([], c2))
  {
    ListFollowsSet([], c1);
    ListFollowsSet([], c2);
    assert IdSet([]) == {};
    IncreasingListIsItsSet(ChangedList([], c1), ChangedList([], c2));
  }

  // ---------------------------------------------------------------- ranges

  const TWO_32: int := 0x1_0000_0000
  const TWO_64: int := 0x1_0000_0000_0000_0000

  /** start, start + 1, .., start + count. */
  datatype Range = Range(start: uint64, count: nat)

  function Consecutive(start: int, n: nat): (r: seq<int>)
    ensures |r| == n
  {
    seq(n, i => start + i)
  }

  function Ids(r: Range): seq<int> {
    Consecutive(r.start, r.count + 1)
  }

  function Expanded(rs: seq<Range>): seq<int> {
    if rs == [] then [] else Ids(rs[0]) + Expanded(rs[1..])
  }

  /** The loop of Serialize from index i on, with the open range at start and count (64-bit sums). */
  function RangesFrom(ws: Wallets, i: nat, start: uint64, count: nat): seq<Range>
    requires i <= |ws|
    decreases |ws| - i
  {
    if i == |ws| then [Range(start, count)]
    else if ws[i] == (start as int + count + 1) % TWO_64 then RangesFrom(ws, i + 1, start, count + 1)
    else [Range(start, count)] + RangesFrom(ws, i + 1, ws[i], 0)
  }

  function Ranges(ws: Wallets): seq<Range> {
    if ws == [] then [] else RangesFrom(ws, 1, ws[0], 0)
  }

  predicate RunStartsAt(ws: seq<int>, i: nat)
    requires i < |ws|
  {
    i == 0 || ws[i] != ws[i - 1] + 1
  }

  lemma NextInRun(ws: Wallets, i: nat, start: uint64, count: nat)
    requires Increasing(ws) && 0 < i < |ws| && start as int + count == ws[i - 1]
    ensures ws[i] == (start as int + count + 1) % TWO_64 <==> !RunStartsAt(ws, i)
  {
    assert ws[i - 1] < ws[i];
  }

  lemma {:induction false} RangesFromExpand(ws: Wallets, i: nat, start: uint64, count: nat)
    requires Increasing(ws) && 0 < i <= |ws| && start as int + count == ws[i - 1]
    ensures Expanded(RangesFrom(ws, i, start, count)) == Consecutive(start, count + 1) + ws[i..]
    decreases |ws| - i
  {
    var rs := RangesFrom(ws, i, start, count);
    if i == |ws| {
      assert Expanded(rs) == Ids(rs[0]) + Expanded(rs[1..]);
    } else {
      NextInRun(ws, i, start, count);
      assert ws[i..] == [ws[i]] + ws[i + 1..];
      if RunStartsAt(ws, i) {
        RangesFromExpand(ws, i + 1, ws[i], 0);
        assert rs == [Range(start, count)] + rs[1..] && Expanded(rs) == Ids(rs[0]) + Expanded(rs[1..]);
        assert rs[1..] == RangesFrom(ws, i + 1, ws[i], 0);
        assert Consecutive(ws[i], 1) == [ws[i]];
      } else {
        RangesFromExpand(ws, i + 1, start, count + 1);
        assert Consecutive(start, count + 2) == Consecutive(start, count + 1) + [ws[i]];
        Associative(Consecutive(start, count + 1), [ws[i]], ws[i + 1..]);
      }
    }
  }

  /** The ranges of an increasing list stand for exactly that list. */
  lemma RangesExpand(ws: Wallets)
    requires Increasing(ws)
    ensures Expanded(Ranges(ws)) == ws
  {
    if ws != [] {
      RangesFromExpand(ws, 1, ws[0], 0);
      assert Consecutive(ws[0], 1) == [ws[0]];
    }
  }

  // ---------------------------------------------------------------- minimality

  /** How many runs of consecutive IDs a list has. */
  function Runs(ws: seq<int>): nat {
    if ws == [] then 0 else Runs(ws[..|ws| - 1]) + if RunStartsAt(ws, |ws| - 1) then 1 else 0
  }

  lemma {:induction false} RunsOfConcat(a: seq<int>, b: seq<int>)
    ensures Runs(a + b) <= Runs(a) + Runs(b)
  {
    if b == [] {
      assert a + b == a;
    } else {
      var n := |b| - 1;
      RunsOfConcat(a, b[..n]);
      assert (a + b)[..|a + b| - 1] == a + b[..n];
      if n > 0 {
        assert (a + b)[|a| + n] == b[n] && (a + b)[|a| + n - 1] == b[n - 1];
      }
    }
  }

  lemma {:induction false} RunsOfConsecutive(start: int, n: nat)
    requires n > 0
    ensures Runs(Consecutive(start, n)) == 1
  {
    var s := Consecutive(start, n);
    assert s[..n - 1] == Consecutive(start, n - 1);
    if n > 1 {
      RunsOfConsecutive(start, n - 1);
    }
  }

  lemma {:induction false} RunsAtMostRanges(rs: seq<Range>)
    ensures Runs(Expanded(rs)) <= |rs|
  {
    if rs != [] {
      RunsAtMostRanges(rs[1..]);
      RunsOfConcat(Ids(rs[0]), Expanded(rs[1..]));
      RunsOfConsecutive(rs[0].start, rs[0].count + 1);
    }
  }

  lemma RunsOfPrefix(ws: seq<int>, i: nat)
    requires i < |ws|
    ensures Runs(ws[..i + 1]) == Runs(ws[..i]) + if RunStartsAt(ws, i) then 1 else 0
  {
    assert ws[..i + 1][..i] == ws[..i];
  }

  lemma {:induction false} RangesFromCount(ws: Wallets, i: nat, start: uint64, count: nat)
    requires Increasing(ws) && 0 < i <= |ws| && start as int + count == ws[i - 1]
    ensures |RangesFrom(ws, i, start, count)| + Runs(ws[..i]) == 1 + Runs(ws)
    decreases |ws| - i
  {
    if i == |ws| {
      assert ws[..i] == ws;
    } else {
      NextInRun(ws, i, start, count);
      RunsOfPrefix(ws, i);
      if RunStartsAt(ws, i) {
        RangesFromCount(ws, i + 1, ws[i], 0);
      } else {
        RangesFromCount(ws, i + 1, start, count + 1);
      }
    }
  }

  /** No list of ranges that stands for the same IDs is shorter. */
  lemma RangesAreMinimal(ws: Wallets, rs: seq<Range>)
    requires Increasing(ws) && Expanded(rs) == ws
    ensures |Ranges(ws)| <= |rs|
  {
    RunsAtMostRanges(rs);
    if ws != [] {
      RangesFromCount(ws, 1, ws[0], 0);
      assert ws[..1][..0] == [];
    }
  }

  // ---------------------------------------------------------------- bytes

  /** Version 1 in the top three bits, combined by bitwise or with the low byte of the name length. */
  function Header(nameLen: nat): byte {
    var b := nameLen % 256;
    if b / 32 % 2 == 1 then b else b + 32
  }

  /** Starts and counts lose everything above 32 bits. */
  function Narrowed(r: Range): Range {
    Range(r.start % TWO_32, r.count % TWO_32)
  }

  function RangeBytes(r: Range): seq<byte> {
    EncodeBerLength(r.start % TWO_32) + EncodeBerLength(r.count % TWO_32)
  }

  function RangesBytes(rs: seq<Range>): seq<byte> {
    if rs == [] then [] else RangeBytes(rs[0]) + RangesBytes(rs[1..])
  }

  function Serialized(name: seq<byte>, ws: Wallets): seq<byte> {
    [Header(|name|)] + name + RangesBytes(Ranges(ws))
  }

  /** The wallet list read from off on, with total IDs read before. */
  function ParsedRanges(data: seq<byte>, off: nat, total: nat): Result<Wallets, MetadataError>
    decreases |data| - off
  {
    if off >= |data| then Ok([])
    else
      match BerLength(data, off)
      case Err(e) => Err(BadLength(e))
      case Ok(start) =>
        match BerLength(data, start.1)
        case Err(e) => Err(BadLength(e))
        case Ok(count) =>
          if count.0 > MAX_WALLET_RANGE_COUNT then Err(RangeTooLarge)
          else if total + count.0 + 1 > MAX_TOTAL_WALLETS then Err(TooManyWallets)
          else
            match ParsedRanges(data, count.1, total + count.0 + 1)
            case Err(e) => Err(e)
            case Ok(rest) => Ok(ParsedIds(start.0, count.0) + rest)
  }

  function ParsedIds(start: uint32, count: nat): Wallets
    requires count <= MAX_WALLET_RANGE_COUNT
  {
    seq(count + 1, i requires 0 <= i <= count => start as int + i)
  }

  /** What ParseMetadata answers: name and wallets. */
  function Parsed(data: seq<byte>): Result<(seq<byte>, Wallets), MetadataError> {
    if data == [] then Err(Empty)
    else if data[0] / 32 != 1 then Err(BadVersion)
    else if 1 + data[0] % 32 > |data| then Err(NameTruncated)
    else
      var off := 1 + data[0] % 32;
      match ParsedRanges(data, off, 0)
      case Err(e) => Err(e)
      case Ok(ws) => Ok((data[1..off], ws))
  }

  // ---------------------------------------------------------------- the object

  class Metadata {
    var name: seq<byte>
    var wallets: Wallets

    constructor ()
      ensures name == [] && wallets == []
    {
      name := [];
      wallets := [];
    }

    method SetName(name: seq<byte>) returns (r: Result<(), MetadataError>)
      modifies this`name
      ensures r == (if |name| > MAX_NAME then Err(NameTooLong) else Ok(()))
      ensures this.name == if r.Ok? then name else old(this.name)
    {
      if |name| > MAX_NAME {
        return Err(NameTooLong);
      }
      this.name := name;
      return Ok(());
    }

    method SortInsertPos(id: uint64) returns (low: nat)
      ensures low == Position(wallets, id)
    {
      low := 0;
      var high := |wallets|;
      while low < high
        invariant low <= high <= |wallets|
        invariant LowerBound(wallets, id, low, high) == Position(wallets, id)
      {
        var mid := (low + high) / 2;
        if wallets[mid] < id {
          low := mid + 1;
        } else {
          high := mid;
        }
      }
    }

    method AddWallet(id: uint64)
      modifies this`wallets
      ensures wallets == Added(old(wallets), id)
    {
      var idx := SortInsertPos(id);
      if idx < |wallets| && wallets[idx] == id {
        return;
      }
      wallets := wallets + [0];
      wallets := wallets[..idx + 1] + wallets[idx..|wallets| - 1];
      wallets := wallets[idx := id];
    }

    method RemoveWallet(id: uint64)
      modifies this`wallets
      ensures wallets == Removed(old(wallets), id)
    {
      var idx := SortInsertPos(id);
      if idx < |wallets| && wallets[idx] == id {
        wallets := wallets[..idx] + wallets[idx + 1..];
      }
    }

    method CompressedRanges() returns (ranges: seq<Range>)
      requires wallets != []
      ensures ranges == Ranges(wallets)
    {
      ranges := [];
      var start, count := wallets[0], 0;
      for i := 1 to |wallets|
        invariant ranges + RangesFrom(wallets, i, start, count) == Ranges(wallets)
      {
        var w := wallets[i];
        if w == (start as int + count + 1) % TWO_64 {
          count := count + 1;
        } else {
          ranges := ranges + [Range(start, count)];
          count := 0;
          start := w;
        }
      }
      ranges := ranges + [Range(start, count)];
    }

    method Serialize() returns (buf: seq<byte>)
      ensures buf == Serialized(name, wallets)
    {
      buf := [Header(|name|)];
      buf := buf + name;
      if |wallets| == 0 {
        return;
      }
      var ranges := CompressedRanges();
      ghost var head := buf;
      for i := 0 to |ranges|
        invariant buf + RangesBytes(ranges[i..]) == head + RangesBytes(ranges)
      {
        ghost var before := buf;
        buf := buf + EncodeBerLength(ranges[i].start % TWO_32);
        buf := buf + EncodeBerLength(ranges[i].count % TWO_32);
        assert buf == before + RangeBytes(ranges[i]);
        assert ranges[i..][1..] == ranges[i + 1..];
        Associative(before, RangeBytes(ranges[i]), RangesBytes(ranges[i + 1..]));
      }
      assert ranges[|ranges|..] == [];
    }
  }

  /** The result of a parse with the IDs already read put in front. */
  function Prepended(ids: Wallets, r: Result<Wallets, MetadataError>): Result<Wallets, MetadataError> {
    if r.Ok? then Ok(ids + r.value) else r
  }

  method AppendIds(before: Wallets, start: uint32, n: nat) returns (wallets: Wallets)
    requires n <= MAX_WALLET_RANGE_COUNT
    ensures wallets == before + ParsedIds(start, n)
  {
    wallets := before;
    ghost var ids := ParsedIds(start, n);
    for i := 0 to n + 1
      invariant wallets == before + ids[..i]
    {
      wallets := wallets + [start as int + i];
      assert ids[..i + 1] == ids[..i] + [ids[i]];
    }
    assert ids[..n + 1] == ids;
  }

  method ParseMetadata(data: seq<byte>) returns (r: Result<(seq<byte>, Wallets), MetadataError>)
    ensures r == Parsed(data)
  {
    if |data| == 0 {
      return Err(Empty);
    }
    var header := data[0];
    if header / 32 != 1 {
      return Err(BadVersion);
    }
    var nameLen: nat := header % 32;
    var off: nat := 1;
    if off + nameLen > |data| {
      return Err(NameTruncated);
    }
    var cardName := data[off..off + nameLen];
    off := off + nameLen;
    var wallets: Wallets := [];
    var total: nat := 0;
    ghost var want := ParsedRanges(data, off, 0);
    assert want.Ok? ==> [] + want.value == want.value;
    while off < |data|
      invariant Prepended(wallets, ParsedRanges(data, off, total)) == want
      decreases |data| - off
    {
      var start := DecodeBerLength(data, off);
      if start.Err? {
        return Err(BadLength(start.error));
      }
      var count := DecodeBerLength(data, start.value.1);
      if count.Err? {
        return Err(BadLength(count.error));
      }
      if count.value.0 > MAX_WALLET_RANGE_COUNT {
        return Err(RangeTooLarge);
      }
      var n := count.value.0 as nat;
      total := total + n + 1;
      if total > MAX_TOTAL_WALLETS {
        return Err(TooManyWallets);
      }
      ghost var before := wallets;
      ghost var ids := ParsedIds(start.value.0, n);
      wallets := AppendIds(wallets, start.value.0, n);
      ghost var rest := ParsedRanges(data, count.value.1, total);
      if rest.Ok? {
        Associative(before, ids, rest.value);
      }
      off := count.value.1;
    }
    assert wallets + [] == wallets;
    return Ok((cardName, wallets));
  }

  // ---------------------------------------------------------------- round trip

  /** One step of the parser over a written range. */
  lemma ParsesOneRange(pre: seq<byte>, r: Range, tail: seq<byte>)
    ensures var data := pre + RangeBytes(r) + tail;
            var mid := |pre| + |EncodeBerLength(r.start % TWO_32)|;
            && BerLength(data, |pre|) == Ok((r.start % TWO_32, mid))
            && BerLength(data, mid) == Ok((r.count % TWO_32, |pre + RangeBytes(r)|))
  {
    var s, c := EncodeBerLength(r.start % TWO_32), EncodeBerLength(r.count % TWO_32);
    BerLengthRoundTrip(pre, r.start % TWO_32, c + tail);
    BerLengthRoundTrip(pre + s, r.count % TWO_32, tail);
    Regroup(pre, s, c, tail);
  }

  function NarrowedAll(rs: seq<Range>): (r: seq<Range>)
    ensures |r| == |rs|
  {
    if rs == [] then [] else [Narrowed(rs[0])] + NarrowedAll(rs[1..])
  }

  lemma ParsedRangesStep(data: seq<byte>, off: nat, n: Range, mid: nat, next: nat, total: nat)
    requires off < |data| && n.start < TWO_32 && n.count <= MAX_WALLET_RANGE_COUNT
    requires BerLength(data, off) == Ok((n.start, mid)) && BerLength(data, mid) == Ok((n.count, next))
    requires total + n.count + 1 <= MAX_TOTAL_WALLETS
    ensures ParsedRanges(data, off, total) == Prepended(ParsedIds(n.start, n.count), ParsedRanges(data, next, total + n.count + 1))
  {
  }

  /** The parser reads back the narrowed ranges, unless they stand for too many IDs. */
  lemma {:induction false} ParsesRanges(pre: seq<byte>, rs: seq<Range>, total: nat)
    ensures var r, ids := ParsedRanges(pre + RangesBytes(rs), |pre|, total), Expanded(NarrowedAll(rs));
            if total + |ids| <= MAX_TOTAL_WALLETS || rs == [] then r == Ok(ids) else r.Err?
    decreases |rs|
  {
    if rs != [] {
      var n, tail := Narrowed(rs[0]), RangesBytes(rs[1..]);
      var data := pre + RangesBytes(rs);
      ParsesOneRange(pre, rs[0], tail);
      Associative(pre, RangeBytes(rs[0]), tail);
      var next := pre + RangeBytes(rs[0]);
      assert data == next + tail;
      ExpandNarrowed(rs);
      var mid := |pre| + |EncodeBerLength(rs[0].start % TWO_32)|;
      if n.count <= MAX_WALLET_RANGE_COUNT && total + n.count + 1 <= MAX_TOTAL_WALLETS {
        ParsesRanges(next, rs[1..], total + n.count + 1);
        assert ParsedIds(n.start, n.count) == Ids(n);
        ParsedRangesStep(data, |pre|, n, mid, |next|, total);
      }
    }
  }

  lemma ExpandNarrowed(rs: seq<Range>)
    requires rs != []
    ensures Expanded(NarrowedAll(rs)) == Ids(Narrowed(rs[0])) + Expanded(NarrowedAll(rs[1..]))
  {
    assert NarrowedAll(rs)[1..] == NarrowedAll(rs[1..]);
  }

  lemma FitsFirst(rs: seq<Range>)
    requires rs != [] && forall r :: r in rs ==> r.start < TWO_32 && r.count < TWO_32
    ensures Narrowed(rs[0]) == rs[0]
    ensures forall r :: r in rs[1..] ==> r.start < TWO_32 && r.count < TWO_32
  {
    assert rs[0] in rs;
    forall r | r in rs[1..]
      ensures r in rs
    {
    }
  }

  /** Ranges that fit their 32-bit fields are not changed by narrowing. */
  lemma {:induction false} NarrowedFits(rs: seq<Range>)
    requires forall r :: r in rs ==> r.start < TWO_32 && r.count < TWO_32
    ensures NarrowedAll(rs) == rs
  {
    if rs != [] {
      FitsFirst(rs);
      NarrowedFits(rs[1..]);
      assert rs == [rs[0]] + rs[1..];
    }
  }

  /** Conversely, if narrowing keeps the IDs and the counts fit, the starts fit too. */
  lemma {:induction false} KeptStartsFit(rs: seq<Range>)
    requires Expanded(NarrowedAll(rs)) == Expanded(rs)
    requires forall r :: r in rs ==> r.count < TWO_32
    ensures forall r :: r in rs ==> r.start < TWO_32
  {
    if rs != [] {
      assert rs[0] in rs;
      ExpandNarrowed(rs);
      var a, b := Ids(Narrowed(rs[0])), Ids(rs[0]);
      var x, y := Expanded(NarrowedAll(rs[1..])), Expanded(rs[1..]);
      assert (a + x)[0] == a[0] && (b + y)[0] == b[0];
      assert x == (a + x)[|a|..] && y == (b + y)[|b|..];
      KeptStartsFit(rs[1..]);
    }
  }

  lemma {:induction false} CountsBounded(rs: seq<Range>)
    ensures forall r :: r in rs ==> r.count < |Expanded(rs)|
  {
    if rs != [] {
      CountsBounded(rs[1..]);
    }
  }

  /** The condition on a list that a caller can check: every maximal run starts below 2^32. */
  predicate RunStartsFit(ws: Wallets) {
    forall i :: 0 <= i < |ws| && RunStartsAt(ws, i) ==> ws[i] < TWO_32
  }

  lemma {:induction false} StartsFrom(ws: Wallets, i: nat, start: uint64, count: nat)
    requires Increasing(ws) && 0 < i <= |ws| && start as int + count == ws[i - 1]
    ensures (forall r :: r in RangesFrom(ws, i, start, count) ==> r.start < TWO_32)
       <==> start < TWO_32 && forall j :: i <= j < |ws| && RunStartsAt(ws, j) ==> ws[j] < TWO_32
    decreases |ws| - i
  {
    var rs := RangesFrom(ws, i, start, count);
    if i == |ws| {
      assert rs[0] in rs;
    } else {
      NextInRun(ws, i, start, count);
      if RunStartsAt(ws, i) {
        StartsFrom(ws, i + 1, ws[i], 0);
        var rest := RangesFrom(ws, i + 1, ws[i], 0);
        assert rs == [Range(start, count)] + rest;
        assert forall r :: r in rs <==> r == Range(start, count) || r in rest;
      } else {
        StartsFrom(ws, i + 1, start, count + 1);
      }
    }
  }

  lemma RunStartsFitIffRangesDo(ws: Wallets)
    requires Increasing(ws)
    ensures RunStartsFit(ws) <==> forall r :: r in Ranges(ws) ==> r.start < TWO_32
  {
    if ws != [] {
      StartsFrom(ws, 1, ws[0], 0);
      assert RunStartsAt(ws, 0);
    }
  }

  lemma ParsedHeader(name: seq<byte>, ws: Wallets)
    requires |name| <= 31
    ensures var r := ParsedRanges(Serialized(name, ws), 1 + |name|, 0);
            Parsed(Serialized(name, ws)) == if r.Ok? then Ok((name, r.value)) else Err(r.error)
  {
    var data := Serialized(name, ws);
    HeaderOfShortName(|name|);
    assert data[0] == Header(|name|);
    assert data[1..1 + |name|] == name;
  }

  lemma HeaderOfShortName(n: nat)
    requires n <= 31
    ensures Header(n) == 32 + n && Header(n) / 32 == 1 && Header(n) % 32 == n
  {
  }

  /**
   Names of up to 31 bytes and increasing wallet lists come back from their bytes exactly when there are at
   most 100000 wallets and every maximal run starts below 2^32.
   */
  lemma RoundTripIff(name: seq<byte>, ws: Wallets)
    requires |name| <= 31 && Increasing(ws)
    ensures Parsed(Serialized(name, ws)) == Ok((name, ws)) <==> |ws| <= MAX_TOTAL_WALLETS && RunStartsFit(ws)
  {
    var rs, pre := Ranges(ws), [Header(|name|)] + name;
    ParsedHeader(name, ws);
    ParsesRanges(pre, rs, 0);
    RangesExpand(ws);
    CountsBounded(rs);
    RunStartsFitIffRangesDo(ws);
    if |ws| <= MAX_TOTAL_WALLETS {
      if RunStartsFit(ws) {
        NarrowedFits(rs);
      }
      if Expanded(NarrowedAll(rs)) == ws {
        KeptStartsFit(rs);
      }
    }
  }

  // ---------------------------------------------------------------- what is parsed may be out of order

  /** The ranges as they stand in data from off on, as far as they decode. */
  function RangesRead(data: seq<byte>, off: nat): seq<Range>
    decreases |data| - off
  {
    if off >= |data| then []
    else
      match BerLength(data, off)
      case Err(_) => []
      case Ok((start, mid)) =>
        match BerLength(data, mid)
        case Err(_) => []
        case Ok((count, next)) => [Range(start, count)] + RangesRead(data, next)
  }

  /** From off on, data are pairs of lengths to the last byte. */
  predicate WholeRanges(data: seq<byte>, off: nat)
    decreases |data| - off
  {
    off < |data| ==>
      && BerLength(data, off).Ok?
      && var mid := BerLength(data, off).value.1;
      && BerLength(data, mid).Ok?
      && WholeRanges(data, BerLength(data, mid).value.1)
  }

  /** Each range starts after the one before it ends. */
  predicate InOrder(rs: seq<Range>) {
    |rs| <= 1 || (rs[0].start as int + rs[0].count < rs[1].start && InOrder(rs[1..]))
  }

  lemma {:induction false} ParsedIsExpanded(data: seq<byte>, off: nat, total: nat)
    ensures var r := ParsedRanges(data, off, total); r.Ok? ==> r.value == Expanded(RangesRead(data, off))
    decreases |data| - off
  {
    if off < |data| && ParsedRanges(data, off, total).Ok? {
      var (start, mid) := BerLength(data, off).value;
      var (count, next) := BerLength(data, mid).value;
      ParsedIsExpanded(data, next, total + count + 1);
      assert ParsedIds(start, count) == Ids(Range(start, count));
      assert RangesRead(data, off)[1..] == RangesRead(data, next);
    }
  }

  lemma {:induction false} RangesAcceptedIff(data: seq<byte>, off: nat, total: nat)
    ensures ParsedRanges(data, off, total).Ok?
       <==> && WholeRanges(data, off)
            && (off < |data| ==> total + |Expanded(RangesRead(data, off))| <= MAX_TOTAL_WALLETS)
    decreases |data| - off
  {
    if off < |data| && BerLength(data, off).Ok? && BerLength(data, BerLength(data, off).value.1).Ok? {
      var (start, mid) := BerLength(data, off).value;
      var (count, next) := BerLength(data, mid).value;
      RangesAcceptedIff(data, next, total + count + 1);
      assert RangesRead(data, off)[1..] == RangesRead(data, next);
      assert |Ids(Range(start, count))| == count + 1;
      if next >= |data| {
        assert RangesRead(data, next) == [];
      }
    }
  }

  /**
   Exactly the data that are read: version 1, a whole name, and then pairs of lengths to the end that stand for at
   most 100000 IDs in all.
   */
  lemma ParsedIff(data: seq<byte>, name: seq<byte>, ws: Wallets)
    ensures Parsed(data) == Ok((name, ws))
       <==> && data != [] && data[0] / 32 == 1
            && var off := 1 + data[0] % 32;
            && off <= |data| && name == data[1..off] && WholeRanges(data, off)
            && ws == Expanded(RangesRead(data, off)) && |ws| <= 100000
  {
    if data != [] && 1 + data[0] % 32 <= |data| {
      var off := 1 + data[0] % 32;
      RangesAcceptedIff(data, off, 0);
      ParsedIsExpanded(data, off, 0);
    }
  }

  lemma IncreasingConsecutive(start: int, n: nat)
    ensures Increasing(Consecutive(start, n))
    ensures forall i :: 0 <= i < n ==> Consecutive(start, n)[i] == start + i
  {
  }

  lemma IncreasingConcatIff(a: seq<int>, b: seq<int>)
    requires a != [] && b != [] && Increasing(a)
    ensures Increasing(a + b) <==> Increasing(b) && a[|a| - 1] < b[0]
  {
    var c, m := a + b, |a|;
    if Increasing(c) {
      IncreasingSplit(c, m, m);
      assert c[m..] == b && c[m] == b[0] && c[m - 1] == a[m - 1];
    }
    if Increasing(b) && a[m - 1] < b[0] {
      forall i, j | 0 <= i < j < |c|
        ensures c[i] < c[j]
      {
        if i < m <= j {
          assert a[i] <= a[m - 1] && b[0] <= b[j - m];
        }
      }
    }
  }

  /** Ranges stand for an increasing list exactly when they are in order. */
  lemma {:induction false} ExpandedIncreasingIff(rs: seq<Range>)
    ensures Increasing(Expanded(rs)) <==> InOrder(rs)
  {
    if rs != [] {
      var r, rest := rs[0], rs[1..];
      IncreasingConsecutive(r.start, r.count + 1);
      ExpandedIncreasingIff(rest);
      assert rs == [r] + rest;
      if rest == [] {
        assert Expanded(rs) == Ids(r) + [] == Ids(r);
      } else {
        IncreasingConsecutive(rest[0].start, rest[0].count + 1);
        assert Expanded(rest)[0] == rest[0].start;
        IncreasingConcatIff(Ids(r), Expanded(rest));
      }
    }
  }

  /** The list is increasing, and follows the set of the same changes, whatever they are. */
  ghost predicate BehavesAsSet(ws: Wallets) {
    forall changes: seq<Change> ::
      Increasing(ChangedList(ws, changes)) && IdSet(ChangedList(ws, changes)) == ChangedSet(IdSet(ws), changes)
  }

  /**
   After parsing, adding and removing wallets behaves as on a set exactly for data whose ranges are in order; the
   parser accepts others too.
   */
  lemma ParsedIsSetIff(data: seq<byte>)
    requires Parsed(data).Ok?
    ensures var ranges := RangesRead(data, 1 + data[0] % 32);
            && Increasing(Parsed(data).value.1) == InOrder(ranges)
            && BehavesAsSet(Parsed(data).value.1) == InOrder(ranges)
  {
    var ws, off := Parsed(data).value.1, 1 + data[0] % 32;
    ParsedIsExpanded(data, off, 0);
    ExpandedIncreasingIff(RangesRead(data, off));
    if Increasing(ws) {
      forall changes: seq<Change>
        ensures Increasing(ChangedList(ws, changes)) && IdSet(ChangedList(ws, changes)) == ChangedSet(IdSet(ws), changes)
      {
        ListFollowsSet(ws, changes);
      }
    } else {
      assert ChangedList(ws, []) == ws;
    }
  }

  lemma SingleRanges(data: seq<byte>, off: nat, total: nat, id: byte)
    requires off + 2 <= |data| && data[off] == id < 0x80 && data[off + 1] == 0 && total < MAX_TOTAL_WALLETS
    ensures ParsedRanges(data, off, total) == Prepended([id], ParsedRanges(data, off + 2, total + 1))
  {
    assert BerLength(data, off) == Ok((id, off + 1)) && BerLength(data, off + 1) == Ok((0, off + 2));
    assert ParsedIds(id, 0) == [id];
  }

  lemma InsertedAtFront(ws: Wallets)
    requires ws == [5, 3]
    ensures Added(ws, 3) == [3, 5, 3]
  {
    assert LowerBound(ws, 3, 0, 1) == LowerBound(ws, 3, 0, 0) == 0;
    assert LowerBound(ws, 3, 0, 2) == LowerBound(ws, 3, 0, 1);
    assert ws[..0] + [3] + ws[0..] == [3, 5, 3];
  }

  lemma ReadOutOfOrder(data: seq<byte>)
    requires data == [0x20, 5, 0, 3, 0]
    ensures ParsedRanges(data, 1, 0) == Ok([5, 3])
  {
    SingleRanges(data, 1, 0, 5);
    SingleRanges(data, 3, 1, 3);
    assert ParsedRanges(data, 5, 2) == Ok([]);
    assert [3] + [] == [3] && [5] + [3] == [5, 3];
  }

  /** Two ranges the wrong way round are accepted; adding an ID that is there then makes it appear twice. */
  lemma OutOfOrderDuplicates(data: seq<byte>, ws: Wallets)
    requires data == [0x20, 5, 0, 3, 0] && ws == [5, 3]
    ensures Parsed(data) == Ok(([], ws))
    ensures Added(ws, 3) == [3, 5, 3]
  {
    ReadOutOfOrder(data);
    assert data[1..1] == [];
    InsertedAtFront(ws);
  }
}
