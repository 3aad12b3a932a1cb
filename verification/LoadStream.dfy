/** The stream of LOAD commands for an applet file, and the file's header. */
module LoadStream {
  import opened Bytes
  import opened Apdus
  import opened Tlv

  const CLA_GP: byte := 0x80
  const INS_LOAD: byte := 0xE8
  const P1_MORE_BLOCKS: byte := 0x00
  const P1_LAST_BLOCK: byte := 0x80
  const TAG_LOAD_FILE_DATA_BLOCK: byte := 0xC4
  const BLOCK_SIZE: nat := 247

  // ---------------------------------------------------------------- the stream

  /** Unread bytes, and the fields Next sets for the current command. */
  datatype Stream = Stream(rest: seq<byte>, index: byte, data: seq<byte>, p1: byte)

  function Start(file: seq<byte>): Stream {
    Stream(file, 0, [], P1_MORE_BLOCKS)
  }

  function NextOf(s: Stream): Stream
    requires s.rest != []
  {
    var n := Min(BLOCK_SIZE, |s.rest|);
    Stream(s.rest[n..], (s.index as int + 1) % 256, s.rest[..n], if n == |s.rest| then P1_LAST_BLOCK else s.p1)
  }

  function CommandOf(s: Stream): Apdu {
    NewCommand(CLA_GP, INS_LOAD, s.p1, (s.index as int + 255) % 256, s.data)
  }

  /** All commands still to come. */
  function CommandsFrom(s: Stream): seq<Apdu>
    decreases |s.rest|
  {
    if s.rest == [] then [] else [CommandOf(NextOf(s))] + CommandsFrom(NextOf(s))
  }

  function BlocksOf(n: nat): nat {
    (n + BLOCK_SIZE - 1) / BLOCK_SIZE
  }

  class LoadCommandStream {
    var rest: seq<byte>
    var currentIndex: byte
    var currentData: seq<byte>
    var p1: byte
    var blocksCount: nat

    constructor (data: seq<byte>)
      ensures State() == Start(data) && blocksCount == BlocksOf(|data|)
    {
      rest, currentIndex, currentData, p1 := data, 0, [], P1_MORE_BLOCKS;
      blocksCount := BlocksOf(|data|);
    }

    function State(): Stream
      reads this
    {
      Stream(rest, currentIndex, currentData, p1)
    }

    method Next() returns (more: bool)
      modifies this`rest, this`currentIndex, this`currentData, this`p1
      ensures more <==> old(rest) != []
      ensures State() == if more then NextOf(old(State())) else old(State())
    {
      if |rest| == 0 {
        return false;
      }
      var n := Min(BLOCK_SIZE, |rest|);
      currentData := rest[..n];
      rest := rest[n..];
      currentIndex := (currentIndex as int + 1) % 256;
      if |rest| == 0 {
        p1 := P1_LAST_BLOCK;
      }
      return true;
    }

    /** currentIndex - 1 in 8-bit arithmetic. */
    function Index(): byte
      reads this
    {
      (currentIndex as int + 255) % 256
    }

    function GetCommand(): Apdu
      reads this
    {
      NewCommand(CLA_GP, INS_LOAD, p1, Index(), currentData)
    }
  }

  /** The installation loop: every command, in order. */
  method AllCommands(lcs: LoadCommandStream) returns (cmds: seq<Apdu>)
    modifies lcs
    ensures cmds == CommandsFrom(old(lcs.State()))
  {
    cmds := [];
    var more := lcs.Next();
    while more
      invariant more ==> cmds + [CommandOf(lcs.State())] + CommandsFrom(lcs.State()) == CommandsFrom(old(lcs.State()))
      invariant !more ==> cmds == CommandsFrom(old(lcs.State()))
      decreases |lcs.rest|, more
    {
      ghost var s := lcs.State();
      var cmd := lcs.GetCommand();
      cmds := cmds + [cmd];
      more := lcs.Next();
      if more {
        assert CommandsFrom(s) == [CommandOf(lcs.State())] + CommandsFrom(lcs.State());
      }
    }
  }

  /** Block k of a file. */
  function Block(file: seq<byte>, k: nat): seq<byte>
    requires k * BLOCK_SIZE < |file|
  {
    file[k * BLOCK_SIZE..Min((k + 1) * BLOCK_SIZE, |file|)]
  }

  lemma {:induction false} CommandsCount(s: Stream)
    ensures |CommandsFrom(s)| == BlocksOf(|s.rest|)
    decreases |s.rest|
  {
    if s.rest != [] {
      BlocksStep(|s.rest|);
      CommandsCount(NextOf(s));
    }
  }

  lemma BlockOfRest(file: seq<byte>, k: nat)
    requires k > 0 && k * BLOCK_SIZE < |file|
    ensures Block(file[BLOCK_SIZE..], k - 1) == Block(file, k)
  {
    var rest := file[BLOCK_SIZE..];
    var a, b := (k - 1) * BLOCK_SIZE, Min(k * BLOCK_SIZE, |rest|);
    assert rest[a..b] == file[BLOCK_SIZE + a..BLOCK_SIZE + b];
  }

  /** Command k carries block k, its number modulo 256, and the last-block flag exactly at the end. */
  lemma {:induction false} CommandAt(s: Stream, done: nat, k: nat)
    requires s.index == done % 256 && s.p1 == P1_MORE_BLOCKS && k < BlocksOf(|s.rest|)
    ensures |CommandsFrom(s)| == BlocksOf(|s.rest|) && k * BLOCK_SIZE < |s.rest|
    ensures CommandsFrom(s)[k]
         == NewCommand(0x80, 0xE8, if k + 1 == BlocksOf(|s.rest|) then 0x80 else 0x00,
                       (done + k) % 256, Block(s.rest, k))
    decreases |s.rest|
  {
    CommandsCount(s);
    OneMore(done);
    BlocksStep(|s.rest|);
    if k > 0 {
      var t := NextOf(s);
      CommandAt(t, done + 1, k - 1);
      assert CommandsFrom(s)[k] == CommandsFrom(t)[k - 1];
      BlockOfRest(s.rest, k);
    }
  }

  lemma OneMore(done: nat)
    ensures (done % 256 + 1) % 256 == (done + 1) % 256
    ensures ((done + 1) % 256 + 255) % 256 == done % 256
  {
  }

  lemma BlocksStep(n: nat)
    requires n > 0
    ensures BlocksOf(n) == 1 + BlocksOf(n - Min(BLOCK_SIZE, n))
    ensures (BlocksOf(n) - 1) * BLOCK_SIZE < n <= BlocksOf(n) * BLOCK_SIZE
  {
  }

  function Payloads(cmds: seq<Apdu>): seq<seq<byte>> {
    if cmds == [] then [] else [cmds[0].data] + Payloads(cmds[1..])
  }

  /** The payloads put together are the file. */
  lemma {:induction false} PayloadsAreTheFile(s: Stream)
    ensures Flatten(Payloads(CommandsFrom(s))) == s.rest
    decreases |s.rest|
  {
    if s.rest != [] {
      var t := NextOf(s);
      PayloadsAreTheFile(t);
      assert CommandsFrom(s)[1..] == CommandsFrom(t);
      assert s.rest == t.data + t.rest;
    }
  }

  /** The commands number the blocks 0, 1, 2, .. exactly when there are at most 256 of them. */
  lemma NumberedIff(file: seq<byte>)
    ensures var cmds := CommandsFrom(Start(file));
            (forall k :: 0 <= k < |cmds| ==> cmds[k].p2 == k) <==> |file| <= 256 * 247
  {
    var cmds := CommandsFrom(Start(file));
    CommandsCount(Start(file));
    forall k | 0 <= k < |cmds|
      ensures cmds[k].p2 == k % 256
    {
      CommandAt(Start(file), 0, k);
    }
    if |file| > 256 * BLOCK_SIZE {
      assert |cmds| > 256 && cmds[256].p2 == 0;
    }
  }

  // ---------------------------------------------------------------- the file

  const INTERNAL_FILES: seq<string> :=
    ["Header", "Directory", "Import", "Applet", "Class", "Method", "StaticField", "Export", "ConstantPool", "RefLocation"]

  function EncodeLength(length: nat): seq<byte> {
    if length < 0x80 then [length]
    else if length < 0xFF then [0x81, length]
    else if length < 0xFFFF then [0x82, length / 0x100 % 0x100, length % 0x100]
    else [0x83, length / 0x1_0000 % 0x100, length / 0x100 % 0x100, length % 0x100]
  }

  /** The present files among names, in that order. */
  function FilesData(files: map<string, seq<byte>>, names: seq<string>): seq<byte> {
    if names == [] then []
    else (if names[0] in files then files[names[0]] else []) + FilesData(files, names[1..])
  }

  lemma FilesDataStep(files: map<string, seq<byte>>, names: seq<string>, i: nat)
    requires i < |names|
    ensures FilesData(files, names[i..]) == (if names[i] in files then files[names[i]] else []) + FilesData(files, names[i + 1..])
  {
    assert names[i..][1..] == names[i + 1..];
  }

  function EncodedFiles(files: map<string, seq<byte>>): seq<byte> {
    var data := FilesData(files, INTERNAL_FILES);
    [TAG_LOAD_FILE_DATA_BLOCK] + EncodeLength(|data|) + data
  }

  method Concatenated(files: map<string, seq<byte>>, names: seq<string>) returns (buf: seq<byte>)
    ensures buf == FilesData(files, names)
  {
    buf := [];
    for i := 0 to |names|
      invariant buf + FilesData(files, names[i..]) == FilesData(files, names)
    {
      FilesDataStep(files, names, i);
      if names[i] in files {
        Associative(buf, files[names[i]], FilesData(files, names[i + 1..]));
        buf := buf + files[names[i]];
      }
    }
  }

  method EncodeFilesData(files: map<string, seq<byte>>) returns (data: seq<byte>)
    ensures data == EncodedFiles(files)
  {
    var filesData := Concatenated(files, INTERNAL_FILES);
    data := [TAG_LOAD_FILE_DATA_BLOCK];
    data := data + EncodeLength(|filesData|);
    data := data + filesData;
  }

  /** The header's length field is the length of the contents exactly when three bytes can hold it. */
  lemma HeaderLengthIff(data: seq<byte>)
    ensures var file := [TAG_LOAD_FILE_DATA_BLOCK] + EncodeLength(|data|) + data;
            BerLength(file, 1).Ok? && BerLength(file, 1).value.1 == |file| - |data|
            && (BerLength(file, 1).value.0 == |data| <==> |data| < 0x100_0000)
  {
    var n, e := |data|, EncodeLength(|data|);
    var file := [TAG_LOAD_FILE_DATA_BLOCK] + e + data;
    assert file[1] == e[0];
    assert file[2..1 + |e|] == e[1..];
    EncodedLengthValue(n);
  }

  lemma EncodedLengthValue(n: nat)
    ensures var e := EncodeLength(n);
            if n < 0x80 then e == [n]
            else 1 < |e| <= 4 && e[0] == 0x80 + (|e| - 1) && (BigEndian(e[1..]) == n <==> n < 0x100_0000)
  {
    if n >= 0x80 {
      var e := EncodeLength(n);
      var t := e[1..];
      BigEndianBound(t);
      assert Pow256(3) == 0x100_0000;
      if |t| == 1 {
        assert t[..0] == [];
      } else if |t| == 2 {
        assert t[..1] == [t[0]] && t[..1][..0] == [];
      } else {
        ThreeBytesValue(t[0], t[1], t[2]);
        assert t == [t[0], t[1], t[2]];
        if n < 0x100_0000 {
          ThreeBytes(n);
        }
      }
    }
  }

  lemma ThreeBytesValue(a: byte, b: byte, c: byte)
    ensures BigEndian([a, b, c]) == (a as int * 256 + b) * 256 + c
  {
    assert [a, b, c][..2] == [a, b] && [a, b][..1] == [a] && [a][..0] == [];
    assert BigEndian([a]) == a && BigEndian([a, b]) == a as int * 256 + b;
  }

  lemma ThreeBytes(n: nat)
    requires n < 0x100_0000
    ensures (n / 0x1_0000 % 0x100 * 256 + n / 0x100 % 0x100) * 256 + n % 0x100 == n
  {
    var q, r := n / 0x100, n % 0x100;
    var a, b := q / 0x100, q % 0x100;
    assert n == 0x1_0000 * a + (0x100 * b + r);
    assert n / 0x1_0000 == a;
    var x, y := n / 0x1_0000 % 0x100, n / 0x100 % 0x100;
    assert x == a && y == b;
  }

  /**
   The length is written as BerLength's own writer would, except for 255 and 65535, which take one byte more, and from
   2^24 on, where it does not fit.
   */
  lemma EncodeLengthIff(n: uint32)
    ensures EncodeLength(n) == EncodeBerLength(n) <==> n != 0xFF && n != 0xFFFF && n < 0x100_0000
    ensures EncodeLength(0xFF) == [0x82, 0x00, 0xFF] && EncodeLength(0xFFFF) == [0x83, 0x00, 0xFF, 0xFF]
  {
    var w := LongFormWidth(n);
    if n >= 0x80 {
      if w == 1 {
        assert ToBytes(n, 1) == ToBytes(n / 256, 0) + [n % 256];
      } else if w == 2 {
        TwoByteForm(n);
      } else if w == 3 {
        ThreeByteForm(n);
      } else {
        assert |EncodeBerLength(n)| == 5;
      }
    }
  }

  lemma TwoByteForm(n: nat)
    ensures ToBytes(n, 2) == [n / 0x100 % 0x100, n % 0x100]
  {
    assert ToBytes(n, 2) == ToBytes(n / 256, 1) + [n % 256] && ToBytes(n / 256, 1) == ToBytes(n / 256 / 256, 0) + [n / 256 % 256];
  }

  lemma ThreeByteForm(n: nat)
    ensures ToBytes(n, 3) == [n / 0x1_0000 % 0x100, n / 0x100 % 0x100, n % 0x100]
  {
    TwoByteForm(n / 256);
    assert n / 256 / 0x100 == n / 0x1_0000;
    assert ToBytes(n, 3) == ToBytes(n / 256, 2) + [n % 256];
  }

  // ---------------------------------------------------------------- the load file

  function Present(files: map<string, seq<byte>>, name: string): seq<byte> {
    if name in files then files[name] else []
  }

  /** Each present file stands behind those before it in the list and before those behind it. */
  lemma {:induction false} FilesInOrder(files: map<string, seq<byte>>, names: seq<string>, k: nat)
    requires k < |names|
    ensures FilesData(files, names)
         == FilesData(files, names[..k]) + Present(files, names[k]) + FilesData(files, names[k + 1..])
  {
    if k == 0 {
      assert FilesData(files, names[..0]) == [];
    } else {
      var rest := names[1..];
      FilesInOrder(files, rest, k - 1);
      assert rest[..k - 1] == names[..k][1..] && rest[k..] == names[k + 1..];
      var a, b, c := FilesData(files, rest[..k - 1]), Present(files, rest[k - 1]), FilesData(files, rest[k..]);
      Associative(Present(files, names[0]), a + b, c);
      Associative(Present(files, names[0]), a, b);
    }
  }

  /** The encoded file: its tag, a length that decodes to that of the contents below 2^24 bytes, and the ten files. */
  lemma EncodedFilesDecode(files: map<string, seq<byte>>)
    ensures var file := EncodedFiles(files);
            var contents := FilesData(files, ["Header", "Directory", "Import", "Applet", "Class", "Method", "StaticField",
                                              "Export", "ConstantPool", "RefLocation"]);
            && |file| > 1 && file[0] == 0xC4 && BerLength(file, 1).Ok?
            && BerLength(file, 1).value.1 == |file| - |contents| && file[|file| - |contents|..] == contents
            && (BerLength(file, 1).value.0 == |contents| <==> |contents| < 0x100_0000)
  {
    HeaderLengthIff(FilesData(files, INTERNAL_FILES));
  }
}
