/** Command and response APDUs: their wire form, and the readers and writers the code uses. */
module Apdus {
  import opened Bytes

  const SW_OK: uint16 := 0x9000

  /** A command as a value; le is present when the code's requiresLe flag is set. */
  datatype Apdu = Apdu(cla: byte, ins: byte, p1: byte, p2: byte, data: seq<byte>, le: Option<byte>)

  datatype Response = Response(data: seq<byte>, sw1: byte, sw2: byte)
  {
    function Sw(): uint16 {
      sw1 * 256 + sw2
    }
  }

  datatype ApduError = BadRawCommand | BadRawResponse

  function NewCommand(cla: byte, ins: byte, p1: byte, p2: byte, data: seq<byte>): Apdu {
    Apdu(cla, ins, p1, p2, data, None)
  }

  /** The wire form: Lc is one byte, so it is the data length modulo 256. */
  function Wire(c: Apdu): seq<byte> {
    [c.cla, c.ins, c.p1, c.p2]
    + (if c.data == [] then [] else [|c.data| % 256] + c.data)
    + (if c.le.Some? then [c.le.value] else [])
  }

  /** What ParseCommand reads: a missing or short body is not an error, it leaves the data empty. */
  function Parsed(raw: seq<byte>): Result<Apdu, ApduError> {
    if |raw| < 4 then Err(BadRawCommand)
    else if |raw| == 4 || |raw| - 5 < raw[4] then Ok(Apdu(raw[0], raw[1], raw[2], raw[3], [], None))
    else
      var end := raw[4] as int + 5;
      Ok(Apdu(raw[0], raw[1], raw[2], raw[3], raw[5..end], if end < |raw| then Some(raw[end]) else None))
  }

  function ParsedResponse(raw: seq<byte>): Result<Response, ApduError> {
    if |raw| < 2 then Err(BadRawResponse)
    else Ok(Response(raw[..|raw| - 2], raw[|raw| - 2], raw[|raw| - 1]))
  }

  /** A command object, filled field by field. */
  class Command {
    var cla: byte
    var ins: byte
    var p1: byte
    var p2: byte
    var data: seq<byte>
    var le: byte
    var requiresLe: bool

    constructor (cla: byte, ins: byte, p1: byte, p2: byte, data: seq<byte>)
      ensures Value() == NewCommand(cla, ins, p1, p2, data)
    {
      this.cla, this.ins, this.p1, this.p2, this.data := cla, ins, p1, p2, data;
      this.le, this.requiresLe := 0, false;
    }

    function Value(): Apdu
      reads this
    {
      Apdu(cla, ins, p1, p2, data, if requiresLe then Some(le) else None)
    }

    method SetLe(le: byte)
      modifies this
      ensures Value() == old(Value()).(le := Some(le))
    {
      this.requiresLe := true;
      this.le := le;
    }

    method Serialize() returns (buf: seq<byte>)
      ensures buf == Wire(Value())
    {
      buf := [cla];
      buf := buf + [ins];
      buf := buf + [p1];
      buf := buf + [p2];
      if |data| > 0 {
        var lc: byte := |data| % 256;
        buf := buf + [lc];
        buf := buf + data;
      }
      if requiresLe {
        buf := buf + [le];
      }
    }

    /** Reads raw into the fields of a fresh command. */
    method Deserialize(raw: seq<byte>) returns (r: Result<(), ApduError>)
      requires data == [] && !requiresLe
      modifies this
      ensures Parsed(raw).Err? ==> r == Err(Parsed(raw).error) && Value() == old(Value())
      ensures Parsed(raw).Ok? ==> r == Ok(()) && Value() == Parsed(raw).value
    {
      if |raw| < 4 {
        return Err(BadRawCommand);
      }
      cla := raw[0];
      ins := raw[1];
      p1 := raw[2];
      p2 := raw[3];
      var rest := raw[4..];
      if rest == [] {
        return Ok(());
      }
      var lc := rest[0];
      rest := rest[1..];
      if |rest| < lc {
        return Ok(());
      }
      data := rest[..lc];
      assert data == raw[5..5 + lc];
      rest := rest[lc..];
      if rest != [] {
        assert rest[0] == raw[5 + lc];
        SetLe(rest[0]);
      }
      return Ok(());
    }
  }

  /** A response object, filled field by field. */
  class ResponseReader {
    var data: seq<byte>
    var sw1: byte
    var sw2: byte
    var sw: uint16

    constructor ()
      ensures data == [] && sw1 == sw2 == sw == 0
    {
      data, sw1, sw2, sw := [], 0, 0, 0;
    }

    method Deserialize(raw: seq<byte>) returns (r: Result<(), ApduError>)
      modifies this
      ensures ParsedResponse(raw).Err? ==> r == Err(ParsedResponse(raw).error) && unchanged(this)
      ensures ParsedResponse(raw).Ok? ==>
                r == Ok(()) && Response(data, sw1, sw2) == ParsedResponse(raw).value
                && sw == ParsedResponse(raw).value.Sw()
    {
      if |raw| < 2 {
        return Err(BadRawResponse);
      }
      data := raw[..|raw| - 2];
      var rest := raw[|raw| - 2..];
      sw1 := rest[0];
      sw2 := rest[1];
      sw := sw1 * 256 + sw2;
      return Ok(());
    }
  }

  /** A command survives the wire exactly when Lc can hold its length and Le cannot be taken for Lc. */
  lemma WireRoundTripIff(c: Apdu)
    ensures Parsed(Wire(c)) == Ok(c) <==> |c.data| <= 255 && (c.data == [] ==> c.le.None?)
  {
    var raw := Wire(c);
    if c.data != [] {
      assert raw[4] == |c.data| % 256;
      if |c.data| <= 255 {
        assert raw[5..5 + |c.data|] == c.data;
      }
    }
  }

  /** What is written: four header bytes, and before any data their length modulo 256. */
  lemma WireLayout(c: Apdu)
    ensures var raw, le := Wire(c), if c.le.Some? then [c.le.value] else [];
            && raw[..4] == [c.cla, c.ins, c.p1, c.p2]
            && raw[4..] == (if c.data == [] then le else [|c.data| % 256] + c.data + le)
  {
  }

  /** What is read of any four bytes and more: a body shorter than its Lc is dropped; one byte behind it is Le. */
  lemma ParsedLayout(raw: seq<byte>)
    ensures Parsed(raw).Ok? <==> |raw| >= 4
    ensures Parsed(raw).Ok? ==>
              var c := Parsed(raw).value;
              && [c.cla, c.ins, c.p1, c.p2] == raw[..4]
              && if |raw| > 4 && |raw| >= raw[4] as int + 5
                 then var end := raw[4] as int + 5;
                      c.data == raw[5..end] && c.le == if |raw| == end then None else Some(raw[end])
                 else c.data == [] && c.le == None
  {
  }

  /** Every response of at least two bytes is its data followed by its status word. */
  lemma ResponseRoundTrip(raw: seq<byte>, r: Response)
    ensures ParsedResponse(raw) == Ok(r) <==> raw == r.data + [r.sw1, r.sw2]
  {
    if |raw| >= 2 {
      assert raw == raw[..|raw| - 2] + [raw[|raw| - 2], raw[|raw| - 1]];
    }
    if raw == r.data + [r.sw1, r.sw2] {
      assert raw[..|raw| - 2] == r.data;
    }
  }
}
