/** What both secure channels exchange with their callers and with the transport. */
module Channels {
  import opened Bytes
  import opened Apdus
  import Ccm

  const CLA_GP: byte := 0x80
  const INS_OPEN_SECURE_CHANNEL: byte := 0x10
  const INS_MUTUALLY_AUTHENTICATE: byte := 0x11
  const INS_SECURED_APDU: byte := 0x18

  datatype Error =
    | PayloadTooLarge
    | NoKey
    | SessionClosed
    | BadIv
    | BadCiphertextLength
    | MacInputTooShort
    | ReplyTooShort
    | InvalidMac
    | Crypto(ccm: Ccm.CcmError)
    | ChannelError
    | BadResponse(apdu: ApduError)
    | HandshakeRefused

  /** The answer of the transport to one command, or of a secure channel to its caller. */
  type Reply = Result<Response, Error>

  /** A transport for one command: what it answers to the bytes it is given. */
  type Channel = Apdu -> Reply

  datatype Request = Request(cla: byte, ins: byte, p1: byte, p2: byte, data: seq<byte>)
  {
    function Command(): Apdu {
      NewCommand(cla, ins, p1, p2, data)
    }
  }

  /** The command that opens a secure channel of either version. */
  function OpenCommand(index: byte, data: seq<byte>): Apdu {
    NewCommand(CLA_GP, INS_OPEN_SECURE_CHANNEL, index, 0, data)
  }

  function FromWire(raw: seq<byte>): Reply {
    match ParsedResponse(raw)
    case Ok(r) => Ok(r)
    case Err(e) => Err(BadResponse(e))
  }
}
