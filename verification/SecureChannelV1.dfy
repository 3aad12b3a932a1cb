/**
 Secure Channel V1: AES-CBC, where the MAC of each message is the chaining value that encrypts the next.
 The MAC itself starts from zero and covers a header and the ciphertext, not the chaining value. The client
 object, and the session as a value with one function per operation. V1Runs states what holds over runs.
 */
module SecureChannelV1 {
  import opened Bytes
  import opened Apdus
  import opened Ccm
  import opened Channels
  import opened CbcCrypto

  const SW_SECURITY_CONDITION_NOT_SATISFIED: uint16 := 0x6982
  const SALT_SIZE: nat := 32

  /** The fields operations read and write; an absent key or empty iv is the original's nil. */
  datatype Session = Session(open: bool, established: bool, encKey: Option<seq<byte>>, macKey: Option<seq<byte>>, iv: seq<byte>)

  function KeyBytes(key: Option<seq<byte>>): seq<byte> {
    if key.Some? then key.value else []
  }

  function CommandMeta(req: Request, enc: seq<byte>): seq<byte> {
    [req.cla, req.ins, req.p1, req.p2, (|enc| + 16) % 256] + Zeros(11)
  }

  function ReplyMeta(length: nat): seq<byte> {
    [length % 256] + Zeros(15)
  }

  /** The MAC becomes the chaining value; a MAC that cannot be computed closes the session. */
  function Chained(E: KeyedCipher, s: Session, meta: seq<byte>, data: seq<byte>): Session {
    match Mac(E, KeyBytes(s.macKey), meta, data)
    case Err(_) => s.(open := false)
    case Ok(mac) => s.(iv := mac)
  }

  /** What ProtectedCommand does to the session and answers. */
  function Protected(E: KeyedCipher, s: Session, req: Request): (Session, Result<Apdu, Error>) {
    if !s.open then (s, if s.established then Err(SessionClosed) else Ok(req.Command()))
    else if s.encKey.None? then (s, Err(NoKey))
    else
      match EncryptedData(E, s.encKey.value, s.iv, req.data)
      case Err(e) => (s, Err(e))
      case Ok(enc) =>
        if |enc| + 16 > 255 then (s, Err(PayloadTooLarge))
        else
          var s' := Chained(E, s, CommandMeta(req, enc), enc);
          (s', Ok(NewCommand(req.cla, req.ins, req.p1, req.p2, s'.iv + enc)))
  }

  /** What Transmit does to the session and answers. */
  function Transmitted(E: KeyedCipher, D: KeyedCipher, s: Session, reply: Reply): (Session, Reply) {
    var closed := s.(open := false);
    if reply.Err? then (closed, reply)
    else if reply.value.Sw() == SW_SECURITY_CONDITION_NOT_SATISFIED then (closed, reply)
    else if !s.open then (s, reply)
    else if |reply.value.data| < 16 then (closed, Err(ReplyTooShort))
    else
      var mac, enc := reply.value.data[..16], reply.value.data[16..];
      match DecryptedData(D, KeyBytes(s.encKey), s.iv, enc)
      case Err(e) => (closed, Err(e))
      case Ok(plain) =>
        var s' := Chained(E, s, ReplyMeta(|reply.value.data|), enc);
        if s'.iv != mac then (s'.(open := false), Err(InvalidMac)) else (s', FromWire(plain))
  }

  /** What sendProtected does over a channel: the protected command, and no other, goes out. */
  function Sent(E: KeyedCipher, D: KeyedCipher, s: Session, req: Request, ch: Channel): (Session, Reply) {
    match Protected(E, s, req)
    case (s', Err(e)) => (s', Err(e))
    case (s', Ok(cmd)) => Transmitted(E, D, s', ch(cmd))
  }

  // ---------------------------------------------------------------- opening

  type Key = s: seq<byte> | |s| == 32 witness Zeros(32)

  /** Session keys from the card's salt; absent before GenerateSecret and pairing. */
  type Derivation = Option<seq<byte> -> (Key, Key)>

  /** What processOpenResponse does. */
  function KeysInstalled(s: Session, derive: seq<byte> -> (Key, Key), data: seq<byte>): (Session, Result<(), Error>) {
    if |data| != SALT_SIZE + 16 then (s, Err(HandshakeRefused))
    else
      var (enc, mac) := derive(data[..SALT_SIZE]);
      (Session(true, s.established, Some(enc), Some(mac), data[SALT_SIZE..]), Ok(()))
  }

  /** What MutuallyAuthenticate does with a random challenge. */
  function Authenticated(E: KeyedCipher, D: KeyedCipher, s: Session, challenge: seq<byte>,
                         ch: Channel): (Session, Result<(), Error>)
  {
    var (s', got) := Sent(E, D, s, Request(CLA_GP, INS_MUTUALLY_AUTHENTICATE, 0, 0, challenge), ch);
    if got.Err? then (s', Err(got.error))
    else if got.value.Sw() != SW_OK || |got.value.data| != 32 then (s', Err(HandshakeRefused))
    else (s', Ok(()))
  }

  /** What AutoOpen does with the card's answer to OPEN SECURE CHANNEL and the channel of the second command. */
  function Opened(E: KeyedCipher, D: KeyedCipher, s: Session, derive: Derivation, challenge: seq<byte>,
                  opening: Reply, ch: Channel): (Session, Result<(), Error>)
  {
    var closed := s.(open := false);
    if derive.None? then (s, Err(HandshakeRefused))
    else if opening.Err? then (closed, Err(opening.error))
    else if opening.value.Sw() != SW_OK then (closed, Err(HandshakeRefused))
    else
      match KeysInstalled(closed, derive.value, opening.value.data)
      case (s1, Err(e)) => (s1, Err(e))
      case (s1, Ok(_)) =>
        match Authenticated(E, D, s1, challenge, ch)
        case (s2, Err(e)) => (s2, Err(e))
        case (s2, Ok(_)) => (s2.(established := true), Ok(()))
  }

  // ---------------------------------------------------------------- the client

  class Client {
    const E: KeyedCipher
    const D: KeyedCipher
    var open: bool
    var established: bool
    var encKey: Option<seq<byte>>
    var macKey: Option<seq<byte>>
    var iv: seq<byte>

    function State(): Session
      reads this
    {
      Session(open, established, encKey, macKey, iv)
    }

    constructor (E: KeyedCipher, D: KeyedCipher)
      ensures this.E == E && this.D == D && State() == Session(false, false, None, None, [])
    {
      this.E, this.D := E, D;
      open, established := false, false;
      encKey, macKey, iv := None, None, [];
    }

    method Init(iv: seq<byte>, encKey: seq<byte>, macKey: seq<byte>)
      modifies this
      ensures State() == Session(true, true, Some(encKey), Some(macKey), iv)
    {
      this.iv := iv;
      this.encKey := Some(encKey);
      this.macKey := Some(macKey);
      open := true;
      established := true;
    }

    method Reset()
      modifies this
      ensures State() == Session(false, false, None, None, [])
    {
      open := false;
      established := false;
      encKey := None;
      macKey := None;
      iv := [];
    }

    method UpdateIV(meta: seq<byte>, data: seq<byte>)
      modifies this`open, this`iv
      ensures State() == Chained(E, old(State()), meta, data)
    {
      var mac := CalculateMAC(E, meta, data, KeyBytes(macKey));
      if mac.Err? {
        open := false;
        return;
      }
      iv := mac.value;
    }

    method ProtectedCommand(req: Request) returns (r: Result<Apdu, Error>)
      modifies this`open, this`iv
      ensures (State(), r) == Protected(E, old(State()), req)
    {
      if !open {
        if established {
          return Err(SessionClosed);
        }
        return Ok(req.Command());
      }
      if encKey.None? {
        return Err(NoKey);
      }
      var encrypted := EncryptData(E, req.data, encKey.value, iv);
      if encrypted.Err? {
        return Err(encrypted.error);
      }
      var enc := encrypted.value;
      if |enc| + 16 > 255 {
        return Err(PayloadTooLarge);
      }
      UpdateIV(CommandMeta(req, enc), enc);
      return Ok(NewCommand(req.cla, req.ins, req.p1, req.p2, iv + enc));
    }

    method Transmit(ch: Channel, cmd: Apdu) returns (r: Reply)
      modifies this`open, this`iv
      ensures (State(), r) == Transmitted(E, D, old(State()), ch(cmd))
    {
      var reply := ch(cmd);
      if reply.Err? {
        open := false;
        return reply;
      }
      var resp := reply.value;
      if resp.Sw() == SW_SECURITY_CONDITION_NOT_SATISFIED {
        open := false;
      }
      if !open {
        return reply;
      }
      if |resp.data| < 16 {
        open := false;
        return Err(ReplyTooShort);
      }
      var rmac, rdata := resp.data[..16], resp.data[16..];
      var plain := DecryptData(D, rdata, KeyBytes(encKey), iv);
      if plain.Err? {
        open := false;
        return Err(plain.error);
      }
      UpdateIV(ReplyMeta(|resp.data|), rdata);
      if iv != rmac {
        open := false;
        return Err(InvalidMac);
      }
      return FromWire(plain.value);
    }

    /** ProtectedCommand, then Transmit. */
    method Send(req: Request, ch: Channel) returns (r: Reply)
      modifies this`open, this`iv
      ensures (State(), r) == Sent(E, D, old(State()), req, ch)
    {
      var cmd := ProtectedCommand(req);
      if cmd.Err? {
        return Err(cmd.error);
      }
      r := Transmit(ch, cmd.value);
    }

    method ProcessOpenResponse(derive: seq<byte> -> (Key, Key), data: seq<byte>) returns (r: Result<(), Error>)
      modifies this
      ensures (State(), r) == KeysInstalled(old(State()), derive, data)
    {
      if |data| != SALT_SIZE + 16 {
        return Err(HandshakeRefused);
      }
      var (enc, mac) := derive(data[..SALT_SIZE]);
      encKey := Some(enc);
      macKey := Some(mac);
      iv := data[SALT_SIZE..];
      open := true;
      return Ok(());
    }

    method MutuallyAuthenticate(challenge: seq<byte>, ch: Channel) returns (r: Result<(), Error>)
      modifies this`open, this`iv
      ensures (State(), r) == Authenticated(E, D, old(State()), challenge, ch)
    {
      var got := Send(Request(CLA_GP, INS_MUTUALLY_AUTHENTICATE, 0, 0, challenge), ch);
      if got.Err? {
        return Err(got.error);
      }
      if got.value.Sw() != SW_OK {
        return Err(HandshakeRefused);
      }
      if |got.value.data| != 32 {
        return Err(HandshakeRefused);
      }
      return Ok(());
    }

    method OpenSecureChannel(ch: Channel, index: byte, data: seq<byte>) returns (r: Reply)
      modifies this`open
      ensures State() == old(State()).(open := false) && r == ch(Apdu(0x80, 0x10, index, 0x00, data, None))
    {
      open := false;
      return ch(OpenCommand(index, data));
    }

    /** opening is the channel for the first command, ch the one for the second. */
    method AutoOpen(opening: Channel, ch: Channel, index: byte, publicKey: seq<byte>, derive: Derivation,
                    challenge: seq<byte>)
      returns (r: Result<(), Error>)
      modifies this
      ensures var answer := opening(Apdu(0x80, 0x10, index, 0x00, publicKey, None));
              (State(), r) == Opened(E, D, old(State()), derive, challenge, answer, ch)
    {
      if derive.None? {
        return Err(HandshakeRefused);
      }
      var answer := OpenSecureChannel(opening, index, publicKey);
      if answer.Err? {
        return Err(answer.error);
      }
      if answer.value.Sw() != SW_OK {
        return Err(HandshakeRefused);
      }
      r := ProcessOpenResponse(derive.value, answer.value.data);
      if r.Err? {
        return;
      }
      r := MutuallyAuthenticate(challenge, ch);
      if r.Err? {
        return;
      }
      established := true;
    }
  }
}
