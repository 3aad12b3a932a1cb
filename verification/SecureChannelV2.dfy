/**
 Secure Channel V2: the client object, and the session as a value with one function per operation.

 The channel is whatever answer it gives; the handshake's elliptic-curve and hash steps are
 arbitrary functions. V2Runs states what holds over whole runs.
 */
module SecureChannelV2 {
  import opened Bytes
  import opened Apdus
  import opened Ccm
  import opened Channels
  import Der = DerSignature

  const PUBKEY_SIZE: nat := 65

  /** The fields of the client that operations read and write. */
  datatype Session = Session(open: bool, keyH2C: Option<seq<byte>>, keyC2H: Option<seq<byte>>, nonce: Nonce)

  // ---------------------------------------------------------------- protected commands

  /** The inner APDU: always with an Lc byte, also when there is no data. */
  function Inner(req: Request): seq<byte>
    requires |req.data| <= 255
  {
    [req.cla, req.ins, req.p1, req.p2, |req.data|] + req.data
  }

  /** What ProtectedCommand answers; it does not change the session. */
  function Protected(E: KeyedCipher, s: Session, req: Request): Result<Apdu, Error> {
    if !s.open then Ok(req.Command())
    else if |req.data| > 255 then Err(PayloadTooLarge)
    else if s.keyH2C.None? then Err(NoKey)
    else
      match AesEncrypted(E, s.keyH2C.value, s.nonce, Inner(req))
      case Err(e) => Err(Crypto(e))
      case Ok(c) => Ok(NewCommand(CLA_GP, INS_SECURED_APDU, 0, 0, c))
  }

  /** The plaintext of a reply, if it is one the session accepts. */
  function Accepted(E: KeyedCipher, s: Session, reply: Reply): Result<seq<byte>, Error> {
    if reply.Err? then Err(reply.error)
    else if s.keyC2H.None? then Err(NoKey)
    else
      match AesDecrypted(E, s.keyC2H.value, s.nonce, reply.value.data)
      case Err(e) => Err(Crypto(e))
      case Ok(p) => Ok(p)
  }

  predicate AllOnes(nonce: Nonce) {
    forall i :: 0 <= i < |nonce| ==> nonce[i] == 255
  }

  /** The session with the next nonce; running out of nonces closes it. */
  function Advanced(s: Session): Session {
    s.(nonce := Increment(s.nonce), open := s.open && !AllOnes(s.nonce))
  }

  /** What Transmit does to the session and answers. */
  function Transmitted(E: KeyedCipher, s: Session, reply: Reply): (Session, Reply) {
    if reply.Err? then (s.(open := false), reply)
    else if reply.value.Sw() != SW_OK then (s.(open := false), reply)
    else if !s.open then (s, reply)
    else
      match Accepted(E, s, reply)
      case Err(e) => (s.(open := false), Err(e))
      case Ok(p) => (Advanced(s), FromWire(p))
  }

  /** What sendProtected does over a channel: the protected command, and no other, goes out. */
  function Sent(E: KeyedCipher, s: Session, req: Request, ch: Channel): (Session, Reply) {
    match Protected(E, s, req)
    case Err(e) => (s, Err(e))
    case Ok(cmd) => Transmitted(E, s, ch(cmd))
  }

  // ---------------------------------------------------------------- opening and closing

  type KeyMaterial = s: seq<byte> | |s| == 32 witness Zeros(32)

  /** Key agreement from the card's public key (absent if that key is no point), and the transcript check. */
  datatype Handshake = Handshake(derive: seq<byte> -> Option<KeyMaterial>, verify: (seq<byte>, seq<byte>, seq<byte>) -> bool)

  /** What processHandshakeResponse does: keys go in first, and out again if the signature fails. */
  function HandshakeDone(s: Session, h: Handshake, data: seq<byte>): (Session, Result<(), Error>) {
    if |data| < PUBKEY_SIZE + 2 then (s, Err(HandshakeRefused))
    else
      match h.derive(data[..PUBKEY_SIZE])
      case None => (s, Err(HandshakeRefused))
      case Some(okm) =>
        match Der.ParsedDer(data[PUBKEY_SIZE..])
        case Err(_) => (s.(keyH2C := None, keyC2H := None), Err(HandshakeRefused))
        case Ok(rs) =>
          if h.verify(data[..PUBKEY_SIZE], rs.0, rs.1)
          then (Session(true, Some(okm[..16]), Some(okm[16..]), Zeros(13)), Ok(()))
          else (s.(keyH2C := None, keyC2H := None), Err(HandshakeRefused))
  }

  /** What AutoOpen does with the card's answer to OPEN SECURE CHANNEL. */
  function Opened(s: Session, h: Handshake, reply: Reply): (Session, Result<(), Error>) {
    var closed := s.(open := false);
    if reply.Err? then (closed, Err(reply.error))
    else if reply.value.Sw() != SW_OK then (closed, Err(HandshakeRefused))
    else HandshakeDone(closed, h, reply.value.data)
  }

  const FRESH_SESSION: Session := Session(false, None, None, Zeros(13))

  // ---------------------------------------------------------------- the carry

  /** The bytes from k on are all ones, so the increment zeroes them and carries into the others. */
  ghost predicate Carried(nonce: Nonce, k: nat)
    requires k <= 13
  {
    && (forall j :: k <= j < 13 ==> nonce[j] == 255)
    && Increment(nonce) == Increment(nonce[..k]) + Zeros(13 - k)
  }

  lemma CarryStep(nonce: Nonce, i: nat)
    requires i < 13 && Carried(nonce, i + 1)
    ensures if nonce[i] == 255 then Carried(nonce, i)
            else Increment(nonce) == nonce[..i] + [nonce[i] + 1] + Zeros(12 - i) && !AllOnes(nonce)
  {
    var prefix := nonce[..i + 1];
    assert prefix[|prefix| - 1] == nonce[i] && prefix[..|prefix| - 1] == nonce[..i];
    if nonce[i] == 255 {
      CarriedOn(Increment(nonce[..i]), 12 - i);
    }
  }

  lemma CarriedOn(prefix: seq<byte>, n: nat)
    ensures prefix + [0] + Zeros(n) == prefix + Zeros(n + 1)
  {
  }

  // ---------------------------------------------------------------- the client

  class Client {
    const E: KeyedCipher
    var open: bool
    var keyH2C: Option<seq<byte>>
    var keyC2H: Option<seq<byte>>
    const nonceCounter: array<byte>

    ghost predicate Valid() {
      nonceCounter.Length == 13
    }

    function State(): Session
      requires Valid()
      reads this, nonceCounter
    {
      Session(open, keyH2C, keyC2H, nonceCounter[..])
    }

    constructor (E: KeyedCipher)
      ensures Valid() && this.E == E && State() == FRESH_SESSION && fresh(nonceCounter)
    {
      this.E := E;
      this.open := false;
      this.keyH2C, this.keyC2H := None, None;
      this.nonceCounter := new byte[13](i => 0);
      new;
      assert nonceCounter[..] == Zeros(13);
    }

    method ZeroNonce()
      requires Valid()
      modifies nonceCounter
      ensures nonceCounter[..] == Zeros(13)
    {
      forall i | 0 <= i < 13 {
        nonceCounter[i] := 0;
      }
    }

    method Reset()
      requires Valid()
      modifies this, nonceCounter
      ensures State() == FRESH_SESSION
    {
      open := false;
      ZeroizeKeys();
      ZeroNonce();
    }

    method ZeroizeKeys()
      requires Valid()
      modifies this`keyH2C, this`keyC2H
      ensures keyH2C == keyC2H == None
    {
      keyH2C := None;
      keyC2H := None;
    }

    /** Salt and ephemeral public key are the random inputs; h stands for what is computed from them. */
    method AutoOpen(ch: Channel, salt: seq<byte>, clientPub: seq<byte>, h: Handshake) returns (r: Result<(), Error>)
      requires Valid()
      modifies this, nonceCounter
      ensures (State(), r) == Opened(old(State()), h, ch(Apdu(0x80, 0x10, 0x00, 0x00, salt + clientPub, None)))
    {
      open := false;
      var requestData := salt;
      requestData := requestData + clientPub;
      var reply := ch(OpenCommand(0, requestData));
      if reply.Err? {
        return Err(reply.error);
      }
      if reply.value.Sw() != SW_OK {
        return Err(HandshakeRefused);
      }
      r := ProcessHandshakeResponse(h, reply.value.data);
    }

    method ProcessHandshakeResponse(h: Handshake, data: seq<byte>) returns (r: Result<(), Error>)
      requires Valid()
      modifies this, nonceCounter
      ensures (State(), r) == HandshakeDone(old(State()), h, data)
    {
      if |data| < PUBKEY_SIZE + 2 {
        return Err(HandshakeRefused);
      }
      var okm := h.derive(data[..PUBKEY_SIZE]);
      if okm.None? {
        return Err(HandshakeRefused);
      }
      keyH2C := Some(okm.value[..16]);
      keyC2H := Some(okm.value[16..]);
      var rs := Der.ParseDerSignature(data[PUBKEY_SIZE..]);
      if rs.Err? || !h.verify(data[..PUBKEY_SIZE], rs.value.0, rs.value.1) {
        ZeroizeKeys();
        return Err(HandshakeRefused);
      }
      ZeroNonce();
      open := true;
      return Ok(());
    }

    /** Sends OPEN SECURE CHANNEL and hands back whatever comes. */
    method OpenSecureChannel(ch: Channel, data: seq<byte>) returns (r: Reply)
      requires Valid()
      modifies this`open
      ensures State() == old(State()).(open := false) && r == ch(Apdu(0x80, 0x10, 0x00, 0x00, data, None))
    {
      open := false;
      return ch(OpenCommand(0, data));
    }

    method ProtectedCommand(req: Request) returns (r: Result<Apdu, Error>)
      requires Valid()
      ensures r == Protected(E, State(), req)
    {
      if !open {
        return Ok(req.Command());
      }
      if |req.data| > 255 {
        return Err(PayloadTooLarge);
      }
      var inner: seq<byte> := [req.cla, req.ins, req.p1, req.p2, |req.data|];
      inner := inner + req.data;
      if keyH2C.None? {
        return Err(NoKey);
      }
      var c := AesCcmEncrypt(E, keyH2C.value, nonceCounter[..], inner);
      if c.Err? {
        return Err(Crypto(c.error));
      }
      return Ok(NewCommand(CLA_GP, INS_SECURED_APDU, 0, 0, c.value));
    }

    method Transmit(ch: Channel, cmd: Apdu) returns (r: Reply)
      requires Valid()
      modifies this, nonceCounter
      ensures (State(), r) == Transmitted(E, old(State()), ch(cmd))
    {
      var reply := ch(cmd);
      if reply.Err? {
        open := false;
        return reply;
      }
      if reply.value.Sw() != SW_OK {
        open := false;
        return reply;
      }
      if !open {
        return reply;
      }
      if keyC2H.None? {
        open := false;
        return Err(NoKey);
      }
      var p := AesCcmDecrypt(E, keyC2H.value, nonceCounter[..], reply.value.data);
      if p.Err? {
        open := false;
        return Err(Crypto(p.error));
      }
      IncrementNonce();
      return FromWire(p.value);
    }

    method SendProtected(req: Request, ch: Channel) returns (r: Reply)
      requires Valid()
      modifies this, nonceCounter
      ensures (State(), r) == Sent(E, old(State()), req, ch)
    {
      var cmd := ProtectedCommand(req);
      if cmd.Err? {
        return Err(cmd.error);
      }
      r := Transmit(ch, cmd.value);
    }

    method IncrementNonce()
      requires Valid()
      modifies this`open, nonceCounter
      ensures State() == Advanced(old(State()))
    {
      ghost var was := nonceCounter[..];
      var i := 12;
      assert was[..13] == was && Zeros(0) == [];
      while i >= 0
        invariant -1 <= i <= 12
        invariant nonceCounter[..] == was[..i + 1] + Zeros(12 - i)
        invariant Carried(was, i + 1)
        invariant open == old(open)
      {
        CarryStep(was, i);
        nonceCounter[i] := (nonceCounter[i] as int + 1) % 256;
        assert nonceCounter[..] == was[..i] + [(was[i] as int + 1) % 256] + Zeros(12 - i);
        if nonceCounter[i] != 0 {
          return;
        }
        CarriedOn(was[..i], 12 - i);
        i := i - 1;
      }
      assert was[..0] == [] && AllOnes(was);
      open := false;
    }
  }
}
