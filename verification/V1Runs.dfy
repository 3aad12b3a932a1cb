/** Secure Channel V1 over whole runs, against a card that verifies, decrypts and replies. */
module V1Runs {
  import opened Bytes
  import opened Apdus
  import opened Ccm
  import opened Channels
  import opened CbcCrypto
  import opened SecureChannelV1

  datatype Card = Card(encKey: seq<byte>, macKey: seq<byte>, iv: seq<byte>)

  const REFUSAL: seq<byte> := [0x69, 0x82]

  /** The card checks the MAC, decrypts under its chaining value, and chains its own reply to the command. */
  function Received(E: KeyedCipher, D: KeyedCipher, card: Card, raw: seq<byte>, answer: seq<byte>): (Card, Option<Apdu>, seq<byte>) {
    match Parsed(raw)
    case Err(_) => (card, None, REFUSAL)
    case Ok(c) =>
      if |c.data| < 16 then (card, None, REFUSAL)
      else
        var mac, enc := c.data[..16], c.data[16..];
        var meta := [c.cla, c.ins, c.p1, c.p2, |c.data| % 256] + Zeros(11);
        match (Mac(E, card.macKey, meta, enc), DecryptedData(D, card.encKey, card.iv, enc))
        case (Ok(m), Ok(plain)) =>
          if m != mac then (card, None, REFUSAL)
          else Answered(E, card.(iv := mac), NewCommand(c.cla, c.ins, c.p1, c.p2, plain), answer)
        case (_, _) => (card, None, REFUSAL)
  }

  function Answered(E: KeyedCipher, card: Card, decoded: Apdu, answer: seq<byte>): (Card, Option<Apdu>, seq<byte>) {
    match EncryptedData(E, card.encKey, card.iv, answer)
    case Err(_) => (card, None, REFUSAL)
    case Ok(enc) =>
      match Mac(E, card.macKey, [(|enc| + 16) % 256] + Zeros(15), enc)
      case Err(_) => (card, None, REFUSAL)
      case Ok(mac) => (card.(iv := mac), Some(decoded), mac + enc + [0x90, 0x00])
  }

  // ---------------------------------------------------------------- one exchange with a channel between

  /** What the channel does with one exchange: deliver both ways, or give the client some other reply. */
  datatype Fate = Delivered | Faulted(reached: bool, reply: Reply)

  datatype Step = Step(req: Request, answer: seq<byte>, fate: Fate)

  datatype System = System(client: Session, card: Card)

  datatype Outcome = Outcome(sys: System, decoded: Option<Apdu>, got: Reply)

  /** The channel of one exchange: the card's reply to the command it is given, or the fault's. */
  function Answering(E: KeyedCipher, D: KeyedCipher, card: Card, step: Step): Channel {
    (cmd: Apdu) =>
      match step.fate
      case Delivered => FromWire(Received(E, D, card, Wire(cmd), step.answer).2)
      case Faulted(_, reply) => reply
  }

  function Exchange(E: KeyedCipher, D: KeyedCipher, sys: System, step: Step): Outcome {
    var (client', got) := Sent(E, D, sys.client, step.req, Answering(E, D, sys.card, step));
    match Protected(E, sys.client, step.req)
    case (_, Err(_)) => Outcome(System(client', sys.card), None, got)
    case (_, Ok(cmd)) =>
      var (card', decoded, _) := Received(E, D, sys.card, Wire(cmd), step.answer);
      if step.fate.Delivered? || step.fate.reached then Outcome(System(client', card'), decoded, got)
      else Outcome(System(client', sys.card), None, got)
  }

  predicate Reaches(step: Step) {
    step.fate.Delivered? || step.fate.reached
  }

  /** The longest request whose ciphertext and MAC fit the one-byte Lc. */
  const MAX_PAYLOAD: nat := 223

  /** Both sides hold the same usable keys, and each some chaining value. */
  predicate SameKeys(sys: System) {
    && sys.client.encKey == Some(sys.card.encKey) && AesKey(sys.card.encKey)
    && sys.client.macKey == Some(sys.card.macKey) && AesKey(sys.card.macKey)
    && |sys.client.iv| == |sys.card.iv| == 16
  }

  /** Session open, same keys, same chaining value. */
  predicate LockStep(sys: System) {
    sys.client.open && SameKeys(sys) && sys.client.iv == sys.card.iv
  }

  // ---------------------------------------------------------------- the command

  lemma EncryptedLength(E: KeyedCipher, key: seq<byte>, iv: seq<byte>, data: seq<byte>)
    requires AesKey(key) && |iv| == 16
    ensures EncryptedData(E, key, iv, data).Ok?
    ensures |EncryptedData(E, key, iv, data).value| == |data| / 16 * 16 + 16
  {
  }

  /** A request is refused, without any effect, exactly when it has more than 223 bytes. */
  lemma RefusedIffTooLarge(E: KeyedCipher, sys: System, req: Request)
    requires sys.client.open && SameKeys(sys)
    ensures var (client', cmd) := Protected(E, sys.client, req);
            if |req.data| <= MAX_PAYLOAD then cmd.Ok? else cmd == Err(PayloadTooLarge) && client' == sys.client
  {
    EncryptedLength(E, sys.card.encKey, sys.client.iv, req.data);
  }

  /** The MAC of a request, which becomes the client's chaining value. */
  function RequestMac(E: KeyedCipher, sys: System, req: Request): Block
    requires SameKeys(sys)
  {
    EncryptedLength(E, sys.card.encKey, sys.client.iv, req.data);
    var enc := EncryptedData(E, sys.card.encKey, sys.client.iv, req.data).value;
    Mac(E, sys.card.macKey, CommandMeta(req, enc), enc).value
  }

  function RequestBody(E: KeyedCipher, sys: System, req: Request): (enc: seq<byte>)
    requires SameKeys(sys)
    ensures |enc| == |req.data| / 16 * 16 + 16
  {
    EncryptedLength(E, sys.card.encKey, sys.client.iv, req.data);
    EncryptedData(E, sys.card.encKey, sys.client.iv, req.data).value
  }

  /** The protected command is the MAC and the ciphertext, and the MAC is the client's new chaining value. */
  lemma ProtectedParts(E: KeyedCipher, sys: System, req: Request)
    requires sys.client.open && SameKeys(sys) && |req.data| <= MAX_PAYLOAD
    ensures var mac, enc := RequestMac(E, sys, req), RequestBody(E, sys, req);
            Protected(E, sys.client, req)
            == (sys.client.(iv := mac), Ok(NewCommand(req.cla, req.ins, req.p1, req.p2, mac + enc)))
  {
  }

  /** What a card with the same keys reads of a request: exact if the chaining values agree. */
  function AsRead(sys: System, req: Request): Apdu
    requires SameKeys(sys)
  {
    NewCommand(req.cla, req.ins, req.p1, req.p2, Misread(req.data, sys.client.iv, sys.card.iv))
  }

  lemma ReadExactly(sys: System, req: Request)
    requires SameKeys(sys) && sys.client.iv == sys.card.iv
    ensures AsRead(sys, req) == req.Command()
  {
    MisreadNothing(req.data, sys.card.iv);
  }

  /** The card accepts the MAC whatever its chaining value, and chains on. */
  lemma CardDecodes(E: KeyedCipher, D: KeyedCipher, sys: System, req: Request, answer: seq<byte>)
    requires Inverse(E, D) && SameKeys(sys) && |req.data| <= MAX_PAYLOAD
    ensures var mac, enc := RequestMac(E, sys, req), RequestBody(E, sys, req);
            Received(E, D, sys.card, Wire(NewCommand(req.cla, req.ins, req.p1, req.p2, mac + enc)), answer)
            == Answered(E, sys.card.(iv := mac), AsRead(sys, req), answer)
  {
    var mac, enc := RequestMac(E, sys, req), RequestBody(E, sys, req);
    var cmd := NewCommand(req.cla, req.ins, req.p1, req.p2, mac + enc);
    WireRoundTripIff(cmd);
    assert cmd.data[..16] == mac && cmd.data[16..] == enc;
    DecryptsUnderOtherIv(E, D, sys.card.encKey, sys.client.iv, sys.card.iv, req.data);
  }

  // ---------------------------------------------------------------- the reply

  /** A reply the card has sealed: its chaining value then, the answer, and the MAC and ciphertext. */
  datatype Issue = Issue(iv: Block, answer: seq<byte>, data: seq<byte>)

  predicate Genuine(E: KeyedCipher, encKey: seq<byte>, macKey: seq<byte>, issue: Issue) {
    && |issue.data| >= 32
    && EncryptedData(E, encKey, issue.iv, issue.answer) == Ok(issue.data[16..])
    && ExpectedMac(E, macKey, issue.data) == Ok(issue.data[..16])
  }

  function IssueOf(E: KeyedCipher, card: Card, answer: seq<byte>): (issue: Issue)
    requires AesKey(card.encKey) && AesKey(card.macKey) && |card.iv| == 16
    ensures Genuine(E, card.encKey, card.macKey, issue)
  {
    EncryptedLength(E, card.encKey, card.iv, answer);
    var enc := EncryptedData(E, card.encKey, card.iv, answer).value;
    var mac := Mac(E, card.macKey, [(|enc| + 16) % 256] + Zeros(15), enc).value;
    assert (mac + enc)[..16] == mac && (mac + enc)[16..] == enc;
    Issue(card.iv, answer, mac + enc)
  }

  lemma AnswersWithIssue(E: KeyedCipher, card: Card, decoded: Apdu, answer: seq<byte>)
    requires AesKey(card.encKey) && AesKey(card.macKey) && |card.iv| == 16
    ensures var data := IssueOf(E, card, answer).data;
            Answered(E, card, decoded, answer) == (card.(iv := data[..16]), Some(decoded), data + [0x90, 0x00])
  {
    EncryptedLength(E, card.encKey, card.iv, answer);
    var enc := EncryptedData(E, card.encKey, card.iv, answer).value;
    var mac := Mac(E, card.macKey, [(|enc| + 16) % 256] + Zeros(15), enc).value;
    assert (mac + enc)[..16] == mac;
  }

  /** The MAC of reply data: over their length, fifteen zeros and the ciphertext. The chaining value has no part in it. */
  function ExpectedMac(E: KeyedCipher, macKey: seq<byte>, data: seq<byte>): Result<seq<byte>, Error>
    requires |data| >= 16
  {
    Mac(E, macKey, [|data| % 256] + Zeros(15), data[16..])
  }

  /** Whole blocks under the right MAC for their length and contents. */
  predicate Authentic(E: KeyedCipher, macKey: seq<byte>, data: seq<byte>) {
    |data| >= 32 && |data| % 16 == 0 && ExpectedMac(E, macKey, data) == Ok(data[..16])
  }

  /** An open session with usable keys. */
  predicate Usable(s: Session) {
    s.open && AesKey(KeyBytes(s.encKey)) && AesKey(KeyBytes(s.macKey)) && |s.iv| == 16
  }

  /** No answer, or the status word 6982. */
  predicate Refused(reply: Reply) {
    reply.Err? || reply.value.Sw() == 0x6982
  }

  /** The caller gets a refusal as it came, and the session closes. */
  lemma RefusalComesBack(E: KeyedCipher, D: KeyedCipher, s: Session, reply: Reply)
    requires Refused(reply)
    ensures Transmitted(E, D, s, reply) == (s.(open := false), reply)
  {
  }

  /** A closed session hands every reply back as it came: pairing runs over it. */
  lemma ClosedHandsBack(E: KeyedCipher, D: KeyedCipher, s: Session, reply: Reply)
    requires !s.open
    ensures Transmitted(E, D, s, reply) == (s, reply)
  {
  }

  /** A session with usable keys that closes on anything but a refusal tells the caller so. */
  lemma ClosingIsAnError(E: KeyedCipher, D: KeyedCipher, s: Session, reply: Reply)
    requires Usable(s) && !Refused(reply) && !Transmitted(E, D, s, reply).0.open
    ensures Transmitted(E, D, s, reply).1.Err?
  {
  }

  /**
   Exactly what an open session protects, and how: ciphertext behind its new chaining value, which is the MAC of header,
   length and ciphertext. What it does not protect leaves it as it was; a MAC key it cannot use closes it.
   */
  lemma ProtectsIff(E: KeyedCipher, s: Session, req: Request)
    requires s.open
    ensures var (s', r) := Protected(E, s, req);
            && (r.Ok? <==> s.encKey.Some? && AesKey(s.encKey.value) && |s.iv| == 16 && |req.data| <= 223)
            && if r.Err? then s' == s
               else
                 var enc := EncryptedData(E, s.encKey.value, s.iv, req.data).value;
                 var mac := Mac(E, KeyBytes(s.macKey), [req.cla, req.ins, req.p1, req.p2, |enc| + 16] + Zeros(11), enc);
                 && s' == (if mac.Ok? then s.(iv := mac.value) else s.(open := false))
                 && r.value == Apdu(req.cla, req.ins, req.p1, req.p2, s'.iv + enc, None)
  {
  }

  /** Whatever the cipher, a reply under any other MAC closes the session and delivers nothing. */
  lemma WrongMacCloses(E: KeyedCipher, D: KeyedCipher, s: Session, reply: Response)
    requires s.open && AesKey(KeyBytes(s.macKey))
    requires reply.Sw() != SW_SECURITY_CONDITION_NOT_SATISFIED
    requires |reply.data| < 16 || ExpectedMac(E, KeyBytes(s.macKey), reply.data) != Ok(reply.data[..16])
    ensures var (s', got) := Transmitted(E, D, s, Ok(reply)); !s'.open && got.Err?
  {
  }

  /** And what an open session delivers came with the right MAC, which is now its chaining value. */
  lemma DeliveredIsAuthentic(E: KeyedCipher, D: KeyedCipher, s: Session, reply: Response)
    requires s.open && AesKey(KeyBytes(s.macKey)) && Transmitted(E, D, s, Ok(reply)).0.open
    ensures |reply.data| >= 16 && ExpectedMac(E, KeyBytes(s.macKey), reply.data) == Ok(reply.data[..16])
    ensures Transmitted(E, D, s, Ok(reply)).0 == s.(iv := reply.data[..16])
    ensures DecryptedData(D, KeyBytes(s.encKey), s.iv, reply.data[16..]).Ok?
    ensures Transmitted(E, D, s, Ok(reply)).1 == FromWire(DecryptedData(D, KeyBytes(s.encKey), s.iv, reply.data[16..]).value)
  {
  }

  /**
   Exactly when a reply, whoever sent it, leaves a session open: no refusal, whole blocks, and the MAC of their
   length and contents. What the chaining value is, and the request, take no part.
   */
  lemma StaysOpenIff(E: KeyedCipher, D: KeyedCipher, s: Session, reply: Reply)
    requires s.open
    ensures Transmitted(E, D, s, reply).0.open
       <==> && !Refused(reply) && AesKey(KeyBytes(s.encKey)) && |s.iv| == 16
            && Authentic(E, KeyBytes(s.macKey), reply.value.data)
  {
    if !Refused(reply) && AesKey(KeyBytes(s.macKey)) {
      var data := reply.value.data;
      if |data| < 16 || ExpectedMac(E, KeyBytes(s.macKey), data) != Ok(data[..16]) {
        WrongMacCloses(E, D, s, reply.value);
      } else {
        assert |data[16..]| == |data| - 16;
        if Transmitted(E, D, s, reply).0.open {
          DeliveredIsAuthentic(E, D, s, reply.value);
        }
      }
    }
  }

  /** So a reply accepted under one chaining value is accepted under every other. */
  lemma AcceptedUnderEveryIv(E: KeyedCipher, D: KeyedCipher, s: Session, reply: Reply, iv: Block)
    requires Usable(s)
    ensures Transmitted(E, D, s.(iv := iv), reply).0.open <==> Transmitted(E, D, s, reply).0.open
  {
    StaysOpenIff(E, D, s, reply);
    StaysOpenIff(E, D, s.(iv := iv), reply);
  }

  /** A genuine reply, whenever issued, is accepted; what is read depends on the two chaining values. */
  lemma GenuineAccepted(E: KeyedCipher, D: KeyedCipher, s: Session, reply: Response, issue: Issue)
    requires Inverse(E, D) && Usable(s) && Genuine(E, KeyBytes(s.encKey), KeyBytes(s.macKey), issue)
    requires reply.data == issue.data && reply.Sw() != SW_SECURITY_CONDITION_NOT_SATISFIED
    ensures Transmitted(E, D, s, Ok(reply))
         == (s.(iv := issue.data[..16]), FromWire(Misread(issue.answer, issue.iv, s.iv)))
  {
    DecryptsUnderOtherIv(E, D, KeyBytes(s.encKey), issue.iv, s.iv, issue.answer);
  }

  // ---------------------------------------------------------------- one exchange

  /** What the card issues in an exchange that reaches it. */
  function Emitted(E: KeyedCipher, sys: System, step: Step): seq<Issue> {
    if sys.client.open && SameKeys(sys) && |step.req.data| <= MAX_PAYLOAD && Reaches(step)
    then [IssueOf(E, sys.card.(iv := RequestMac(E, sys, step.req)), step.answer)]
    else []
  }

  /** The client once its command is out, and the card once it has answered. */
  lemma ExchangeParts(E: KeyedCipher, D: KeyedCipher, sys: System, step: Step)
    requires Inverse(E, D) && sys.client.open && SameKeys(sys) && |step.req.data| <= MAX_PAYLOAD
    ensures var mac := RequestMac(E, sys, step.req);
            var issue := IssueOf(E, sys.card.(iv := mac), step.answer);
            var reply := if step.fate.Delivered? then Ok(Response(issue.data, 0x90, 0x00)) else step.fate.reply;
            var (client', got) := Transmitted(E, D, sys.client.(iv := mac), reply);
            Exchange(E, D, sys, step)
            == if Reaches(step)
               then Outcome(System(client', sys.card.(iv := issue.data[..16])), Some(AsRead(sys, step.req)), got)
               else Outcome(System(client', sys.card), None, got)
  {
    ProtectedParts(E, sys, step.req);
    CardDecodes(E, D, sys, step.req, step.answer);
    var card := sys.card.(iv := RequestMac(E, sys, step.req));
    AnswersWithIssue(E, card, AsRead(sys, step.req), step.answer);
    var data := IssueOf(E, card, step.answer).data;
    ResponseRoundTrip(data + [0x90, 0x00], Response(data, 0x90, 0x00));
  }

  /** The client reads the answer of this exchange, and both sides hold the same chaining value. */
  predicate ReadsTheAnswer(o: Outcome, step: Step) {
    Reaches(step) && o.got == FromWire(step.answer) && LockStep(o.sys)
  }

  /** A delivered exchange: the caller gets the answer, and the chaining values agree, even if they did not before. */
  lemma DeliveredExchange(E: KeyedCipher, D: KeyedCipher, sys: System, step: Step)
    requires Inverse(E, D) && sys.client.open && SameKeys(sys) && step.fate.Delivered? && |step.req.data| <= MAX_PAYLOAD
    ensures var o := Exchange(E, D, sys, step);
            && ReadsTheAnswer(o, step)
            && o.decoded == Some(AsRead(sys, step.req))
            && (LockStep(sys) ==> o.decoded == Some(step.req.Command()))
  {
    var mac := RequestMac(E, sys, step.req);
    var issue := IssueOf(E, sys.card.(iv := mac), step.answer);
    ExchangeParts(E, D, sys, step);
    GenuineAccepted(E, D, sys.client.(iv := mac), Response(issue.data, 0x90, 0x00), issue);
    MisreadNothing(step.answer, mac);
    if LockStep(sys) {
      ReadExactly(sys, step.req);
    }
  }

  /**
   AutoOpen against a card with the same derived keys: the answer to OPEN SECURE CHANNEL carries salt and
   first chaining value, the second command is an ordinary exchange, and both sides end in lock-step.
   */
  lemma AutoOpenEndsInLockStep(E: KeyedCipher, D: KeyedCipher, s: Session, derive: Derivation, challenge: seq<byte>,
                               salt: seq<byte>, iv: seq<byte>, proof: seq<byte>)
    requires Inverse(E, D) && derive.Some? && |salt| == SALT_SIZE && |iv| == 16
    requires |challenge| == 32 && |proof| == 32
    ensures var (enc, mac) := derive.value(salt);
            var card := Card(enc, mac, iv);
            var req := Request(CLA_GP, INS_MUTUALLY_AUTHENTICATE, 0, 0, challenge);
            var step := Step(req, proof + [0x90, 0x00], Delivered);
            var before := Session(true, s.established, Some(enc), Some(mac), iv);
            var (s', r) := Opened(E, D, s, derive, challenge, Ok(Response(salt + iv, 0x90, 0x00)), Answering(E, D, card, step));
            && r == Ok(()) && s'.established
            && LockStep(System(s', Exchange(E, D, System(before, card), step).sys.card))
  {
    assert (salt + iv)[..SALT_SIZE] == salt && (salt + iv)[SALT_SIZE..] == iv;
    var (enc, mac) := derive.value(salt);
    var before := Session(true, s.established, Some(enc), Some(mac), iv);
    var step := Step(Request(CLA_GP, INS_MUTUALLY_AUTHENTICATE, 0, 0, challenge), proof + [0x90, 0x00], Delivered);
    DeliveredExchange(E, D, System(before, Card(enc, mac, iv)), step);
    ResponseRoundTrip(step.answer, Response(proof, 0x90, 0x00));
  }

  predicate Answers48(opening: Reply) {
    opening.Ok? && opening.value.Sw() == 0x9000 && |opening.value.data| == 48
  }

  /** The session that the first step of AutoOpen sets up: keys from the salt, and the chaining value behind it. */
  function Installed(s: Session, derive: seq<byte> -> (Key, Key), data: seq<byte>): Session
    requires |data| == 48
  {
    var (enc, mac) := derive(data[..32]);
    Session(true, s.established, Some(enc), Some(mac), data[32..])
  }

  /** The second step of AutoOpen: the protected MUTUALLY AUTHENTICATE. */
  function Second(E: KeyedCipher, D: KeyedCipher, installed: Session, challenge: seq<byte>, ch: Channel): (Session, Reply) {
    Sent(E, D, installed, Request(0x80, 0x11, 0, 0, challenge), ch)
  }

  /**
   Exactly when AutoOpen succeeds: the answer to OPEN SECURE CHANNEL has status 9000 and 48 bytes, and the protected
   MUTUALLY AUTHENTICATE under the keys and chaining value from it is answered by status 9000 and 32 bytes. Only then
   is the session established; a refused first step leaves it closed, a refused second one as that exchange left it.
   */
  lemma OpensIffAuthenticated(E: KeyedCipher, D: KeyedCipher, s: Session, derive: Derivation, challenge: seq<byte>,
                              opening: Reply, ch: Channel)
    ensures var (s', r) := Opened(E, D, s, derive, challenge, opening, ch);
            if derive.None? then s' == s && r.Err?
            else if !Answers48(opening) then s' == s.(open := false) && r.Err?
            else
              var (s2, got) := Second(E, D, Installed(s, derive.value, opening.value.data), challenge, ch);
              && (r.Ok? <==> got.Ok? && got.value.Sw() == 0x9000 && |got.value.data| == 32)
              && s' == s2.(established := s.established || r.Ok?)
  {
  }

  // ---------------------------------------------------------------- replays

  /** The reply of an earlier exchange, in place of an answer to a request the card never gets. */
  function Replay(req: Request, answer: seq<byte>, issue: Issue): Step {
    Step(req, answer, Faulted(false, Ok(Response(issue.data, 0x90, 0x00))))
  }

  /**
   After a delivered exchange, its reply answers the next request as well: the card never sees that request, the
   session stays open in lock-step, and the caller gets the old answer as read under the new chaining value.
   */
  lemma ReplayIsAccepted(E: KeyedCipher, D: KeyedCipher, sys: System, first: Step, req: Request, answer: seq<byte>)
    requires Inverse(E, D) && sys.client.open && SameKeys(sys)
    requires first.fate.Delivered? && |first.req.data| <= MAX_PAYLOAD && |req.data| <= MAX_PAYLOAD
    ensures var sys1 := Exchange(E, D, sys, first).sys;
            var issue := Emitted(E, sys, first)[0];
            var step := Replay(req, answer, issue);
            SameKeys(sys1)
            && var o := Exchange(E, D, sys1, step);
            && LockStep(o.sys) && o.decoded == None
            && o.got == FromWire(Misread(first.answer, issue.iv, RequestMac(E, sys1, req)))
            && !Faithful(E, D, sys1, step)
  {
    var mac := RequestMac(E, sys, first.req);
    var issue := IssueOf(E, sys.card.(iv := mac), first.answer);
    var sys1 := Exchange(E, D, sys, first).sys;
    DeliveredExchange(E, D, sys, first);
    ExchangeParts(E, D, sys, first);
    ExchangeParts(E, D, sys1, Replay(req, answer, issue));
    GenuineAccepted(E, D, sys1.client.(iv := RequestMac(E, sys1, req)), Response(issue.data, 0x90, 0x00), issue);
  }

  /** Of an answer of two blocks and more, only the first 16 bytes are masked; the status word is the old one. */
  lemma ReplayedAnswer(answer: seq<byte>, x: Block, y: Block)
    requires |answer| >= 18
    ensures var got, was := FromWire(Misread(answer, x, y)), FromWire(answer);
            && got.Ok? && was.Ok? && got.value.Sw() == was.value.Sw()
            && |got.value.data| == |was.value.data|
            && got.value.data[..16] == XorSeq(XorSeq(was.value.data[..16], x), y)
            && got.value.data[16..] == was.value.data[16..]
  {
    MisreadFirstBlock(answer, x, y);
    var n, m := |answer| - 2, Rechained(answer, x, y);
    assert answer[16..][n - 16] == answer[n] && answer[16..][n - 15] == answer[n + 1];
    assert m[16..][n - 16] == m[n] && m[16..][n - 15] == m[n + 1];
    assert m[..n][..16] == m[..16] && answer[..n][..16] == answer[..16];
    assert m[..n][16..] == m[16..][..n - 16] && answer[..n][16..] == answer[16..][..n - 16];
  }

  // ---------------------------------------------------------------- whole runs

  /** All that the card has issued, and issues in this step. */
  function Known(E: KeyedCipher, sys: System, issued: seq<Issue>, step: Step): seq<Issue> {
    issued + Emitted(E, sys, step)
  }

  predicate AllGenuine(E: KeyedCipher, card: Card, issued: seq<Issue>) {
    forall i :: 0 <= i < |issued| ==> Genuine(E, card.encKey, card.macKey, issued[i])
  }

  predicate DataAmong(data: seq<byte>, issued: seq<Issue>) {
    exists i :: 0 <= i < |issued| && issued[i].data == data
  }

  /** A reply put in place of the card's, that the session accepts. */
  predicate Substituted(E: KeyedCipher, sys: System, step: Step) {
    step.fate.Faulted? && !Refused(step.fate.reply) && Authentic(E, sys.card.macKey, step.fate.reply.value.data)
  }

  /** Nobody without the key makes a MAC: data that carry the right one were issued by the card. */
  predicate Unforged(E: KeyedCipher, sys: System, issued: seq<Issue>, step: Step) {
    Substituted(E, sys, step) ==> DataAmong(step.fate.reply.value.data, Known(E, sys, issued, step))
  }

  /** The reply is not one of an earlier exchange. */
  predicate NotReplayed(E: KeyedCipher, sys: System, issued: seq<Issue>, step: Step) {
    Substituted(E, sys, step) ==> !DataAmong(step.fate.reply.value.data, issued)
  }

  /** The client reads an earlier answer under its present chaining value, and chains on from it. */
  predicate ReadsEarlier(o: Outcome, issued: seq<Issue>, iv: Block) {
    exists i :: 0 <= i < |issued| && ReadsIssue(o, issued[i], iv)
  }

  predicate ReadsIssue(o: Outcome, issue: Issue, iv: Block) {
    && |issue.data| >= 16 && o.sys.client.iv == issue.data[..16]
    && o.got == FromWire(Misread(issue.answer, issue.iv, iv))
  }

  /** All that one exchange can do. */
  predicate Accounted(E: KeyedCipher, D: KeyedCipher, sys: System, issued: seq<Issue>, step: Step) {
    var o := Exchange(E, D, sys, step);
    if !sys.client.open then
      && o.sys.client == sys.client
      && if sys.client.established then o == Outcome(sys, None, Err(SessionClosed))
         else o.got == Answering(E, D, sys.card, step)(step.req.Command())
    else if |step.req.data| > MAX_PAYLOAD then
      o == Outcome(sys, None, Err(PayloadTooLarge))
    else
      && SameKeys(sys) && SameKeys(o.sys)
      && o.decoded == (if Reaches(step) then Some(AsRead(sys, step.req)) else None)
      && (step.fate.Delivered? ==> ReadsTheAnswer(o, step))
      && (if o.sys.client.open then ReadsTheAnswer(o, step) || ReadsEarlier(o, issued, RequestMac(E, sys, step.req))
          else if Refused(step.fate.reply) then o.got == step.fate.reply
          else o.got.Err?)
  }

  /** Exact delivery in lock-step, an oversized request refused without effect, or a closed session. */
  predicate Faithful(E: KeyedCipher, D: KeyedCipher, sys: System, step: Step) {
    var o := Exchange(E, D, sys, step);
    && LockStep(sys)
    && if |step.req.data| > MAX_PAYLOAD then o == Outcome(sys, None, Err(PayloadTooLarge))
       else
         && (step.fate.Delivered? ==> o.sys.client.open)
         && (o.sys.client.open ==> o.decoded == Some(step.req.Command()) && ReadsTheAnswer(o, step))
  }

  /** A substituted reply that was issued, now or before, is read as what it is. */
  lemma SubstitutedIsRead(E: KeyedCipher, D: KeyedCipher, sys: System, issued: seq<Issue>, step: Step, issue: Issue)
    requires Inverse(E, D) && sys.client.open && SameKeys(sys) && |step.req.data| <= MAX_PAYLOAD
    requires Exchange(E, D, sys, step).sys.client.open && step.fate.Faulted? && step.fate.reply.Ok?
    requires Genuine(E, sys.card.encKey, sys.card.macKey, issue) && step.fate.reply.value.data == issue.data
    ensures ReadsIssue(Exchange(E, D, sys, step), issue, RequestMac(E, sys, step.req))
    ensures Emitted(E, sys, step) == [issue] ==> ReadsTheAnswer(Exchange(E, D, sys, step), step)
  {
    var mac := RequestMac(E, sys, step.req);
    ExchangeParts(E, D, sys, step);
    GenuineAccepted(E, D, sys.client.(iv := mac), step.fate.reply.value, issue);
    MisreadNothing(step.answer, mac);
  }

  /** With its key intact, the client stays open only on an authentic reply. */
  lemma OpenAfterFault(E: KeyedCipher, D: KeyedCipher, sys: System, step: Step)
    requires Inverse(E, D) && sys.client.open && SameKeys(sys) && |step.req.data| <= MAX_PAYLOAD && step.fate.Faulted?
    ensures var o := Exchange(E, D, sys, step);
            && SameKeys(o.sys)
            && if o.sys.client.open then Substituted(E, sys, step)
               else if Refused(step.fate.reply) then o.got == step.fate.reply
               else o.got.Err?
  {
    var s := sys.client.(iv := RequestMac(E, sys, step.req));
    ExchangeParts(E, D, sys, step);
    StaysOpenIff(E, D, s, step.fate.reply);
    if Refused(step.fate.reply) {
      RefusalComesBack(E, D, s, step.fate.reply);
    } else if !Exchange(E, D, sys, step).sys.client.open {
      ClosingIsAnError(E, D, s, step.fate.reply);
    }
    TransmittedKeepsKeys(E, D, s, step.fate.reply);
  }

  lemma TransmittedKeepsKeys(E: KeyedCipher, D: KeyedCipher, s: Session, reply: Reply)
    requires Usable(s)
    ensures var s' := Transmitted(E, D, s, reply).0; s'.encKey == s.encKey && s'.macKey == s.macKey && |s'.iv| == 16
  {
  }

  /** The one assumption is that nobody forges a MAC. */
  lemma UnforgedIsAccounted(E: KeyedCipher, D: KeyedCipher, sys: System, issued: seq<Issue>, step: Step)
    requires Inverse(E, D) && (sys.client.open ==> SameKeys(sys) && AllGenuine(E, sys.card, issued))
    requires sys.client.open ==> Unforged(E, sys, issued, step)
    ensures Accounted(E, D, sys, issued, step)
  {
    if sys.client.open {
      RefusedIffTooLarge(E, sys, step.req);
      if |step.req.data| <= MAX_PAYLOAD {
        if step.fate.Delivered? {
          DeliveredExchange(E, D, sys, step);
        } else {
          FaultIsAccounted(E, D, sys, issued, step);
        }
      }
    } else {
      ClosedIsAccounted(E, D, sys, issued, step);
    }
  }

  lemma ClosedIsAccounted(E: KeyedCipher, D: KeyedCipher, sys: System, issued: seq<Issue>, step: Step)
    requires !sys.client.open
    ensures Accounted(E, D, sys, issued, step)
  {
    if !sys.client.established {
      ClosedHandsBack(E, D, sys.client, Answering(E, D, sys.card, step)(step.req.Command()));
    }
  }

  lemma FaultIsAccounted(E: KeyedCipher, D: KeyedCipher, sys: System, issued: seq<Issue>, step: Step)
    requires Inverse(E, D) && sys.client.open && SameKeys(sys) && AllGenuine(E, sys.card, issued)
    requires |step.req.data| <= MAX_PAYLOAD && step.fate.Faulted? && Unforged(E, sys, issued, step)
    ensures Accounted(E, D, sys, issued, step)
  {
    ExchangeParts(E, D, sys, step);
    OpenAfterFault(E, D, sys, step);
    if Exchange(E, D, sys, step).sys.client.open {
      var known := Known(E, sys, issued, step);
      var i :| 0 <= i < |known| && known[i].data == step.fate.reply.value.data;
      if i < |issued| {
        SubstitutedIsRead(E, D, sys, issued, step, issued[i]);
      } else {
        assert Emitted(E, sys, step) == [known[i]];
        SubstitutedIsRead(E, D, sys, issued, step, known[i]);
      }
    }
  }

  /** A step from lock-step is faithful unless an earlier reply was put in. */
  lemma FaithfulUnlessReplayed(E: KeyedCipher, D: KeyedCipher, sys: System, issued: seq<Issue>, step: Step)
    requires Inverse(E, D) && LockStep(sys) && AllGenuine(E, sys.card, issued)
    requires Unforged(E, sys, issued, step) && NotReplayed(E, sys, issued, step)
    ensures Faithful(E, D, sys, step)
  {
    RefusedIffTooLarge(E, sys, step.req);
    if |step.req.data| <= MAX_PAYLOAD {
      ReadExactly(sys, step.req);
      if step.fate.Delivered? {
        DeliveredExchange(E, D, sys, step);
      } else {
        ExchangeParts(E, D, sys, step);
        OpenAfterFault(E, D, sys, step);
        if Exchange(E, D, sys, step).sys.client.open {
          var known := Known(E, sys, issued, step);
          var i :| 0 <= i < |known| && known[i].data == step.fate.reply.value.data;
          assert i >= |issued| && Emitted(E, sys, step) == [known[i]];
          SubstitutedIsRead(E, D, sys, issued, step, known[i]);
        }
      }
    }
  }

  predicate AlwaysUnforged(E: KeyedCipher, D: KeyedCipher, sys: System, issued: seq<Issue>, steps: seq<Step>)
    decreases |steps|
  {
    if steps == [] then true
    else
      && (sys.client.open ==> Unforged(E, sys, issued, steps[0]))
      && AlwaysUnforged(E, D, Exchange(E, D, sys, steps[0]).sys, Known(E, sys, issued, steps[0]), steps[1..])
  }

  predicate NeverReplayed(E: KeyedCipher, D: KeyedCipher, sys: System, issued: seq<Issue>, steps: seq<Step>)
    decreases |steps|
  {
    if steps == [] then true
    else
      && (sys.client.open ==> NotReplayed(E, sys, issued, steps[0]))
      && NeverReplayed(E, D, Exchange(E, D, sys, steps[0]).sys, Known(E, sys, issued, steps[0]), steps[1..])
  }

  predicate AlwaysAccounted(E: KeyedCipher, D: KeyedCipher, sys: System, issued: seq<Issue>, steps: seq<Step>)
    decreases |steps|
  {
    if steps == [] then true
    else
      && Accounted(E, D, sys, issued, steps[0])
      && AlwaysAccounted(E, D, Exchange(E, D, sys, steps[0]).sys, Known(E, sys, issued, steps[0]), steps[1..])
  }

  predicate AlwaysFaithful(E: KeyedCipher, D: KeyedCipher, sys: System, steps: seq<Step>)
    decreases |steps|
  {
    if steps == [] then true
    else
      && (sys.client.open ==> Faithful(E, D, sys, steps[0]))
      && AlwaysFaithful(E, D, Exchange(E, D, sys, steps[0]).sys, steps[1..])
  }

  /** Whatever the card has issued stays genuine, and so do the keys. */
  lemma KnownIsGenuine(E: KeyedCipher, D: KeyedCipher, sys: System, issued: seq<Issue>, step: Step)
    requires sys.client.open && SameKeys(sys) && AllGenuine(E, sys.card, issued)
    requires Inverse(E, D)
    ensures AllGenuine(E, Exchange(E, D, sys, step).sys.card, Known(E, sys, issued, step))
  {
    RefusedIffTooLarge(E, sys, step.req);
    if |step.req.data| <= MAX_PAYLOAD {
      ExchangeParts(E, D, sys, step);
    }
  }

  /**
   Over every run, whatever the channel loses, alters, replays or invents short of forging a MAC: each exchange is
   refused for its size without effect, or leaves the session closed, or the caller reads this exchange's answer and
   both sides are in lock-step, or the caller reads an earlier answer under its present chaining value.
   */
  lemma {:induction false} AccountedOverRuns(E: KeyedCipher, D: KeyedCipher, sys: System, issued: seq<Issue>,
                                             steps: seq<Step>)
    requires Inverse(E, D) && (sys.client.open ==> SameKeys(sys) && AllGenuine(E, sys.card, issued))
    requires AlwaysUnforged(E, D, sys, issued, steps)
    ensures AlwaysAccounted(E, D, sys, issued, steps)
    decreases |steps|
  {
    if steps != [] {
      UnforgedIsAccounted(E, D, sys, issued, steps[0]);
      if sys.client.open {
        KnownIsGenuine(E, D, sys, issued, steps[0]);
      }
      AccountedOverRuns(E, D, Exchange(E, D, sys, steps[0]).sys, Known(E, sys, issued, steps[0]), steps[1..]);
    }
  }

  /** And without replays every exchange that starts open is exactly delivered in lock-step, or closes the session. */
  lemma {:induction false} DeliveryOverRuns(E: KeyedCipher, D: KeyedCipher, sys: System, issued: seq<Issue>,
                                            steps: seq<Step>)
    requires Inverse(E, D) && (sys.client.open ==> LockStep(sys) && AllGenuine(E, sys.card, issued))
    requires AlwaysUnforged(E, D, sys, issued, steps) && NeverReplayed(E, D, sys, issued, steps)
    ensures AlwaysFaithful(E, D, sys, steps)
    decreases |steps|
  {
    if steps != [] {
      if sys.client.open {
        FaithfulUnlessReplayed(E, D, sys, issued, steps[0]);
        KnownIsGenuine(E, D, sys, issued, steps[0]);
      } else {
        ClosedIsAccounted(E, D, sys, issued, steps[0]);
      }
      DeliveryOverRuns(E, D, Exchange(E, D, sys, steps[0]).sys, Known(E, sys, issued, steps[0]), steps[1..]);
    }
  }

  // ---------------------------------------------------------------- nothing in the clear once established

  /** What a caller can ask of a client. */
  datatype Event =
    | Protect(req: Request)
    | Transmit(reply: Reply)
    | Send(req: Request, ch: Channel)
    | OpenChannel
    | MutuallyAuthenticate(challenge: seq<byte>, ch: Channel)
    | AutoOpen(derive: Derivation, challenge: seq<byte>, opening: Reply, ch: Channel)
    | Reset

  function After(E: KeyedCipher, D: KeyedCipher, s: Session, ev: Event): Session {
    match ev
    case Protect(req) => Protected(E, s, req).0
    case Transmit(reply) => Transmitted(E, D, s, reply).0
    case Send(req, ch) => Sent(E, D, s, req, ch).0
    case OpenChannel => s.(open := false)
    case MutuallyAuthenticate(challenge, ch) => Authenticated(E, D, s, challenge, ch).0
    case AutoOpen(derive, challenge, opening, ch) => Opened(E, D, s, derive, challenge, opening, ch).0
    case Reset => Session(false, false, None, None, [])
  }

  /** The request is answered by itself, unprotected. */
  predicate GoesPlain(E: KeyedCipher, s: Session, req: Request) {
    Protected(E, s, req).1 == Ok(req.Command())
  }

  /** Exactly a session that is closed and was never established lets a request out as it is. */
  lemma PlainIffNeverEstablished(E: KeyedCipher, s: Session, req: Request)
    ensures GoesPlain(E, s, req) <==> !s.open && !s.established
  {
    var (s', r) := Protected(E, s, req);
    if s.open && r.Ok? {
      EncryptedLength(E, s.encKey.value, s.iv, req.data);
      assert |r.value.data| > |req.data|;
    }
  }

  predicate NeverPlain(E: KeyedCipher, D: KeyedCipher, s: Session, evs: seq<Event>)
    decreases |evs|
  {
    if evs == [] then true
    else
      && (evs[0].Protect? || evs[0].Send? ==> !GoesPlain(E, s, evs[0].req))
      && NeverPlain(E, D, After(E, D, s, evs[0]), evs[1..])
  }

  function Run(E: KeyedCipher, D: KeyedCipher, s: Session, evs: seq<Event>): Session
    decreases |evs|
  {
    if evs == [] then s else Run(E, D, After(E, D, s, evs[0]), evs[1..])
  }

  lemma SentKeepsEstablished(E: KeyedCipher, D: KeyedCipher, s: Session, req: Request, ch: Channel)
    requires s.established
    ensures Protected(E, s, req).0.established && Sent(E, D, s, req, ch).0.established
  {
  }

  lemma StaysEstablished(E: KeyedCipher, D: KeyedCipher, s: Session, ev: Event)
    requires s.established && !ev.Reset?
    ensures After(E, D, s, ev).established
  {
    match ev
    case Protect(req) => SentKeepsEstablished(E, D, s, req, (cmd: Apdu) => Err(ChannelError));
    case Send(req, ch) => SentKeepsEstablished(E, D, s, req, ch);
    case MutuallyAuthenticate(challenge, ch) =>
      SentKeepsEstablished(E, D, s, Request(CLA_GP, INS_MUTUALLY_AUTHENTICATE, 0, 0, challenge), ch);
    case _ =>
  }

  /** Once established and until a Reset, over every run, no request leaves unprotected, whatever the channel does. */
  lemma {:induction false} EstablishedNeverPlain(E: KeyedCipher, D: KeyedCipher, s: Session, evs: seq<Event>)
    requires s.established && forall i :: 0 <= i < |evs| ==> !evs[i].Reset?
    ensures NeverPlain(E, D, s, evs) && Run(E, D, s, evs).established
    decreases |evs|
  {
    if evs != [] {
      StaysEstablished(E, D, s, evs[0]);
      if evs[0].Protect? || evs[0].Send? {
        PlainIffNeverEstablished(E, s, evs[0].req);
      }
      EstablishedNeverPlain(E, D, After(E, D, s, evs[0]), evs[1..]);
    }
  }
}
