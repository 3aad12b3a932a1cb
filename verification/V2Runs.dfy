/** Secure Channel V2 over whole runs: which nonces are used, and what a card with the same keys sees. */
module V2Runs {
  import opened Bytes
  import opened Apdus
  import opened Ccm
  import opened Channels
  import opened SecureChannelV2
  import Der = DerSignature

  // ---------------------------------------------------------------- one exchange

  lemma AllOnesIsLargest(nonce: Nonce)
    ensures AllOnes(nonce) <==> BigEndian(nonce) + 1 == Pow256(|nonce|)
    ensures BigEndian(nonce) < Pow256(|nonce|)
  {
    BigEndianBound(nonce);
    LargestIffAllOnes(nonce);
  }

  lemma {:induction false} LargestIffAllOnes(s: seq<byte>)
    ensures BigEndian(s) + 1 == Pow256(|s|) <==> forall i :: 0 <= i < |s| ==> s[i] == 255
  {
    if s != [] {
      var n := |s| - 1;
      LargestIffAllOnes(s[..n]);
      BigEndianBound(s[..n]);
      assert (forall i :: 0 <= i < |s| ==> s[i] == 255) <==> s[n] == 255 && forall i :: 0 <= i < n ==> s[..n][i] == 255;
    }
  }

  /** An accepted reply moves the counter up by exactly one, or closes the session at the largest nonce. */
  lemma AcceptedAdvancesByOne(E: KeyedCipher, s: Session, reply: Reply)
    requires s.open && reply.Ok? && reply.value.Sw() == SW_OK && Accepted(E, s, reply).Ok?
    ensures var s' := Transmitted(E, s, reply).0;
            && s'.keyH2C == s.keyH2C && s'.keyC2H == s.keyC2H
            && (s'.open <==> BigEndian(s.nonce) + 1 < Pow256(|s.nonce|))
            && (s'.open ==> BigEndian(s'.nonce) == BigEndian(s.nonce) + 1)
  {
    IncrementValue(s.nonce);
    AllOnesIsLargest(s.nonce);
  }

  /** Anything else closes the session and leaves its counter and keys alone. */
  lemma OtherwiseCloses(E: KeyedCipher, s: Session, reply: Reply)
    requires s.open
    requires reply.Err? || reply.value.Sw() != SW_OK || Accepted(E, s, reply).Err?
    ensures Transmitted(E, s, reply).0 == s.(open := false)
  {
  }

  /** No answer, or a status that is not 9000. */
  predicate Refused(reply: Reply) {
    reply.Err? || reply.value.Sw() != 0x9000
  }

  /** The caller gets a refusal as it came, and the session closes. */
  lemma RefusalComesBack(E: KeyedCipher, s: Session, reply: Reply)
    requires Refused(reply)
    ensures Transmitted(E, s, reply) == (s.(open := false), reply)
  {
  }

  /** What the caller gets from an open session is the opening of a reply sealed under its nonce. */
  lemma RepliesAreSealed(E: KeyedCipher, s: Session, reply: Reply, got: Response)
    requires s.open && reply.Ok? && reply.value.Sw() == SW_OK
    requires Transmitted(E, s, reply).1 == Ok(got)
    ensures s.keyC2H.Some? && |s.keyC2H.value| == KEY_LEN
    ensures reply.value.data == Seal(Keyed(E, s.keyC2H.value), s.nonce, got.data + [got.sw1, got.sw2])
  {
    var p := Accepted(E, s, reply).value;
    OpenIffSealed(Keyed(E, s.keyC2H.value), s.nonce, p, reply.value.data);
    ResponseRoundTrip(p, got);
  }

  // ---------------------------------------------------------------- requests in the clear

  /** Exactly a closed session answers a request by itself, unprotected, whatever it was before it closed. */
  lemma PlainIffClosed(E: KeyedCipher, s: Session, req: Request)
    ensures Protected(E, s, req) == Ok(req.Command()) <==> !s.open
  {
    if s.open && Protected(E, s, req).Ok? {
      assert |Protected(E, s, req).value.data| == |Inner(req)| + TAG_LEN;
    }
  }

  /** Exactly what an open session wraps, and how: the inner APDU sealed as RFC 3610 prescribes, under a fixed header. */
  lemma WrapsIff(E: KeyedCipher, s: Session, req: Request, cmd: Apdu)
    requires s.open
    ensures Protected(E, s, req) == Ok(cmd)
       <==> && |req.data| <= 255 && s.keyH2C.Some? && |s.keyH2C.value| == 16
            && var inner := [req.cla, req.ins, req.p1, req.p2, |req.data|] + req.data;
               cmd == Apdu(0x80, 0x18, 0x00, 0x00, RfcSeal(Keyed(E, s.keyH2C.value), s.nonce, inner), None)
  {
    if |req.data| <= 255 && s.keyH2C.Some? && |s.keyH2C.value| == 16 {
      SealRefinesRfc3610(Keyed(E, s.keyH2C.value), s.nonce, Inner(req));
    }
  }

  /** Over a closed session the request goes out as it is, and the channel's answer comes back as it is. */
  lemma ClosedSendsPlain(E: KeyedCipher, s: Session, req: Request, ch: Channel)
    requires !s.open
    ensures Sent(E, s, req, ch) == (s, ch(req.Command()))
  {
  }

  /** One lost reply is enough: the next request of the same caller goes out as it is. */
  lemma LostReplyThenPlain(E: KeyedCipher, s: Session, lost: Request, next: Request, ch: Channel)
    requires s.open && Protected(E, s, lost).Ok?
    ensures var s' := Sent(E, s, lost, (cmd: Apdu) => Err(ChannelError)).0;
            && s' == s.(open := false)
            && Sent(E, s', next, ch) == (s', ch(next.Command()))
  {
    ClosedSendsPlain(E, s.(open := false), next, ch);
  }

  // ---------------------------------------------------------------- nonce freshness

  datatype Event =
    | Protect(req: Request)
    | Transmit(reply: Reply)
    | Send(req: Request, ch: Channel)
    | AutoOpen(h: Handshake, reply: Reply)
    | OpenChannel
    | Reset

  /** One encryption by the client: the key epoch and the nonce as a number. */
  datatype Use = Use(epoch: nat, nonce: nat)

  /** A session with the number of completed handshakes and every encryption so far. */
  datatype History = History(s: Session, epoch: nat, uses: seq<Use>)

  predicate Encrypts(E: KeyedCipher, s: Session, req: Request) {
    s.open && Protected(E, s, req).Ok?
  }

  function Recorded(E: KeyedCipher, h: History, req: Request): History {
    if Encrypts(E, h.s, req) then h.(uses := h.uses + [Use(h.epoch, BigEndian(h.s.nonce))]) else h
  }

  function After(E: KeyedCipher, h: History, ev: Event): History {
    match ev
    case Protect(req) => Recorded(E, h, req)
    case Transmit(reply) => h.(s := Transmitted(E, h.s, reply).0)
    case Send(req, ch) => Recorded(E, h, req).(s := Sent(E, h.s, req, ch).0)
    case AutoOpen(hs, reply) =>
      var (s', r) := Opened(h.s, hs, reply);
      h.(s := s', epoch := if r.Ok? then h.epoch + 1 else h.epoch)
    case OpenChannel => h.(s := h.s.(open := false))
    case Reset => h.(s := FRESH_SESSION)
  }

  function Run(E: KeyedCipher, h: History, evs: seq<Event>): History
    decreases |evs|
  {
    if evs == [] then h else Run(E, After(E, h, evs[0]), evs[1..])
  }

  predicate Distinct(uses: seq<Use>) {
    forall i, j :: 0 <= i < j < |uses| ==> uses[i] != uses[j]
  }

  /** Whether an encryption is waiting for its Transmit after ev. */
  function Pending(E: KeyedCipher, h: History, ev: Event, pending: bool): bool {
    match ev
    case Protect(req) => pending || Encrypts(E, h.s, req)
    case Send(req, _) => Protected(E, h.s, req).Err? && pending
    case _ => false
  }

  /** The callers' discipline: no encryption while an earlier one waits for its Transmit. */
  predicate Disciplined(E: KeyedCipher, h: History, evs: seq<Event>, pending: bool)
    decreases |evs|
  {
    if evs == [] then true
    else
      && ((evs[0].Protect? || evs[0].Send?) && Encrypts(E, h.s, evs[0].req) ==> !pending)
      && Disciplined(E, After(E, h, evs[0]), evs[1..], Pending(E, h, evs[0], pending))
  }

  /** Uses of the current epoch lie below the counter, or at it if one is pending. */
  predicate Bounded(h: History, pending: bool) {
    && (forall u :: u in h.uses ==> u.epoch <= h.epoch)
    && (h.s.open ==> forall u :: u in h.uses && u.epoch == h.epoch ==>
          if pending then u.nonce <= BigEndian(h.s.nonce) else u.nonce < BigEndian(h.s.nonce))
    && (h.s.open && pending ==> Use(h.epoch, BigEndian(h.s.nonce)) in h.uses)
  }

  /** Recording an encryption keeps the uses distinct exactly when none is pending. */
  lemma RecordedStep(E: KeyedCipher, h: History, req: Request, pending: bool)
    requires Bounded(h, pending)
    ensures Bounded(Recorded(E, h, req), pending || Encrypts(E, h.s, req))
    ensures Distinct(Recorded(E, h, req).uses) <==> Distinct(h.uses) && (Encrypts(E, h.s, req) ==> !pending)
  {
    if Encrypts(E, h.s, req) {
      var u := Use(h.epoch, BigEndian(h.s.nonce));
      var uses := h.uses + [u];
      assert uses[|uses| - 1] == u;
      assert Distinct(uses) <==> Distinct(h.uses) && u !in h.uses by {
        if Distinct(uses) {
          assert uses[..|h.uses|] == h.uses;
        }
        if u in h.uses {
          var i :| 0 <= i < |h.uses| && h.uses[i] == u;
          assert uses[i] == uses[|h.uses|];
        }
      }
    }
  }

  /** A Transmit leaves the session closed, or its counter one above every use of the epoch. */
  lemma TransmittedBounded(E: KeyedCipher, h: History, reply: Reply, pending: bool)
    requires Bounded(h, pending)
    ensures Bounded(h.(s := Transmitted(E, h.s, reply).0), false)
  {
    if h.s.open {
      if reply.Err? || reply.value.Sw() != SW_OK || Accepted(E, h.s, reply).Err? {
        OtherwiseCloses(E, h.s, reply);
      } else {
        AcceptedAdvancesByOne(E, h.s, reply);
      }
    }
  }

  lemma OpenedBounded(h: History, hs: Handshake, reply: Reply, pending: bool)
    requires Bounded(h, pending)
    ensures var (s', r) := Opened(h.s, hs, reply);
            Bounded(h.(s := s', epoch := if r.Ok? then h.epoch + 1 else h.epoch), false)
  {
  }

  lemma StepBounded(E: KeyedCipher, h: History, ev: Event, pending: bool)
    requires Bounded(h, pending)
    ensures Bounded(After(E, h, ev), Pending(E, h, ev, pending))
    ensures Distinct(After(E, h, ev).uses) <==>
            Distinct(h.uses) && ((ev.Protect? || ev.Send?) && Encrypts(E, h.s, ev.req) ==> !pending)
  {
    match ev
    case Protect(req) => RecordedStep(E, h, req, pending);
    case Transmit(reply) => TransmittedBounded(E, h, reply, pending);
    case Send(req, ch) =>
      RecordedStep(E, h, req, pending);
      if Protected(E, h.s, req).Ok? {
        TransmittedBounded(E, Recorded(E, h, req), ch(Protected(E, h.s, req).value), pending || Encrypts(E, h.s, req));
      }
    case AutoOpen(hs, reply) => OpenedBounded(h, hs, reply, pending);
    case OpenChannel =>
    case Reset =>
  }

  lemma {:induction false} UsesOnlyGrow(E: KeyedCipher, h: History, evs: seq<Event>)
    ensures h.uses <= Run(E, h, evs).uses
    decreases |evs|
  {
    if evs != [] {
      UsesOnlyGrow(E, After(E, h, evs[0]), evs[1..]);
    }
  }

  /**
   Over every run and whatever the channel answers, no nonce is used twice in a key epoch exactly when
   callers never encrypt again before transmitting.
   */
  lemma {:induction false} FreshIffDisciplined(E: KeyedCipher, h: History, evs: seq<Event>, pending: bool)
    requires Bounded(h, pending) && Distinct(h.uses)
    ensures Distinct(Run(E, h, evs).uses) <==> Disciplined(E, h, evs, pending)
    decreases |evs|
  {
    if evs != [] {
      var h', pending' := After(E, h, evs[0]), Pending(E, h, evs[0], pending);
      StepBounded(E, h, evs[0], pending);
      if Distinct(h'.uses) {
        FreshIffDisciplined(E, h', evs[1..], pending');
      } else {
        UsesOnlyGrow(E, h', evs[1..]);
        DistinctPrefix(h'.uses, Run(E, h', evs[1..]).uses);
      }
    }
  }

  lemma DistinctPrefix(a: seq<Use>, b: seq<Use>)
    requires a <= b && !Distinct(a)
    ensures !Distinct(b)
  {
    var i, j :| 0 <= i < j < |a| && a[i] == a[j];
    assert b[i] == b[j];
  }

  /** Every run of sendProtected, handshakes and resets from a new client is free of nonce reuse. */
  lemma SendsNeverReuseANonce(E: KeyedCipher, evs: seq<Event>)
    requires forall ev :: ev in evs ==> !ev.Protect?
    ensures Distinct(Run(E, History(FRESH_SESSION, 0, []), evs).uses)
  {
    var h := History(FRESH_SESSION, 0, []);
    SendsAreDisciplined(E, h, evs);
    FreshIffDisciplined(E, h, evs, false);
  }

  lemma {:induction false} SendsAreDisciplined(E: KeyedCipher, h: History, evs: seq<Event>)
    requires forall ev :: ev in evs ==> !ev.Protect?
    ensures Disciplined(E, h, evs, false)
    decreases |evs|
  {
    if evs != [] {
      assert evs[0] in evs;
      assert !Pending(E, h, evs[0], false);
      SendsAreDisciplined(E, After(E, h, evs[0]), evs[1..]);
    }
  }

  /** ProtectedCommand does not move the counter, so calling it twice in an open session reuses the nonce. */
  lemma ProtectTwiceReusesTheNonce(E: KeyedCipher, h: History, a: Request, b: Request)
    requires Encrypts(E, h.s, a) && Encrypts(E, h.s, b)
    ensures var uses := Run(E, h, [Protect(a), Protect(b)]).uses;
            |uses| >= 2 && uses[|uses| - 2] == uses[|uses| - 1]
  {
    var h1 := After(E, h, Protect(a));
    var h2 := After(E, h1, Protect(b));
    assert [Protect(a), Protect(b)][1..] == [Protect(b)];
    assert Run(E, h1, [Protect(b)]) == Run(E, h2, [Protect(b)][1..]) == h2;
  }

  // ---------------------------------------------------------------- a card with the same keys

  datatype Card = Card(keyH2C: seq<byte>, keyC2H: seq<byte>, nonce: Nonce)

  const REFUSAL: seq<byte> := [0x69, 0x82]

  /** The card decodes the command on the wire, answers it with answer, and seals that under the same nonce. */
  function Received(E: KeyedCipher, card: Card, raw: seq<byte>, answer: seq<byte>): (Card, Option<Apdu>, seq<byte>) {
    match Parsed(raw)
    case Err(_) => (card, None, REFUSAL)
    case Ok(outer) =>
      match AesDecrypted(E, card.keyH2C, card.nonce, outer.data)
      case Err(_) => (card, None, REFUSAL)
      case Ok(inner) =>
        match (Parsed(inner), AesEncrypted(E, card.keyC2H, card.nonce, answer))
        case (Ok(c), Ok(sealed)) => (card.(nonce := Increment(card.nonce)), Some(c), sealed + [0x90, 0x00])
        case (_, _) => (card, None, REFUSAL)
  }

  /** What the channel does with one exchange: deliver both ways, or put some other reply in its place. */
  datatype Fate = Delivered | Faulted(reached: bool, reply: Reply)

  datatype Step = Step(req: Request, answer: seq<byte>, fate: Fate)

  datatype System = System(client: Session, card: Card)

  datatype Outcome = Outcome(sys: System, decoded: Option<Apdu>, got: Reply)

  /** The channel of one exchange: the card's reply to the command it is given, or the fault's. */
  function Answering(E: KeyedCipher, card: Card, step: Step): Channel {
    (cmd: Apdu) =>
      match step.fate
      case Delivered => FromWire(Received(E, card, Wire(cmd), step.answer).2)
      case Faulted(_, reply) => reply
  }

  function Exchange(E: KeyedCipher, sys: System, step: Step): Outcome {
    var (client', got) := Sent(E, sys.client, step.req, Answering(E, sys.card, step));
    match Protected(E, sys.client, step.req)
    case Err(_) => Outcome(System(client', sys.card), None, got)
    case Ok(cmd) =>
      var (card', decoded, _) := Received(E, sys.card, Wire(cmd), step.answer);
      if step.fate.Delivered? || step.fate.reached then Outcome(System(client', card'), decoded, got)
      else Outcome(System(client', sys.card), None, got)
  }

  /** The longest request whose ciphertext fits the one-byte Lc. */
  const MAX_PAYLOAD: nat := 242

  /** Same keys, same counter, session open. */
  predicate LockStep(sys: System) {
    && sys.client.open
    && sys.client.keyH2C == Some(sys.card.keyH2C) && |sys.card.keyH2C| == KEY_LEN
    && sys.client.keyC2H == Some(sys.card.keyC2H) && |sys.card.keyC2H| == KEY_LEN
    && sys.client.nonce == sys.card.nonce
  }

  /** A card that derives the same key material and starts its counter at zero. */
  function CardAfterHandshake(okm: KeyMaterial): Card {
    Card(okm[..16], okm[16..], Zeros(13))
  }

  /**
   AutoOpen ends in lock-step with a card whose signature over the transcript verifies; it never ends open
   otherwise, and then keeps its counter and either keeps both keys or drops both.
   */
  lemma OpenedInLockStepOrClosed(s: Session, h: Handshake, reply: Reply)
    ensures var (s', r) := Opened(s, h, reply);
            && (s'.open <==> r.Ok?)
            && (r.Ok? ==>
                 && reply.Ok? && |reply.value.data| >= PUBKEY_SIZE && h.derive(reply.value.data[..PUBKEY_SIZE]).Some?
                 && LockStep(System(s', CardAfterHandshake(h.derive(reply.value.data[..PUBKEY_SIZE]).value))))
            && (r.Err? ==> s'.nonce == s.nonce && (s' == s.(open := false) || s'.keyH2C == s'.keyC2H == None))
  {
  }

  /** The answer carries a public key that key agreement takes, and more. */
  predicate KeysDerived(h: Handshake, reply: Reply) {
    reply.Ok? && reply.value.Sw() == 0x9000 && |reply.value.data| >= 67 && h.derive(reply.value.data[..65]).Some?
  }

  /**
   Exactly when AutoOpen succeeds: status 9000, a public key that key agreement takes, and behind it a signature that
   parses and verifies. A signature that does not leaves no keys behind.
   */
  lemma OpensIffVerified(s: Session, h: Handshake, reply: Reply)
    ensures Opened(s, h, reply).1.Ok?
       <==> && KeysDerived(h, reply)
            && var signature := Der.ParsedDer(reply.value.data[65..]);
            && signature.Ok?
            && h.verify(reply.value.data[..65], signature.value.0, signature.value.1)
    ensures var (s', r) := Opened(s, h, reply);
            r.Err? ==> s' == if KeysDerived(h, reply) then s.(open := false, keyH2C := None, keyC2H := None)
                             else s.(open := false)
  {
  }

  /** A card that sends its public key and the DER form of a signature the transcript check takes is let in. */
  lemma HonestHandshakeOpens(s: Session, h: Handshake, pub: seq<byte>, r: nat, t: nat)
    requires |pub| == PUBKEY_SIZE && h.derive(pub).Some?
    requires 0 < r < Pow256(32) && 0 < t < Pow256(32) && h.verify(pub, ToBytes(r, 32), ToBytes(t, 32))
    ensures Opened(s, h, Ok(Response(pub + Der.DerEncode(r, t), 0x90, 0x00))).1 == Ok(())
  {
    var data := pub + Der.DerEncode(r, t);
    assert data[..PUBKEY_SIZE] == pub && data[PUBKEY_SIZE..] == Der.DerEncode(r, t);
    Der.DerRoundTrip(r, t);
    assert |Der.DerEncode(r, t)| >= 2;
  }

  lemma ProtectedIsSealed(E: KeyedCipher, sys: System, req: Request)
    requires LockStep(sys) && |req.data| <= 255
    ensures Protected(E, sys.client, req)
         == Ok(NewCommand(CLA_GP, INS_SECURED_APDU, 0, 0, Seal(Keyed(E, sys.card.keyH2C), sys.card.nonce, Inner(req))))
  {
  }

  /** A protected command of the largest accepted size arrives unaltered exactly when its payload has at most 242 bytes. */
  lemma ProtectedFitsIff(E: KeyedCipher, sys: System, req: Request)
    requires LockStep(sys) && |req.data| <= 255
    ensures var cmd := Protected(E, sys.client, req).value;
            Parsed(Wire(cmd)) == Ok(cmd) <==> |req.data| <= MAX_PAYLOAD
  {
    ProtectedIsSealed(E, sys, req);
    WireRoundTripIff(Protected(E, sys.client, req).value);
  }

  lemma InnerParses(req: Request)
    requires |req.data| <= 255
    ensures Parsed(Inner(req)) == Ok(req.Command())
  {
    var raw := Inner(req);
    assert raw[5..5 + |req.data|] == req.data;
  }

  lemma CardDecodes(E: KeyedCipher, sys: System, req: Request, answer: seq<byte>)
    requires LockStep(sys) && |req.data| <= MAX_PAYLOAD && |answer| <= MAX_PLAINTEXT
    ensures Received(E, sys.card, Wire(Protected(E, sys.client, req).value), answer)
         == (sys.card.(nonce := Increment(sys.card.nonce)),
             Some(req.Command()),
             Seal(Keyed(E, sys.card.keyC2H), sys.card.nonce, answer) + [0x90, 0x00])
  {
    ProtectedIsSealed(E, sys, req);
    ProtectedFitsIff(E, sys, req);
    var c := Protected(E, sys.client, req).value.data;
    OpenIffSealed(Keyed(E, sys.card.keyH2C), sys.card.nonce, Inner(req), c);
    InnerParses(req);
  }

  // ---------------------------------------------------------------- one exchange

  /** A reply the card has sealed: its counter then, and the sealed answer. */
  datatype Issue = Issue(nonce: Nonce, answer: seq<byte>, data: seq<byte>)

  /** The reply that the client hears to its protected command. */
  function Heard(E: KeyedCipher, sys: System, step: Step): Reply
    requires Protected(E, sys.client, step.req).Ok?
  {
    Answering(E, sys.card, step)(Protected(E, sys.client, step.req).value)
  }

  predicate Reaches(step: Step) {
    step.fate.Delivered? || step.fate.reached
  }

  /** What the card issues in an exchange that reaches it, if it decodes the command. */
  function Emitted(E: KeyedCipher, sys: System, step: Step): seq<Issue> {
    match Protected(E, sys.client, step.req)
    case Err(_) => []
    case Ok(cmd) =>
      if Reaches(step) && Received(E, sys.card, Wire(cmd), step.answer).1.Some?
      then [Issue(sys.card.nonce, step.answer, Seal(Keyed(E, sys.card.keyC2H), sys.card.nonce, step.answer))]
      else []
  }

  /** The card either decodes, answers and counts, or refuses and does not. */
  lemma CardAnswers(E: KeyedCipher, card: Card, raw: seq<byte>, answer: seq<byte>)
    ensures var (card', decoded, reply) := Received(E, card, raw, answer);
            if decoded.Some? then
              && card' == card.(nonce := Increment(card.nonce)) && |card.keyC2H| == KEY_LEN && |answer| <= MAX_PLAINTEXT
              && reply == Seal(Keyed(E, card.keyC2H), card.nonce, answer) + [0x90, 0x00]
            else card' == card && reply == REFUSAL
  {
  }

  /** The client opens what the card sealed under the same counter. */
  lemma SealedAnswerAccepted(E: KeyedCipher, sys: System, reply: Response, answer: seq<byte>)
    requires LockStep(sys) && reply.Sw() == SW_OK
    requires reply.data == Seal(Keyed(E, sys.card.keyC2H), sys.card.nonce, answer)
    ensures Transmitted(E, sys.client, Ok(reply)) == (Advanced(sys.client), FromWire(answer))
  {
    OpenIffSealed(Keyed(E, sys.card.keyC2H), sys.card.nonce, answer, reply.data);
  }

  /** A reply that an open session takes: an OK status and data that authenticate under its counter. */
  predicate Taken(E: KeyedCipher, s: Session, reply: Reply) {
    reply.Ok? && reply.value.Sw() == SW_OK && Accepted(E, s, reply).Ok?
  }

  /** The caller reads this exchange's answer, and the counters agree unless the session ran out of nonces. */
  predicate ReadsTheAnswer(sys: System, o: Outcome, step: Step) {
    && o.got == FromWire(step.answer)
    && (o.sys.client.open ==> LockStep(o.sys))
    && (o.sys.client.open <==> BigEndian(sys.client.nonce) + 1 < Pow256(|sys.client.nonce|))
  }

  /** What the client makes of the card's own sealed answer, however it got there. */
  lemma AnswerRead(E: KeyedCipher, sys: System, step: Step, reply: Response)
    requires LockStep(sys) && |step.req.data| <= 255 && Emitted(E, sys, step) != []
    requires step.fate.Faulted? ==> step.fate.reply == Ok(reply)
    requires reply.Sw() == SW_OK && reply.data == Emitted(E, sys, step)[0].data
    requires step.fate.Delivered? ==> reply == Response(Emitted(E, sys, step)[0].data, 0x90, 0x00)
    ensures ReadsTheAnswer(sys, Exchange(E, sys, step), step)
  {
    ProtectedIsSealed(E, sys, step.req);
    var cmd := Protected(E, sys.client, step.req).value;
    CardAnswers(E, sys.card, Wire(cmd), step.answer);
    ResponseRoundTrip(reply.data + [0x90, 0x00], Response(reply.data, 0x90, 0x00));
    SealedAnswerAccepted(E, sys, reply, step.answer);
    AllOnesIsLargest(sys.client.nonce);
  }

  /** A delivered request of at most 242 bytes: the card sees it exactly, the caller gets the answer, the counters agree. */
  lemma DeliveredExchange(E: KeyedCipher, sys: System, step: Step)
    requires LockStep(sys) && |step.req.data| <= MAX_PAYLOAD && |step.answer| <= MAX_PLAINTEXT && step.fate.Delivered?
    ensures var o := Exchange(E, sys, step);
            o.decoded == Some(step.req.Command()) && ReadsTheAnswer(sys, o, step)
  {
    CardDecodes(E, sys, step.req, step.answer);
    AnswerRead(E, sys, step, Response(Emitted(E, sys, step)[0].data, 0x90, 0x00));
  }

  /** What reaches the card and is decoded is the request, if Lc could hold it. */
  lemma DecodedIsRequest(E: KeyedCipher, sys: System, step: Step)
    requires LockStep(sys) && |step.req.data| <= MAX_PAYLOAD
    ensures var d := Exchange(E, sys, step).decoded; d.Some? ==> d == Some(step.req.Command())
    ensures Emitted(E, sys, step) != [] ==> Exchange(E, sys, step).decoded == Some(step.req.Command())
  {
    ProtectedIsSealed(E, sys, step.req);
    var cmd := Protected(E, sys.client, step.req).value;
    CardAnswers(E, sys.card, Wire(cmd), step.answer);
    if |step.answer| <= MAX_PLAINTEXT {
      CardDecodes(E, sys, step.req, step.answer);
    } else {
      assert AesEncrypted(E, sys.card.keyC2H, sys.card.nonce, step.answer).Err?;
    }
  }

  // ---------------------------------------------------------------- whole runs

  function Known(E: KeyedCipher, sys: System, issued: seq<Issue>, step: Step): seq<Issue> {
    issued + Emitted(E, sys, step)
  }

  /** A reply put in place of the card's, that the session takes. */
  predicate Substituted(E: KeyedCipher, sys: System, step: Step) {
    step.fate.Faulted? && Taken(E, sys.client, step.fate.reply)
  }

  predicate SealedAmong(nonce: Nonce, data: seq<byte>, issued: seq<Issue>) {
    exists i :: 0 <= i < |issued| && issued[i].nonce == nonce && issued[i].data == data
  }

  /** Nobody without the key seals: data that authenticate under a counter were sealed by the card under it. */
  predicate Unforged(E: KeyedCipher, sys: System, issued: seq<Issue>, step: Step) {
    Substituted(E, sys, step) ==> SealedAmong(sys.client.nonce, step.fate.reply.value.data, Known(E, sys, issued, step))
  }

  /** All the card has issued bears a counter below the client's. */
  predicate AllBelow(issued: seq<Issue>, nonce: Nonce) {
    forall i :: 0 <= i < |issued| ==> BigEndian(issued[i].nonce) < BigEndian(nonce)
  }

  /**
   What one exchange promises. Open: an oversized request is refused without effect; otherwise a refusal comes back
   as it is and closes the session, or the card saw the request and the caller reads its answer, or the session
   closes with an error. Closed: the request goes out as it is.
   */
  predicate Faithful(E: KeyedCipher, sys: System, step: Step) {
    var o := Exchange(E, sys, step);
    if !sys.client.open then
      o.sys.client == sys.client && o.got == Answering(E, sys.card, step)(step.req.Command())
    else if |step.req.data| > 255 then
      o == Outcome(sys, None, Err(PayloadTooLarge))
    else
      && LockStep(sys)
      && Protected(E, sys.client, step.req).Ok?
      && (if Refused(Heard(E, sys, step)) then o.sys.client == sys.client.(open := false) && o.got == Heard(E, sys, step)
          else || (o.decoded.Some? && ReadsTheAnswer(sys, o, step))
               || (o.sys.client == sys.client.(open := false) && o.got.Err?))
      && (o.sys.client.open ==> o.decoded.Some? && ReadsTheAnswer(sys, o, step))
      && (o.decoded.Some? && |step.req.data| <= MAX_PAYLOAD ==> o.decoded == Some(step.req.Command()))
      && (step.fate.Delivered? && |step.req.data| <= MAX_PAYLOAD && |step.answer| <= MAX_PLAINTEXT ==>
            o.decoded.Some? && ReadsTheAnswer(sys, o, step))
  }

  lemma ExchangeWhenOpen(E: KeyedCipher, sys: System, step: Step)
    requires LockStep(sys) && |step.req.data| <= 255
    ensures Protected(E, sys.client, step.req).Ok?
    ensures var o := Exchange(E, sys, step);
            && (o.sys.client, o.got) == Transmitted(E, sys.client, Heard(E, sys, step))
            && (o.decoded.Some? <==> Emitted(E, sys, step) != [])
  {
    ProtectedIsSealed(E, sys, step.req);
  }

  /** A session that does not take a reply closes; unless the reply is a refusal the caller gets an error. */
  lemma NotTaken(E: KeyedCipher, s: Session, reply: Reply)
    requires s.open && !Taken(E, s, reply)
    ensures Transmitted(E, s, reply).0 == s.(open := false)
    ensures !Refused(reply) ==> Transmitted(E, s, reply).1.Err?
  {
  }

  /** A session that stays open took a reply. */
  lemma OpenMeansTaken(E: KeyedCipher, s: Session, reply: Reply)
    requires s.open && Transmitted(E, s, reply).0.open
    ensures Taken(E, s, reply)
  {
  }

  /** If the card refuses a delivered command, the client hears a refusal. */
  lemma CardRefusalHeard(E: KeyedCipher, sys: System, step: Step)
    requires LockStep(sys) && |step.req.data| <= 255 && step.fate.Delivered? && Emitted(E, sys, step) == []
    ensures Protected(E, sys.client, step.req).Ok?
    ensures Refused(Heard(E, sys, step))
  {
    ProtectedIsSealed(E, sys, step.req);
    CardAnswers(E, sys.card, Wire(Protected(E, sys.client, step.req).value), step.answer);
    ResponseRoundTrip(REFUSAL, Response([], 0x69, 0x82));
  }

  /** Nonces are never used twice, so whatever an open session takes is this exchange's answer. */
  lemma TakenIsTheAnswer(E: KeyedCipher, sys: System, issued: seq<Issue>, step: Step)
    requires LockStep(sys) && |step.req.data| <= 255 && AllBelow(issued, sys.client.nonce)
    requires Protected(E, sys.client, step.req).Ok?
    requires Unforged(E, sys, issued, step) && Taken(E, sys.client, Heard(E, sys, step))
    ensures Exchange(E, sys, step).decoded.Some? && ReadsTheAnswer(sys, Exchange(E, sys, step), step)
  {
    ExchangeWhenOpen(E, sys, step);
    if step.fate.Delivered? {
      if Emitted(E, sys, step) == [] {
        CardRefusalHeard(E, sys, step);
      }
      AnswerRead(E, sys, step, Response(Emitted(E, sys, step)[0].data, 0x90, 0x00));
    } else {
      var known, data := Known(E, sys, issued, step), step.fate.reply.value.data;
      var i :| 0 <= i < |known| && known[i].nonce == sys.client.nonce && known[i].data == data;
      assert i >= |issued| && Emitted(E, sys, step) == [known[i]];
      AnswerRead(E, sys, step, step.fate.reply.value);
    }
  }

  lemma OpenIsAnswered(E: KeyedCipher, sys: System, issued: seq<Issue>, step: Step)
    requires LockStep(sys) && |step.req.data| <= 255 && AllBelow(issued, sys.client.nonce)
    requires Unforged(E, sys, issued, step) && Exchange(E, sys, step).sys.client.open
    ensures Exchange(E, sys, step).decoded.Some? && ReadsTheAnswer(sys, Exchange(E, sys, step), step)
  {
    ExchangeWhenOpen(E, sys, step);
    OpenMeansTaken(E, sys.client, Heard(E, sys, step));
    TakenIsTheAnswer(E, sys, issued, step);
  }

  /** In particular a reply to a command the card never got, such as one of an earlier exchange, closes the session. */
  lemma UnreachedCloses(E: KeyedCipher, sys: System, issued: seq<Issue>, step: Step)
    requires LockStep(sys) && |step.req.data| <= 255 && AllBelow(issued, sys.client.nonce)
    requires Unforged(E, sys, issued, step) && !Reaches(step)
    ensures !Exchange(E, sys, step).sys.client.open
  {
    if Exchange(E, sys, step).sys.client.open {
      OpenIsAnswered(E, sys, issued, step);
    }
  }

  lemma OpenStepIsFaithful(E: KeyedCipher, sys: System, issued: seq<Issue>, step: Step)
    requires LockStep(sys) && |step.req.data| <= 255 && AllBelow(issued, sys.client.nonce)
    requires Unforged(E, sys, issued, step)
    ensures Protected(E, sys.client, step.req).Ok?
    ensures var o, heard := Exchange(E, sys, step), Heard(E, sys, step);
            if Refused(heard) then o.sys.client == sys.client.(open := false) && o.got == heard
            else || (o.decoded.Some? && ReadsTheAnswer(sys, o, step))
                 || (o.sys.client == sys.client.(open := false) && o.got.Err?)
  {
    ExchangeWhenOpen(E, sys, step);
    var heard := Heard(E, sys, step);
    if Refused(heard) {
      RefusalComesBack(E, sys.client, heard);
    } else if Taken(E, sys.client, heard) {
      TakenIsTheAnswer(E, sys, issued, step);
    } else {
      NotTaken(E, sys.client, heard);
    }
  }

  lemma UnforgedIsFaithful(E: KeyedCipher, sys: System, issued: seq<Issue>, step: Step)
    requires sys.client.open ==> LockStep(sys) && AllBelow(issued, sys.client.nonce) && Unforged(E, sys, issued, step)
    ensures Faithful(E, sys, step)
  {
    if !sys.client.open {
      ClosedSendsPlain(E, sys.client, step.req, Answering(E, sys.card, step));
    } else if |step.req.data| <= 255 {
      OpenStepIsFaithful(E, sys, issued, step);
      if |step.req.data| <= MAX_PAYLOAD {
        DecodedIsRequest(E, sys, step);
        if step.fate.Delivered? && |step.answer| <= MAX_PLAINTEXT {
          DeliveredExchange(E, sys, step);
        }
      }
    }
  }

  /** After an answered exchange, all issued replies bear counters below the new one. */
  lemma KnownIsBelow(E: KeyedCipher, sys: System, issued: seq<Issue>, step: Step)
    requires LockStep(sys) && AllBelow(issued, sys.client.nonce) && Faithful(E, sys, step)
    requires Exchange(E, sys, step).sys.client.open
    ensures LockStep(Exchange(E, sys, step).sys)
    ensures AllBelow(Known(E, sys, issued, step), Exchange(E, sys, step).sys.client.nonce)
  {
    var client' := Exchange(E, sys, step).sys.client;
    if |step.req.data| <= 255 {
      CounterMoves(E, sys, step);
      BelowNext(issued, Emitted(E, sys, step), sys.client.nonce, client'.nonce);
    } else {
      assert Known(E, sys, issued, step) == issued;
    }
  }

  lemma CounterMoves(E: KeyedCipher, sys: System, step: Step)
    requires LockStep(sys) && |step.req.data| <= 255 && Exchange(E, sys, step).sys.client.open
    ensures BigEndian(Exchange(E, sys, step).sys.client.nonce) == BigEndian(sys.client.nonce) + 1
  {
    ExchangeWhenOpen(E, sys, step);
    OpenMeansTaken(E, sys.client, Heard(E, sys, step));
    AcceptedAdvancesByOne(E, sys.client, Heard(E, sys, step));
  }

  lemma BelowNext(issued: seq<Issue>, more: seq<Issue>, nonce: Nonce, next: Nonce)
    requires AllBelow(issued, nonce) && BigEndian(nonce) < BigEndian(next)
    requires forall i :: 0 <= i < |more| ==> more[i].nonce == nonce
    ensures AllBelow(issued + more, next)
  {
  }

  predicate AlwaysUnforged(E: KeyedCipher, sys: System, issued: seq<Issue>, steps: seq<Step>)
    decreases |steps|
  {
    if steps == [] then true
    else
      && (sys.client.open ==> Unforged(E, sys, issued, steps[0]))
      && AlwaysUnforged(E, Exchange(E, sys, steps[0]).sys, Known(E, sys, issued, steps[0]), steps[1..])
  }

  predicate AlwaysFaithful(E: KeyedCipher, sys: System, steps: seq<Step>)
    decreases |steps|
  {
    if steps == [] then true
    else
      && Faithful(E, sys, steps[0])
      && AlwaysFaithful(E, Exchange(E, sys, steps[0]).sys, steps[1..])
  }

  /**
   Lock-step and delivery over whole runs, whatever the channel loses, alters, replays or invents short of forging a
   sealed reply: replays are not excluded, they are refused.
   */
  lemma {:induction false} DeliveryOverRuns(E: KeyedCipher, sys: System, issued: seq<Issue>, steps: seq<Step>)
    requires sys.client.open ==> LockStep(sys) && AllBelow(issued, sys.client.nonce)
    requires AlwaysUnforged(E, sys, issued, steps)
    ensures AlwaysFaithful(E, sys, steps)
    decreases |steps|
  {
    if steps != [] {
      UnforgedIsFaithful(E, sys, issued, steps[0]);
      if sys.client.open && Exchange(E, sys, steps[0]).sys.client.open {
        KnownIsBelow(E, sys, issued, steps[0]);
      }
      DeliveryOverRuns(E, Exchange(E, sys, steps[0]).sys, Known(E, sys, issued, steps[0]), steps[1..]);
    }
  }
}
