/** SET NDEF: the two-byte length prefix, and the split into STORE DATA commands the card replays as writes. */
module Ndef {
  import opened Bytes
  import opened Apdus
  import opened Channels
  import V1 = V1Runs
  import V2 = V2Runs

  const MAX_CHUNK: nat := 220

  const INS_STORE_DATA: byte := 0xE2
  const INS_SET_NDEF: byte := 0xF3
  const P1_NDEF: byte := 0x01

  function StoreRequest(p2: byte, data: seq<byte>): Request {
    Request(CLA_GP, INS_STORE_DATA, P1_NDEF, p2, data)
  }

  // ---------------------------------------------------------------- the length prefix

  predicate HasPrefix(data: seq<byte>) {
    |data| >= 2 && data[0] as int * 256 + data[1] == |data| - 2
  }

  function Normalised(ndef: seq<byte>): seq<byte> {
    if HasPrefix(ndef) then ndef else [|ndef| / 256 % 256, |ndef| % 256] + ndef
  }

  /** The prefix is the remaining length, and normalising again changes nothing, exactly when two bytes can hold the length. */
  lemma NormalisedIff(ndef: seq<byte>)
    ensures HasPrefix(Normalised(ndef)) <==> HasPrefix(ndef) || |ndef| < 0x1_0000
    ensures Normalised(Normalised(ndef)) == Normalised(ndef) <==> HasPrefix(ndef) || |ndef| < 0x1_0000
  {
    var n := Normalised(ndef);
    if !HasPrefix(ndef) {
      assert n[0] == |ndef| / 256 % 256 && n[1] == |ndef| % 256 && |n| == |ndef| + 2;
      TwoBytes(|ndef|);
    }
    if !HasPrefix(n) {
      assert |Normalised(n)| == |n| + 2;
    }
  }

  lemma TwoBytes(n: nat)
    ensures (n / 256 % 256) * 256 + n % 256 == n <==> n < 0x1_0000
  {
  }

  // ---------------------------------------------------------------- chunks

  /** The request for each chunk, its P2 a quarter of the offset as far as 16 and then 8 bits hold it. */
  function Chunks(data: seq<byte>, off: nat): seq<Request>
    requires off <= |data|
    decreases |data| - off
  {
    var n := Min(MAX_CHUNK, |data| - off);
    if n == 0 then [] else [StoreRequest(off % 0x1_0000 / 4 % 256, data[off..off + n])] + Chunks(data, off + n)
  }

  /** The requests of one SetNDEF call, if none fails. */
  function Requests(ndef: seq<byte>, appMajor: nat): seq<Request> {
    if appMajor > 2 then Chunks(Normalised(ndef), 0) else [Request(CLA_GP, INS_SET_NDEF, 0, 0, ndef)]
  }

  /** The answer sendProtected would give to a request that has k before it; it may depend on all that went before. */
  type Exchanges = (nat, Request) -> Reply

  predicate Succeeds(reply: Reply) {
    reply.Ok? && reply.value.Sw() == SW_OK
  }

  /** What is sent from request k on: up to the first failure. */
  function Sent(reqs: seq<Request>, k: nat, send: Exchanges): (seq<Request>, bool) {
    if reqs == [] then ([], true)
    else if !Succeeds(send(k, reqs[0])) then ([reqs[0]], false)
    else var (rest, ok) := Sent(reqs[1..], k + 1, send); ([reqs[0]] + rest, ok)
  }

  method SetNdef(ndef: seq<byte>, appMajor: nat, send: Exchanges) returns (sent: seq<Request>, ok: bool)
    ensures (sent, ok) == Sent(Requests(ndef, appMajor), 0, send)
  {
    if appMajor > 2 {
      var data := ndef;
      var hasPrefix := |data| >= 2;
      if hasPrefix {
        var expectedLen := data[0] as int * 256 + data[1];
        if expectedLen != |data| - 2 {
          hasPrefix := false;
        }
      }
      if !hasPrefix {
        data := [|ndef| / 256 % 256, |ndef| % 256] + ndef;
      }
      sent, ok := SendChunks(data, send);
    } else {
      sent := [Request(CLA_GP, INS_SET_NDEF, 0, 0, ndef)];
      ok := Succeeds(send(0, sent[0]));
      assert sent[1..] == [] && sent + [] == sent;
    }
  }

  lemma FirstChunk(data: seq<byte>, off: nat, req: Request)
    requires off < |data|
    requires req == StoreRequest(req.p2, data[off..off + Min(MAX_CHUNK, |data| - off)])
    requires 4 * req.p2 <= off % 0x1_0000 % 1024 < 4 * req.p2 + 4
    ensures Chunks(data, off) == [req] + Chunks(data, off + Min(MAX_CHUNK, |data| - off))
  {
    WordOfOffset(off % 0x1_0000, req.p2);
  }

  lemma WordOfOffset(offset: nat, word: byte)
    requires 4 * word <= offset % 1024 < 4 * word + 4
    ensures word == offset / 4 % 256
  {
    var q, r := offset / 1024, offset % 1024;
    assert offset == 4 * (256 * q) + r && offset / 4 == 256 * q + r / 4 && r / 4 == word;
  }

  lemma SentStep(sent: seq<Request>, req: Request, rest: seq<Request>, send: Exchanges)
    ensures var (now, ok) := Sent([req] + rest, |sent|, send);
            var (later, okLater) := Sent(rest, |sent| + 1, send);
            if Succeeds(send(|sent|, req)) then sent + now == sent + [req] + later && ok == okLater
            else sent + now == sent + [req] && !ok
  {
    assert ([req] + rest)[1..] == rest;
    Appended(sent, req, Sent(rest, |sent| + 1, send).0);
  }

  lemma Appended<T>(a: seq<T>, x: T, b: seq<T>)
    ensures a + ([x] + b) == a + [x] + b
  {
  }

  method SendChunks(data: seq<byte>, send: Exchanges) returns (sent: seq<Request>, ok: bool)
    ensures (sent, ok) == Sent(Chunks(data, 0), 0, send)
  {
    var off, remaining := 0, |data|;
    sent := [];
    ghost var (all, done) := Sent(Chunks(data, 0), 0, send);
    assert [] + all == all;
    while remaining > 0
      invariant 0 <= remaining && off + remaining == |data|
      invariant var (rest, d) := Sent(Chunks(data, off), |sent|, send); all == sent + rest && done == d
    {
      var chunkSize := MAX_CHUNK;
      if remaining < chunkSize {
        chunkSize := remaining;
      }
      var req, stored := StoreDataWithOffset(P1_NDEF, data[off..off + chunkSize], off % 0x1_0000, |sent|, send);
      FirstChunk(data, off, req);
      SentStep(sent, req, Chunks(data, off + chunkSize), send);
      sent := sent + [req];
      if !stored {
        return sent, false;
      }
      off := off + chunkSize;
      remaining := remaining - chunkSize;
    }
    assert sent + [] == sent;
    return sent, true;
  }

  /**
   P2 names the four-byte word that holds the offset, modulo 1024 bytes; the card's address, four times P2, is the
   offset exactly for multiples of four below 1024.
   */
  method StoreDataWithOffset(typ: byte, data: seq<byte>, offset: uint16, k: nat, send: Exchanges)
    returns (req: Request, ok: bool)
    ensures req == Request(CLA_GP, INS_STORE_DATA, typ, req.p2, data)
    ensures 4 * req.p2 <= offset % 1024 < 4 * req.p2 + 4
    ensures 4 * req.p2 == offset <==> offset % 4 == 0 && offset < 1024
    ensures ok == Succeeds(send(k, req))
  {
    req := Request(CLA_GP, INS_STORE_DATA, typ, offset / 4 % 256, data);
    ok := Succeeds(send(k, req));
  }

  /** Every chunk is small enough for the payload limits of both secure channels. */
  lemma {:induction false} ChunksFitBothChannels(data: seq<byte>, off: nat, k: nat)
    requires off <= |data| && k < |Chunks(data, off)|
    ensures var c := Chunks(data, off)[k]; c == Request(0x80, 0xE2, 0x01, c.p2, c.data)
    ensures 0 < |Chunks(data, off)[k].data| <= V1.MAX_PAYLOAD && |Chunks(data, off)[k].data| <= V2.MAX_PAYLOAD
    decreases |data| - off
  {
    if k > 0 {
      ChunksFitBothChannels(data, off + Min(MAX_CHUNK, |data| - off), k - 1);
    }
  }

  predicate Is9000(reply: Reply) {
    reply.Ok? && reply.value.sw1 == 0x90 && reply.value.sw2 == 0x00
  }

  predicate AllSucceed(sent: seq<Request>, k: nat, send: Exchanges)
    decreases |sent|
  {
    sent == [] || (Is9000(send(k, sent[0])) && AllSucceed(sent[1..], k + 1, send))
  }

  /** The last one fails, and none before it. */
  predicate OnlyLastFails(sent: seq<Request>, k: nat, send: Exchanges)
    decreases |sent|
  {
    && sent != []
    && if |sent| == 1 then !Is9000(send(k, sent[0]))
       else Is9000(send(k, sent[0])) && OnlyLastFails(sent[1..], k + 1, send)
  }

  /** Requests go out in order up to the first failure; success means exactly that all went out and succeeded. */
  lemma {:induction false} SentUpToFailure(reqs: seq<Request>, k: nat, send: Exchanges)
    ensures var (sent, ok) := Sent(reqs, k, send);
            && (ok <==> AllSucceed(reqs, k, send))
            && if ok then sent == reqs else sent <= reqs && OnlyLastFails(sent, k, send)
    decreases |reqs|
  {
    if reqs != [] && Succeeds(send(k, reqs[0])) {
      var rest := Sent(reqs[1..], k + 1, send).0;
      SentUpToFailure(reqs[1..], k + 1, send);
      assert reqs == [reqs[0]] + reqs[1..] && ([reqs[0]] + rest)[1..] == rest;
    }
  }

  // ---------------------------------------------------------------- what the card stores

  /** A write at an address, over what is there and past its end. */
  function Written(mem: seq<byte>, at: nat, data: seq<byte>): seq<byte> {
    (if at <= |mem| then mem[..at] else mem + Zeros(at - |mem|)) + data
    + (if at + |data| <= |mem| then mem[at + |data|..] else [])
  }

  /** The card writes each chunk at four times P2. */
  function Replayed(mem: seq<byte>, reqs: seq<Request>): seq<byte>
    decreases |reqs|
  {
    if reqs == [] then mem else Replayed(Written(mem, 4 * reqs[0].p2, reqs[0].data), reqs[1..])
  }

  const LAST_EXACT: nat := 1100

  /** While P2 holds a quarter of the offset, each chunk continues the memory. */
  lemma {:induction false} ReplaysExactly(data: seq<byte>, off: nat)
    requires off % MAX_CHUNK == 0 && off <= LAST_EXACT && off <= |data|
    ensures Replayed([], Chunks(data, 0)) == Replayed(data[..off], Chunks(data, off))
  {
    if off == 0 {
      assert data[..0] == [];
    } else {
      var before := off - MAX_CHUNK;
      ReplaysExactly(data, before);
      OneChunk(data, before);
    }
  }

  lemma OneChunk(data: seq<byte>, off: nat)
    requires off % MAX_CHUNK == 0 && off < LAST_EXACT && off < |data|
    ensures var n := Min(MAX_CHUNK, |data| - off);
            Replayed(data[..off], Chunks(data, off)) == Replayed(data[..off + n], Chunks(data, off + n))
  {
    var n := Min(MAX_CHUNK, |data| - off);
    var reqs := Chunks(data, off);
    QuarterIsExact(off);
    assert reqs[0] == StoreRequest(off / 4, data[off..off + n]) && reqs[1..] == Chunks(data, off + n);
    assert Written(data[..off], off, data[off..off + n]) == data[..off + n];
  }

  lemma QuarterIsExact(off: nat)
    requires off % MAX_CHUNK == 0 && off < LAST_EXACT
    ensures off % 0x1_0000 / 4 % 256 == off / 4 && 4 * (off / 4) == off
  {
  }

  /** No write reaches beyond 4*255 + 220. */
  lemma {:induction false} MemoryIsBounded(mem: seq<byte>, data: seq<byte>, off: nat)
    requires off <= |data| && |mem| <= 1240
    ensures |Replayed(mem, Chunks(data, off))| <= 1240
    decreases |data| - off
  {
    if off < |data| {
      var n := Min(MAX_CHUNK, |data| - off);
      var c := Chunks(data, off)[0];
      assert Chunks(data, off)[1..] == Chunks(data, off + n);
      MemoryIsBounded(Written(mem, 4 * c.p2, c.data), data, off + n);
    }
  }

  lemma ShortDataRebuilt(data: seq<byte>)
    requires |data| <= LAST_EXACT
    ensures Replayed([], Chunks(data, 0)) == data
  {
    var off := |data| / MAX_CHUNK * MAX_CHUNK;
    ReplaysExactly(data, off);
    if off < |data| {
      OneChunk(data, off);
    }
    assert data[..|data|] == data;
  }

  /** The sixth chunk would go to address 4*275, but P2 holds 275 - 256 = 19: it lands inside what is stored. */
  lemma SixthChunkWraps(data: seq<byte>)
    requires LAST_EXACT < |data| <= LAST_EXACT + MAX_CHUNK
    ensures |Replayed([], Chunks(data, 0))| < |data|
  {
    ReplaysExactly(data, LAST_EXACT);
    var reqs, last := Chunks(data, LAST_EXACT), data[LAST_EXACT..];
    assert reqs[0] == StoreRequest(19, last) && reqs[1..] == [];
    assert |Written(data[..LAST_EXACT], 76, last)| == LAST_EXACT;
  }

  /** Replaying the chunks rebuilds the data exactly when they have at most 1100 bytes. */
  lemma ReplayIff(data: seq<byte>)
    ensures Replayed([], Chunks(data, 0)) == data <==> |data| <= LAST_EXACT
  {
    if |data| <= LAST_EXACT {
      ShortDataRebuilt(data);
    } else if |data| <= LAST_EXACT + MAX_CHUNK {
      SixthChunkWraps(data);
    } else {
      MemoryIsBounded([], data, 0);
    }
  }

  /** Chunks cover the data in order, whatever its length. */
  lemma {:induction false} ChunksCover(data: seq<byte>, off: nat)
    requires off <= |data|
    ensures Flatten(Payloads(Chunks(data, off))) == data[off..]
    decreases |data| - off
  {
    if off < |data| {
      var n := Min(MAX_CHUNK, |data| - off);
      ChunksCover(data, off + n);
      assert Chunks(data, off)[1..] == Chunks(data, off + n);
      assert data[off..] == data[off..off + n] + data[off + n..];
    }
  }

  function Payloads(reqs: seq<Request>): seq<seq<byte>> {
    if reqs == [] then [] else [reqs[0].data] + Payloads(reqs[1..])
  }

  // ---------------------------------------------------------------- what SetNDEF stores

  /** A stored message: two bytes with the length of the rest, and either the whole or the rest is what was given. */
  predicate Stores(mem: seq<byte>, ndef: seq<byte>) {
    HasPrefix(mem) && (mem == ndef || mem[2..] == ndef)
  }

  lemma NormalisedStores(ndef: seq<byte>)
    requires HasPrefix(ndef) || |ndef| < 0x1_0000
    ensures Stores(Normalised(ndef), ndef)
  {
    NormalisedIff(ndef);
    if !HasPrefix(ndef) {
      assert Normalised(ndef)[2..] == ndef;
    }
  }

  /** With the length fixed, only one memory stores a message. */
  lemma StoresOne(mem: seq<byte>, ndef: seq<byte>)
    requires Stores(mem, ndef) && (HasPrefix(ndef) ==> |mem| <= |ndef|)
    ensures mem == Normalised(ndef)
  {
    if mem != ndef {
      var n := |ndef|;
      assert mem == [mem[0], mem[1]] + mem[2..];
      assert mem[0] as int * 256 + mem[1] == n;
    }
  }

  lemma MemoryBound(data: seq<byte>)
    requires |data| > LAST_EXACT
    ensures |Replayed([], Chunks(data, 0))| < |data|
  {
    if |data| <= LAST_EXACT + MAX_CHUNK {
      SixthChunkWraps(data);
    } else {
      MemoryIsBounded([], data, 0);
    }
  }

  /**
   On versions above 2 the card's memory holds the message behind its length, which is added unless it is there,
   exactly for messages that have at most 1100 bytes with it.
   */
  lemma StoredIff(ndef: seq<byte>, appMajor: nat)
    requires appMajor > 2
    ensures Stores(Replayed([], Requests(ndef, appMajor)), ndef)
       <==> |ndef| <= if HasPrefix(ndef) then 1100 else 1098
  {
    var data := Normalised(ndef);
    var mem := Replayed([], Chunks(data, 0));
    ReplayIff(data);
    if |data| <= LAST_EXACT {
      NormalisedStores(ndef);
    } else {
      MemoryBound(data);
      if Stores(mem, ndef) {
        StoresOne(mem, ndef);
      }
    }
  }

  /** On older versions one legacy request carries the message as it is. */
  lemma LegacyIsOneRequest(ndef: seq<byte>, appMajor: nat)
    requires appMajor <= 2
    ensures Requests(ndef, appMajor) == [Request(0x80, 0xF3, 0x00, 0x00, ndef)]
  {
  }
}
