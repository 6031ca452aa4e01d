/**
  Attestation of a service to the vault: the request a client builds from the vault's nonce, and
  the three ordered checks of the vault, the second of which spends the nonce. SHA-256 is an
  arbitrary function on byte strings.
 */
module Attestation {
  import opened Prelude
  import opened Clocks
  import opened Nonces
  import Hex

  datatype UnsealRequest = UnsealRequest(
    serviceName: string,
    machineId: string,
    tpmQuote: string,
    nonce: string,
    akPub: string)

  datatype Verdict = Accepted | Refused(reason: string)

  /** What the vault is configured with: its allowlist, and the hash function. */
  datatype Policy = Policy(machineIds: seq<string>, sha256: Nonce -> seq<byte>) {

    /** `contains`: some entry is the machine's, or lets in every machine. */
    predicate Allows(machineId: string)
      ensures Allows(machineId) <==> Listed(machineId)
    {
      "dev" in machineIds || machineId in machineIds
    }

    ghost predicate Listed(machineId: string) {
      exists i :: 0 <= i < |machineIds| && (machineIds[i] == "dev" || machineIds[i] == machineId)
    }
  }

  const NO_NONCE := "nonce is required"
  const NOT_HEX := "nonce is not valid hex"
  const BAD_NONCE := "nonce is invalid, expired, or already used"
  const BAD_QUOTE := "TPM quote verification failed"

  function NotAllowed(machineId: string): string
  {
    "machine_id '" + machineId + "' not in allowlist"
  }

  /** The bytes a request presents to the nonce store, when it gets that far. */
  function Presented(p: Policy, req: UnsealRequest): Option<Nonce>
  {
    if p.Allows(req.machineId) && req.nonce != "" then Hex.Decode(req.nonce) else None
  }

  predicate QuoteHolds(p: Policy, req: UnsealRequest, n: Nonce)
  {
    req.tpmQuote == "" || req.tpmQuote == Hex.Encode(p.sha256(n))
  }

  /** The answer of the ordered checks when the store holds `m` and the age of the nonce is read at
      time `t`: the reason is that of the first check that fails. */
  function VerdictOf(p: Policy, req: UnsealRequest, m: map<Nonce, nat>, t: nat): Verdict
  {
    if !p.Allows(req.machineId) then Refused(NotAllowed(req.machineId))
    else if req.nonce == "" then Refused(NO_NONCE)
    else
      match Hex.Decode(req.nonce)
      case None => Refused(NOT_HEX)
      case Some(n) =>
        if !(n in m && t - m[n] < WINDOW_MS) then Refused(BAD_NONCE)
        else if !QuoteHolds(p, req, n) then Refused(BAD_QUOTE)
        else Accepted
  }

  /** What is left in the store: a nonce that is presented is gone. */
  function StoreAfter(p: Policy, req: UnsealRequest, m: map<Nonce, nat>): map<Nonce, nat>
  {
    match Presented(p, req)
    case None => m
    case Some(n) => m - {n}
  }

  /** What `verify` does to the store between times `t0` and `t1`, and what it answers. */
  ghost predicate VerifyRel(p: Policy, req: UnsealRequest, m: map<Nonce, nat>, t0: nat,
                            m': map<Nonce, nat>, t1: nat, verdict: Verdict)
  {
    t0 <= t1 && m' == StoreAfter(p, req, m) && verdict == VerdictOf(p, req, m, t1)
  }

  /** The nonce events after `verify` read the clock at `t`. */
  function EventsAfter(p: Policy, req: UnsealRequest, h: History, t: nat): History
  {
    match Presented(p, req)
    case None => h
    case Some(n) => h + [Consumed(n, t)]
  }

  /** A request is accepted exactly when it is allowed, well formed, its nonce's latest
      registration since the nonce was last consumed is inside the window, and its quote holds. */
  lemma AcceptedExactlyWhen(p: Policy, req: UnsealRequest, m: map<Nonce, nat>, h: History, t0: nat,
                            m': map<Nonce, nat>, t1: nat, verdict: Verdict)
    requires Refines(m, h, t0) && VerifyRel(p, req, m, t0, m', t1, verdict)
    ensures Refines(m', EventsAfter(p, req, h, t1), t1)
    ensures verdict.Accepted? <==>
              && Presented(p, req).Some?
              && Live(h, Presented(p, req).value, t1)
              && QuoteHolds(p, req, Presented(p, req).value)
  {
    if Presented(p, req).Some? {
      var n := Presented(p, req).value;
      ConsumeRefines(m, h, n, t0, t1, m', n in m && t1 - m[n] < WINDOW_MS);
    }
  }

  /** No reason is given for two different failures, nor to two machines that are not allowed. */
  lemma ReasonsDiffer(id: string, other: string)
    ensures NotAllowed(id) !in {NO_NONCE, NOT_HEX, BAD_NONCE, BAD_QUOTE}
    ensures NO_NONCE !in {NOT_HEX, BAD_NONCE, BAD_QUOTE} && NOT_HEX !in {BAD_NONCE, BAD_QUOTE}
    ensures BAD_NONCE != BAD_QUOTE
    ensures NotAllowed(id) == NotAllowed(other) ==> id == other
  {
    assert NotAllowed(id)[0] == 'm' && NO_NONCE[0] == NOT_HEX[0] == BAD_NONCE[0] == 'n' && BAD_QUOTE[0] == 'T';
    assert NO_NONCE[9] == 'r' && NOT_HEX[9] == 'n' && BAD_NONCE[9] == 'i';
    var before, after := "machine_id '", "' not in allowlist";
    assert NotAllowed(id)[|before|..][..|NotAllowed(id)| - |before| - |after|] == id;
    assert NotAllowed(other)[|before|..][..|NotAllowed(other)| - |before| - |after|] == other;
  }

  method Verify(p: Policy, req: UnsealRequest, store: NonceStore, clock: Clock) returns (verdict: Verdict)
    requires store.Valid(clock)
    modifies store, clock
    ensures store.Valid(clock)
    ensures VerifyRel(p, req, old(store.inner), old(clock.now), store.inner, clock.now, verdict)
    ensures store.history == EventsAfter(p, req, old(store.history), clock.now)
    // who is accepted
    ensures verdict.Accepted? <==>
              && p.Listed(req.machineId) && req.nonce != "" && Hex.Decode(req.nonce).Some?
              && var n := Hex.Decode(req.nonce).value;
              && Live(old(store.history), n, clock.now)
              && (req.tpmQuote == "" || req.tpmQuote == Hex.Encode(p.sha256(n)))
    // the reason is that of the first check that fails
    ensures verdict == Refused("machine_id '" + req.machineId + "' not in allowlist") <==> !p.Listed(req.machineId)
    ensures p.Listed(req.machineId) && req.nonce == "" ==> verdict == Refused("nonce is required")
    ensures p.Listed(req.machineId) && req.nonce != "" && Hex.Decode(req.nonce).None? ==>
              verdict == Refused("nonce is not valid hex")
    ensures p.Listed(req.machineId) && req.nonce != "" && Hex.Decode(req.nonce).Some? && verdict.Refused? ==>
              verdict.reason == if Live(old(store.history), Hex.Decode(req.nonce).value, clock.now)
                                then "TPM quote verification failed"
                                else "nonce is invalid, expired, or already used"
    // what is left
    ensures store.inner == if p.Listed(req.machineId) && req.nonce != "" && Hex.Decode(req.nonce).Some?
                           then old(store.inner) - {Hex.Decode(req.nonce).value} else old(store.inner)
  {
    ReasonsDiffer(req.machineId, req.machineId);
    if !p.Allows(req.machineId) {
      return Refused(NotAllowed(req.machineId));
    }
    if req.nonce == "" {
      return Refused(NO_NONCE);
    }
    var decoded := Hex.Decode(req.nonce);
    if decoded.None? {
      return Refused(NOT_HEX);
    }
    var ok := store.Consume(decoded.value, clock);
    if !ok {
      return Refused(BAD_NONCE);
    }
    if req.tpmQuote == "" {
      return Accepted;
    }
    var expected := Hex.Encode(p.sha256(decoded.value));
    if req.tpmQuote != expected {
      return Refused(BAD_QUOTE);
    }
    return Accepted;
  }

  /** The store loses an entry exactly when an allowlisted machine presents valid, non-empty hex
      naming an outstanding nonce, whether or not the request is then accepted. */
  lemma BurntExactlyWhenPresented(p: Policy, req: UnsealRequest, m: map<Nonce, nat>, t0: nat,
                                  m': map<Nonce, nat>, t1: nat, verdict: Verdict)
    requires VerifyRel(p, req, m, t0, m', t1, verdict)
    ensures m' != m <==> Presented(p, req).Some? && Presented(p, req).value in m
    ensures m' != m ==> m' == m - {Presented(p, req).value}
    ensures verdict.Accepted? ==> m' != m
  {
    if Presented(p, req).Some? {
      var n := Presented(p, req).value;
      if n !in m {
        assert m - {n} == m;
      }
    }
  }

  /** A nonce that was presented, accepted or not, is refused until it is registered again. */
  lemma {:induction false} BurntUntilRegistered(h: History, n: Nonce, at: nat, later: History)
    requires forall e :: e in later && e.nonce == n ==> e.Consumed?
    ensures Outstanding(h + [Consumed(n, at)] + later, n) == None
    ensures forall now :: !Live(h + [Consumed(n, at)] + later, n, now)
  {
    var all := h + [Consumed(n, at)] + later;
    if later == [] {
      assert all == h + [Consumed(n, at)];
    } else {
      var init := later[..|later| - 1];
      BurntUntilRegistered(h, n, at, init);
      assert all[..|all| - 1] == h + [Consumed(n, at)] + init;
      assert later[|later| - 1] in later;
    }
  }

  // ----- the client

  /** The fixed marker sent in place of an attestation key. */
  const MARKER := "DEV_MODE_NO_TPM"

  /** Its bytes. */
  function MarkerBytes(): (bytes: seq<byte>)
    ensures |bytes| == 15 && forall i :: 0 <= i < 15 ==> bytes[i] == "DEV_MODE_NO_TPM"[i] as int
  {
    seq(|MARKER|, i requires 0 <= i < |MARKER| => if MARKER[i] as int < 128 then MARKER[i] as int else 0)
  }

  /** The request is made in the name of this service on this machine, echoes the nonce text, and quotes
      the bytes it stands for. */
  ghost predicate MadeFor(sha256: Nonce -> seq<byte>, serviceName: string, machineId: Option<string>,
                          nonceHex: string, req: UnsealRequest)
  {
    && req.serviceName == serviceName
    && req.machineId == (if machineId.Some? then machineId.value else "unknown")
    && req.nonce == nonceHex
    && Hex.Decode(nonceHex).Some? && req.tpmQuote == Hex.Encode(sha256(Hex.Decode(nonceHex).value))
    && Hex.Decode(req.akPub) == Some(MarkerBytes())
  }

  /** The request a client makes of the text of a nonce; the text itself is echoed. */
  function Attest(sha256: Nonce -> seq<byte>, serviceName: string, machineId: Option<string>, nonceHex: string)
    : (made: Result<UnsealRequest, string>)
    ensures made.Ok? <==> Hex.Decode(nonceHex).Some?
    ensures made.Ok? ==> MadeFor(sha256, serviceName, machineId, nonceHex, made.value)
  {
    Hex.DecodeEncode(MarkerBytes());
    match Hex.Decode(nonceHex)
    case None => Err("bad nonce hex")
    case Some(bytes) =>
      Ok(UnsealRequest(serviceName, if machineId.Some? then machineId.value else "unknown",
                       Hex.Encode(sha256(bytes)), nonceHex, Hex.Encode(MarkerBytes())))
  }

  /** A client that makes its request of the text of a nonce presents exactly that nonce, with a quote
      that holds, to any vault whose allowlist has its machine or lets in all. */
  lemma HonestRequest(p: Policy, serviceName: string, machineId: Option<string>, n: Nonce, req: UnsealRequest)
    requires n != [] && MadeFor(p.sha256, serviceName, machineId, Hex.Encode(n), req)
    ensures req.serviceName == serviceName && QuoteHolds(p, req, n)
    ensures p.Listed(req.machineId) ==> Presented(p, req) == Some(n)
    ensures machineId.Some? && machineId.value in p.machineIds ==> p.Listed(req.machineId)
  {
    Hex.DecodeEncode(n);
    Hex.EncodeIsLower(n);
  }

  /** Every nonce text of the vault can be answered. */
  lemma AttestAnswers(sha256: Nonce -> seq<byte>, serviceName: string, machineId: Option<string>, n: Nonce)
    ensures var made := Attest(sha256, serviceName, machineId, Hex.Encode(n));
            made.Ok? && MadeFor(sha256, serviceName, machineId, Hex.Encode(n), made.value)
  {
    Hex.DecodeEncode(n);
  }
}
