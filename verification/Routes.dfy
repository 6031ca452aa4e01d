/** The vault's request handlers, each run to its end, over the state they share. */
module Routes {
  import opened Prelude
  import opened Clocks
  import opened Nonces
  import opened Attestation
  import opened Issuance
  import opened IssuanceLogs
  import opened Handlers
  import Hex
  import VaultProtocol

  class AppState {
    const policy: Policy
    const store: NonceStore
    const issuer: Issuer
    const log: IssuanceLog

    /** `file` is what the log file holds already. */
    constructor (policy: Policy, file: string, render: nat -> string)
      ensures fresh(store) && fresh(issuer) && fresh(log) && this.policy == policy
      ensures store.inner == map[] && store.history == []
      ensures issuer.Valid() && issuer.calls == 0
      ensures log.Valid() && log.codec == JSON && log.render == render
      ensures log.file == log.initial == file && log.writes == []
    {
      this.policy := policy;
      store := new NonceStore();
      issuer := new Issuer();
      JsonIsFaithful();
      log := new IssuanceLog(file, render, JSON);
    }

    ghost predicate Valid(clock: Clock)
      reads store, issuer, log, clock
    {
      store.Valid(clock) && issuer.Valid() && log.Valid()
    }

    ghost function SetUp(): Setup
      reads log
    {
      Setup(policy, log.codec, log.render)
    }

    /** What the handlers share, now. */
    ghost function Now(clock: Clock): Shared
      reads store, issuer, log, clock
    {
      Shared(clock.now, store.inner, store.history, issuer.calls, log.writes)
    }

    /** Draw 32 bytes and register them. */
    method FreshNonce(clock: Clock) returns (nonce: Nonce)
      requires Valid(clock)
      modifies store, clock
      ensures Valid(clock) && |nonce| == 32
      ensures RegisterRel(old(store.inner), nonce, old(clock.now), clock.now, store.inner)
      ensures store.history == old(store.history) + [Registered(nonce, clock.now)]
    {
      var zeroes: Nonce := seq(32, _ => 0);
      assert |zeroes| == 32;
      nonce :| |nonce| == 32;
      store.Register(nonce, clock);
    }

    /** `GET /vault/nonce`: what is sent, 64 lower-case digits, decodes to the bytes that were registered. */
    method Nonce(clock: Clock) returns (text: string)
      requires Valid(clock)
      modifies store, clock
      ensures Valid(clock)
      ensures |text| == 64 && Hex.Lower(text) == text && Hex.Decode(text).Some?
      ensures var nonce := Hex.Decode(text).value;
              && |nonce| == 32
              && RegisterRel(old(store.inner), nonce, old(clock.now), clock.now, store.inner)
              && store.history == old(store.history) + [Registered(nonce, clock.now)]
    {
      var nonce := FreshNonce(clock);
      text := Hex.Encode(nonce);
      Hex.DecodeEncode(nonce);
      Hex.EncodeIsLower(nonce);
    }

    /** What both endpoints do once the request is verified: issue, log the grant, reply. */
    method Grant(req: UnsealRequest, fault: Option<Fault>, stop: Option<nat>, clock: Clock)
      returns (r: Result<CertBundle, AppError>)
      requires Valid(clock)
      modifies issuer, log, clock
      ensures Valid(clock) && old(clock.now) <= clock.now
      ensures GrantHandled(SetUp(), req, fault, stop, old(clock.now), clock.now, old(issuer.calls), issuer.calls,
                           old(log.writes), log.writes, r)
    {
      var issued := issuer.Issue(req.serviceName, fault, clock);
      if issued.Err? {
        return Err(Internal(issued.error));
      }
      ghost var made := clock.now;
      var bundle := issued.value;
      log.RecordGrant(req.serviceName, req.machineId, bundle.serial, bundle.expiresAt, stop, clock);
      RefinesLater(store.inner, store.history, old(clock.now), clock.now);
      SerialOfCall(bundle, req.serviceName, old(issuer.calls), old(clock.now), made);
      CertifiesLater(bundle, req.serviceName, old(issuer.calls), old(clock.now), made, clock.now);
      GrantIsLogged(SetUp(), req, old(issuer.calls), bundle, stop, clock.now, old(log.writes), log.writes);
      return Ok(bundle);
    }

    /** `POST /vault/unseal`. A refusal is logged; a failure to issue is not, though it uses up a
        serial; a grant is logged before the bundle is returned. */
    method Unseal(req: UnsealRequest, fault: Option<Fault>, stop: Option<nat>, clock: Clock)
      returns (r: Result<CertBundle, AppError>)
      requires Valid(clock)
      modifies store, issuer, log, clock
      ensures Valid(clock) && SetUp() == old(SetUp())
      ensures Handled(SetUp(), VaultProtocol.Unseal, req, fault, stop, old(Now(clock)), Now(clock), r)
    {
      ghost var before := Now(clock);
      var verdict := Verify(policy, req, store, clock);
      ghost var verified := clock.now;
      if verdict.Refused? {
        log.RecordRejection(req.serviceName, req.machineId, verdict.reason, stop, clock);
        RefinesLater(store.inner, store.history, verified, clock.now);
        RefusalIsLogged(SetUp(), req, verdict.reason, stop, verified, clock.now, before.writes, log.writes);
        r := Err(VaultRejected(verdict.reason));
      } else {
        r := Grant(req, fault, stop, clock);
      }
      assert HandledAt(SetUp(), VaultProtocol.Unseal, req, fault, stop, before, verified, Now(clock), r);
    }

    /** `POST /vault/renew`: as `unseal`, except that a refusal is not logged. */
    method Renew(req: UnsealRequest, fault: Option<Fault>, stop: Option<nat>, clock: Clock)
      returns (r: Result<CertBundle, AppError>)
      requires Valid(clock)
      modifies store, issuer, log, clock
      ensures Valid(clock) && SetUp() == old(SetUp())
      ensures Handled(SetUp(), VaultProtocol.Renew, req, fault, stop, old(Now(clock)), Now(clock), r)
    {
      ghost var before := Now(clock);
      var verdict := Verify(policy, req, store, clock);
      ghost var verified := clock.now;
      if verdict.Refused? {
        r := Err(VaultRejected(verdict.reason));
      } else {
        r := Grant(req, fault, stop, clock);
      }
      assert HandledAt(SetUp(), VaultProtocol.Renew, req, fault, stop, before, verified, Now(clock), r);
    }
  }
}
