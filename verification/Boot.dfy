/** The boot sequence of a service: unseal, build the TLS config, start the rotation task. */
module Boot {
  import opened Prelude
  import opened Clocks
  import opened Nonces
  import opened Attestation
  import opened Issuance
  import opened VaultClients
  import opened Rotation
  import opened Identity

  datatype BootError = NotUnsealed(error: RenewError) | BadTlsConfig

  /** Boot with what the vault answers to the one unseal request. On success the identity is serving
      and the rotation task starts from the view in which config, serial and stored bundle are all
      those of the bundle just received; it renews in the name of the same service on the same machine. */
  method Run(serviceName: string, machineId: Option<string>, sha256: Nonce -> seq<byte>, ex: Exchange,
             builds: (CertBundle, bool) -> bool, isGateway: bool, clock: Clock)
    returns (r: Result<RotationTask, BootError>, identity: ServiceIdentity, posted: Option<UnsealRequest>)
    modifies clock
    ensures fresh(identity) && identity.serviceName == serviceName
    ensures Posts(sha256, serviceName, machineId, ex, posted)
    ensures r.Ok? <==> ex.Reply().Some? && builds(ex.Reply().value, isGateway)
    ensures r.Ok? ==>
              && fresh(r.value) && fresh(r.value.tls) && fresh(r.value.client)
              && r.value.tls.isGateway == isGateway
              && r.value.client.serviceName == serviceName && r.value.client.machineId == machineId
              && r.value.client.sha256 == sha256
              && exists readAt: nat :: old(clock.now) <= readAt <= clock.now
                   && clock.trace == old(clock.trace) + [Called, Looked(readAt)]
                   && r.value.Current() == Booted(ex.Reply().value, readAt)
    ensures r.Err? ==> clock.trace == old(clock.trace) + [Called]
    ensures identity.bundle == ex.Reply() && (identity.state == Serving <==> ex.Reply().Some?)
    ensures r.Err? ==>
              if ex.Reply().Some? then r.error == BadTlsConfig
              else r.error.NotUnsealed? && Ends(ex, Err(r.error.error))
  {
    identity := new ServiceIdentity(serviceName);
    var unsealed;
    unsealed, posted := identity.Unseal(machineId, sha256, ex, clock);
    if unsealed.Err? {
      return Err(NotUnsealed(unsealed.error)), identity, posted;
    }
    var bundle := unsealed.value;
    if !builds(bundle, isGateway) {
      return Err(BadTlsConfig), identity, posted;
    }
    var tls := new RotatingTlsConfig(bundle, isGateway);
    var client := new HttpVaultClient(serviceName, machineId, sha256, bundle);
    var now := clock.Read();
    var task := new RotationTask(tls, client, TtlSecs(bundle.expiresAt, now));
    assert clock.trace == old(clock.trace) + [Called, Looked(now)];
    assert task.Current() == Booted(bundle, now);
    return Ok(task), identity, posted;
  }
}
