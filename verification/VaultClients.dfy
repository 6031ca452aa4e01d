/**
  The client half of a renewal: fetch a nonce, quote it, present the quote, and keep the bundle
  that comes back. What the network and the vault answer is given by an `Exchange`.
 */
module VaultClients {
  import opened Prelude
  import opened Clocks
  import opened Nonces
  import opened Attestation
  import opened Issuance
  import Hex

  datatype Response =
    | NoAnswer(error: string)
    | ErrorStatus(body: string)
    | Unreadable(error: string)
    | Issued(bundle: CertBundle)

  /** The answers one renewal attempt meets: the nonce text, if one arrives, and the response. */
  datatype Exchange = Exchange(nonce: Result<string, string>, response: Response) {

    /** The bundle the attempt returns, if it returns one. */
    function Reply(): Option<CertBundle> {
      if nonce.Ok? && Hex.Decode(nonce.value).Some? && response.Issued? then Some(response.bundle) else None
    }
  }

  datatype RenewError = VaultUnreachable(error: string) | VaultRejected(body: string)

  /** How a call of the vault ends: only an answer with an error status counts as a rejection. */
  ghost predicate Ends(ex: Exchange, r: Result<CertBundle, RenewError>)
  {
    if ex.nonce.Err? then r == Err(VaultUnreachable(ex.nonce.error))
    else if Hex.Decode(ex.nonce.value).None? then r.Err? && r.error.VaultUnreachable?
    else
      match ex.response
      case NoAnswer(error) => r == Err(VaultUnreachable(error))
      case ErrorStatus(body) => r == Err(VaultRejected(body))
      case Unreadable(error) => r == Err(VaultUnreachable(error))
      case Issued(b) => r == Ok(b)
  }

  /** What is posted to the vault: once a nonce has arrived, the honest request for it, in the name of
      this service on this machine. */
  ghost predicate Posts(sha256: Nonce -> seq<byte>, serviceName: string, machineId: Option<string>, ex: Exchange,
                        posted: Option<UnsealRequest>)
  {
    && (posted.Some? <==> ex.nonce.Ok? && Hex.Decode(ex.nonce.value).Some?)
    && (posted.Some? ==> MadeFor(sha256, serviceName, machineId, ex.nonce.value, posted.value))
  }

  class HttpVaultClient {
    const serviceName: string
    const machineId: Option<string>
    const sha256: Nonce -> seq<byte>
    /** The stored bundle. */
    var bundle: CertBundle

    constructor (serviceName: string, machineId: Option<string>, sha256: Nonce -> seq<byte>, initial: CertBundle)
      ensures bundle == initial
      ensures this.serviceName == serviceName && this.machineId == machineId && this.sha256 == sha256
    {
      this.serviceName := serviceName;
      this.machineId := machineId;
      this.sha256 := sha256;
      bundle := initial;
    }

    /** One attempt. The request posted is the honest one for the nonce received, and the stored
        bundle changes exactly when a bundle is returned. */
    method Attempt(ex: Exchange, clock: Clock)
      returns (r: Result<CertBundle, RenewError>, posted: Option<UnsealRequest>)
      modifies this, clock
      ensures old(clock.now) <= clock.now && clock.trace == old(clock.trace) + [Called]
      ensures Ends(ex, r) && ex.Reply() == if r.Ok? then Some(r.value) else None
      ensures bundle == if r.Ok? then r.value else old(bundle)
      ensures Posts(sha256, serviceName, machineId, ex, posted)
    {
      clock.Call();
      if ex.nonce.Err? {
        return Err(VaultUnreachable(ex.nonce.error)), None;
      }
      var made := Attest(sha256, serviceName, machineId, ex.nonce.value);
      if made.Err? {
        return Err(VaultUnreachable(made.error)), None;
      }
      posted := Some(made.value);
      match ex.response {
        case NoAnswer(error) => return Err(VaultUnreachable(error)), posted;
        case ErrorStatus(body) => return Err(VaultRejected(body)), posted;
        case Unreadable(error) => return Err(VaultUnreachable(error)), posted;
        case Issued(b) =>
          bundle := b;
          return Ok(b), posted;
      }
    }

    /** `VaultClient::renew`, as the rotation task sees it. */
    method Renew(ex: Exchange, clock: Clock) returns (r: Result<CertBundle, RenewError>)
      modifies this, clock
      ensures old(clock.now) <= clock.now && clock.trace == old(clock.trace) + [Called]
      ensures ex.Reply() == if r.Ok? then Some(r.value) else None
      ensures bundle == if r.Ok? then r.value else old(bundle)
    {
      var posted;
      r, posted := Attempt(ex, clock);
    }
  }
}
