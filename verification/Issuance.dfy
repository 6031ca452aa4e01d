/**
  Certificate issuance: a serial from a wrapping 64-bit counter taken before the steps that can
  fail, and two readings of the clock, one for the certificate's `not_after` (kept in whole
  seconds inside the certificate) and a later one for the bundle's `expires_at`.
 */
module Issuance {
  import opened Prelude
  import opened Clocks
  import SerialText

  const CERT_TTL_MS: nat := 300_000

  /** The leaf certificate inside `cert_pem`, its validity in milliseconds. */
  datatype Certificate = Certificate(commonName: string, serial: u64, notBefore: nat, notAfter: nat)

  datatype CertBundle = CertBundle(cert: Certificate, expiresAt: nat, serial: string)

  /** The fallible steps of `issue`, in order. */
  datatype Fault = BadParams | NoLeafKey | BadCaPem | CaNotRebuilt | SigningFailed

  function Message(f: Fault): string
  {
    match f
    case BadParams => "failed to build cert params"
    case NoLeafKey => "failed to generate leaf key pair"
    case BadCaPem => "failed to parse CA cert PEM"
    case CaNotRebuilt => "failed to reconstruct CA cert"
    case SigningFailed => "CA signing failed"
  }

  /** Certificates carry whole seconds. */
  function WholeSeconds(ms: nat): (r: nat)
    ensures r % 1000 == 0 && r <= ms < r + 1000
  {
    ms / 1000 * 1000
  }

  /** The serial handed out by the call number `ticket`, counting from zero. */
  function SerialOf(ticket: nat): u64
  {
    (1 + ticket) % U64_RANGE
  }

  /** The serial text in the bundle of call `ticket`. */
  function TextOf(ticket: nat): string
  {
    SerialText.Text(SerialOf(ticket))
  }

  /** A bundle issued by call `ticket`, reading the clock at `v1` and then at `v2`. */
  function Bundle(serviceName: string, ticket: nat, v1: nat, v2: nat): CertBundle
  {
    CertBundle(
      Certificate(serviceName + ".securenet", SerialOf(ticket), WholeSeconds(v1), WholeSeconds(v1 + CERT_TTL_MS)),
      v2 + CERT_TTL_MS,
      TextOf(ticket))
  }

  /** `b` is the bundle of call `ticket`, made between times `t0` and `t1`. */
  ghost predicate IssuedBetween(serviceName: string, ticket: nat, t0: nat, t1: nat, b: CertBundle)
  {
    exists v1: nat, v2: nat :: t0 <= v1 <= v2 <= t1 && b == Bundle(serviceName, ticket, v1, v2)
  }

  /** `CertBundle::ttl_secs`: whole seconds left, never negative. */
  function TtlSecs(expiresAt: nat, now: nat): (secs: nat)
    ensures expiresAt <= now ==> secs == 0
    ensures now < expiresAt ==> 1000 * secs <= expiresAt - now < 1000 * secs + 1000
  {
    if expiresAt <= now then 0 else (expiresAt - now) / 1000
  }

  /** The bundle is this call's, of this service, made between times `t0` and `t1`: certificate and
      bundle carry the same serial, the certificate is valid for 300 seconds from the second in which the
      clock was first read, and the bundle claims 300 seconds from a later reading. */
  ghost predicate Certifies(b: CertBundle, serviceName: string, calls: nat, t0: nat, t1: nat)
  {
    && b.cert.commonName == serviceName + ".securenet"
    && b.cert.serial == (1 + calls) % 0x1_0000_0000_0000_0000
    && SerialText.Number(b.serial) == b.cert.serial && |b.serial| == 16 && SerialText.LowerDigits(b.serial)
    && b.cert.notBefore % 1000 == 0 && b.cert.notAfter == b.cert.notBefore + 300_000
    && exists v: nat, w: nat {:trigger Readings(b, v, w)} :: t0 <= v <= w <= t1 && Readings(b, v, w)
  }

  predicate Readings(b: CertBundle, v: nat, w: nat)
  {
    b.cert.notBefore <= v < b.cert.notBefore + 1000 && b.expiresAt == w + 300_000
  }

  lemma BundleCertifies(serviceName: string, ticket: nat, t0: nat, t1: nat, b: CertBundle)
    requires IssuedBetween(serviceName, ticket, t0, t1, b)
    ensures Certifies(b, serviceName, ticket, t0, t1)
  {
    var v1: nat, v2: nat :| t0 <= v1 <= v2 <= t1 && b == Bundle(serviceName, ticket, v1, v2);
    ReadsAsSerial(ticket);
    LastsFiveMinutes(v1);
    assert Readings(b, v1, v2);
  }

  lemma ReadsAsSerial(ticket: nat)
    ensures |TextOf(ticket)| == 16 && SerialText.LowerDigits(TextOf(ticket))
    ensures SerialText.Number(TextOf(ticket)) == SerialOf(ticket)
  {
    SerialText.TextMeaning(SerialOf(ticket));
  }

  lemma LastsFiveMinutes(v: nat)
    ensures WholeSeconds(v + CERT_TTL_MS) == WholeSeconds(v) + 300_000
  {
  }

  lemma CertifiesLater(b: CertBundle, serviceName: string, calls: nat, t0: nat, t: nat, t1: nat)
    requires Certifies(b, serviceName, calls, t0, t) && t <= t1
    ensures Certifies(b, serviceName, calls, t0, t1)
  {
    var v: nat, w: nat :| t0 <= v <= w <= t && Readings(b, v, w);
    assert t0 <= v <= w <= t1 && Readings(b, v, w);
  }

  /** No two of the steps that can fail report the same. */
  lemma MessagesDiffer(f: Fault, g: Fault)
    ensures Message(f) == Message(g) <==> f == g
  {
    MessageTells(f);
    MessageTells(g);
  }

  /** The eleventh character tells the messages apart. */
  lemma MessageTells(f: Fault)
    ensures |Message(f)| > 10
    ensures Message(f)[10] == match f
                              case BadParams => 'b'
                              case NoLeafKey => 'g'
                              case BadCaPem => 'p'
                              case CaNotRebuilt => 'r'
                              case SigningFailed => ' '
  {
  }

  /** The bundle's `expires_at` is never before the certificate's `not_after`, and is later by less
      than a second more than the time between the two clock readings. */
  lemma GapBound(serviceName: string, ticket: nat, v1: nat, v2: nat)
    requires v1 <= v2
    ensures var b := Bundle(serviceName, ticket, v1, v2);
            b.cert.notAfter <= b.expiresAt < b.cert.notAfter + 1000 + (v2 - v1)
  {
  }

  lemma SameRemainder(a: nat, b: nat)
    ensures a % U64_RANGE == b % U64_RANGE <==> (a - b) % U64_RANGE == 0
  {
    var d := a / U64_RANGE - b / U64_RANGE;
    assert a - b == d * U64_RANGE + (a % U64_RANGE - b % U64_RANGE);
  }

  /** Two calls hand out the same serial text exactly when a multiple of 2^64 calls lies between
      them; up to 2^64 calls of one process, all texts are distinct. */
  lemma SerialsCollide(i: nat, j: nat)
    ensures TextOf(i) == TextOf(j) <==> (i - j) % U64_RANGE == 0
    ensures i < U64_RANGE && j < U64_RANGE && i != j ==> TextOf(i) != TextOf(j)
  {
    SerialText.Injective(SerialOf(i), SerialOf(j));
    SameRemainder(1 + i, 1 + j);
  }

  class Issuer {
    /** `SERIAL_COUNTER`: the next serial. */
    var counter: u64
    /** How often `issue` has been called. */
    ghost var calls: nat

    constructor ()
      ensures Valid() && calls == 0
    {
      counter := 1;
      calls := 0;
    }

    ghost predicate Valid()
      reads this
    {
      counter == SerialOf(calls)
    }

    /** Issue a bundle, or fail at the step `fault` names. A serial is used up either way. */
    method Issue(serviceName: string, fault: Option<Fault>, clock: Clock) returns (r: Result<CertBundle, string>)
      requires Valid()
      modifies this, clock
      ensures Valid() && calls == old(calls) + 1
      ensures fault.Some? ==> r == Err(Message(fault.value))
      ensures old(clock.now) <= clock.now
      ensures fault.None? ==>
                && r.Ok? && IssuedBetween(serviceName, old(calls), old(clock.now), clock.now, r.value)
                && Certifies(r.value, serviceName, old(calls), old(clock.now), clock.now)
    {
      var serial := counter;
      counter := (counter + 1) % U64_RANGE;
      calls := calls + 1;
      assert counter == SerialOf(calls);
      var v1 := clock.Read();
      if fault.Some? {
        return Err(Message(fault.value));
      }
      var cert := Certificate(serviceName + ".securenet", serial, WholeSeconds(v1), WholeSeconds(v1 + CERT_TTL_MS));
      var v2 := clock.Read();
      var bundle := CertBundle(cert, v2 + CERT_TTL_MS, SerialText.Text(serial));
      assert bundle == Bundle(serviceName, old(calls), v1, v2);
      BundleCertifies(serviceName, old(calls), old(clock.now), clock.now, bundle);
      r := Ok(bundle);
    }
  }
}
