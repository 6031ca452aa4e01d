/**
  Certificate rotation run on its own: the back-off loop around renewal attempts, and one cycle of
  the rotation loop. The meaning of any number of cycles is a function of what each cycle met.
 */
module Rotation {
  import opened Prelude
  import opened Clocks
  import opened Issuance
  import opened VaultClients

  // ----- renewal with back-off

  /** The doubling after this attempt takes the delay to 2^64 seconds. */
  const LAST_DOUBLING: nat := 63

  datatype Outcome =
    | Renewed(bundle: CertBundle)
    | Unreachable
    /** Doubling the delay left the range of 64-bit seconds, which panics. */
    | DelayOverflow

  function Pow2(k: nat): (r: nat)
    ensures r >= 1
  {
    if k == 0 then 1 else 2 * Pow2(k - 1)
  }

  /** The first `k` attempts, counted from one, all fail. */
  ghost predicate AllFail(exchanges: nat -> Exchange, k: nat)
  {
    forall i: nat :: 1 <= i <= k ==> exchanges(i).Reply().None?
  }

  /** Attempt number `k` is the first to succeed, with bundle `b`. */
  ghost predicate FirstSuccess(exchanges: nat -> Exchange, k: nat, b: CertBundle)
  {
    k >= 1 && exchanges(k).Reply() == Some(b) && AllFail(exchanges, k - 1)
  }

  lemma Pow2Range()
    ensures Pow2(64) == U64_RANGE
  {
    assert Pow2(8) == 0x100;
    assert Pow2(16) == 0x1_0000;
    assert Pow2(24) == 0x100_0000;
    assert Pow2(32) == 0x1_0000_0000;
    assert Pow2(40) == 0x100_0000_0000;
    assert Pow2(48) == 0x1_0000_0000_0000;
    assert Pow2(56) == 0x100_0000_0000_0000;
  }

  lemma {:induction false} Pow2Grows(a: nat, b: nat)
    requires a <= b
    ensures Pow2(a) <= Pow2(b)
  {
    if a < b {
      Pow2Grows(a, b - 1);
    }
  }

  /** The delay of `2^k` seconds can be doubled in 64 bits. */
  predicate DelayFits(k: nat)
  {
    2 * Pow2(k) < U64_RANGE
  }

  lemma DelayFitsBelow63(k: nat)
    ensures DelayFits(k) <==> k < 63
  {
    Pow2Range();
    assert Pow2(64) == 2 * Pow2(63);
    if k >= 63 {
      Pow2Grows(63, k);
    } else {
      Pow2Grows(k + 1, 63);
    }
  }

  lemma OneMoreFails(exchanges: nat -> Exchange, k: nat)
    requires k >= 1 && AllFail(exchanges, k - 1) && exchanges(k).Reply().None?
    ensures AllFail(exchanges, k)
  {
  }

  /** The pause after attempt number `k`, in milliseconds. */
  function BackOffMs(k: nat): nat
  {
    1000 * Pow2(k)
  }

  /** What `k` attempts ask of the environment: the first call at once, each other one after a pause. */
  function Attempts(k: nat): seq<Use>
  {
    if k == 0 then []
    else Attempts(k - 1) + Pause(k - 1) + [Called]
  }

  /** The pause asked for after `k` attempts. */
  function Pause(k: nat): seq<Use>
  {
    if k == 0 then [] else [Slept(BackOffMs(k))]
  }

  /** Since trace `t`, `k` attempts were made, and the pause after them was asked for if `paused`. */
  ghost predicate Traced(t: seq<Use>, k: nat, paused: bool, t': seq<Use>)
  {
    t' == t + Attempts(k) + if paused then Pause(k) else []
  }

  lemma TracedCall(t: seq<Use>, k: nat, t': seq<Use>)
    requires Traced(t, k, true, t')
    ensures Traced(t, k + 1, false, t' + [Called])
  {
    assert Attempts(k + 1) == Attempts(k) + Pause(k) + [Called];
  }

  lemma TracedPause(t: seq<Use>, k: nat, ms: nat, t': seq<Use>)
    requires Traced(t, k, false, t') && k >= 1 && ms == BackOffMs(k)
    ensures Traced(t, k, true, t' + [Slept(ms)])
  {
  }

  /** The time for which timers were asked. */
  function AskedMs(uses: seq<Use>): nat
  {
    if uses == [] then 0
    else
      var last := uses[|uses| - 1];
      AskedMs(uses[..|uses| - 1]) + if last.Slept? then last.ms else 0
  }

  lemma AskedOneMore(uses: seq<Use>, u: Use)
    ensures AskedMs(uses + [u]) == AskedMs(uses) + if u.Slept? then u.ms else 0
  {
    assert (uses + [u])[..|uses|] == uses;
  }

  /** `k` attempts pause for 2^k - 2 seconds altogether. */
  lemma {:induction false} AttemptsAsk(k: nat)
    requires k >= 1
    ensures AskedMs(Attempts(k)) == 1000 * (Pow2(k) - 2)
  {
    var before := Attempts(k - 1) + Pause(k - 1);
    AskedOneMore(before, Called);
    if k == 1 {
      assert before == [];
    } else {
      AttemptsAsk(k - 1);
      AskedOneMore(Attempts(k - 1), Slept(BackOffMs(k - 1)));
    }
  }

  /** Sleep for `delay` seconds, then double it if that fits. */
  method BackOff(delay: u64, ghost k: nat, clock: Clock) returns (doubled: Option<u64>)
    requires delay == Pow2(k)
    modifies clock
    ensures old(clock.now) + 1000 * delay <= clock.now
    ensures clock.trace == old(clock.trace) + [Slept(1000 * delay)]
    ensures doubled == if DelayFits(k) then Some(Pow2(k + 1)) else None
    ensures doubled.Some? ==> doubled.value == 2 * delay
  {
    clock.Sleep(1000 * delay);
    doubled := if 2 * delay < U64_RANGE then Some(2 * delay) else None;
  }

  /** Try up to `maxAttempts` times, sleeping 2 seconds and then twice as long each time between
      attempts, never after the last: `k` attempts take `2^k - 2` seconds of sleep. The three
      outcomes exclude one another, so each arises exactly when its clause says. */
  method RetryRenew(client: HttpVaultClient, exchanges: nat -> Exchange, maxAttempts: nat, clock: Clock)
    returns (outcome: Outcome, attempts: nat, slept: nat)
    modifies client, clock
    ensures attempts <= maxAttempts
    ensures outcome.Renewed? ==> FirstSuccess(exchanges, attempts, outcome.bundle)
    ensures outcome.Unreachable? ==> attempts == maxAttempts && AllFail(exchanges, maxAttempts)
    ensures outcome.DelayOverflow? ==>
              1 <= attempts < maxAttempts && AllFail(exchanges, attempts) && !DelayFits(attempts)
    ensures attempts >= 2 ==> DelayFits(attempts - 1)
    ensures slept == if outcome.DelayOverflow? then Pow2(attempts + 1) - 2
                     else if attempts == 0 then 0 else Pow2(attempts) - 2
    ensures Traced(old(clock.trace), attempts, outcome.DelayOverflow?, clock.trace)
    ensures client.bundle == if outcome.Renewed? then outcome.bundle else old(client.bundle)
    ensures old(clock.now) + 1000 * slept <= clock.now
  {
    var delay: u64 := 2;
    attempts, slept := 0, 0;
    ghost var sleeps: nat := 0;
    while attempts < maxAttempts
      invariant attempts <= maxAttempts && AllFail(exchanges, attempts)
      invariant sleeps == if attempts < maxAttempts || attempts == 0 then attempts else attempts - 1
      invariant delay == Pow2(sleeps + 1) && slept == delay - 2
      invariant sleeps >= 1 ==> DelayFits(sleeps)
      invariant client.bundle == old(client.bundle)
      invariant old(clock.now) + 1000 * slept <= clock.now
      invariant Traced(old(clock.trace), attempts, attempts < maxAttempts, clock.trace)
    {
      TracedCall(old(clock.trace), attempts, clock.trace);
      attempts := attempts + 1;
      var r := client.Renew(exchanges(attempts), clock);
      if r.Ok? {
        return Renewed(r.value), attempts, slept;
      }
      OneMoreFails(exchanges, attempts);
      if attempts < maxAttempts {
        sleeps := sleeps + 1;
        TracedPause(old(clock.trace), attempts, 1000 * delay, clock.trace);
        var doubled := BackOff(delay, sleeps, clock);
        slept := slept + delay;
        if doubled.None? {
          return DelayOverflow, attempts, slept;
        }
        delay := doubled.value;
      }
    }
    return Unreachable, attempts, slept;
  }

  /** Attempt `k` is not the last, it and all before it fail, and the doubling after it is the first
      that does not fit. */
  ghost predicate OverflowsAfter(exchanges: nat -> Exchange, maxAttempts: nat, k: nat)
  {
    && 1 <= k < maxAttempts && AllFail(exchanges, k)
    && !DelayFits(k) && (k >= 2 ==> DelayFits(k - 1))
  }

  /** With 63 attempts or fewer the loop never panics; with more it does exactly when the first 63
      all fail: the delay then first outgrows 64 bits after attempt 63. */
  lemma OverflowExactlyWhen(exchanges: nat -> Exchange, maxAttempts: nat)
    ensures (exists k :: OverflowsAfter(exchanges, maxAttempts, k))
            <==> maxAttempts > LAST_DOUBLING && AllFail(exchanges, LAST_DOUBLING)
  {
    forall k: nat
      ensures DelayFits(k) <==> k < LAST_DOUBLING
    {
      DelayFitsBelow63(k);
    }
    if maxAttempts > LAST_DOUBLING && AllFail(exchanges, LAST_DOUBLING) {
      assert OverflowsAfter(exchanges, maxAttempts, LAST_DOUBLING);
    }
  }

  // ----- the meaning of any number of cycles

  /** How long the loop sleeps before it renews, in milliseconds: 90 % of the time to live, in whole
      seconds. */
  function SleepMs(ttl: nat): (ms: nat)
  {
    1000 * (9 * ttl / 10)
  }

  lemma Tenth(n: nat)
    ensures 10 * (n / 10) <= n < 10 * (n / 10) + 10
  {
  }

  /** The sleep is `secs` whole seconds: 90 % of the time to live, rounded down. */
  predicate IsNinetyPercent(secs: nat, ttl: nat)
  {
    10 * secs <= 9 * ttl < 10 * secs + 10
  }

  lemma SleepsNinetyPercent(ttl: nat, secs: nat)
    ensures IsNinetyPercent(secs, ttl) <==> SleepMs(ttl) == 1000 * secs
  {
    Tenth(9 * ttl);
  }

  /** Three calls of the vault, 2 and 4 seconds apart. */
  function ThreeAttempts(): seq<Use>
  {
    [Called, Slept(2000), Called, Slept(4000), Called]
  }

  lemma AttemptsOfThree(k: nat)
    requires 1 <= k <= 3
    ensures Attempts(k) == ThreeAttempts()[..2 * k - 1]
  {
    if k == 1 {
      OneAttempt();
    } else if k == 2 {
      TwoAttempts();
    } else {
      AllAttempts();
    }
  }

  lemma FirstPauses()
    ensures Pause(0) == [] && Pause(1) == [Slept(2000)] && Pause(2) == [Slept(4000)]
  {
    assert Pow2(1) == 2;
  }

  lemma OneAttempt()
    ensures Attempts(1) == [Called]
  {
    assert Attempts(1) == Attempts(0) + Pause(0) + [Called];
  }

  lemma TwoAttempts()
    ensures Attempts(2) == [Called, Slept(2000), Called]
  {
    OneAttempt();
    FirstPauses();
    assert Attempts(2) == Attempts(1) + Pause(1) + [Called];
  }

  lemma AllAttempts()
    ensures Attempts(3) == [Called, Slept(2000), Called, Slept(4000), Called]
  {
    TwoAttempts();
    FirstPauses();
    assert Attempts(3) == Attempts(2) + Pause(2) + [Called];
  }

  /** What a turn of the loop with `k` attempts asks of the environment: 90 % of the time to live, then
      `k` calls, 2 and 4 seconds apart. */
  ghost predicate RenewalAsked(ttl: nat, k: nat, t: seq<Use>, t': seq<Use>)
  {
    && 1 <= k <= 3
    && exists secs: nat :: IsNinetyPercent(secs, ttl) && t' == t + [Slept(1000 * secs)] + ThreeAttempts()[..2 * k - 1]
  }

  lemma RenewalIsAsked(ttl: nat, k: nat, t: seq<Use>, t': seq<Use>)
    requires 1 <= k <= 3 && Traced(t + [Slept(1000 * (9 * ttl / 10))], k, false, t')
    ensures RenewalAsked(ttl, k, t, t')
  {
    Tenth(9 * ttl);
    AttemptsOfThree(k);
    assert IsNinetyPercent(9 * ttl / 10, ttl);
    assert t' == t + [Slept(1000 * (9 * ttl / 10))] + ThreeAttempts()[..2 * k - 1];
  }

  /** What one cycle of the rotation loop met: no bundle, a bundle no TLS config can be built from,
      or a bundle that was installed after its time to live was read at `readAt`. */
  datatype CycleEvent =
    | Unrenewed
    | BadBundle(bundle: CertBundle)
    | Installed(bundle: CertBundle, readAt: nat)

  /** The installed config (by its bundle) and its serial, the client's stored bundle, and the time
      to live that the next sleep is computed from. */
  datatype View = View(inner: CertBundle, serial: string, stored: CertBundle, ttl: nat)

  const RETRY_TTL: nat := 30
  const MAX_ATTEMPTS: nat := 3

  function AfterCycle(v: View, e: CycleEvent): View
  {
    match e
    case Unrenewed => v.(ttl := RETRY_TTL)
    case BadBundle(b) => v.(stored := b, ttl := RETRY_TTL)
    case Installed(b, readAt) => View(b, b.serial, b, TtlSecs(b.expiresAt, readAt))
  }

  /** After boot with bundle `boot`, whose time to live was read at `readAt`. */
  function Booted(boot: CertBundle, readAt: nat): View
  {
    View(boot, boot.serial, boot, TtlSecs(boot.expiresAt, readAt))
  }

  function AfterCycles(v: View, events: seq<CycleEvent>): View
  {
    if events == [] then v else AfterCycle(AfterCycles(v, events[..|events| - 1]), events[|events| - 1])
  }

  /** The bundles that renewals returned. */
  function Returned(boot: CertBundle, events: seq<CycleEvent>): (all: seq<CertBundle>)
    ensures |all| >= 1
  {
    if events == [] then [boot]
    else
      var last := events[|events| - 1];
      Returned(boot, events[..|events| - 1]) + if last.Unrenewed? then [] else [last.bundle]
  }

  /** Those of them that a config could be built from. */
  function Buildable(boot: CertBundle, events: seq<CycleEvent>): (all: seq<CertBundle>)
    ensures |all| >= 1
  {
    if events == [] then [boot]
    else
      var last := events[|events| - 1];
      Buildable(boot, events[..|events| - 1]) + if last.Installed? then [last.bundle] else []
  }

  /** The newest bundle returned so far did not build. */
  predicate NewestIsBad(events: seq<CycleEvent>)
  {
    events != [] && (events[|events| - 1].BadBundle?
                     || (events[|events| - 1].Unrenewed? && NewestIsBad(events[..|events| - 1])))
  }

  /** The installed config is that of the newest of `built`, and the stored bundle is the newest of
      `returned`. They are the same unless the newest is bad; then the installed one is an earlier one. */
  ghost predicate Newest(v: View, returned: seq<CertBundle>, built: seq<CertBundle>, bad: bool)
  {
    && |built| >= 1 && v.inner == built[|built| - 1] && v.serial == v.inner.serial
    && |returned| >= 1 && v.stored == returned[|returned| - 1]
    && (!bad ==> v.stored == v.inner)
    && (bad ==> v.inner in returned[..|returned| - 1])
  }

  lemma NewestAfterCycle(v: View, returned: seq<CertBundle>, built: seq<CertBundle>, bad: bool, e: CycleEvent)
    requires Newest(v, returned, built, bad)
    ensures Newest(AfterCycle(v, e), returned + if e.Unrenewed? then [] else [e.bundle],
                   built + if e.Installed? then [e.bundle] else [], e.BadBundle? || (e.Unrenewed? && bad))
  {
    assert v.inner in returned by {
      if !bad {
        assert v.inner == returned[|returned| - 1];
      }
    }
    if e.Unrenewed? {
      assert returned + [] == returned && built + [] == built;
    } else {
      var more := returned + [e.bundle];
      assert more[..|more| - 1] == returned && built + [] == built;
    }
  }

  /** After any cycles the installed config is that of the newest bundle that built, and the stored
      bundle the newest returned; they are the same unless that one did not build. */
  lemma {:induction false} InstalledAndStored(boot: CertBundle, readAt: nat, events: seq<CycleEvent>)
    ensures Newest(AfterCycles(Booted(boot, readAt), events), Returned(boot, events), Buildable(boot, events),
                   NewestIsBad(events))
  {
    if events != [] {
      var init, last := events[..|events| - 1], events[|events| - 1];
      InstalledAndStored(boot, readAt, init);
      NewestAfterCycle(AfterCycles(Booted(boot, readAt), init), Returned(boot, init), Buildable(boot, init),
                       NewestIsBad(init), last);
    }
  }

  /** These bundles were made by these calls of `issue`. */
  ghost predicate MadeByCalls(bundles: seq<CertBundle>, tickets: seq<nat>)
  {
    && |tickets| == |bundles|
    && forall i :: 0 <= i < |bundles| ==> bundles[i].serial == TextOf(tickets[i])
  }

  /** No two of these calls are the same, or 2^64 calls or a multiple of that apart. */
  ghost predicate SerialsApart(tickets: seq<nat>)
  {
    forall i, j :: 0 <= i < j < |tickets| ==> (tickets[i] - tickets[j]) % U64_RANGE != 0
  }

  lemma BundlesDiffer(bundles: seq<CertBundle>, tickets: seq<nat>, i: nat, j: nat)
    requires MadeByCalls(bundles, tickets) && SerialsApart(tickets) && i < j < |bundles|
    ensures bundles[i] != bundles[j]
  {
    SerialsCollide(tickets[i], tickets[j]);
  }

  lemma NewestDiffers(v: View, returned: seq<CertBundle>, built: seq<CertBundle>, bad: bool, tickets: seq<nat>)
    requires Newest(v, returned, built, bad) && MadeByCalls(returned, tickets) && SerialsApart(tickets)
    ensures v.stored != v.inner <==> bad
  {
    if bad {
      var i :| 0 <= i < |returned| - 1 && returned[i] == v.inner;
      BundlesDiffer(returned, tickets, i, |returned| - 1);
    }
  }

  /** With bundles of different calls of one vault, the client's stored bundle and the installed config
      part ways exactly while the newest bundle is one that did not build. */
  lemma DifferExactlyWhenNewestIsBad(boot: CertBundle, readAt: nat, events: seq<CycleEvent>, tickets: seq<nat>)
    requires MadeByCalls(Returned(boot, events), tickets) && SerialsApart(tickets)
    ensures var v := AfterCycles(Booted(boot, readAt), events);
            v.stored != v.inner <==> NewestIsBad(events)
  {
    InstalledAndStored(boot, readAt, events);
    NewestDiffers(AfterCycles(Booted(boot, readAt), events), Returned(boot, events), Buildable(boot, events),
                  NewestIsBad(events), tickets);
  }

  // ----- the loop on its own

  /** The parts that a service shares with its rotation task. */
  class RotatingTlsConfig {
    var inner: CertBundle
    var serial: string
    const isGateway: bool

    constructor (bundle: CertBundle, isGateway: bool)
      ensures inner == bundle && serial == bundle.serial && this.isGateway == isGateway
    {
      inner := bundle;
      serial := bundle.serial;
      this.isGateway := isGateway;
    }
  }

  class RotationTask {
    const tls: RotatingTlsConfig
    const client: HttpVaultClient
    var ttl: nat

    constructor (tls: RotatingTlsConfig, client: HttpVaultClient, initialTtl: nat)
      ensures this.tls == tls && this.client == client && ttl == initialTtl
    {
      this.tls := tls;
      this.client := client;
      ttl := initialTtl;
    }

    ghost function Current(): View
      reads this, tls, client
    {
      View(tls.inner, tls.serial, client.bundle, ttl)
    }

    /** One turn of the loop. `builds` says whether a TLS config can be built from a bundle for a
        gateway or an internal service. */
    method Cycle(exchanges: nat -> Exchange, builds: (CertBundle, bool) -> bool, clock: Clock)
      returns (event: CycleEvent)
      modifies this, tls, client, clock
      ensures Current() == AfterCycle(old(Current()), event)
      ensures !event.Installed? ==> ttl == 30
      ensures event.Unrenewed? <==> AllFail(exchanges, 3)
      ensures !event.Unrenewed? ==> (event.Installed? <==> builds(event.bundle, tls.isGateway))
      ensures event.Installed? ==> old(clock.now) <= event.readAt <= clock.now
      // what is asked of the environment; after a bundle has arrived the clock is read once
      ensures event.Unrenewed? ==> RenewalAsked(old(ttl), 3, old(clock.trace), clock.trace)
      ensures !event.Unrenewed? ==>
                exists k: nat, t, at: nat ::
                  && FirstSuccess(exchanges, k, event.bundle) && RenewalAsked(old(ttl), k, old(clock.trace), t)
                  && clock.trace == t + [Looked(at)] && (event.Installed? ==> at == event.readAt)
                  && old(clock.now) + SleepMs(old(ttl)) + 1000 * (Pow2(k) - 2) <= at <= clock.now
      // the sleep before the first attempt, and 6 seconds more if all fail
      ensures clock.now >= old(clock.now) + SleepMs(old(ttl)) + if event.Unrenewed? then 6000 else 0
    {
      var sleepSecs := 9 * ttl / 10;
      clock.Sleep(1000 * sleepSecs);
      var outcome, attempts, slept := RetryRenew(client, exchanges, MAX_ATTEMPTS, clock);
      assert !outcome.DelayOverflow? by {
        DelayFitsBelow63(attempts);
      }
      ghost var asked := clock.trace;
      if attempts >= 1 {
        RenewalIsAsked(old(ttl), attempts, old(clock.trace), asked);
      }
      match outcome {
        case Renewed(bundle) =>
          var newTtl := 0;
          var now := clock.Read();
          newTtl := TtlSecs(bundle.expiresAt, now);
          assert FirstSuccess(exchanges, attempts, bundle) && clock.trace == asked + [Looked(now)];
          assert old(clock.now) + SleepMs(old(ttl)) + 1000 * (Pow2(attempts) - 2) <= now;
          if builds(bundle, tls.isGateway) {
            tls.inner := bundle;
            tls.serial := bundle.serial;
            ttl := newTtl;
            event := Installed(bundle, now);
          } else {
            ttl := RETRY_TTL;
            event := BadBundle(bundle);
          }
        case Unreachable =>
          assert Pow2(3) == 8;
          ttl := RETRY_TTL;
          event := Unrenewed;
        case DelayOverflow =>
          assert false;
      }
    }
  }
}
