/**
  What a wholly failed cycle costs. A certificate of 300 seconds is renewed at 90 % of its life, the
  three attempts sleep 6 seconds and the next cycle starts 27 seconds later: that is always after
  the certificate has expired, whatever the latencies. Renewing at 90 % therefore does not leave
  time to try again after a failed cycle, as the documentation of `renew_at` promises.
 */
module Outage {
  import opened Issuance
  import opened Rotation
  import opened RotationMachine
  import opened NoExpiry

  const RETRY_MS: nat := 27_000

  /** The back-offs still to come in this cycle from attempt `k` on. */
  function BackOffsFrom(k: nat): nat
  {
    if k == 1 then 6000 else if k == 2 then 4000 else 0
  }

  /** The installed bundle expires before the attempt after the next wholly failed cycle or, if a
      cycle has wholly failed since it was installed, before the next attempt. */
  ghost predicate Doomed(s: State)
  {
    var end := s.inner.expiresAt;
    && s.inner.cert.notAfter <= end
    && match s.phase
       case Booted(_) => !s.failed && end <= s.now + CERT_TTL_MS
       case Looping => s.now + SleepMs(s.ttl) + (if s.failed then 0 else 6000 + RETRY_MS) > end
       case Sleeping(until) => until + (if s.failed then 0 else 6000 + RETRY_MS) > end
       case Calling(k, since) => k <= MAX_ATTEMPTS && k >= 1 && since <= s.now
                                 && since + (if s.failed then 0 else BackOffsFrom(k) + RETRY_MS) > end
       case BackingOff(k, until) => 1 <= k < MAX_ATTEMPTS
                                    && until + (if s.failed then 0 else BackOffsFrom(k + 1) + RETRY_MS) > end
                                    && (s.failed ==> s.now > end)
       case Answered(b, _) => Recent(b, s.now) && OldDoomed(s)
       case Received(b, _) => Recent(b, s.now) && OldDoomed(s)
       case Measured(b, readAt) => readAt <= s.now && Recent(b, readAt) && OldDoomed(s)
       case Built(b, readAt) => readAt <= s.now && Recent(b, readAt) && OldDoomed(s)
       case HalfSwapped(b, readAt) => readAt <= s.now && Recent(b, readAt) && s.inner == b && !s.failed
  }

  ghost predicate OldDoomed(s: State)
  {
    s.now + (if s.failed then 0 else 6000 + RETRY_MS) > s.inner.expiresAt
  }

  ghost predicate Recent(b: CertBundle, now: nat)
  {
    b.cert.notAfter <= b.expiresAt <= now + CERT_TTL_MS
  }

  /** Sleeping 90 % of the whole seconds left of 300 leaves less than the 33 seconds that a failed
      cycle and the sleep after it add. */
  lemma SleepTooLong(expiresAt: nat, readAt: nat)
    requires expiresAt <= readAt + CERT_TTL_MS
    ensures readAt + SleepMs(TtlSecs(expiresAt, readAt)) + 6000 + RETRY_MS > expiresAt
  {
    var ttl := TtlSecs(expiresAt, readAt);
    assert ttl <= 300;
    assert 10 * (9 * ttl / 10) + 9 >= 9 * ttl;
  }

  lemma TickKeepsDoomed(s: State, d: nat, s': State)
    requires Doomed(s) && Step(s, Tick(d), s')
    ensures Doomed(s')
  {
  }

  lemma TimerKeepsDoomed(s: State, a: Action, s': State)
    requires Doomed(s) && IsTimer(a) && Step(s, a, s')
    ensures Doomed(s')
  {
    BackOffs();
    if a.MeasureBoot? {
      SleepTooLong(s.inner.expiresAt, s.now);
    }
  }

  lemma BundleKeepsDoomed(s: State, a: Action, s': State)
    requires Doomed(s) && !a.Tick? && !IsTimer(a) && Step(s, a, s')
    ensures Doomed(s')
  {
    if a.SwapSerial? {
      SleepTooLong(s.inner.expiresAt, s.phase.readAt);
    } else if a.Answer? {
      Issued(a.name, a.ticket, a.v1, a.v2);
    }
  }

  lemma StepKeepsDoomed(s: State, a: Action, s': State)
    requires Doomed(s) && Step(s, a, s')
    ensures Doomed(s')
  {
    if a.Tick? {
      TickKeepsDoomed(s, a.elapsed, s');
    } else if IsTimer(a) {
      TimerKeepsDoomed(s, a, s');
    } else {
      BundleKeepsDoomed(s, a, s');
    }
  }

  lemma {:induction false} AlwaysDoomed(states: seq<State>, actions: seq<Action>, boot: CertBundle, k: nat)
    requires Run(states, actions, boot) && k < |states|
    ensures Doomed(states[k])
  {
    if k == 0 {
      var name, ticket, v1: nat, v2: nat :|
        states[0].phase.since <= v1 <= v2 <= states[0].now && boot == Bundle(name, ticket, v1, v2);
      Issued(name, ticket, v1, v2);
    } else {
      AlwaysDoomed(states, actions, boot, k - 1);
      StepAt(states, actions, boot, k - 1);
      StepKeepsDoomed(states[k - 1], actions[k - 1], states[k]);
    }
  }

  /** In every run, timely or not, an attempt made while a cycle has wholly failed since the last
      install begins after the installed certificate expired. */
  lemma AttemptAfterFailureIsTooLate(states: seq<State>, actions: seq<Action>, boot: CertBundle, k: nat)
    requires Run(states, actions, boot) && k < |states| && states[k].phase.Calling? && states[k].failed
    ensures states[k].phase.since > states[k].inner.expiresAt && Expired(states[k])
  {
    AlwaysDoomed(states, actions, boot, k);
  }

  // ----- exactly when an expired certificate is served

  /** The failed cycle is behind, and no attempt has begun since. */
  predicate Waiting(s: State)
  {
    s.failed && (s.phase.Looping? || s.phase.Sleeping?)
  }

  lemma {:induction false} WaitingEndsExpired(states: seq<State>, actions: seq<Action>, boot: CertBundle,
                                              j: nat, k: nat)
    requires Run(states, actions, boot) && j <= k < |states| && Waiting(states[j])
    ensures Waiting(states[k]) || exists i :: j < i <= k && Expired(states[i])
  {
    if j < k {
      WaitingEndsExpired(states, actions, boot, j, k - 1);
      if Waiting(states[k - 1]) {
        StepAt(states, actions, boot, k - 1);
        WaitingStep(states[k - 1], actions[k - 1], states[k]);
        if !Waiting(states[k]) {
          AttemptAfterFailureIsTooLate(states, actions, boot, k);
        }
      }
    }
  }

  lemma WaitingStep(s: State, a: Action, s': State)
    requires Waiting(s) && Step(s, a, s')
    ensures Waiting(s') || (s'.failed && s'.phase.Calling?)
  {
  }

  lemma FailingStep(s: State, a: Action, s': State)
    requires WhollyFails(s, a) && Step(s, a, s')
    ensures Waiting(s')
  {
  }

  /** For a timely run in which every bundle builds, looked at when an attempt is under way: an
      expired certificate has been on offer at some moment if and only if some cycle wholly failed. */
  lemma ExpiredExactlyWhenACycleFailed(env: Env, states: seq<State>, actions: seq<Action>, boot: CertBundle)
    requires env.Enough() && Timely(env, states, actions, boot)
    requires forall i :: 0 <= i < |actions| ==> !actions[i].BuildFails?
    requires states[|states| - 1].phase.Calling?
    ensures (exists k :: 0 <= k < |states| && Expired(states[k]))
            <==> exists i :: 0 <= i < |actions| && WhollyFails(states[i], actions[i])
  {
    if i :| 0 <= i < |actions| && WhollyFails(states[i], actions[i]) {
      StepAt(states, actions, boot, i);
      FailingStep(states[i], actions[i], states[i + 1]);
      WaitingEndsExpired(states, actions, boot, i + 1, |states| - 1);
    } else {
      forall k | 0 <= k < |states|
        ensures !Expired(states[k])
      {
        NeverExpired(env, states, actions, boot, k);
      }
    }
  }

  // ----- an outage

  /** A quiet machine at time `now`, booted with bundle `boot` whose time to live was read at `bootRead`. */
  function Quiet(boot: CertBundle, bootRead: nat, now: nat, phase: Phase, ttl: nat, late: nat, failed: bool): State
  {
    State(now, phase, ttl, boot, boot.serial, boot, [], [boot], late, failed, bootRead,
          if failed then [Unrenewed] else [])
  }

  ghost predicate Steps(env: Env, states: seq<State>, actions: seq<Action>)
  {
    && |states| == |actions| + 1
    && forall i :: 0 <= i < |actions| ==> OneStep(env, states[i], actions[i], states[i + 1])
  }

  ghost predicate OneStep(env: Env, s: State, a: Action, s': State)
  {
    Step(s, a, s') && TimelyStep(env, s, a, s') && !a.BuildFails?
  }

  /** No cycle failed wholly. */
  predicate NoneFails(states: seq<State>, actions: seq<Action>)
    requires |actions| <= |states|
  {
    forall i :: 0 <= i < |actions| ==> !WhollyFails(states[i], actions[i])
  }

  lemma Extend(env: Env, states: seq<State>, actions: seq<Action>, a: Action, s': State)
    returns (states': seq<State>, actions': seq<Action>)
    requires Steps(env, states, actions) && OneStep(env, states[|actions|], a, s')
    ensures Steps(env, states', actions') && states'[0] == states[0] && states'[|actions'|] == s'
    ensures NoneFails(states, actions) && !WhollyFails(states[|actions|], a) ==> NoneFails(states', actions')
  {
    states', actions' := states + [s'], actions + [a];
  }

  /** The loop sleeps for its time to live, wakes up `late`, and begins its first attempt. */
  lemma SleepOver(env: Env, states: seq<State>, actions: seq<Action>, boot: CertBundle, bootRead: nat,
                  now: nat, ttl: nat, before: nat, late: nat, failed: bool)
    returns (states': seq<State>, actions': seq<Action>)
    requires Steps(env, states, actions) && late <= env.slack
    requires states[|actions|] == Quiet(boot, bootRead, now, Looping, ttl, before, failed)
    ensures Steps(env, states', actions') && states'[0] == states[0]
    ensures var at := now + SleepMs(ttl) + late;
            states'[|actions'|] == Quiet(boot, bootRead, at, Calling(1, at), ttl, late, failed)
    ensures NoneFails(states, actions) ==> NoneFails(states', actions')
  {
    var until := now + SleepMs(ttl);
    var at := until + late;
    states', actions' := Extend(env, states, actions, Schedule,
                                Quiet(boot, bootRead, now, Sleeping(until), ttl, 0, failed));
    states', actions' := Extend(env, states', actions', Tick(SleepMs(ttl) + late),
                                Quiet(boot, bootRead, at, Sleeping(until), ttl, late, failed));
    states', actions' := Extend(env, states', actions', Wake,
                                Quiet(boot, bootRead, at, Calling(1, at), ttl, late, failed));
  }

  /** An attempt fails at once and the next begins after the back-off. */
  lemma TryAgain(env: Env, states: seq<State>, actions: seq<Action>, boot: CertBundle, bootRead: nat,
                 now: nat, k: nat, ttl: nat, late: nat)
    returns (states': seq<State>, actions': seq<Action>)
    requires 1 <= k < MAX_ATTEMPTS && late <= env.slack
    requires Steps(env, states, actions)
    requires states[|actions|] == Quiet(boot, bootRead, now, Calling(k, now), ttl, late, false)
    ensures Steps(env, states', actions') && states'[0] == states[0]
    ensures var at := now + BackOffMs(k);
            states'[|actions'|] == Quiet(boot, bootRead, at, Calling(k + 1, at), ttl, late, false)
    ensures NoneFails(states, actions) ==> NoneFails(states', actions')
  {
    var at := now + BackOffMs(k);
    states', actions' := Extend(env, states, actions, Fail,
                                Quiet(boot, bootRead, now, BackingOff(k, at), ttl, late, false));
    states', actions' := Extend(env, states', actions', Tick(BackOffMs(k)),
                                Quiet(boot, bootRead, at, BackingOff(k, at), ttl, late, false));
    states', actions' := Extend(env, states', actions', Retry,
                                Quiet(boot, bootRead, at, Calling(k + 1, at), ttl, late, false));
  }

  const NO_DELAY := Env(0, 0, 0)

  /** A vault that is down for 6 seconds and nothing else amiss: no latency, no delay, no gap. The
      certificate of a service booted at time 0 expires at 300 seconds; its renewal falls due at 270,
      the three attempts are over at 276, and the next begins at 303. */
  lemma OutageHappens() returns (states: seq<State>, actions: seq<Action>, boot: CertBundle)
    ensures NO_DELAY.Enough() && Timely(NO_DELAY, states, actions, boot)
    ensures forall i :: 0 <= i < |actions| ==> !actions[i].BuildFails?
    ensures states[|states| - 1].phase == Calling(1, 303_000) && Expired(states[|states| - 1])
  {
    BackOffs();
    var env := NO_DELAY;
    boot := Bundle("user-service", 0, 0, 0);
    var s := Quiet(boot, 0, 0, RotationMachine.Booted(0), 0, 0, false);
    states, actions := Extend(env, [s], [], MeasureBoot, Quiet(boot, 0, 0, Looping, 300, 0, false));
    states, actions := SleepOver(env, states, actions, boot, 0, 0, 300, 0, 0, false);
    states, actions := TryAgain(env, states, actions, boot, 0, 270_000, 1, 300, 0);
    states, actions := TryAgain(env, states, actions, boot, 0, 272_000, 2, 300, 0);
    states, actions := Extend(env, states, actions, Fail, Quiet(boot, 0, 276_000, Looping, 30, 0, true));
    states, actions := SleepOver(env, states, actions, boot, 0, 276_000, 30, 0, 0, true);
    IsTimely(env, states, actions, boot);
  }

  lemma IsTimely(env: Env, states: seq<State>, actions: seq<Action>, boot: CertBundle)
    requires Steps(env, states, actions) && Init(states[0], boot) && GapWithin(env, boot)
    requires states[0].now <= states[0].phase.since + env.latency
    ensures Timely(env, states, actions, boot) && forall i :: 0 <= i < |actions| ==> !actions[i].BuildFails?
  {
    forall i | 0 <= i < |actions|
      ensures Step(states[i], actions[i], states[i + 1]) && TimelyStep(env, states[i], actions[i], states[i + 1])
      ensures !actions[i].BuildFails?
    {
      assert OneStep(env, states[i], actions[i], states[i + 1]);
    }
  }

  // ----- the bound on the environment is the least

  /** In no timely run without a wholly failed cycle or a bad bundle is an expired certificate on offer. */
  ghost predicate Safe(env: Env)
  {
    forall states: seq<State>, actions: seq<Action>, boot: CertBundle ::
      Smooth(env, states, actions, boot) ==> !Expired(states[|actions|])
  }

  ghost predicate Smooth(env: Env, states: seq<State>, actions: seq<Action>, boot: CertBundle)
  {
    && Timely(env, states, actions, boot) && NoneFails(states, actions)
    && forall i :: 0 <= i < |actions| ==> !actions[i].BuildFails?
  }

  /** With no latency, a gap of less than a second and one millisecond too much: the loop is late by all
      of its slack before it schedules its sleep and again when it wakes up, two attempts fail at once,
      and the certificate expires before the third can succeed. */
  lemma TooMuchSlack(env: Env) returns (states: seq<State>, actions: seq<Action>, boot: CertBundle)
    requires env.latency == 0 && env.gap < 1000 && !env.Enough()
    ensures Smooth(env, states, actions, boot) && Expired(states[|actions|])
  {
    BackOffs();
    var g, c := env.gap, env.slack;
    boot := Bundle("user-service", 0, g, g);
    assert boot.cert.notAfter == CERT_TTL_MS && boot.expiresAt == g + CERT_TTL_MS;
    var s := Quiet(boot, 0, g, RotationMachine.Booted(g), 0, 0, false);
    states, actions := Extend(env, [s], [], MeasureBoot, Quiet(boot, g, g, Looping, 300, 0, false));
    states, actions := Extend(env, states, actions, Tick(c), Quiet(boot, g, g + c, Looping, 300, c, false));
    states, actions := SleepOver(env, states, actions, boot, g, g + c, 300, c, c, false);
    var first := g + 2 * c + 270_000;
    states, actions := TryAgain(env, states, actions, boot, g, first, 1, 300, c);
    states, actions := TryAgain(env, states, actions, boot, g, first + 2000, 2, 300, c);
    IsTimely(env, states, actions, boot);
  }

  /** Where attempts take no time, and certificates lose less than a second to rounding, the bound of 240
      seconds is exact. */
  lemma EnoughIsExact(env: Env)
    requires env.latency == 0 && env.gap < 1000
    ensures Safe(env) <==> env.Enough()
  {
    if env.Enough() {
      forall states: seq<State>, actions: seq<Action>, boot: CertBundle | Smooth(env, states, actions, boot)
        ensures !Expired(states[|actions|])
      {
        NeverExpired(env, states, actions, boot, |actions|);
      }
    } else {
      var states, actions, boot := TooMuchSlack(env);
    }
  }
}
