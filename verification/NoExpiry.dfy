/**
  When an expired certificate is served. Attempts that take at most `latency`, bundles whose
  `not_after` is at most `gap` before their `expires_at`, and at most `slack` of delay per cycle
  (lateness of timers, processing) leave enough time for three attempts as long as
  31*latency + 10*gap + 20*slack is at most 240 seconds, and no cycle fails wholly.
 */
module NoExpiry {
  import opened Issuance
  import opened Rotation
  import opened RotationMachine

  datatype Env = Env(latency: nat, gap: nat, slack: nat) {

    predicate Enough() {
      31 * latency + 10 * gap + 20 * slack <= 240_000
    }
  }

  predicate GapWithin(env: Env, b: CertBundle)
  {
    b.cert.notAfter + env.gap >= b.expiresAt
  }

  /** The environment keeps its bounds in this step. */
  ghost predicate TimelyStep(env: Env, s: State, a: Action, s': State)
  {
    && s'.late <= env.slack
    && (a.Tick? && s.phase.Calling? ==> s.now + a.elapsed <= s.phase.since + env.latency)
    && (a.Answer? ==> GapWithin(env, Bundle(a.name, a.ticket, a.v1, a.v2)))
  }

  ghost predicate Timely(env: Env, states: seq<State>, actions: seq<Action>, boot: CertBundle)
  {
    && Run(states, actions, boot)
    && states[0].now <= states[0].phase.since + env.latency && GapWithin(env, boot)
    && forall i :: 0 <= i < |actions| ==> TimelyStep(env, states[i], actions[i], states[i + 1])
  }

  /** The step ends a cycle in which no attempt succeeded. */
  predicate WhollyFails(s: State, a: Action)
  {
    a.Fail? && s.phase.Calling? && s.phase.attempt >= MAX_ATTEMPTS
  }

  // ----- the invariant of timely runs

  /** How long the attempts and back-offs from attempt `k` on may take. */
  function Remaining(env: Env, k: nat): nat
  {
    if k == 1 then 3 * env.latency + 6000
    else if k == 2 then 2 * env.latency + 4000
    else env.latency
  }

  /** A bundle whose time to live was read at `readAt` will be replaced in time if it is installed
      and the loop comes round by `now`. */
  predicate LongEnough(env: Env, b: CertBundle, readAt: nat, now: nat, late: nat)
  {
    now + SleepMs(TtlSecs(b.expiresAt, readAt)) + Remaining(env, 1) + 2 * env.slack - late <= b.cert.notAfter
  }

  /** The bundle in hand, if there is one, is fresh enough. */
  ghost predicate InHand(env: Env, s: State)
  {
    match s.phase
    case Booted(_) => true
    case Answered(b, since) => Fresh(env, b, since, s)
    case Received(b, since) => Fresh(env, b, since, s)
    case Measured(b, readAt) => LongEnough(env, b, readAt, s.now, s.late)
    case Built(b, readAt) => LongEnough(env, b, readAt, s.now, s.late)
    case HalfSwapped(b, readAt) => LongEnough(env, b, readAt, s.now, s.late) && s.inner == b
    case Calling(k, since) => 1 <= k <= MAX_ATTEMPTS && s.now <= since + env.latency
    case BackingOff(k, _) => 1 <= k < MAX_ATTEMPTS
    case _ => true
  }

  predicate Fresh(env: Env, b: CertBundle, since: nat, s: State)
  {
    b.expiresAt >= since + CERT_TTL_MS && GapWithin(env, b) && s.now <= since + env.latency + s.late
  }

  /** The installed certificate outlives the rest of the cycle. */
  ghost predicate Covered(env: Env, s: State)
  {
    var end := s.inner.cert.notAfter;
    match s.phase
    case Booted(since) => Fresh(env, s.inner, since, s)
    case Looping => s.now + SleepMs(s.ttl) + Remaining(env, 1) + 2 * env.slack - s.late <= end
    case Sleeping(until) => Max(s.now, until) + Remaining(env, 1) + env.slack - s.late <= end
    case Calling(k, since) => since + Remaining(env, k) + env.slack - s.late <= end
    case BackingOff(k, until) => Max(s.now, until) + Remaining(env, k + 1) + env.slack - s.late <= end
    case HalfSwapped(b, readAt) => LongEnough(env, s.inner, readAt, s.now, s.late)
    case _ => s.now + env.slack - s.late <= end
  }

  // ----- what timely steps keep

  lemma Issued(name: string, ticket: nat, v1: nat, v2: nat)
    requires v1 <= v2
    ensures var b := Bundle(name, ticket, v1, v2);
            b.cert.notAfter <= b.expiresAt && b.expiresAt == v2 + CERT_TTL_MS
  {
  }

  /** The arithmetic of one renewal: a fresh bundle leaves time for the next one. */
  lemma FreshIsLongEnough(env: Env, b: CertBundle, since: nat, s: State)
    requires env.Enough() && Fresh(env, b, since, s) && s.late <= env.slack
    ensures LongEnough(env, b, s.now, s.now, s.late)
  {
    var left := b.expiresAt - s.now;
    assert left >= CERT_TTL_MS - env.latency - s.late;
    var ttl := TtlSecs(b.expiresAt, s.now);
    assert 1000 * ttl <= left;
    assert 10 * SleepMs(ttl) <= 9 * left;
  }

  lemma StepKeepsInHand(env: Env, s: State, a: Action, s': State)
    requires env.Enough() && InHand(env, s) && s.late <= env.slack
    requires Step(s, a, s') && TimelyStep(env, s, a, s')
    ensures InHand(env, s')
  {
    if a.Answer? {
      Issued(a.name, a.ticket, a.v1, a.v2);
    } else if a.Measure? {
      FreshIsLongEnough(env, s.phase.bundle, s.phase.since, s);
    }
  }

  lemma TickKeepsCovered(env: Env, s: State, d: nat, s': State)
    requires env.Enough() && InHand(env, s) && Covered(env, s) && s.late <= env.slack
    requires Step(s, Tick(d), s') && TimelyStep(env, s, Tick(d), s')
    ensures Covered(env, s')
  {
  }

  lemma TimerKeepsCovered(env: Env, s: State, a: Action, s': State)
    requires env.Enough() && InHand(env, s) && Covered(env, s) && s.late <= env.slack && IsTimer(a)
    requires Step(s, a, s') && TimelyStep(env, s, a, s') && !WhollyFails(s, a)
    ensures Covered(env, s')
  {
    BackOffs();
    if a.MeasureBoot? {
      FreshIsLongEnough(env, s.inner, s.phase.since, s);
    }
  }

  lemma BundleKeepsCovered(env: Env, s: State, a: Action, s': State)
    requires env.Enough() && InHand(env, s) && Covered(env, s) && s.late <= env.slack
    requires !a.Tick? && !IsTimer(a) && !a.BuildFails?
    requires Step(s, a, s') && TimelyStep(env, s, a, s')
    ensures Covered(env, s')
  {
  }

  /** No step other than one that ends a failed cycle uncovers the installed certificate. */
  lemma StepKeepsCovered(env: Env, s: State, a: Action, s': State)
    requires env.Enough() && InHand(env, s) && Covered(env, s) && s.late <= env.slack
    requires Step(s, a, s') && TimelyStep(env, s, a, s')
    requires !WhollyFails(s, a) && !a.BuildFails?
    ensures Covered(env, s')
  {
    if a.Tick? {
      TickKeepsCovered(env, s, a.elapsed, s');
    } else if IsTimer(a) {
      TimerKeepsCovered(env, s, a, s');
    } else {
      BundleKeepsCovered(env, s, a, s');
    }
  }

  lemma CoveredIsUnexpired(env: Env, s: State)
    requires env.Enough() && Covered(env, s) && InHand(env, s) && s.late <= env.slack
    ensures !Expired(s)
  {
  }

  // ----- no expired certificate is served while no cycle fails

  lemma {:induction false} TimelyKeepsInHand(env: Env, states: seq<State>, actions: seq<Action>, boot: CertBundle,
                                             k: nat)
    requires env.Enough() && Timely(env, states, actions, boot) && k < |states|
    ensures InHand(env, states[k]) && states[k].late <= env.slack
  {
    if k > 0 {
      TimelyKeepsInHand(env, states, actions, boot, k - 1);
      StepAt(states, actions, boot, k - 1);
      assert TimelyStep(env, states[k - 1], actions[k - 1], states[k]);
      StepKeepsInHand(env, states[k - 1], actions[k - 1], states[k]);
    }
  }

  lemma BootIsCovered(env: Env, states: seq<State>, actions: seq<Action>, boot: CertBundle)
    requires Timely(env, states, actions, boot)
    ensures Covered(env, states[0])
  {
    var name, ticket, v1: nat, v2: nat :|
      states[0].phase.since <= v1 <= v2 <= states[0].now && boot == Bundle(name, ticket, v1, v2);
    Issued(name, ticket, v1, v2);
  }

  lemma NextIsCovered(env: Env, states: seq<State>, actions: seq<Action>, boot: CertBundle, i: nat)
    requires env.Enough() && Timely(env, states, actions, boot) && i < |actions|
    requires Covered(env, states[i]) && !WhollyFails(states[i], actions[i]) && !actions[i].BuildFails?
    ensures Covered(env, states[i + 1])
  {
    TimelyKeepsInHand(env, states, actions, boot, i);
    StepAt(states, actions, boot, i);
    assert TimelyStep(env, states[i], actions[i], states[i + 1]);
    StepKeepsCovered(env, states[i], actions[i], states[i + 1]);
  }

  lemma {:induction false} StaysCovered(env: Env, states: seq<State>, actions: seq<Action>, boot: CertBundle,
                                        j: nat, k: nat)
    requires env.Enough() && Timely(env, states, actions, boot) && j <= k < |states|
    requires Covered(env, states[j])
    requires forall i :: j <= i < k ==> !WhollyFails(states[i], actions[i]) && !actions[i].BuildFails?
    ensures Covered(env, states[k])
  {
    if j < k {
      StaysCovered(env, states, actions, boot, j, k - 1);
      NextIsCovered(env, states, actions, boot, k - 1);
    }
  }

  /** In a timely run in which every cycle so far had a successful attempt and every bundle built,
      the certificate served to new connections is unexpired at every moment. */
  lemma NeverExpired(env: Env, states: seq<State>, actions: seq<Action>, boot: CertBundle, k: nat)
    requires 31 * env.latency + 10 * env.gap + 20 * env.slack <= 240_000
    requires Timely(env, states, actions, boot) && k < |states|
    requires forall i :: 0 <= i < k ==> !WhollyFails(states[i], actions[i]) && !actions[i].BuildFails?
    ensures !Expired(states[k])
  {
    BootIsCovered(env, states, actions, boot);
    StaysCovered(env, states, actions, boot, 0, k);
    TimelyKeepsInHand(env, states, actions, boot, k);
    CoveredIsUnexpired(env, states[k]);
  }

  /** In such a run no accepted connection ever read a config whose certificate was past its
      `not_after`. */
  lemma {:induction false} ConnectionsUnexpired(env: Env, states: seq<State>, actions: seq<Action>, boot: CertBundle,
                                                k: nat)
    requires env.Enough() && Timely(env, states, actions, boot) && k < |states|
    requires forall i :: 0 <= i < k ==> !WhollyFails(states[i], actions[i]) && !actions[i].BuildFails?
    ensures forall i :: 0 <= i < |states[k].accepted| ==>
              states[k].accepted[i].at <= states[k].accepted[i].config.cert.notAfter
  {
    if k > 0 {
      ConnectionsUnexpired(env, states, actions, boot, k - 1);
      NeverExpired(env, states, actions, boot, k - 1);
      EffectAt(states, actions, boot, k - 1);
    }
  }
}
