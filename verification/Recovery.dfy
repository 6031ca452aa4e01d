/**
  Recovery: from the moment the vault answers every attempt that begins, with bundles that build,
  an expired certificate stays on offer for at most 27 seconds, two attempts and two cycles' worth of
  delay, whichever sleep, back-off or attempt the loop was in.
 */
module Recovery {
  import opened Issuance
  import opened Rotation
  import opened RotationMachine
  import opened NoExpiry
  import opened Outage

  /** No attempt has begun in steps `r` to `k`. */
  predicate NoNewAttempt(actions: seq<Action>, r: nat, k: nat)
    requires k <= |actions|
  {
    forall j :: r <= j < k ==> !actions[j].Wake? && !actions[j].Retry?
  }

  /** From state `r` on every bundle builds, and only an attempt that was then in flight may fail. */
  ghost predicate RecoveredFrom(env: Env, states: seq<State>, actions: seq<Action>, boot: CertBundle, r: nat)
  {
    && Timely(env, states, actions, boot) && r < |states|
    && (forall i :: r <= i < |actions| ==> !actions[i].BuildFails?)
    && (forall i :: r <= i < |actions| && actions[i].Fail? ==> NoNewAttempt(actions, r, i))
  }

  /** The latest time by which a fresh certificate is installed after recovery at time `from`. */
  function Deadline(env: Env, from: nat): nat
  {
    from + RETRY_MS + 2 * env.latency + 2 * env.slack
  }

  // ----- every state of a timely run is covered or about to try again

  ghost predicate Short(s: State)
  {
    match s.phase
    case Booted(_) => false
    case Looping => s.ttl == RETRY_TTL
    case Sleeping(until) => until <= s.now + RETRY_MS
    case Calling(_, since) => since <= s.now
    case BackingOff(_, until) => until <= s.now + 4000
    case HalfSwapped(_, _) => false
    case _ => true
  }

  lemma StepKeepsShort(env: Env, s: State, a: Action, s': State)
    requires env.Enough() && InHand(env, s) && s.late <= env.slack && Short(s)
    requires Step(s, a, s') && TimelyStep(env, s, a, s')
    ensures Covered(env, s') || Short(s')
  {
    BackOffs();
  }

  lemma UncoveredIsShort(env: Env, s: State, a: Action, s': State)
    requires env.Enough() && InHand(env, s) && s.late <= env.slack && Covered(env, s)
    requires Step(s, a, s') && TimelyStep(env, s, a, s')
    ensures Covered(env, s') || Short(s')
  {
    if !WhollyFails(s, a) && !a.BuildFails? {
      StepKeepsCovered(env, s, a, s');
    }
  }

  lemma {:induction false} CoveredOrShort(env: Env, states: seq<State>, actions: seq<Action>, boot: CertBundle, k: nat)
    requires env.Enough() && Timely(env, states, actions, boot) && k < |states|
    ensures Covered(env, states[k]) || Short(states[k])
  {
    if k == 0 {
      BootIsCovered(env, states, actions, boot);
    } else {
      CoveredOrShort(env, states, actions, boot, k - 1);
      TimelyKeepsInHand(env, states, actions, boot, k - 1);
      StepAt(states, actions, boot, k - 1);
      assert TimelyStep(env, states[k - 1], actions[k - 1], states[k]);
      if Covered(env, states[k - 1]) {
        UncoveredIsShort(env, states[k - 1], actions[k - 1], states[k]);
      } else {
        StepKeepsShort(env, states[k - 1], actions[k - 1], states[k]);
      }
    }
  }

  // ----- after recovery

  /** A fresh certificate will be installed by time `due`; `inFlight` while the attempt in hand, if
      any, began before recovery. */
  ghost predicate Due(env: Env, s: State, due: nat, inFlight: bool)
  {
    match s.phase
    case Booted(_) => false
    case Looping => s.ttl == RETRY_TTL && s.now + RETRY_MS + env.latency + 2 * env.slack - s.late <= due
    case Sleeping(until) => Max(s.now, until) + env.latency + env.slack - s.late <= due
    case Calling(_, since) =>
      if inFlight then since + RETRY_MS + 2 * env.latency + 2 * env.slack - s.late <= due
      else since + env.latency + env.slack - s.late <= due
    case BackingOff(_, until) => Max(s.now, until) + env.latency + env.slack - s.late <= due
    case HalfSwapped(_, _) => false
    case _ => s.now + env.slack - s.late <= due
  }

  ghost predicate Recovering(env: Env, s: State, from: nat, inFlight: bool)
  {
    && (Covered(env, s) || Due(env, s, Deadline(env, from), inFlight))
    && (inFlight && s.phase.Calling? ==> s.phase.since <= from)
  }

  lemma TickKeepsDue(env: Env, s: State, d: nat, s': State, due: nat, inFlight: bool)
    requires env.Enough() && InHand(env, s) && s.late <= env.slack && Due(env, s, due, inFlight)
    requires Step(s, Tick(d), s') && TimelyStep(env, s, Tick(d), s')
    ensures Due(env, s', due, inFlight)
  {
  }

  lemma TimerKeepsDue(env: Env, s: State, a: Action, s': State, due: nat, inFlight: bool)
    requires env.Enough() && InHand(env, s) && s.late <= env.slack && Due(env, s, due, inFlight) && IsTimer(a)
    requires Step(s, a, s') && TimelyStep(env, s, a, s') && (a.Fail? ==> inFlight)
    ensures Due(env, s', due, inFlight && !a.Wake? && !a.Retry?)
  {
    BackOffs();
  }

  lemma StepKeepsDue(env: Env, s: State, a: Action, s': State, due: nat, inFlight: bool)
    requires env.Enough() && InHand(env, s) && s.late <= env.slack && Due(env, s, due, inFlight)
    requires Step(s, a, s') && TimelyStep(env, s, a, s')
    requires !a.BuildFails? && (a.Fail? ==> inFlight)
    ensures Covered(env, s') || Due(env, s', due, inFlight && !a.Wake? && !a.Retry?)
  {
    if a.Tick? {
      TickKeepsDue(env, s, a.elapsed, s', due, inFlight);
    } else if IsTimer(a) {
      TimerKeepsDue(env, s, a, s', due, inFlight);
    }
  }

  lemma StepKeepsRecovering(env: Env, s: State, a: Action, s': State, from: nat, inFlight: bool)
    requires env.Enough() && InHand(env, s) && s.late <= env.slack && Recovering(env, s, from, inFlight)
    requires Step(s, a, s') && TimelyStep(env, s, a, s')
    requires !a.BuildFails? && (a.Fail? ==> inFlight)
    ensures Recovering(env, s', from, inFlight && !a.Wake? && !a.Retry?)
  {
    if Due(env, s, Deadline(env, from), inFlight) {
      StepKeepsDue(env, s, a, s', Deadline(env, from), inFlight);
    } else if !WhollyFails(s, a) {
      StepKeepsCovered(env, s, a, s');
    }
  }

  lemma NextIsRecovering(env: Env, states: seq<State>, actions: seq<Action>, boot: CertBundle, r: nat, i: nat)
    requires env.Enough() && RecoveredFrom(env, states, actions, boot, r) && r <= i < |actions|
    requires Recovering(env, states[i], states[r].now, NoNewAttempt(actions, r, i))
    ensures Recovering(env, states[i + 1], states[r].now, NoNewAttempt(actions, r, i + 1))
  {
    TimelyKeepsInHand(env, states, actions, boot, i);
    StepAt(states, actions, boot, i);
    assert TimelyStep(env, states[i], actions[i], states[i + 1]);
    var a := actions[i];
    StepKeepsRecovering(env, states[i], a, states[i + 1], states[r].now, NoNewAttempt(actions, r, i));
    assert NoNewAttempt(actions, r, i + 1) == (NoNewAttempt(actions, r, i) && !a.Wake? && !a.Retry?);
  }

  lemma RecoveryBegins(env: Env, states: seq<State>, actions: seq<Action>, boot: CertBundle, r: nat)
    requires env.Enough() && RecoveredFrom(env, states, actions, boot, r)
    ensures Recovering(env, states[r], states[r].now, true)
  {
    CoveredOrShort(env, states, actions, boot, r);
    TimelyKeepsInHand(env, states, actions, boot, r);
    SinceIsPast(states, actions, boot, r);
  }

  lemma {:induction false} KeepsRecovering(env: Env, states: seq<State>, actions: seq<Action>, boot: CertBundle,
                                           r: nat, k: nat)
    requires env.Enough() && RecoveredFrom(env, states, actions, boot, r) && r <= k < |states|
    ensures Recovering(env, states[k], states[r].now, NoNewAttempt(actions, r, k))
  {
    if r == k {
      RecoveryBegins(env, states, actions, boot, r);
    } else {
      KeepsRecovering(env, states, actions, boot, r, k - 1);
      NextIsRecovering(env, states, actions, boot, r, k - 1);
    }
  }

  lemma SinceIsPast(states: seq<State>, actions: seq<Action>, boot: CertBundle, k: nat)
    requires Run(states, actions, boot) && k < |states|
    ensures states[k].phase.Calling? ==> states[k].phase.since <= states[k].now
  {
    AlwaysDoomed(states, actions, boot, k);
  }

  /** Once the vault answers every attempt that begins, an expired certificate is on offer no later
      than 27 seconds + 2 attempts + 2 delays after that moment, for the rest of the run. */
  lemma OutageEnds(env: Env, states: seq<State>, actions: seq<Action>, boot: CertBundle, r: nat, k: nat)
    requires env.Enough() && RecoveredFrom(env, states, actions, boot, r) && r <= k < |states|
    requires states[k].now > states[r].now + 27_000 + 2 * env.latency + 2 * env.slack
    ensures !Expired(states[k])
  {
    KeepsRecovering(env, states, actions, boot, r, k);
    TimelyKeepsInHand(env, states, actions, boot, k);
    var due := Deadline(env, states[r].now);
    if Covered(env, states[k]) {
      CoveredIsUnexpired(env, states[k]);
    } else {
      DueIsNotPast(env, states[k], due, NoNewAttempt(actions, r, k));
    }
  }

  lemma DueIsNotPast(env: Env, s: State, due: nat, inFlight: bool)
    requires Due(env, s, due, inFlight) && InHand(env, s) && s.late <= env.slack
    ensures s.now <= due
  {
  }
}
