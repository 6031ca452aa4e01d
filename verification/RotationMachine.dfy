/**
  The rotation loop of one service as a timed machine, interleaved with the accept loop that
  snapshots the current config and with anyone who reads the serial. Every read or write of a lock,
  every reply and every timer is a step of its own; time passes in `Tick` steps between them.
 */
module RotationMachine {
  import opened Issuance
  import opened Rotation

  /** Where the rotation loop stands. `since` is when the attempt in hand began. */
  datatype Phase =
    | Booted(since: nat)
    | Looping
    | Sleeping(until: nat)
    | Calling(attempt: nat, since: nat)
    | BackingOff(attempt: nat, until: nat)
    | Answered(bundle: CertBundle, since: nat)
    | Received(bundle: CertBundle, since: nat)
    | Measured(bundle: CertBundle, readAt: nat)
    | Built(bundle: CertBundle, readAt: nat)
    | HalfSwapped(bundle: CertBundle, readAt: nat)

  /** A connection keeps the config it read when it was accepted; `index` is the number
      of configs installed by then. */
  datatype Connection = Connection(config: CertBundle, at: nat, index: nat)

  /** `inner`, `serial`, `stored` and `ttl` are the code's; then the history variables: the
      connections accepted, every config installed, how late the loop has run in this cycle, whether
      a cycle has wholly failed since the last install, and what the cycles met. */
  datatype State = State(
    now: nat,
    phase: Phase,
    ttl: nat,
    inner: CertBundle,
    serial: string,
    stored: CertBundle,
    accepted: seq<Connection>,
    installs: seq<CertBundle>,
    late: nat,
    failed: bool,
    bootRead: nat,
    events: seq<CycleEvent>)

  datatype Action =
    | Tick(elapsed: nat)
    | MeasureBoot
    | Schedule
    | Wake
    | Answer(name: string, ticket: nat, v1: nat, v2: nat)
    | Fail
    | Retry
    | Store
    | Measure
    | Build
    | BuildFails
    | SwapInner
    | SwapSerial
    | Accept

  function Max(a: nat, b: nat): nat
  {
    if a <= b then b else a
  }

  /** The part of the passing of `d` milliseconds that is delay: not a sleep asked for, and not a
      renewal attempt. */
  function Delay(s: State, d: nat): nat
  {
    match s.phase
    case Sleeping(until) => Max(s.now + d, until) - Max(s.now, until)
    case BackingOff(_, until) => Max(s.now + d, until) - Max(s.now, until)
    case Calling(_, _) => 0
    case _ => d
  }

  ghost predicate Init(s: State, boot: CertBundle)
  {
    && s.phase.Booted? && s.inner == boot && s.serial == boot.serial && s.stored == boot
    && s.accepted == [] && s.installs == [boot] && s.late == 0 && !s.failed && s.events == []
    && exists name, ticket, v1: nat, v2: nat ::
         s.phase.since <= v1 <= v2 <= s.now && boot == Bundle(name, ticket, v1, v2)
  }

  ghost predicate Step(s: State, a: Action, s': State)
  {
    match a
    case Tick(d) => s' == s.(now := s.now + d, late := s.late + Delay(s, d))
    case Accept =>
      s' == s.(accepted := s.accepted + [Connection(s.inner, s.now, |s.installs|)])
    case MeasureBoot =>
      && s.phase.Booted?
      && s' == s.(phase := Looping, ttl := TtlSecs(s.inner.expiresAt, s.now), bootRead := s.now)
    case Schedule =>
      && s.phase.Looping?
      && s' == s.(phase := Sleeping(s.now + SleepMs(s.ttl)), late := 0)
    case Wake =>
      && s.phase.Sleeping? && s.now >= s.phase.until
      && s' == s.(phase := Calling(1, s.now))
    case Answer(name, ticket, v1, v2) =>
      && s.phase.Calling? && s.phase.since <= v1 <= v2 <= s.now
      && s' == s.(phase := Answered(Bundle(name, ticket, v1, v2), s.phase.since))
    case Fail =>
      && s.phase.Calling?
      && s' == if s.phase.attempt < MAX_ATTEMPTS
               then s.(phase := BackingOff(s.phase.attempt, s.now + BackOffMs(s.phase.attempt)))
               else s.(phase := Looping, ttl := RETRY_TTL, failed := true, events := s.events + [Unrenewed])
    case Retry =>
      && s.phase.BackingOff? && s.now >= s.phase.until
      && s' == s.(phase := Calling(s.phase.attempt + 1, s.now))
    case Store =>
      && s.phase.Answered?
      && s' == s.(phase := Received(s.phase.bundle, s.phase.since), stored := s.phase.bundle)
    case Measure =>
      && s.phase.Received?
      && s' == s.(phase := Measured(s.phase.bundle, s.now))
    case Build =>
      && s.phase.Measured?
      && s' == s.(phase := Built(s.phase.bundle, s.phase.readAt))
    case BuildFails =>
      && s.phase.Measured?
      && s' == s.(phase := Looping, ttl := RETRY_TTL, events := s.events + [BadBundle(s.phase.bundle)])
    case SwapInner =>
      && s.phase.Built?
      && s' == s.(phase := HalfSwapped(s.phase.bundle, s.phase.readAt), inner := s.phase.bundle,
                  installs := s.installs + [s.phase.bundle], failed := false)
    case SwapSerial =>
      && s.phase.HalfSwapped?
      && s' == s.(phase := Looping, serial := s.phase.bundle.serial,
                  ttl := TtlSecs(s.phase.bundle.expiresAt, s.phase.readAt),
                  events := s.events + [Installed(s.phase.bundle, s.phase.readAt)])
  }

  /** Steps of the loop that move its timers and attempts. */
  predicate IsTimer(a: Action)
  {
    a.MeasureBoot? || a.Schedule? || a.Wake? || a.Fail? || a.Retry?
  }

  ghost predicate Run(states: seq<State>, actions: seq<Action>, boot: CertBundle)
  {
    && |states| == |actions| + 1
    && Init(states[0], boot)
    && forall i :: 0 <= i < |actions| ==> Step(states[i], actions[i], states[i + 1])
  }

  lemma StepAt(states: seq<State>, actions: seq<Action>, boot: CertBundle, i: nat)
    requires Run(states, actions, boot) && i < |actions|
    ensures Step(states[i], actions[i], states[i + 1])
  {
  }

  /** All that a step can do to the configs and to the connections. */
  ghost predicate Effect(s: State, a: Action, s': State)
  {
    && s'.now >= s.now
    && s'.accepted == (if a.Accept? then s.accepted + [Connection(s.inner, s.now, |s.installs|)] else s.accepted)
    && s'.installs == (if a.SwapInner? then s.installs + [s'.inner] else s.installs)
    && (!a.SwapInner? ==> s'.inner == s.inner)
  }

  lemma Effects(s: State, a: Action, s': State)
    requires Step(s, a, s')
    ensures Effect(s, a, s')
  {
  }

  lemma EffectAt(states: seq<State>, actions: seq<Action>, boot: CertBundle, i: nat)
    requires Run(states, actions, boot) && i < |actions|
    ensures Effect(states[i], actions[i], states[i + 1])
  {
    Effects(states[i], actions[i], states[i + 1]);
  }

  lemma BackOffs()
    ensures BackOffMs(1) == 2000 && BackOffMs(2) == 4000
  {
    assert Pow2(1) == 2;
  }

  /** The certificate served to new connections is past its `not_after`. */
  predicate Expired(s: State)
  {
    s.now > s.inner.cert.notAfter
  }
}
