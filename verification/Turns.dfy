/**
  One turn of the rotation loop, as `RotationTask.Cycle` takes it, is a run of the timed machine: what is
  proved of every run of the machine is true of the loop.
 */
module Turns {
  import opened Issuance
  import opened Rotation
  import opened RotationMachine

  ghost predicate Path(s: State, states: seq<State>, actions: seq<Action>, s': State)
  {
    && |states| == |actions| + 1 && states[0] == s && states[|actions|] == s'
    && forall i :: 0 <= i < |actions| ==> Step(states[i], actions[i], states[i + 1])
  }

  /** The machine gets from `s` to `s'`. */
  ghost predicate Reaches(s: State, s': State)
  {
    exists states, actions :: Path(s, states, actions, s')
  }

  lemma ReachesSelf(s: State)
    ensures Reaches(s, s)
  {
    assert Path(s, [s], [], s);
  }

  lemma ReachesStep(s: State, s1: State, a: Action, s2: State)
    requires Reaches(s, s1) && Step(s1, a, s2)
    ensures Reaches(s, s2)
  {
    var states, actions :| Path(s, states, actions, s1);
    var states', actions' := states + [s2], actions + [a];
    forall i | 0 <= i < |actions'|
      ensures Step(states'[i], actions'[i], states'[i + 1])
    {
      assert i < |actions| ==> states'[i] == states[i] && states'[i + 1] == states[i + 1];
    }
    assert Path(s, states', actions', s2);
  }

  function ViewOf(s: State): View
  {
    View(s.inner, s.serial, s.stored, s.ttl)
  }

  /** Nothing has changed that a cycle changes only when it ends. */
  predicate SameCycle(s: State, s': State)
  {
    ViewOf(s') == ViewOf(s) && s'.events == s.events && s'.accepted == s.accepted && s'.installs == s.installs
  }

  lemma WaitUntil(s: State, s1: State, t: nat) returns (s2: State)
    requires Reaches(s, s1) && s1.now <= t
    ensures Reaches(s, s2) && SameCycle(s1, s2) && s2.now == t && s2.phase == s1.phase
  {
    var d := t - s1.now;
    s2 := s1.(now := t, late := s1.late + Delay(s1, d));
    ReachesStep(s, s1, Tick(d), s2);
  }

  /** The loop sleeps as long as it asked for and makes its first attempt. */
  lemma FirstAttempt(s: State) returns (s': State)
    requires s.phase.Looping?
    ensures Reaches(s, s') && SameCycle(s, s')
    ensures s'.now == s.now + SleepMs(s.ttl) && s'.phase == Calling(1, s'.now)
  {
    ReachesSelf(s);
    var asleep := s.(phase := Sleeping(s.now + SleepMs(s.ttl)), late := 0);
    ReachesStep(s, s, Schedule, asleep);
    var awake := WaitUntil(s, asleep, s.now + SleepMs(s.ttl));
    s' := awake.(phase := Calling(1, awake.now));
    ReachesStep(s, awake, Wake, s');
  }

  /** An attempt fails and the next one begins after the pause asked for. */
  lemma NextAttempt(s: State, s1: State) returns (s': State)
    requires Reaches(s, s1) && s1.phase.Calling? && s1.phase.attempt < MAX_ATTEMPTS
    ensures Reaches(s, s') && SameCycle(s1, s')
    ensures s'.now == s1.now + BackOffMs(s1.phase.attempt) && s'.phase == Calling(s1.phase.attempt + 1, s'.now)
  {
    var k := s1.phase.attempt;
    var pausing := s1.(phase := BackingOff(k, s1.now + BackOffMs(k)));
    ReachesStep(s, s1, Fail, pausing);
    var over := WaitUntil(s, pausing, s1.now + BackOffMs(k));
    s' := over.(phase := Calling(k + 1, over.now));
    ReachesStep(s, over, Retry, s');
  }

  /** When attempt `k` begins, if nothing comes later than asked. */
  function AttemptAt(s: State, k: nat): int
  {
    s.now + SleepMs(s.ttl) + 1000 * (Pow2(k) - 2)
  }

  lemma {:induction false} AttemptNumber(s: State, k: nat) returns (s': State)
    requires s.phase.Looping? && 1 <= k <= MAX_ATTEMPTS
    ensures Reaches(s, s') && SameCycle(s, s')
    ensures s'.now == AttemptAt(s, k) && s'.phase == Calling(k, s'.now)
  {
    if k == 1 {
      s' := FirstAttempt(s);
    } else {
      var s1 := AttemptNumber(s, k - 1);
      s' := NextAttempt(s, s1);
    }
  }

  /** A cycle in which every attempt fails. */
  lemma UnrenewedIsARun(s: State, end: nat) returns (s': State)
    requires s.phase.Looping? && AttemptAt(s, 3) <= end
    ensures Reaches(s, s') && s'.phase.Looping? && s'.now == end
    ensures ViewOf(s') == AfterCycle(ViewOf(s), Unrenewed) && s'.events == s.events + [Unrenewed]
  {
    var s1 := AttemptNumber(s, 3);
    var s2 := WaitUntil(s, s1, end);
    s' := s2.(phase := Looping, ttl := RETRY_TTL, failed := true, events := s2.events + [Unrenewed]);
    ReachesStep(s, s2, Fail, s');
  }

  /** From an attempt that is answered to the reading of the time to live. */
  lemma AnswerIsARun(s: State, k: nat, name: string, ticket: nat, v1: nat, v2: nat, readAt: nat) returns (s': State)
    requires s.phase.Looping? && 1 <= k <= MAX_ATTEMPTS && AttemptAt(s, k) <= v1 <= v2 <= readAt
    ensures Reaches(s, s') && s'.now == readAt && s'.events == s.events
    ensures var b := Bundle(name, ticket, v1, v2);
            s'.phase == Measured(b, readAt) && ViewOf(s') == ViewOf(s).(stored := b)
  {
    var b := Bundle(name, ticket, v1, v2);
    var s1 := AttemptNumber(s, k);
    var since := s1.now;
    var s2 := WaitUntil(s, s1, readAt);
    var s3 := s2.(phase := Answered(b, since));
    var s4 := s3.(phase := Received(b, since), stored := b);
    s' := s4.(phase := Measured(b, readAt));
    ReachesStep(s, s2, Answer(name, ticket, v1, v2), s3);
    ReachesStep(s, s3, Store, s4);
    ReachesStep(s, s4, Measure, s');
  }

  /** From there to the end of the cycle, when the bundle builds. */
  lemma InstallIsARun(s: State, s1: State, end: nat) returns (s': State)
    requires Reaches(s, s1) && s1.phase.Measured? && s1.now <= end
    ensures var e := Installed(s1.phase.bundle, s1.phase.readAt);
            && Reaches(s, s') && s'.phase.Looping? && s'.now == end && s'.events == s1.events + [e]
            && ViewOf(s') == AfterCycle(ViewOf(s1), e).(stored := s1.stored)
  {
    var Measured(b, readAt) := s1.phase;
    var s2 := s1.(phase := Built(b, readAt));
    var s3 := s2.(phase := HalfSwapped(b, readAt), inner := b, installs := s2.installs + [b], failed := false);
    var s4 := s3.(phase := Looping, serial := b.serial, ttl := TtlSecs(b.expiresAt, readAt),
                  events := s3.events + [Installed(b, readAt)]);
    ReachesStep(s, s1, Build, s2);
    ReachesStep(s, s2, SwapInner, s3);
    ReachesStep(s, s3, SwapSerial, s4);
    s' := WaitUntil(s, s4, end);
  }

  /** And when it does not. */
  lemma BadBundleIsARun(s: State, s1: State, end: nat) returns (s': State)
    requires Reaches(s, s1) && s1.phase.Measured? && s1.now <= end
    ensures Reaches(s, s') && s'.phase.Looping? && s'.now == end
    ensures s'.events == s1.events + [BadBundle(s1.phase.bundle)]
    ensures ViewOf(s') == ViewOf(s1).(ttl := RETRY_TTL)
  {
    var s2 := s1.(phase := Looping, ttl := RETRY_TTL, events := s1.events + [BadBundle(s1.phase.bundle)]);
    ReachesStep(s, s1, BuildFails, s2);
    s' := WaitUntil(s, s2, end);
  }

  /** A turn of the loop that began at time `start`, took `k` attempts and ended at `end` with `event`; a
      bundle that came was made by the vault during the last attempt, and its time to live read at `at`. */
  ghost predicate Turn(start: nat, ttl: nat, k: nat, at: nat, end: nat, event: CycleEvent)
  {
    && 1 <= k <= 3 && start + SleepMs(ttl) + 1000 * (Pow2(k) - 2) <= end
    && match event
       case Unrenewed => k == 3
       case BadBundle(b) => Made(start + SleepMs(ttl) + 1000 * (Pow2(k) - 2), b, at) && at <= end
       case Installed(b, readAt) =>
         Made(start + SleepMs(ttl) + 1000 * (Pow2(k) - 2), b, at) && at == readAt <= end
  }

  ghost predicate Made(since: int, b: CertBundle, at: nat)
  {
    exists name, ticket: nat, v1: nat, v2: nat :: since <= v1 <= v2 <= at && b == Bundle(name, ticket, v1, v2)
  }

  /** From any state between cycles the machine can take the turn as well, in the same time, and shared
      state and time to live are then what the cycle leaves. */
  lemma TurnIsARun(s: State, k: nat, at: nat, end: nat, event: CycleEvent) returns (s': State)
    requires s.phase.Looping? && Turn(s.now, s.ttl, k, at, end, event)
    ensures Reaches(s, s') && s'.phase.Looping? && s'.now == end
    ensures ViewOf(s') == AfterCycle(ViewOf(s), event) && s'.events == s.events + [event]
  {
    if event.Unrenewed? {
      s' := UnrenewedIsARun(s, end);
    } else {
      var name, ticket: nat, v1: nat, v2: nat :|
        AttemptAt(s, k) <= v1 <= v2 <= at && event.bundle == Bundle(name, ticket, v1, v2);
      var s1 := AnswerIsARun(s, k, name, ticket, v1, v2, at);
      if event.Installed? {
        s' := InstallIsARun(s, s1, end);
      } else {
        s' := BadBundleIsARun(s, s1, end);
      }
    }
  }
}
