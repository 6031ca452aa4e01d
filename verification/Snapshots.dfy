/**
  What connections and readers of the serial see, over every run: the config snapshots are linear,
  and the interleaved loop computes what its cycles would compute run one after the other.
 */
module Snapshots {
  import opened Prelude
  import opened Issuance
  import opened Rotation
  import opened RotationMachine

  /** The connection has a config that was current at its time, which is past. */
  ghost predicate Snapped(s: State, c: Connection)
  {
    1 <= c.index <= |s.installs| && c.config == s.installs[c.index - 1] && c.at <= s.now
  }

  ghost predicate AllSnapped(s: State, cs: seq<Connection>)
  {
    forall i :: 0 <= i < |cs| ==> Snapped(s, cs[i])
  }

  predicate Before(c: Connection, d: Connection)
  {
    c.index <= d.index && c.at <= d.at
  }

  predicate InOrder(cs: seq<Connection>)
  {
    forall i, j :: 0 <= i < j < |cs| ==> Before(cs[i], cs[j])
  }

  /** Connections see the installs in order, and what they saw was current when they read it. */
  ghost predicate ConnectionsInv(s: State)
  {
    && |s.installs| >= 1 && s.installs[|s.installs| - 1] == s.inner
    && AllSnapped(s, s.accepted) && InOrder(s.accepted)
  }

  /** The serial names the current config, or its predecessor between the two writes. */
  ghost predicate SerialInv(s: State)
  {
    && |s.installs| >= 1 && s.installs[|s.installs| - 1] == s.inner
    && if s.phase.HalfSwapped?
       then s.phase.bundle == s.inner && |s.installs| >= 2 && s.serial == s.installs[|s.installs| - 2].serial
       else s.serial == s.inner.serial
  }

  lemma SnappedStays(s: State, s': State, cs: seq<Connection>)
    requires AllSnapped(s, cs) && s.installs <= s'.installs && s.now <= s'.now
    ensures AllSnapped(s', cs)
  {
    forall i | 0 <= i < |cs|
      ensures Snapped(s', cs[i])
    {
      assert Snapped(s, cs[i]);
    }
  }

  lemma OneMoreConnection(s: State, cs: seq<Connection>, c: Connection)
    requires AllSnapped(s, cs) && InOrder(cs) && Snapped(s, c)
    requires c.index == |s.installs| && c.at == s.now
    ensures AllSnapped(s, cs + [c]) && InOrder(cs + [c])
  {
    forall i | 0 <= i < |cs|
      ensures Before(cs[i], c)
    {
      assert Snapped(s, cs[i]);
    }
  }

  lemma EffectKeepsConnections(s: State, a: Action, s': State)
    requires ConnectionsInv(s) && Effect(s, a, s')
    ensures ConnectionsInv(s')
  {
    SnappedStays(s, s', s.accepted);
    if a.Accept? {
      var c := Connection(s.inner, s.now, |s.installs|);
      OneMoreConnection(s, s.accepted, c);
      SnappedStays(s, s', s.accepted + [c]);
    }
  }

  lemma StepKeepsSerial(s: State, a: Action, s': State)
    requires SerialInv(s) && Step(s, a, s')
    ensures SerialInv(s')
  {
  }

  lemma NextSnapshot(states: seq<State>, actions: seq<Action>, boot: CertBundle, i: nat)
    requires Run(states, actions, boot) && i < |actions| && ConnectionsInv(states[i]) && SerialInv(states[i])
    ensures ConnectionsInv(states[i + 1]) && SerialInv(states[i + 1])
  {
    EffectAt(states, actions, boot, i);
    EffectKeepsConnections(states[i], actions[i], states[i + 1]);
    StepAt(states, actions, boot, i);
    StepKeepsSerial(states[i], actions[i], states[i + 1]);
  }

  /** Each connection got the config that was current when it read it, in the order of installs; the
      serial, under a lock of its own, names the current config or its immediate predecessor. */
  lemma {:induction false} SnapshotsAreLinear(states: seq<State>, actions: seq<Action>, boot: CertBundle, k: nat)
    requires Run(states, actions, boot) && k < |states|
    ensures ConnectionsInv(states[k]) && SerialInv(states[k])
  {
    if k > 0 {
      SnapshotsAreLinear(states, actions, boot, k - 1);
      NextSnapshot(states, actions, boot, k - 1);
    }
  }

  lemma NextAccepted(states: seq<State>, actions: seq<Action>, boot: CertBundle, i: nat)
    requires Run(states, actions, boot) && i < |actions|
    ensures states[i].accepted <= states[i + 1].accepted
  {
    EffectAt(states, actions, boot, i);
  }

  lemma ConnectionsStay(states: seq<State>, actions: seq<Action>, boot: CertBundle, j: nat, k: nat)
    requires Run(states, actions, boot) && j <= k < |states|
    ensures states[j].accepted <= states[k].accepted
  {
    var accepted := seq(|states|, i requires 0 <= i < |states| => states[i].accepted);
    forall i | 0 <= i < |states| - 1
      ensures accepted[i] <= accepted[i + 1]
    {
      NextAccepted(states, actions, boot, i);
    }
    PrefixesGrow(accepted, j, k);
  }

  /** A connection accepted by step `k` carries the config installed at that moment, ever after. */
  lemma ConnectionKeepsItsConfig(states: seq<State>, actions: seq<Action>, boot: CertBundle, k: nat, later: nat)
    requires Run(states, actions, boot) && k < |actions| && actions[k].Accept? && k < later < |states|
    ensures |states[k].accepted| < |states[later].accepted|
    ensures states[later].accepted[|states[k].accepted|]
            == Connection(states[k].inner, states[k].now, |states[k].installs|)
  {
    EffectAt(states, actions, boot, k);
    ConnectionsStay(states, actions, boot, k + 1, later);
  }

  // ----- the interleaved loop refines its cycles run one after the other

  /** What the finished cycles amount to. */
  ghost function Reference(s: State, boot: CertBundle): View
  {
    AfterCycles(Rotation.Booted(boot, s.bootRead), s.events)
  }

  ghost predicate RefinesCycles(s: State, boot: CertBundle)
  {
    var v := Reference(s, boot);
    match s.phase
    case Booted(_) => s.events == [] && View(s.inner, s.serial, s.stored, 0) == v.(ttl := 0)
    case Received(b, _) => s.stored == b && View(s.inner, s.serial, v.stored, s.ttl) == v
    case Measured(b, _) => s.stored == b && View(s.inner, s.serial, v.stored, s.ttl) == v
    case Built(b, _) => s.stored == b && View(s.inner, s.serial, v.stored, s.ttl) == v
    case HalfSwapped(b, _) => s.stored == b && s.inner == b && s.serial == v.serial
    case _ => View(s.inner, s.serial, s.stored, s.ttl) == v
  }

  /** The step ends a cycle. */
  predicate Ends(s: State, a: Action)
  {
    || (a.Fail? && s.phase.Calling? && s.phase.attempt >= MAX_ATTEMPTS)
    || (a.BuildFails? && s.phase.Measured?)
    || (a.SwapSerial? && s.phase.HalfSwapped?)
  }

  /** What the cycle that it ends has met. */
  function EventOf(s: State, a: Action): CycleEvent
    requires Ends(s, a)
  {
    if a.Fail? then Unrenewed
    else if a.BuildFails? then BadBundle(s.phase.bundle)
    else Installed(s.phase.bundle, s.phase.readAt)
  }

  lemma StepEvents(s: State, a: Action, s': State)
    requires Step(s, a, s')
    ensures s'.bootRead == s.bootRead || a.MeasureBoot?
    ensures s'.events == s.events + if Ends(s, a) then [EventOf(s, a)] else []
    ensures Ends(s, a) ==> s'.phase.Looping?
  {
  }

  lemma EndKeepsRefinement(s: State, a: Action, s': State, boot: CertBundle)
    requires RefinesCycles(s, boot) && Step(s, a, s') && Ends(s, a)
    ensures RefinesCycles(s', boot)
  {
    StepEvents(s, a, s');
    assert s'.events[..|s'.events| - 1] == s.events;
    assert Reference(s', boot) == AfterCycle(Reference(s, boot), EventOf(s, a));
  }

  lemma StepKeepsRefinement(s: State, a: Action, s': State, boot: CertBundle)
    requires RefinesCycles(s, boot) && Step(s, a, s')
    ensures RefinesCycles(s', boot)
  {
    if Ends(s, a) {
      EndKeepsRefinement(s, a, s', boot);
    }
  }

  /** At every point of every interleaving the shared config, serial, stored bundle and time to live
      are those of the finished cycles run one after the other, except for the writes that the
      cycle in hand has already made. */
  lemma {:induction false} LoopRefinesCycles(states: seq<State>, actions: seq<Action>, boot: CertBundle, k: nat)
    requires Run(states, actions, boot) && k < |states|
    ensures RefinesCycles(states[k], boot)
  {
    if k > 0 {
      LoopRefinesCycles(states, actions, boot, k - 1);
      StepAt(states, actions, boot, k - 1);
      StepKeepsRefinement(states[k - 1], actions[k - 1], states[k], boot);
    }
  }

  // ----- the bundles that the loop was sent

  /** The calls of `issue` that made the bundles sent so far: that at boot, and the one of each answer. */
  function CallsOf(actions: seq<Action>, k: nat, bootTicket: nat): (tickets: seq<nat>)
    requires k <= |actions|
    ensures |tickets| >= 1
  {
    if k == 0 then [bootTicket]
    else CallsOf(actions, k - 1, bootTicket) + if actions[k - 1].Answer? then [actions[k - 1].ticket] else []
  }

  /** The bundle that the cycle in hand was sent, if it was sent one. */
  function InFlight(s: State): seq<CertBundle>
  {
    match s.phase
    case Answered(b, _) => [b]
    case Received(b, _) => [b]
    case Measured(b, _) => [b]
    case Built(b, _) => [b]
    case HalfSwapped(b, _) => [b]
    case _ => []
  }

  /** All bundles sent: those returned by finished cycles, and that of the cycle in hand. */
  function Sent(s: State, boot: CertBundle): seq<CertBundle>
  {
    Returned(boot, s.events) + InFlight(s)
  }

  lemma FlightOfStep(s: State, a: Action, s': State)
    requires Step(s, a, s')
    ensures !a.Answer? && !Ends(s, a) ==> InFlight(s') == InFlight(s)
    ensures a.Answer? ==> InFlight(s) == [] && InFlight(s') == [Bundle(a.name, a.ticket, a.v1, a.v2)]
    ensures Ends(s, a) ==> InFlight(s') == [] && InFlight(s) == if a.Fail? then [] else [s.phase.bundle]
  {
  }

  lemma StepSends(s: State, a: Action, s': State, boot: CertBundle)
    requires Step(s, a, s')
    ensures Sent(s', boot) == Sent(s, boot) + if a.Answer? then [Bundle(a.name, a.ticket, a.v1, a.v2)] else []
  {
    FlightOfStep(s, a, s');
    StepEvents(s, a, s');
    if Ends(s, a) {
      assert s'.events[..|s'.events| - 1] == s.events;
    }
  }

  /** The bundles sent so far, in order: that at boot, and the one of each answer. */
  function Answers(actions: seq<Action>, k: nat, boot: CertBundle): (bundles: seq<CertBundle>)
    requires k <= |actions|
  {
    if k == 0 then [boot]
    else
      var a := actions[k - 1];
      Answers(actions, k - 1, boot) + if a.Answer? then [Bundle(a.name, a.ticket, a.v1, a.v2)] else []
  }

  /** Nothing that was sent is lost or reordered on its way. */
  lemma {:induction false} SentIsAnswered(states: seq<State>, actions: seq<Action>, boot: CertBundle, k: nat)
    requires Run(states, actions, boot) && k < |states|
    ensures Sent(states[k], boot) == Answers(actions, k, boot)
  {
    if k == 0 {
      assert Sent(states[0], boot) == [boot];
    } else {
      SentIsAnswered(states, actions, boot, k - 1);
      StepAt(states, actions, boot, k - 1);
      StepSends(states[k - 1], actions[k - 1], states[k], boot);
    }
  }

  /** What holds of the boot bundle and of every bundle with its call holds of all answers in order. */
  lemma {:induction false} AnswersHave(actions: seq<Action>, k: nat, boot: CertBundle, bootTicket: nat,
                                       made: (CertBundle, nat) -> bool)
    requires k <= |actions| && made(boot, bootTicket)
    requires forall name, ticket, v1, v2 :: made(Bundle(name, ticket, v1, v2), ticket)
    ensures var bundles, tickets := Answers(actions, k, boot), CallsOf(actions, k, bootTicket);
            |bundles| == |tickets| && forall i :: 0 <= i < |bundles| ==> made(bundles[i], tickets[i])
  {
    if k > 0 {
      AnswersHave(actions, k - 1, boot, bootTicket, made);
    }
  }

  lemma AnswersByCalls(actions: seq<Action>, k: nat, boot: CertBundle, bootTicket: nat)
    requires k <= |actions| && boot.serial == TextOf(bootTicket)
    ensures MadeByCalls(Answers(actions, k, boot), CallsOf(actions, k, bootTicket))
  {
    AnswersHave(actions, k, boot, bootTicket, (b: CertBundle, ticket: nat) => b.serial == TextOf(ticket));
  }

  lemma BetweenCycles(states: seq<State>, actions: seq<Action>, boot: CertBundle, k: nat)
    requires Run(states, actions, boot) && k < |states|
    requires InFlight(states[k]) == [] && !states[k].phase.Booted?
    ensures var s := states[k];
            View(s.inner, s.serial, s.stored, s.ttl) == AfterCycles(Rotation.Booted(boot, s.bootRead), s.events)
  {
    LoopRefinesCycles(states, actions, boot, k);
  }

  lemma ReturnedByCalls(states: seq<State>, actions: seq<Action>, boot: CertBundle, k: nat, bootTicket: nat)
    requires Run(states, actions, boot) && k < |states| && boot.serial == TextOf(bootTicket)
    requires InFlight(states[k]) == []
    ensures MadeByCalls(Returned(boot, states[k].events), CallsOf(actions, k, bootTicket))
  {
    SentIsAnswered(states, actions, boot, k);
    AnswersByCalls(actions, k, boot, bootTicket);
    assert Sent(states[k], boot) == Returned(boot, states[k].events);
  }

  /** While the loop is between cycles, the installed config is the newest bundle that built and the
      stored bundle the newest returned; they are the same unless the newest did not build. */
  lemma InstalledIsNewestBuildable(states: seq<State>, actions: seq<Action>, boot: CertBundle, k: nat)
    requires Run(states, actions, boot) && k < |states|
    requires InFlight(states[k]) == [] && !states[k].phase.Booted?
    ensures var s := states[k];
            Newest(View(s.inner, s.serial, s.stored, s.ttl), Returned(boot, s.events), Buildable(boot, s.events),
                   NewestIsBad(s.events))
  {
    BetweenCycles(states, actions, boot, k);
    InstalledAndStored(boot, states[k].bootRead, states[k].events);
  }

  /** If the vault made the bundles of the run in different calls, then between cycles the stored bundle
      is not the installed one exactly while the newest did not build. */
  lemma StoredDiffersExactlyWhen(states: seq<State>, actions: seq<Action>, boot: CertBundle, k: nat, bootTicket: nat)
    requires Run(states, actions, boot) && k < |states| && boot.serial == TextOf(bootTicket)
    requires InFlight(states[k]) == [] && !states[k].phase.Booted?
    requires SerialsApart(CallsOf(actions, k, bootTicket))
    ensures states[k].stored != states[k].inner <==> NewestIsBad(states[k].events)
  {
    BetweenCycles(states, actions, boot, k);
    ReturnedByCalls(states, actions, boot, k, bootTicket);
    DifferExactlyWhenNewestIsBad(boot, states[k].bootRead, states[k].events, CallsOf(actions, k, bootTicket));
  }

  // ----- the two writes of a swap are not one

  lemma Extend(states: seq<State>, actions: seq<Action>, boot: CertBundle, a: Action, s': State)
    returns (states': seq<State>, actions': seq<Action>)
    requires Run(states, actions, boot) && Step(states[|actions|], a, s')
    ensures Run(states', actions', boot) && states'[|actions'|] == s'
  {
    states', actions' := states + [s'], actions + [a];
  }

  /** From boot to the first attempt. */
  lemma FirstAttempt(boot: CertBundle) returns (states: seq<State>, actions: seq<Action>)
    requires boot == Bundle("user-service", 0, 0, 0)
    ensures Run(states, actions, boot)
    ensures var s := states[|actions|];
            && s.phase == Calling(1, 270_000) && s.now == 270_000
            && s.inner == boot && s.serial == boot.serial
  {
    var s := State(0, RotationMachine.Booted(0), 0, boot, boot.serial, boot, [], [boot], 0, false, 0, []);
    assert Init(s, boot);
    var asleep := s.(phase := Sleeping(270_000), ttl := 300);
    states, actions := Extend([s], [], boot, MeasureBoot, s.(phase := Looping, ttl := 300));
    states, actions := Extend(states, actions, boot, Schedule, asleep);
    states, actions := Extend(states, actions, boot, Tick(270_000), asleep.(now := 270_000));
    states, actions := Extend(states, actions, boot, Wake, asleep.(phase := Calling(1, 270_000), now := 270_000));
  }

  /** From an attempt on: an answer, which is stored and measured. */
  lemma AnswerArrives(states: seq<State>, actions: seq<Action>, boot: CertBundle, ticket: nat)
    returns (states': seq<State>, actions': seq<Action>)
    requires Run(states, actions, boot)
    requires states[|actions|].phase.Calling? && states[|actions|].phase.since == states[|actions|].now
    ensures Run(states', actions', boot)
    ensures var s, s' := states[|actions|], states'[|actions'|];
            && s'.phase == Measured(Bundle("user-service", ticket, s.now, s.now), s.now)
            && s'.serial == s.serial
  {
    var s := states[|actions|];
    var b := Bundle("user-service", ticket, s.now, s.now);
    var stored := s.(phase := Received(b, s.now), stored := b);
    states', actions' := Extend(states, actions, boot, Answer("user-service", ticket, s.now, s.now),
                                s.(phase := Answered(b, s.now)));
    states', actions' := Extend(states', actions', boot, Store, stored);
    states', actions' := Extend(states', actions', boot, Measure, stored.(phase := Measured(b, s.now)));
  }

  /** From there on: the first of the two writes that install it. */
  lemma SwapsHalf(states: seq<State>, actions: seq<Action>, boot: CertBundle)
    returns (states': seq<State>, actions': seq<Action>)
    requires Run(states, actions, boot) && states[|actions|].phase.Measured?
    ensures Run(states', actions', boot)
    ensures states'[|actions'|].serial == states[|actions|].serial
    ensures states'[|actions'|].inner == states[|actions|].phase.bundle
  {
    var s := states[|actions|];
    var Measured(b, at) := s.phase;
    states', actions' := Extend(states, actions, boot, Build, s.(phase := Built(b, at)));
    states', actions' := Extend(states', actions', boot, SwapInner,
                                s.(phase := HalfSwapped(b, at), inner := b, installs := s.installs + [b],
                                   failed := false));
  }

  /** A run to a state in which the serial is not that of the config on offer. */
  lemma SerialLagsBehind() returns (states: seq<State>, actions: seq<Action>, boot: CertBundle)
    ensures Run(states, actions, boot)
    ensures states[|actions|].serial != states[|actions|].inner.serial
  {
    boot := Bundle("user-service", 0, 0, 0);
    states, actions := FirstAttempt(boot);
    states, actions := AnswerArrives(states, actions, boot, 1);
    states, actions := SwapsHalf(states, actions, boot);
    SerialsCollide(0, 1);
  }
}
