/**
  The boot-time identity of a service: the unsealing of one task, and any number of clones of the
  identity unsealing and being read at once. The bundle is written before the state becomes
  `Serving`, and is never cleared.
 */
module Identity {
  import opened Prelude
  import opened Clocks
  import opened Nonces
  import opened Attestation
  import opened Issuance
  import opened VaultClients

  datatype ServiceState = Locked | Unsealing | Serving

  // ----- one task

  class ServiceIdentity {
    var state: ServiceState
    var bundle: Option<CertBundle>
    const serviceName: string

    constructor (serviceName: string)
      ensures state == Locked && bundle == None && this.serviceName == serviceName
    {
      state := Locked;
      bundle := None;
      this.serviceName := serviceName;
    }

    /** Unseal with what the vault answers. Only an error status puts the state back; a failure to
        reach the vault or to read its answers leaves it `Unsealing`. */
    method Unseal(machineId: Option<string>, sha256: Nonce -> seq<byte>, ex: Exchange, clock: Clock)
      returns (r: Result<CertBundle, RenewError>, posted: Option<UnsealRequest>)
      modifies this, clock
      ensures old(clock.now) <= clock.now && clock.trace == old(clock.trace) + [Called]
      ensures Ends(ex, r) && ex.Reply() == if r.Ok? then Some(r.value) else None
      ensures Posts(sha256, serviceName, machineId, ex, posted)
      ensures bundle == if r.Ok? then Some(r.value) else old(bundle)
      ensures state == if ex.Reply().Some? then Serving
                       else if posted.Some? && ex.response.ErrorStatus? then Locked
                       else Unsealing
    {
      state := Unsealing;
      clock.Call();
      if ex.nonce.Err? {
        return Err(VaultUnreachable(ex.nonce.error)), None;
      }
      var made := Attest(sha256, serviceName, machineId, ex.nonce.value);
      if made.Err? {
        return Err(VaultUnreachable(made.error)), None;
      }
      posted := Some(made.value);
      match ex.response {
        case NoAnswer(error) => return Err(VaultUnreachable(error)), posted;
        case ErrorStatus(body) =>
          state := Locked;
          return Err(VaultRejected(body)), posted;
        case Unreadable(error) => return Err(VaultUnreachable(error)), posted;
        case Issued(b) =>
          bundle := Some(b);
          state := Serving;
          return Ok(b), posted;
      }
    }
  }

  // ----- clones at once

  /** A task that unseals, or one that asks `is_serving` and then reads the bundle. */
  datatype Task =
    | Started
    | Contacting
    | TurnedAway
    | Replied(bundle: CertBundle)
    | Stored(bundle: CertBundle)
    | Done
    | Gone
    | Asked(serving: bool)
    | Read(serving: bool, got: Option<CertBundle>)

  /** `replies` is a history variable: the bundles the vault has sent. */
  datatype State = State(
    state: ServiceState,
    bundle: Option<CertBundle>,
    tasks: map<nat, Task>,
    replies: set<CertBundle>)

  const INIT := State(Locked, None, map[], {})

  datatype Action =
    | Start(id: nat)
    | Enter(id: nat)
    | Fails(id: nat)
    | Refuse(id: nat)
    | Relock(id: nat)
    | Reply(id: nat, bundle: CertBundle)
    | StoreBundle(id: nat)
    | Serve(id: nat)
    | Ask(id: nat)
    | Fetch(id: nat)

  predicate Is(s: State, id: nat, t: Task)
  {
    id in s.tasks && s.tasks[id] == t
  }

  ghost predicate Step(s: State, a: Action, s': State)
  {
    match a
    case Start(id) => id !in s.tasks && s' == s.(tasks := s.tasks[id := Started])
    case Enter(id) => Is(s, id, Started) && s' == s.(state := Unsealing, tasks := s.tasks[id := Contacting])
    case Fails(id) => Is(s, id, Contacting) && s' == s.(tasks := s.tasks[id := Gone])
    case Refuse(id) => Is(s, id, Contacting) && s' == s.(tasks := s.tasks[id := TurnedAway])
    case Relock(id) => Is(s, id, TurnedAway) && s' == s.(state := Locked, tasks := s.tasks[id := Gone])
    case Reply(id, b) =>
      Is(s, id, Contacting) && s' == s.(tasks := s.tasks[id := Replied(b)], replies := s.replies + {b})
    case StoreBundle(id) =>
      && id in s.tasks && s.tasks[id].Replied?
      && s' == s.(bundle := Some(s.tasks[id].bundle), tasks := s.tasks[id := Stored(s.tasks[id].bundle)])
    case Serve(id) =>
      && id in s.tasks && s.tasks[id].Stored?
      && s' == s.(state := Serving, tasks := s.tasks[id := Done])
    case Ask(id) => id !in s.tasks && s' == s.(tasks := s.tasks[id := Asked(s.state == Serving)])
    case Fetch(id) =>
      && id in s.tasks && s.tasks[id].Asked?
      && s' == s.(tasks := s.tasks[id := Read(s.tasks[id].serving, s.bundle)])
  }

  ghost predicate Run(states: seq<State>, actions: seq<Action>)
  {
    && |states| == |actions| + 1
    && states[0] == INIT
    && forall i :: 0 <= i < |actions| ==> Step(states[i], actions[i], states[i + 1])
  }

  ghost predicate Inv(s: State)
  {
    && (s.bundle.Some? ==> s.bundle.value in s.replies)
    && (s.state == Serving ==> s.bundle.Some?)
    && (forall id :: id in s.tasks ==> TaskInv(s, s.tasks[id]))
  }

  ghost predicate TaskInv(s: State, t: Task)
  {
    match t
    case Replied(b) => b in s.replies
    case Stored(b) => s.bundle.Some?
    case Done => s.bundle.Some?
    case Asked(serving) => serving ==> s.bundle.Some?
    case Read(serving, got) => (serving ==> got.Some?) && (got.Some? ==> got.value in s.replies)
    case _ => true
  }

  lemma StepKeepsInv(s: State, a: Action, s': State)
    requires Inv(s) && Step(s, a, s')
    ensures Inv(s')
    ensures s.bundle.Some? ==> s'.bundle.Some?
  {
  }

  lemma {:induction false} RunKeepsInv(states: seq<State>, actions: seq<Action>, k: nat)
    requires Run(states, actions) && k < |states|
    ensures Inv(states[k])
  {
    if k > 0 {
      RunKeepsInv(states, actions, k - 1);
      StepKeepsInv(states[k - 1], actions[k - 1], states[k]);
    }
  }

  /** Over every interleaving: `Serving` means a bundle the vault sent is stored; a reader that saw
      `Serving` then reads such a bundle, even if the state has changed since; and as long as the
      vault has sent nothing the service is never `Serving`. */
  lemma ServingHasBundle(states: seq<State>, actions: seq<Action>, k: nat)
    requires Run(states, actions) && k < |states|
    ensures var s := states[k];
            && (s.state == Serving ==> s.bundle.Some? && s.bundle.value in s.replies)
            && (forall id :: id in s.tasks && s.tasks[id].Read? && s.tasks[id].serving ==>
                  s.tasks[id].got.Some? && s.tasks[id].got.value in s.replies)
            && (s.replies == {} ==> s.state != Serving)
  {
    var s := states[k];
    RunKeepsInv(states, actions, k);
    forall id | id in s.tasks && s.tasks[id].Read? && s.tasks[id].serving
      ensures s.tasks[id].got.Some? && s.tasks[id].got.value in s.replies
    {
      assert TaskInv(s, s.tasks[id]);
    }
  }

  /** The unsealing of one task, from its start to its end with nothing in between, as the steps of the
      machine: state and bundle end as the method leaves them, from whichever state. */
  lemma UnsealIsARun(s: State, id: nat, ex: Exchange, r: Result<CertBundle, RenewError>)
    returns (states: seq<State>, actions: seq<Action>)
    requires id !in s.tasks && Ends(ex, r)
    ensures |states| == |actions| + 1 && states[0] == s
    ensures forall i :: 0 <= i < |actions| ==> Step(states[i], actions[i], states[i + 1])
    ensures var s' := states[|actions|];
            && s'.bundle == (if r.Ok? then Some(r.value) else s.bundle)
            && s'.state == if ex.Reply().Some? then Serving
                           else if r.error.VaultRejected? then Locked
                           else Unsealing
  {
    var s1 := s.(tasks := s.tasks[id := Started]);
    var s2 := s1.(state := Unsealing, tasks := s1.tasks[id := Contacting]);
    states, actions := [s, s1, s2], [Start(id), Enter(id)];
    if r.Ok? {
      var b := r.value;
      var s3 := s2.(tasks := s2.tasks[id := Replied(b)], replies := s2.replies + {b});
      var s4 := s3.(bundle := Some(b), tasks := s3.tasks[id := Stored(b)]);
      var s5 := s4.(state := Serving, tasks := s4.tasks[id := Done]);
      states, actions := states + [s3, s4, s5], actions + [Reply(id, b), StoreBundle(id), Serve(id)];
    } else if r.error.VaultRejected? {
      var s3 := s2.(tasks := s2.tasks[id := TurnedAway]);
      var s4 := s3.(state := Locked, tasks := s3.tasks[id := Gone]);
      states, actions := states + [s3, s4], actions + [Refuse(id), Relock(id)];
    } else {
      states, actions := states + [s2.(tasks := s2.tasks[id := Gone])], actions + [Fails(id)];
    }
  }

  // ----- how long the service serves

  /** A continuation of state `s`, in which no further clone starts to unseal. */
  ghost predicate Continues(s: State, states: seq<State>, actions: seq<Action>)
  {
    && |states| == |actions| + 1
    && states[0] == s
    && forall i :: 0 <= i < |actions| ==> Step(states[i], actions[i], states[i + 1]) && !actions[i].Start?
  }

  /** The service serves at the end of every continuation, and so throughout each of them. */
  ghost predicate ServesForEver(s: State)
  {
    forall states: seq<State>, actions: seq<Action> ::
      Continues(s, states, actions) ==> states[|actions|].state == Serving
  }

  /** No clone is waiting to enter, to hear from the vault, or to lock the service again. */
  ghost predicate Settled(s: State)
  {
    forall id :: id in s.tasks ==>
      !s.tasks[id].Started? && !s.tasks[id].Contacting? && !s.tasks[id].TurnedAway?
  }

  lemma SettledStep(s: State, a: Action, s': State)
    requires s.state == Serving && Settled(s) && Step(s, a, s') && !a.Start?
    ensures s'.state == Serving && Settled(s')
  {
  }

  lemma {:induction false} SettledStays(s: State, states: seq<State>, actions: seq<Action>, k: nat)
    requires s.state == Serving && Settled(s) && Continues(s, states, actions) && k < |states|
    ensures states[k].state == Serving && Settled(states[k])
  {
    if k > 0 {
      SettledStays(s, states, actions, k - 1);
      SettledStep(states[k - 1], actions[k - 1], states[k]);
    }
  }

  /** One step, or two, by which a clone that has not settled ends the serving. */
  lemma UnsettledStops(s: State, id: nat) returns (states: seq<State>, actions: seq<Action>)
    requires id in s.tasks && (s.tasks[id].Started? || s.tasks[id].Contacting? || s.tasks[id].TurnedAway?)
    ensures Continues(s, states, actions) && states[|actions|].state != Serving
  {
    var turnedAway := s.(tasks := s.tasks[id := TurnedAway]);
    if s.tasks[id].Started? {
      states, actions := [s, s.(state := Unsealing, tasks := s.tasks[id := Contacting])], [Enter(id)];
    } else if s.tasks[id].TurnedAway? {
      states, actions := [s, s.(state := Locked, tasks := s.tasks[id := Gone])], [Relock(id)];
    } else {
      var locked := turnedAway.(state := Locked, tasks := turnedAway.tasks[id := Gone]);
      states, actions := [s, turnedAway, locked], [Refuse(id), Relock(id)];
    }
  }

  /** A service that serves is bound to go on serving, as long as no further clone starts to unseal,
      if and only if no clone is waiting to enter `unseal`, to hear from the vault, or to lock the
      service again. */
  lemma ServesForEverExactlyWhenSettled(s: State)
    requires s.state == Serving
    ensures ServesForEver(s) <==> Settled(s)
  {
    if Settled(s) {
      forall states: seq<State>, actions: seq<Action> | Continues(s, states, actions)
        ensures states[|actions|].state == Serving
      {
        SettledStays(s, states, actions, |actions|);
      }
    } else {
      var id :| id in s.tasks
                && (s.tasks[id].Started? || s.tasks[id].Contacting? || s.tasks[id].TurnedAway?);
      var states, actions := UnsettledStops(s, id);
    }
  }

  lemma Extend(states: seq<State>, actions: seq<Action>, a: Action, s': State)
    returns (states': seq<State>, actions': seq<Action>)
    requires Run(states, actions) && Step(states[|actions|], a, s')
    ensures Run(states', actions') && |actions'| == |actions| + 1
    ensures states'[|actions|] == states[|actions|] && states'[|actions'|] == s'
  {
    states', actions' := states + [s'], actions + [a];
  }

  /** Two clones ask the vault. */
  lemma BothAsk() returns (states: seq<State>, actions: seq<Action>)
    ensures Run(states, actions)
    ensures states[|actions|] == State(Unsealing, None, map[0 := Contacting, 1 := Contacting], {})
  {
    states, actions := Extend([INIT], [], Start(0), INIT.(tasks := map[0 := Started]));
    var both := map[0 := Started, 1 := Started];
    assert map[0 := Started][1 := Started] == both;
    states, actions := Extend(states, actions, Start(1), INIT.(tasks := both));
    var entered := both[0 := Contacting];
    states, actions := Extend(states, actions, Enter(0), State(Unsealing, None, entered, {}));
    assert entered[1 := Contacting] == map[0 := Contacting, 1 := Contacting];
    states, actions := Extend(states, actions, Enter(1), State(Unsealing, None, entered[1 := Contacting], {}));
  }

  /** One of them is answered and serves. */
  lemma OneServes(b: CertBundle) returns (states: seq<State>, actions: seq<Action>)
    ensures Run(states, actions)
    ensures states[|actions|] == State(Serving, Some(b), map[0 := Done, 1 := Contacting], {b})
  {
    states, actions := BothAsk();
    var both := map[0 := Contacting, 1 := Contacting];
    var replied, stored := both[0 := Replied(b)], both[0 := Stored(b)];
    states, actions := Extend(states, actions, Reply(0, b), State(Unsealing, None, replied, {b}));
    assert replied[0 := Stored(b)] == stored;
    states, actions := Extend(states, actions, StoreBundle(0), State(Unsealing, Some(b), stored, {b}));
    assert stored[0 := Done] == map[0 := Done, 1 := Contacting];
    states, actions := Extend(states, actions, Serve(0), State(Serving, Some(b), stored[0 := Done], {b}));
  }

  /** A run that goes wrong: a second clone that the vault refuses locks a service that already holds
      its bundle and serves. */
  lemma RefusedCloneRelocks(b: CertBundle) returns (states: seq<State>, actions: seq<Action>, k: nat)
    ensures Run(states, actions) && k < |states|
    ensures states[k].state == Serving
    ensures states[|states| - 1].state == Locked && states[|states| - 1].bundle == Some(b)
  {
    states, actions := OneServes(b);
    var refused := map[0 := Done, 1 := TurnedAway];
    assert map[0 := Done, 1 := Contacting][1 := TurnedAway] == refused;
    states, actions := Extend(states, actions, Refuse(1), State(Serving, Some(b), refused, {b}));
    k := |actions|;
    states, actions := Extend(states, actions, Relock(1), State(Locked, Some(b), refused[1 := Gone], {b}));
  }
}
