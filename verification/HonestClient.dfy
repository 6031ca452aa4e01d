/**
  Completeness: a client that quotes a nonce it was sent and presents it inside the window is
  admitted, whatever any number of other handlers do in between, as long as nobody else presents
  that nonce.
 */
module HonestClient {
  import opened Prelude
  import opened Nonces
  import opened Attestation
  import opened VaultProtocol
  import VaultNonces
  import Hex

  /** The step is a check that takes `n` out of the store. */
  predicate Takes(p: Policy, s: State, a: Action, n: Nonce)
  {
    && a.Check? && a.id in s.handlers && s.handlers[a.id].Received?
    && Presented(p, s.handlers[a.id].req) == Some(n)
  }

  /** Since time `t`, `n` is outstanding. */
  ghost predicate OutstandingSince(s: State, n: Nonce, t: nat)
  {
    var since := Outstanding(s.history, n);
    since.Some? && t <= since.value <= s.now
  }

  /** No step from `j` on and before `k` takes `n` out of the store. */
  ghost predicate NobodyTakes(p: Policy, states: seq<State>, actions: seq<Action>, j: nat, k: nat, n: Nonce)
    requires k <= |actions| && k <= |states|
  {
    forall i :: j <= i < k ==> !Takes(p, states[i], actions[i], n)
  }

  lemma StepKeepsOutstanding(p: Policy, states: seq<State>, actions: seq<Action>, i: nat, n: Nonce, t: nat)
    requires Run(p, states, actions) && i < |actions|
    requires OutstandingSince(states[i], n, t) && !Takes(p, states[i], actions[i], n)
    ensures OutstandingSince(states[i + 1], n, t)
  {
    StepAt(p, states, actions, i);
    var s, a, s' := states[i], actions[i], states[i + 1];
    if a.Register? {
      assert s'.history[..|s.history|] == s.history;
    } else if a.Check? {
      var req := s.handlers[a.id].req;
      if Presented(p, req).Some? {
        assert s'.history[..|s.history|] == s.history;
      }
    }
  }

  lemma NorTheLast(p: Policy, states: seq<State>, actions: seq<Action>, j: nat, k: nat, n: Nonce)
    requires j < k <= |actions| && k <= |states| && NobodyTakes(p, states, actions, j, k, n)
    ensures NobodyTakes(p, states, actions, j, k - 1, n) && !Takes(p, states[k - 1], actions[k - 1], n)
  {
  }

  lemma {:induction false} StaysOutstanding(p: Policy, states: seq<State>, actions: seq<Action>, j: nat, k: nat,
                                            n: Nonce, t: nat)
    requires Run(p, states, actions) && j <= k < |states|
    requires OutstandingSince(states[j], n, t)
    requires NobodyTakes(p, states, actions, j, k, n)
    ensures OutstandingSince(states[k], n, t)
  {
    if j < k {
      NorTheLast(p, states, actions, j, k, n);
      StaysOutstanding(p, states, actions, j, k - 1, n, t);
      StepKeepsOutstanding(p, states, actions, k - 1, n, t);
    }
  }

  /** Nonces are drawn 32 bytes long. */
  lemma {:induction false} DrawnIsLong(p: Policy, states: seq<State>, actions: seq<Action>, k: nat, id: nat)
    requires Run(p, states, actions) && k < |states|
    requires id in states[k].handlers && states[k].handlers[id].Drawn?
    ensures |states[k].handlers[id].nonce| == 32
  {
    if k > 0 {
      var s := states[k - 1];
      StepAt(p, states, actions, k - 1);
      if id in s.handlers && s.handlers[id].Drawn? {
        DrawnIsLong(p, states, actions, k - 1, id);
      }
    }
  }

  /** Step `j` registers the nonce `n`. */
  predicate RegistersAt(states: seq<State>, actions: seq<Action>, j: nat, n: Nonce)
    requires j < |actions| && j < |states|
  {
    && actions[j].Register? && actions[j].id in states[j].handlers
    && states[j].handlers[actions[j].id] == Drawn(n)
  }

  /** Step `k` checks the request `req`. */
  predicate ChecksAt(states: seq<State>, actions: seq<Action>, k: nat, kind: Kind, req: UnsealRequest)
    requires k < |actions| && k < |states|
  {
    && actions[k].Check? && actions[k].id in states[k].handlers
    && states[k].handlers[actions[k].id] == Received(kind, req)
  }

  /** `req` is what a client that the vault allows makes of the text of `n`. */
  ghost predicate Honest(p: Policy, n: Nonce, serviceName: string, machineId: Option<string>, req: UnsealRequest)
  {
    MadeFor(p.sha256, serviceName, machineId, Hex.Encode(n), req) && p.Listed(req.machineId)
  }

  lemma RegistrationStarts(p: Policy, states: seq<State>, actions: seq<Action>, j: nat, n: Nonce)
    requires Run(p, states, actions) && j < |actions| && RegistersAt(states, actions, j, n)
    ensures OutstandingSince(states[j + 1], n, states[j + 1].now)
  {
    StepAt(p, states, actions, j);
    assert states[j + 1].history[..|states[j].history|] == states[j].history;
  }

  /** The timing: the nonce is still outstanding, and no older than its registration. */
  lemma OutstandingWhenChecked(p: Policy, states: seq<State>, actions: seq<Action>, j: nat, k: nat, n: Nonce)
    requires Run(p, states, actions) && j < k < |actions| && RegistersAt(states, actions, j, n)
    requires NobodyTakes(p, states, actions, j + 1, k, n)
    ensures OutstandingSince(states[k], n, states[j + 1].now)
  {
    RegistrationStarts(p, states, actions, j, n);
    StaysOutstanding(p, states, actions, j + 1, k, n, states[j + 1].now);
  }

  /** The request: it presents the nonce, with a quote that holds. */
  lemma HonestPresents(p: Policy, n: Nonce, serviceName: string, machineId: Option<string>, req: UnsealRequest)
    requires n != [] && Honest(p, n, serviceName, machineId, req)
    ensures Presented(p, req) == Some(n) && QuoteHolds(p, req, n)
  {
    HonestRequest(p, serviceName, machineId, n, req);
  }

  lemma AdmittedWhileLive(p: Policy, states: seq<State>, actions: seq<Action>, k: nat, n: Nonce,
                          kind: Kind, req: UnsealRequest)
    requires Run(p, states, actions) && k < |actions| && ChecksAt(states, actions, k, kind, req)
    requires Presented(p, req) == Some(n) && QuoteHolds(p, req, n)
    ensures actions[k].verdict.Accepted? <==> Live(states[k].history, n, states[k + 1].now)
  {
    VaultNonces.ChecksFollowHistory(p, states, actions, k, actions[k].id, kind, req);
  }

  lemma CheckAdmits(p: Policy, states: seq<State>, actions: seq<Action>, k: nat, kind: Kind, req: UnsealRequest)
    requires Run(p, states, actions) && k < |actions| && ChecksAt(states, actions, k, kind, req)
    requires actions[k].verdict.Accepted?
    ensures actions[k].id in states[k + 1].handlers && states[k + 1].handlers[actions[k].id] == Admitted(kind, req)
  {
    StepAt(p, states, actions, k);
  }

  /** Step `j` registered the nonce and answered with its text; step `k` checks the request the
      client made of that text. In between any handlers took any steps, none of which took the
      nonce out of the store. Then the request is admitted if its check reads the clock inside
      the window; whatever the timing, it is admitted only if the nonce's latest registration is
      inside the window. */
  lemma HonestClientAdmitted(p: Policy, states: seq<State>, actions: seq<Action>, j: nat, k: nat,
                             n: Nonce, serviceName: string, machineId: Option<string>, kind: Kind, req: UnsealRequest)
    requires Run(p, states, actions) && j < k < |actions|
    requires RegistersAt(states, actions, j, n) && ChecksAt(states, actions, k, kind, req)
    requires Honest(p, n, serviceName, machineId, req) && NobodyTakes(p, states, actions, j + 1, k, n)
    ensures states[k + 1].now - states[j + 1].now < 30_000 ==> actions[k].verdict.Accepted?
    ensures actions[k].verdict.Accepted? <==> Live(states[k].history, n, states[k + 1].now)
    ensures actions[k].verdict.Accepted? ==>
              var id := actions[k].id;
              id in states[k + 1].handlers && states[k + 1].handlers[id] == Admitted(kind, req)
  {
    DrawnIsLong(p, states, actions, j, actions[j].id);
    HonestPresents(p, n, serviceName, machineId, req);
    AdmittedWhileLive(p, states, actions, k, n, kind, req);
    OutstandingWhenChecked(p, states, actions, j, k, n);
    if actions[k].verdict.Accepted? {
      CheckAdmits(p, states, actions, k, kind, req);
    }
  }
}
