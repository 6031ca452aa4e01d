/**
  The vault as arbitrarily many handlers stepping in any order over the shared state. The atomic
  pieces are a section that holds the nonce mutex (time may pass inside it), one `fetch_add` of
  the serial counter, and one append to the log, which may stop part of the way through its line.
 */
module VaultProtocol {
  import opened Prelude
  import opened Nonces
  import opened Attestation
  import opened Issuance
  import opened LogEntries
  import opened IssuanceLogs

  datatype Kind = Unseal | Renew

  /** Where a handler stands; `ticket` numbers its `fetch_add`. */
  datatype Handler =
    | Drawn(nonce: Nonce)
    | NonceSent(nonce: Nonce)
    | Received(kind: Kind, req: UnsealRequest)
    | Turned(kind: Kind, req: UnsealRequest, reason: string)
    | Denied(kind: Kind, req: UnsealRequest, reason: string)
    | Admitted(kind: Kind, req: UnsealRequest)
    | Allocated(kind: Kind, req: UnsealRequest, ticket: nat)
    | Signed(kind: Kind, req: UnsealRequest, ticket: nat)
    | Granted(kind: Kind, req: UnsealRequest, ticket: nat)
    | Errored(kind: Kind, req: UnsealRequest, ticket: nat)

  /** The shared state, with the log as its appends in lock order, and the handlers; then history
      variables: the nonce events, the event with which each handler spent its nonce, the time the last
      pruning began, the handler of each ticket and the handler of each append. */
  datatype State = State(
    now: nat,
    store: map<Nonce, nat>,
    tickets: nat,
    appends: seq<Appending>,
    handlers: map<nat, Handler>,
    history: History,
    spent: map<nat, nat>,
    swept: nat,
    owners: seq<nat>,
    writers: seq<nat>)

  datatype Action =
    | Tick(elapsed: nat)
    | Draw(id: nat, nonce: Nonce)
    | Register(id: nat)
    | Receive(id: nat, kind: Kind, req: UnsealRequest)
    | Check(id: nat, verdict: Verdict)
    | Allocate(id: nat)
    | Sign(id: nat)
    | SignFails(id: nat)
    | LogGrant(id: nat, append: Appending)
    | LogRefusal(id: nat, append: Appending)
    | Deny(id: nat)

  const INIT := State(0, map[], 0, [], map[], [], map[], 0, [], [])

  predicate IsGrant(req: UnsealRequest, ticket: nat, e: LogEntry)
  {
    && e.granted && e.reason.None? && e.certSerial == TextOf(ticket)
    && e.serviceName == req.serviceName && e.machineId == req.machineId
  }

  predicate IsRefusal(req: UnsealRequest, reason: string, e: LogEntry)
  {
    && !e.granted && e.reason == Some(reason) && e.certSerial == ""
    && e.serviceName == req.serviceName && e.machineId == req.machineId
  }

  ghost predicate Step(p: Policy, s: State, a: Action, s': State)
  {
    match a
    case Tick(elapsed) =>
      s' == s.(now := s.now + elapsed)
    case Draw(id, nonce) =>
      && id !in s.handlers && |nonce| == 32
      && s' == s.(handlers := s.handlers[id := Drawn(nonce)])
    case Register(id) =>
      && id in s.handlers && s.handlers[id].Drawn?
      && var nonce := s.handlers[id].nonce;
      && RegisterRel(s.store, nonce, s.now, s'.now, s'.store)
      && s' == s.(now := s'.now, store := s'.store, swept := s.now,
                  handlers := s.handlers[id := NonceSent(nonce)],
                  history := s.history + [Registered(nonce, s'.now)])
    case Receive(id, kind, req) =>
      && id !in s.handlers
      && s' == s.(handlers := s.handlers[id := Received(kind, req)])
    case Check(id, verdict) =>
      && id in s.handlers && s.handlers[id].Received?
      && var Received(kind, req) := s.handlers[id];
      && VerifyRel(p, req, s.store, s.now, s'.store, s'.now, verdict)
      && s' == s.(now := s'.now, store := s'.store, history := EventsAfter(p, req, s.history, s'.now),
                  handlers := s.handlers[id := if verdict.Accepted? then Admitted(kind, req)
                                               else Turned(kind, req, verdict.reason)],
                  spent := if verdict.Accepted? then s.spent[id := |s.history|] else s.spent)
    case Allocate(id) =>
      && id in s.handlers && s.handlers[id].Admitted?
      && var Admitted(kind, req) := s.handlers[id];
      && s' == s.(tickets := s.tickets + 1, owners := s.owners + [id],
                  handlers := s.handlers[id := Allocated(kind, req, s.tickets)])
    case Sign(id) =>
      && id in s.handlers && s.handlers[id].Allocated?
      && var Allocated(kind, req, ticket) := s.handlers[id];
      && s' == s.(handlers := s.handlers[id := Signed(kind, req, ticket)])
    case SignFails(id) =>
      && id in s.handlers && s.handlers[id].Allocated?
      && var Allocated(kind, req, ticket) := s.handlers[id];
      && s' == s.(handlers := s.handlers[id := Errored(kind, req, ticket)])
    case LogGrant(id, append) =>
      && id in s.handlers && s.handlers[id].Signed?
      && var Signed(kind, req, ticket) := s.handlers[id];
      && IsGrant(req, ticket, append.entry)
      && s' == s.(appends := s.appends + [append], writers := s.writers + [id],
                  handlers := s.handlers[id := Granted(kind, req, ticket)])
    case LogRefusal(id, append) =>
      && id in s.handlers && s.handlers[id].Turned? && s.handlers[id].kind == Unseal
      && var Turned(kind, req, reason) := s.handlers[id];
      && IsRefusal(req, reason, append.entry)
      && s' == s.(appends := s.appends + [append], writers := s.writers + [id],
                  handlers := s.handlers[id := Denied(kind, req, reason)])
    case Deny(id) =>
      && id in s.handlers && s.handlers[id].Turned? && s.handlers[id].kind == Renew
      && var Turned(kind, req, reason) := s.handlers[id];
      && s' == s.(handlers := s.handlers[id := Denied(kind, req, reason)])
  }

  ghost predicate Run(p: Policy, states: seq<State>, actions: seq<Action>)
  {
    && |states| == |actions| + 1
    && states[0] == INIT
    && forall i :: 0 <= i < |actions| ==> Step(p, states[i], actions[i], states[i + 1])
  }

  /** A step moves at most one handler. */
  lemma OneMoves(p: Policy, s: State, a: Action, s': State)
    requires Step(p, s, a, s')
    ensures a.Tick? ==> s'.handlers == s.handlers
    ensures !a.Tick? ==> a.id in s'.handlers && s'.handlers == s.handlers[a.id := s'.handlers[a.id]]
  {
  }

  lemma StepAt(p: Policy, states: seq<State>, actions: seq<Action>, i: nat)
    requires Run(p, states, actions) && i < |actions|
    ensures Step(p, states[i], actions[i], states[i + 1])
  {
  }
}
