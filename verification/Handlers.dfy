/**
  What one request does to the vault when its handler runs to its end, as a relation on the shared state;
  and that every such handler is a run of the interleaved machine of `VaultProtocol`.
 */
module Handlers {
  import opened Prelude
  import opened Nonces
  import opened Attestation
  import opened Issuance
  import opened Framing
  import opened IssuanceLogs
  import opened VaultProtocol
  import SerialText
  import VaultLog

  datatype AppError = VaultRejected(reason: string) | Internal(message: string)

  /** The parts that the handlers share, at one moment: the time, the nonce store and its history, the
      number of calls of `issue` so far, and the appends to the log. */
  datatype Shared = Shared(now: nat, store: map<Nonce, nat>, history: History, calls: nat, writes: seq<Write>)

  /** How the vault is set up: its policy, how entries are written and how time stamps are. */
  datatype Setup = Setup(policy: Policy, codec: Codec, render: nat -> string)

  /** The refusal was appended, with its reason, between times `t` and `now`. */
  ghost predicate RefusalLogged(v: Setup, req: UnsealRequest, reason: string, stop: Option<nat>, t: nat, now: nat,
                                writes: seq<Write>, writes': seq<Write>)
  {
    exists e ::
      && RejectionOf(e, v.render, req.serviceName, req.machineId, reason, t, now)
      && IsRefusal(req, reason, e) && Appended(v.codec, e, stop, writes, writes')
  }

  /** The grant of call number `calls` was appended, stamped with time `now`. */
  ghost predicate GrantLogged(v: Setup, req: UnsealRequest, calls: nat, b: CertBundle, stop: Option<nat>, now: nat,
                              writes: seq<Write>, writes': seq<Write>)
  {
    exists e ::
      && GrantOf(e, v.render, req.serviceName, req.machineId, b.serial, b.expiresAt, now)
      && IsGrant(req, calls, e) && Appended(v.codec, e, stop, writes, writes')
  }

  /** Once the request is admitted: one call of `issue`, and on success one append before the reply. */
  ghost predicate GrantHandled(v: Setup, req: UnsealRequest, fault: Option<Fault>, stop: Option<nat>, t: nat, now: nat,
                               calls: nat, calls': nat, writes: seq<Write>, writes': seq<Write>,
                               r: Result<CertBundle, AppError>)
  {
    && calls' == calls + 1
    && match fault
       case Some(f) => r == Err(Internal(Message(f))) && writes' == writes
       case None =>
         && r.Ok? && Certifies(r.value, req.serviceName, calls, t, now)
         && GrantLogged(v, req, calls, r.value, stop, now, writes, writes')
  }

  /** The request was checked at time `t`. A refusal is the reply, and is logged by `unseal` only; it uses
      no serial. */
  ghost predicate HandledAt(v: Setup, kind: Kind, req: UnsealRequest, fault: Option<Fault>, stop: Option<nat>,
                            s: Shared, t: nat, s': Shared, r: Result<CertBundle, AppError>)
  {
    && s.now <= t <= s'.now
    && VerifyRel(v.policy, req, s.store, s.now, s'.store, t, VerdictOf(v.policy, req, s.store, t))
    && s'.history == EventsAfter(v.policy, req, s.history, t)
    && match VerdictOf(v.policy, req, s.store, t)
       case Refused(reason) =>
         && r == Err(VaultRejected(reason)) && s'.calls == s.calls
         && if kind == Unseal then RefusalLogged(v, req, reason, stop, t, s'.now, s.writes, s'.writes)
            else s'.writes == s.writes
       case Accepted =>
         GrantHandled(v, req, fault, stop, t, s'.now, s.calls, s'.calls, s.writes, s'.writes, r)
  }

  ghost predicate Handled(v: Setup, kind: Kind, req: UnsealRequest, fault: Option<Fault>, stop: Option<nat>,
                          s: Shared, s': Shared, r: Result<CertBundle, AppError>)
  {
    exists t: nat :: HandledAt(v, kind, req, fault, stop, s, t, s', r)
  }

  /** A bundle of call number `calls` carries that call's serial text. */
  lemma SerialOfCall(b: CertBundle, serviceName: string, calls: nat, t0: nat, t1: nat)
    requires Certifies(b, serviceName, calls, t0, t1)
    ensures b.serial == TextOf(calls)
  {
    SerialText.TextMeaning(SerialOf(calls));
    SerialText.SameNumber(b.serial, TextOf(calls));
  }

  lemma GrantIsLogged(v: Setup, req: UnsealRequest, calls: nat, b: CertBundle, stop: Option<nat>, now: nat,
                      writes: seq<Write>, writes': seq<Write>)
    requires b.serial == TextOf(calls)
    requires exists e ::
               && GrantOf(e, v.render, req.serviceName, req.machineId, b.serial, b.expiresAt, now)
               && Appended(v.codec, e, stop, writes, writes')
    ensures GrantLogged(v, req, calls, b, stop, now, writes, writes')
  {
    var e :|
      && GrantOf(e, v.render, req.serviceName, req.machineId, b.serial, b.expiresAt, now)
      && Appended(v.codec, e, stop, writes, writes');
    assert IsGrant(req, calls, e);
  }

  lemma RefusalIsLogged(v: Setup, req: UnsealRequest, reason: string, stop: Option<nat>, t: nat, now: nat,
                        writes: seq<Write>, writes': seq<Write>)
    requires exists e ::
               && RejectionOf(e, v.render, req.serviceName, req.machineId, reason, t, now)
               && Appended(v.codec, e, stop, writes, writes')
    ensures RefusalLogged(v, req, reason, stop, t, now, writes, writes')
  {
    var e :|
      && RejectionOf(e, v.render, req.serviceName, req.machineId, reason, t, now)
      && Appended(v.codec, e, stop, writes, writes');
    assert IsRefusal(req, reason, e);
  }

  // ----- handlers as runs of the machine

  /** The machine's state holds the shared state. */
  ghost predicate Holds(c: Codec, s: State, x: Shared)
    requires c.Faithful()
  {
    && s.now == x.now && s.store == x.store && s.history == x.history && s.tickets == x.calls
    && VaultLog.Writes(c, s.appends) == x.writes
  }

  /** The machine gets from `s` to `s'` by these steps. */
  ghost predicate Path(p: Policy, s: State, states: seq<State>, actions: seq<Action>, s': State)
  {
    && |states| == |actions| + 1 && states[0] == s && states[|actions|] == s'
    && forall i :: 0 <= i < |actions| ==> Step(p, states[i], actions[i], states[i + 1])
  }

  ghost predicate Reaches(p: Policy, s: State, s': State)
  {
    exists states, actions :: Path(p, s, states, actions, s')
  }

  lemma ReachesSelf(p: Policy, s: State)
    ensures Reaches(p, s, s)
  {
    assert Path(p, s, [s], [], s);
  }

  lemma ReachesStep(p: Policy, s: State, s1: State, a: Action, s2: State)
    requires Reaches(p, s, s1) && Step(p, s1, a, s2)
    ensures Reaches(p, s, s2)
  {
    var states, actions :| Path(p, s, states, actions, s1);
    var states', actions' := states + [s2], actions + [a];
    forall i | 0 <= i < |actions'|
      ensures Step(p, states'[i], actions'[i], states'[i + 1])
    {
      assert i < |actions| ==> states'[i] == states[i] && states'[i + 1] == states[i + 1];
    }
    assert Path(p, s, states', actions', s2);
  }

  /** Where the machine's handler stands once the reply `r` is sent; its ticket is `calls`. */
  function EndOf(kind: Kind, req: UnsealRequest, calls: nat, r: Result<CertBundle, AppError>): Handler
  {
    match r
    case Ok(_) => Granted(kind, req, calls)
    case Err(VaultRejected(reason)) => Denied(kind, req, reason)
    case Err(Internal(_)) => Errored(kind, req, calls)
  }

  /** Nothing but time passes. */
  lemma Wait(p: Policy, s: State, s1: State, t: nat)
    requires Reaches(p, s, s1) && s1.now <= t
    ensures Reaches(p, s, s1.(now := t))
  {
    ReachesStep(p, s, s1, Tick(t - s1.now), s1.(now := t));
  }

  lemma OneMoreWrite(c: Codec, appends: seq<Appending>, a: Appending)
    ensures VaultLog.Writes(c, appends + [a]) == VaultLog.Writes(c, appends) + [ToWrite(c, a)]
  {
  }

  /** A state that differs from `s` as a check at time `t` requires. */
  function Checked(p: Policy, s: State, id: nat, kind: Kind, req: UnsealRequest, t: nat): State
  {
    var verdict := VerdictOf(p, req, s.store, t);
    s.(now := t, store := StoreAfter(p, req, s.store), history := EventsAfter(p, req, s.history, t),
       handlers := s.handlers[id := Received(kind, req)][id := if verdict.Accepted? then Admitted(kind, req)
                                                               else Turned(kind, req, verdict.reason)],
       spent := if verdict.Accepted? then s.spent[id := |s.history|] else s.spent)
  }

  lemma CheckIsSteps(p: Policy, s: State, id: nat, kind: Kind, req: UnsealRequest, t: nat)
    requires id !in s.handlers && s.now <= t
    ensures Reaches(p, s, Checked(p, s, id, kind, req, t))
  {
    var received := s.(handlers := s.handlers[id := Received(kind, req)]);
    ReachesSelf(p, s);
    ReachesStep(p, s, s, Receive(id, kind, req), received);
    ReachesStep(p, s, received, Check(id, VerdictOf(p, req, s.store, t)), Checked(p, s, id, kind, req, t));
  }

  /** From a refusal to its reply. */
  lemma RefusalIsSteps(v: Setup, s: State, s1: State, id: nat, kind: Kind, req: UnsealRequest, reason: string,
                       stop: Option<nat>, t: nat, now: nat, writes': seq<Write>) returns (s': State)
    requires v.codec.Faithful() && Reaches(v.policy, s, s1) && s1.now == t <= now
    requires id in s1.handlers && s1.handlers[id] == Turned(kind, req, reason)
    requires var writes := VaultLog.Writes(v.codec, s1.appends);
             if kind == Unseal then RefusalLogged(v, req, reason, stop, t, now, writes, writes') else writes' == writes
    ensures Reaches(v.policy, s, s') && id in s'.handlers && s'.handlers[id] == Denied(kind, req, reason)
    ensures VaultLog.Writes(v.codec, s'.appends) == writes' && s'.now == now
    ensures s'.store == s1.store && s'.history == s1.history && s'.tickets == s1.tickets
  {
    var s2 := s1.(now := now);
    Wait(v.policy, s, s1, now);
    var handlers := s2.handlers[id := Denied(kind, req, reason)];
    if kind == Unseal {
      var e :|
        && RejectionOf(e, v.render, req.serviceName, req.machineId, reason, t, now) && IsRefusal(req, reason, e)
        && Appended(v.codec, e, stop, VaultLog.Writes(v.codec, s1.appends), writes');
      var append := Appending(e, stop);
      s' := s2.(handlers := handlers, appends := s2.appends + [append], writers := s2.writers + [id]);
      ReachesStep(v.policy, s, s2, LogRefusal(id, append), s');
      OneMoreWrite(v.codec, s2.appends, append);
    } else {
      s' := s2.(handlers := handlers);
      ReachesStep(v.policy, s, s2, Deny(id), s');
    }
  }

  /** From an admission to the reply. */
  lemma GrantIsSteps(v: Setup, s: State, s1: State, id: nat, kind: Kind, req: UnsealRequest, fault: Option<Fault>,
                     stop: Option<nat>, t: nat, now: nat, calls': nat, writes': seq<Write>,
                     r: Result<CertBundle, AppError>) returns (s': State)
    requires v.codec.Faithful() && Reaches(v.policy, s, s1) && s1.now == t <= now
    requires id in s1.handlers && s1.handlers[id] == Admitted(kind, req)
    requires GrantHandled(v, req, fault, stop, t, now, s1.tickets, calls',
                          VaultLog.Writes(v.codec, s1.appends), writes', r)
    ensures Reaches(v.policy, s, s') && id in s'.handlers && s'.handlers[id] == EndOf(kind, req, s1.tickets, r)
    ensures VaultLog.Writes(v.codec, s'.appends) == writes' && s'.now == now && s'.tickets == calls'
    ensures s'.store == s1.store && s'.history == s1.history
  {
    var calls := s1.tickets;
    var s2 := s1.(tickets := calls + 1, owners := s1.owners + [id],
                  handlers := s1.handlers[id := Allocated(kind, req, calls)]);
    ReachesStep(v.policy, s, s1, Allocate(id), s2);
    if fault.Some? {
      var s3 := s2.(handlers := s2.handlers[id := Errored(kind, req, calls)]);
      ReachesStep(v.policy, s, s2, SignFails(id), s3);
      Wait(v.policy, s, s3, now);
      s' := s3.(now := now);
    } else {
      var s3 := s2.(handlers := s2.handlers[id := Signed(kind, req, calls)]);
      ReachesStep(v.policy, s, s2, Sign(id), s3);
      Wait(v.policy, s, s3, now);
      var s4 := s3.(now := now);
      var e :|
        && GrantOf(e, v.render, req.serviceName, req.machineId, r.value.serial, r.value.expiresAt, now)
        && IsGrant(req, calls, e) && Appended(v.codec, e, stop, VaultLog.Writes(v.codec, s1.appends), writes');
      var append := Appending(e, stop);
      s' := s4.(appends := s4.appends + [append], writers := s4.writers + [id],
                handlers := s4.handlers[id := Granted(kind, req, calls)]);
      ReachesStep(v.policy, s, s4, LogGrant(id, append), s');
      OneMoreWrite(v.codec, s4.appends, append);
    }
  }

  /** Whatever a handler does when it runs to its end, the machine can do from any state that holds the
      same shared state, and it then holds what the handler left and stands where the reply was sent: what
      is proved of every run of the machine is true of the handlers. */
  lemma HandlerIsARun(v: Setup, s: State, id: nat, kind: Kind, req: UnsealRequest, fault: Option<Fault>,
                      stop: Option<nat>, x: Shared, x': Shared, r: Result<CertBundle, AppError>) returns (s': State)
    requires v.codec.Faithful() && Holds(v.codec, s, x) && id !in s.handlers
    requires Handled(v, kind, req, fault, stop, x, x', r)
    ensures Reaches(v.policy, s, s') && Holds(v.codec, s', x')
    ensures id in s'.handlers && s'.handlers[id] == EndOf(kind, req, x.calls, r)
  {
    var t: nat :| HandledAt(v, kind, req, fault, stop, x, t, x', r);
    var s1 := Checked(v.policy, s, id, kind, req, t);
    CheckIsSteps(v.policy, s, id, kind, req, t);
    match VerdictOf(v.policy, req, x.store, t)
    case Refused(reason) =>
      s' := RefusalIsSteps(v, s, s1, id, kind, req, reason, stop, t, x'.now, x'.writes);
    case Accepted =>
      s' := GrantIsSteps(v, s, s1, id, kind, req, fault, stop, t, x'.now, x'.calls, x'.writes, r);
  }

  /** The same for the handler that sends a nonce. */
  lemma NonceIsARun(p: Policy, c: Codec, s: State, id: nat, nonce: Nonce, x: Shared, x': Shared) returns (s': State)
    requires c.Faithful() && Holds(c, s, x) && id !in s.handlers && |nonce| == 32
    requires RegisterRel(x.store, nonce, x.now, x'.now, x'.store)
    requires x'.history == x.history + [Registered(nonce, x'.now)] && x'.calls == x.calls && x'.writes == x.writes
    ensures Reaches(p, s, s') && Holds(c, s', x') && id in s'.handlers && s'.handlers[id] == NonceSent(nonce)
  {
    var drawn := s.(handlers := s.handlers[id := Drawn(nonce)]);
    s' := drawn.(now := x'.now, store := x'.store, swept := s.now, history := x'.history,
                 handlers := drawn.handlers[id := NonceSent(nonce)]);
    ReachesSelf(p, s);
    ReachesStep(p, s, s, Draw(id, nonce), drawn);
    ReachesStep(p, s, drawn, Register(id), s');
  }
}
