/**
  Two runs in which the log does not record what the documentation promises: a grant that is lost
  although its own append completed, and a refusal that is never appended.
 */
module LogFailures {
  import opened Prelude
  import opened Nonces
  import opened Attestation
  import opened Issuance
  import opened LogEntries
  import opened Framing
  import opened IssuanceLogs
  import opened VaultProtocol
  import opened VaultLog
  import opened VaultSerials
  import Hex

  /** The development allowlist, and some hash function. */
  const DEV := Policy(["dev"], (n: Nonce) => [])

  /** A request with no quote. */
  function Asks(nonce: string): UnsealRequest
  {
    UnsealRequest("user-service", "m1", "", nonce, "")
  }

  const REFUSAL := LogEntry("t0", "user-service", "m1", "", "t0", false, Some(NO_NONCE))

  function Grant(ticket: nat): LogEntry
  {
    LogEntry("t1", "user-service", "m1", TextOf(ticket), "t2", true, None)
  }

  predicate NoGrants(actions: seq<Action>)
  {
    forall j :: 0 <= j < |actions| ==> !actions[j].LogGrant?
  }

  lemma Extend(p: Policy, states: seq<State>, actions: seq<Action>, a: Action, s': State)
    returns (states': seq<State>, actions': seq<Action>)
    requires Run(p, states, actions) && Step(p, states[|actions|], a, s')
    ensures Run(p, states', actions') && |actions'| == |actions| + 1 && states'[|actions'|] == s'
    ensures actions' == actions + [a]
    ensures NoGrants(actions) && !a.LogGrant? ==> NoGrants(actions')
  {
    states', actions' := states + [s'], actions + [a];
  }

  /** The vault refuses a request without a nonce. */
  lemma Refuse(kind: Kind) returns (states: seq<State>, actions: seq<Action>)
    ensures Run(DEV, states, actions) && |actions| == 2 && NoGrants(actions)
    ensures states[2] == INIT.(handlers := map[0 := Turned(kind, Asks(""), NO_NONCE)])
  {
    var req := Asks("");
    var received := INIT.(handlers := map[0 := Received(kind, req)]);
    var turned := INIT.(handlers := map[0 := Turned(kind, req, NO_NONCE)]);
    assert DEV.Allows(req.machineId) && Presented(DEV, req) == None;
    assert received.handlers[0 := Turned(kind, req, NO_NONCE)] == turned.handlers;
    states, actions := Extend(DEV, [INIT], [], Receive(0, kind, req), received);
    states, actions := Extend(DEV, states, actions, Check(0, Refused(NO_NONCE)), turned);
  }

  /** A refused renewal: nothing is ever appended for it. */
  lemma RefusedRenewalIsNotLogged() returns (states: seq<State>, actions: seq<Action>)
    ensures Run(DEV, states, actions)
    ensures var s := states[|actions|];
            0 in s.handlers && s.handlers[0] == Denied(Renew, Asks(""), NO_NONCE) && s.appends == []
  {
    states, actions := Refuse(Renew);
    var denied := INIT.(handlers := map[0 := Denied(Renew, Asks(""), NO_NONCE)]);
    assert states[2].handlers[0 := Denied(Renew, Asks(""), NO_NONCE)] == denied.handlers;
    states, actions := Extend(DEV, states, actions, Deny(0), denied);
  }

  /** A nonce is drawn and registered. */
  lemma Offer(states: seq<State>, actions: seq<Action>, n: Nonce)
    returns (states': seq<State>, actions': seq<Action>)
    requires Run(DEV, states, actions) && |n| == 32
    requires var s := states[|actions|]; s.now == 0 && s.store == map[] && s.history == [] && 2 !in s.handlers
    ensures Run(DEV, states', actions') && (NoGrants(actions) ==> NoGrants(actions'))
    ensures var s := states[|actions|];
            states'[|actions'|] == s.(store := map[n := 0], history := [Registered(n, 0)], swept := 0,
                                      handlers := s.handlers[2 := NonceSent(n)])
  {
    var s0 := states[|actions|];
    var s1 := s0.(handlers := s0.handlers[2 := Drawn(n)]);
    var s2 := s0.(store := map[n := 0], history := [Registered(n, 0)], swept := 0,
                  handlers := s0.handlers[2 := NonceSent(n)]);
    assert s1.handlers[2 := NonceSent(n)] == s2.handlers;
    assert RegisterRel(map[], n, 0, 0, map[n := 0]);
    states', actions' := Extend(DEV, states, actions, Draw(2, n), s1);
    states', actions' := Extend(DEV, states', actions', Register(2), s2);
  }

  /** A renewal with that nonce passes the check. */
  lemma Admit(states: seq<State>, actions: seq<Action>, n: Nonce)
    returns (states': seq<State>, actions': seq<Action>)
    requires Run(DEV, states, actions) && |n| == 32
    requires var s := states[|actions|];
             s.now == 0 && s.store == map[n := 0] && s.history == [Registered(n, 0)] && 1 !in s.handlers
    ensures Run(DEV, states', actions') && (NoGrants(actions) ==> NoGrants(actions'))
    ensures var s, s' := states[|actions|], states'[|actions'|];
            && 1 in s'.handlers && s'.handlers[1] == Admitted(Renew, Asks(Hex.Encode(n)))
            && s'.appends == s.appends && s'.writers == s.writers && s'.tickets == s.tickets
  {
    var req := Asks(Hex.Encode(n));
    var s0 := states[|actions|];
    var s1 := s0.(handlers := s0.handlers[1 := Received(Renew, req)]);
    var s2 := s1.(store := map[], history := [Registered(n, 0), Consumed(n, 0)],
                  handlers := s1.handlers[1 := Admitted(Renew, req)], spent := s1.spent[1 := 1]);
    FreshIsAccepted(n);
    states', actions' := Extend(DEV, states, actions, Receive(1, Renew, req), s1);
    states', actions' := Extend(DEV, states', actions', Check(1, Accepted), s2);
  }

  lemma FreshIsAccepted(n: Nonce)
    requires |n| == 32
    ensures var req := Asks(Hex.Encode(n));
            && VerifyRel(DEV, req, map[n := 0], 0, map[], 0, Accepted)
            && EventsAfter(DEV, req, [Registered(n, 0)], 0) == [Registered(n, 0), Consumed(n, 0)]
  {
    Hex.DecodeEncode(n);
    Hex.EncodeIsLower(n);
    assert DEV.machineIds[0] == "dev";
    AcceptsFresh(DEV, Asks(Hex.Encode(n)), n);
  }

  lemma AcceptsFresh(p: Policy, req: UnsealRequest, n: Nonce)
    requires p.Listed(req.machineId) && req.nonce != "" && Hex.Decode(req.nonce) == Some(n) && req.tpmQuote == ""
    ensures VerifyRel(p, req, map[n := 0], 0, map[], 0, Accepted)
    ensures EventsAfter(p, req, [Registered(n, 0)], 0) == [Registered(n, 0), Consumed(n, 0)]
  {
    assert map[n := 0] - {n} == map[];
  }

  /** An admitted renewal gets its bundle, and its entry is appended in full. */
  lemma Issue(states: seq<State>, actions: seq<Action>, req: UnsealRequest)
    returns (states': seq<State>, actions': seq<Action>)
    requires Run(DEV, states, actions) && req.serviceName == "user-service" && req.machineId == "m1"
    requires 1 in states[|actions|].handlers && states[|actions|].handlers[1] == Admitted(Renew, req)
    ensures Run(DEV, states', actions') && |actions'| > 0
    ensures NoGrants(actions) ==> NoGrants(actions'[..|actions'| - 1])
    ensures var s, s' := states[|actions|], states'[|actions'|];
            && 1 in s'.handlers && s'.handlers[1] == Granted(Renew, req, s.tickets)
            && s'.appends == s.appends + [Appending(Grant(s.tickets), None)]
            && actions'[|actions'| - 1] == LogGrant(1, Appending(Grant(s.tickets), None))
            && s'.tickets == s.tickets + 1
  {
    var s0 := states[|actions|];
    var append := Appending(Grant(s0.tickets), None);
    var s1 := s0.(tickets := s0.tickets + 1, owners := s0.owners + [1],
                  handlers := s0.handlers[1 := Allocated(Renew, req, s0.tickets)]);
    var s2 := s1.(handlers := s1.handlers[1 := Signed(Renew, req, s0.tickets)]);
    var s3 := s2.(appends := s2.appends + [append], writers := s2.writers + [1],
                  handlers := s2.handlers[1 := Granted(Renew, req, s0.tickets)]);
    states', actions' := Extend(DEV, states, actions, Allocate(1), s1);
    states', actions' := Extend(DEV, states', actions', Sign(1), s2);
    ghost var before := actions';
    states', actions' := Extend(DEV, states', actions', LogGrant(1, append), s3);
    assert actions'[..|actions'| - 1] == before;
  }

  lemma EncodingsAreNotEmpty(c: Codec, e: LogEntry)
    requires c.Faithful()
    ensures c.encode(e) != ""
  {
    var other := e.(granted := !e.granted);
    assert c.decode(c.encode(e)) == Some(e) && c.decode(c.encode(other)) == Some(other);
    var whole := c.encode(other) + c.encode(e);
    assert c.encode(other) != "" ==> c.decode(whole) == None;
    assert c.encode(e) == "" ==> whole == c.encode(other);
  }

  lemma NothingFound(c: Codec, initial: string, s: State, torn: LogEntry, next: LogEntry)
    requires c.Faithful() && s.appends == [Appending(torn, Some(1)), Appending(next, None)]
    ensures forall e :: Some(e) !in Entries(c, initial, s)
  {
    EncodingsAreNotEmpty(c, torn);
    var ws := Writes(c, s.appends[..1]);
    assert StopsInside(ws[0]) && |ws| == 1;
    assert MidLine(initial, ws);
    forall n | 0 <= n < |Entries(c, initial, s)|
      ensures Entries(c, initial, s)[n].None?
    {
      if Entries(c, initial, s)[n].Some? {
        var i := FoundIsAppended(c, initial, s, n);
        ReadsBackExactlyWhenClean(c, initial, s, i);
      }
    }
  }

  lemma OnlyOneLost(c: Codec, initial: string, s: State)
    requires c.Faithful() && OwnersInv(s) && AppendsInv(s) && s.tickets == 1
    requires 1 in s.handlers && s.handlers[1].Granted? && s.handlers[1].ticket == 0
    requires forall e :: Some(e) !in Entries(c, initial, s)
    ensures Lost(c, initial, s) == {0}
  {
    HoldersOwn(s);
    assert !InLog(c, initial, s, 1) by {
      if InLog(c, initial, s, 1) {
        LoggedIsInFile(c, initial, s, 1);
      }
    }
    assert 0 in Lost(c, initial, s);
  }

  /** The refusal of a request is appended up to its first character. */
  lemma TornRefusal() returns (states: seq<State>, actions: seq<Action>)
    ensures Run(DEV, states, actions) && |actions| == 3 && NoGrants(actions)
    ensures states[3] == INIT.(handlers := map[0 := Denied(Unseal, Asks(""), NO_NONCE)],
                               appends := [Appending(REFUSAL, Some(1))], writers := [0])
  {
    var torn := Appending(REFUSAL, Some(1));
    var denied := Denied(Unseal, Asks(""), NO_NONCE);
    states, actions := Refuse(Unseal);
    assert states[2].handlers[0 := denied] == map[0 := denied];
    states, actions := Extend(DEV, states, actions, LogRefusal(0, torn),
                              INIT.(handlers := map[0 := denied], appends := [torn], writers := [0]));
  }

  /** A grant follows, appended in full. */
  lemma ThenGrant() returns (states: seq<State>, actions: seq<Action>)
    ensures Run(DEV, states, actions)
    ensures forall j :: 0 <= j < |actions| && actions[j].LogGrant? ==> actions[j].append.stop.None?
    ensures var s := states[|actions|];
            && s.tickets == 1 && 1 in s.handlers && s.handlers[1].Granted? && s.handlers[1].ticket == 0
            && s.appends == [Appending(REFUSAL, Some(1)), Appending(Grant(0), None)]
  {
    var n: Nonce := seq(32, _ => 0);
    var early, first := TornRefusal();
    var offered, second := Offer(early, first, n);
    var admitted, third := Admit(offered, second, n);
    states, actions := Issue(admitted, third, Asks(Hex.Encode(n)));
    var all := |actions| - 1;
    assert forall j :: 0 <= j < all ==> actions[j] == actions[..all][j];
  }

  /** A refusal whose append stops after one character loses the grant appended next: the append of
      the grant completes and the bundle is returned, but a reader finds nothing in the file. */
  lemma TornRefusalLosesGrant(c: Codec, initial: string) returns (states: seq<State>, actions: seq<Action>)
    requires c.Faithful()
    ensures Run(DEV, states, actions)
    ensures forall j :: 0 <= j < |actions| && actions[j].LogGrant? ==> actions[j].append.stop.None?
    ensures var s := states[|actions|];
            && s.tickets == 1 && 1 in s.handlers && s.handlers[1].Granted?
            && (forall e :: Some(e) !in Entries(c, initial, s))
            && Lost(c, initial, s) == {0}
  {
    states, actions := ThenGrant();
    var s := states[|actions|];
    RunKeepsAppends(DEV, states, actions, |actions|);
    RunKeepsOwners(DEV, states, actions, |actions|);
    NothingFound(c, initial, s, REFUSAL, Grant(0));
    OnlyOneLost(c, initial, s);
  }
}
