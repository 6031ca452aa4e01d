/**
  Nonces over whole runs of the vault: the store always answers as the history of nonce events
  does, every admitted request spent a registration of its own that was less than 30 seconds old,
  and so no more certificates are issued than nonces were registered.
 */
module VaultNonces {
  import opened Prelude
  import opened Nonces
  import opened Attestation
  import opened VaultProtocol
  import opened Counting
  import Hex

  // ----- the registration behind a successful consumption

  /** The index of the latest event about `n`, when that is a registration. */
  function LatestIndex(h: History, n: Nonce): (r: nat)
    requires Outstanding(h, n).Some?
    ensures r < |h| && h[r] == Registered(n, Outstanding(h, n).value)
    ensures forall i :: r < i < |h| ==> h[i].nonce != n
  {
    if h[|h| - 1].nonce == n then |h| - 1 else LatestIndex(h[..|h| - 1], n)
  }

  /** Event `i` consumed a nonce that was outstanding and inside its window. */
  ghost predicate Spends(h: History, i: nat)
  {
    i < |h| && h[i].Consumed? && Live(h[..i], h[i].nonce, h[i].at)
  }

  /** The registration that event `i` spent. */
  ghost function Source(h: History, i: nat): nat
    requires Spends(h, i)
  {
    LatestIndex(h[..i], h[i].nonce)
  }

  lemma SourceMeaning(h: History, i: nat)
    requires Spends(h, i)
    ensures var r := Source(h, i);
            && r < i && h[r].Registered? && h[r].nonce == h[i].nonce
            && h[i].at - h[r].at < WINDOW_MS
            && forall k :: r < k < i ==> h[k].nonce != h[i].nonce
  {
    var r := Source(h, i);
    forall k | r < k < i
      ensures h[k].nonce != h[i].nonce
    {
      assert h[..i][k] == h[k];
    }
  }

  /** One registration is spent at most once. */
  lemma SourcesDiffer(h: History, i: nat, j: nat)
    requires Spends(h, i) && Spends(h, j) && i != j
    ensures Source(h, i) != Source(h, j)
  {
    SourceMeaning(h, i);
    SourceMeaning(h, j);
  }

  lemma SpendsGrows(h: History, e: Event, i: nat)
    requires i < |h|
    ensures Spends(h + [e], i) <==> Spends(h, i)
  {
    assert (h + [e])[..i] == h[..i];
  }

  // ----- what every step keeps

  /** The store answers as the history does, and pruning keeps it inside the window. */
  ghost predicate StoreInv(s: State)
  {
    && Refines(s.store, s.history, s.now)
    && s.swept <= s.now
    && (forall n :: n in s.store ==> s.swept - s.store[n] < WINDOW_MS)
  }

  /** The handler got past `verify`. */
  predicate Passed(h: Handler)
  {
    h.Admitted? || h.Allocated? || h.Signed? || h.Granted? || h.Errored?
  }

  /** The handler holds or has returned a bundle. */
  predicate HasBundle(h: Handler)
  {
    h.Signed? || h.Granted?
  }

  /** The request of a handler that got past `verify`. */
  function Standing(s: State, id: nat): Option<UnsealRequest>
  {
    if id in s.handlers && Passed(s.handlers[id]) then Some(s.handlers[id].req) else None
  }

  ghost predicate SpentInv(p: Policy, s: State)
  {
    && (forall id: nat :: id in s.spent <==> Standing(s, id).Some?)
    && EachSpends(p, s) && NoneShares(s.spent)
  }

  ghost predicate EachSpends(p: Policy, s: State)
  {
    forall id :: id in s.spent ==> SpentBy(p, s, id)
  }

  /** No two handlers spent their nonces with the same event. */
  ghost predicate NoneShares(spent: map<nat, nat>)
  {
    forall i, j :: i in spent && j in spent && spent[i] == spent[j] ==> i == j
  }

  ghost predicate SpentBy(p: Policy, s: State, id: nat)
    requires id in s.spent
  {
    && Standing(s, id).Some?
    && Spends(s.history, s.spent[id])
    && Presented(p, Standing(s, id).value) == Some(s.history[s.spent[id]].nonce)
    && QuoteHolds(p, Standing(s, id).value, s.history[s.spent[id]].nonce)
  }

  lemma StepKeepsStore(p: Policy, s: State, a: Action, s': State)
    requires StoreInv(s) && Step(p, s, a, s')
    ensures StoreInv(s')
  {
    match a
    case Register(id) =>
      RegisterRefines(s.store, s.history, s.handlers[id].nonce, s.now, s'.now, s'.store);
    case Check(id, verdict) =>
      AcceptedExactlyWhen(p, s.handlers[id].req, s.store, s.history, s.now, s'.store, s'.now, verdict);
    case _ =>
  }

  /** The same handlers are past `verify`, with the same requests and nonce events. */
  ghost predicate SameStanding(s: State, s': State)
  {
    s'.spent == s.spent && forall id: nat :: Standing(s', id) == Standing(s, id)
  }

  lemma MoverKeepsStanding(p: Policy, s: State, a: Action, s': State)
    requires Step(p, s, a, s') && !(a.Check? && a.verdict.Accepted?)
    ensures s'.spent == s.spent
    ensures !a.Tick? ==> Standing(s', a.id) == Standing(s, a.id)
  {
  }

  lemma OthersKeepStanding(p: Policy, s: State, a: Action, s': State)
    requires Step(p, s, a, s') && !(a.Check? && a.verdict.Accepted?)
    ensures SameStanding(s, s')
  {
    OneMoves(p, s, a, s');
    MoverKeepsStanding(p, s, a, s');
  }

  lemma HistoryGrows(p: Policy, s: State, a: Action, s': State)
    requires Step(p, s, a, s')
    ensures s'.history == s.history || exists e :: s'.history == s.history + [e]
  {
  }

  lemma StandingKeepsSpent(p: Policy, s: State, s': State)
    requires SpentInv(p, s) && SameStanding(s, s')
    requires s'.history == s.history || exists e :: s'.history == s.history + [e]
    ensures SpentInv(p, s')
  {
    forall id | id in s'.spent
      ensures SpentBy(p, s', id)
    {
      assert SpentBy(p, s, id);
      if s'.history != s.history {
        var e :| s'.history == s.history + [e];
        SpendsGrows(s.history, e, s.spent[id]);
      }
    }
  }

  lemma OldSpend(p: Policy, s: State, other: nat, id: nat, e: Event, s': State)
    requires other in s.spent && SpentBy(p, s, other) && other != id
    requires s'.history == s.history + [e] && s'.spent == s.spent[id := |s.history|]
    requires Standing(s', other) == Standing(s, other)
    ensures s.spent[other] < |s.history| && SpentBy(p, s', other)
  {
    SpendsGrows(s.history, e, s.spent[other]);
  }

  lemma NewSpendIsOwn(spent: map<nat, nat>, id: nat, at: nat)
    requires NoneShares(spent) && forall other :: other in spent ==> spent[other] < at
    ensures NoneShares(spent[id := at])
  {
  }

  lemma NewSpendBy(p: Policy, s: State, id: nat, req: UnsealRequest, e: Event, s': State)
    requires s'.history == s.history + [e] && s'.spent == s.spent[id := |s.history|]
    requires Standing(s', id) == Some(req)
    requires e.Consumed? && Live(s.history, e.nonce, e.at)
    requires Presented(p, req) == Some(e.nonce) && QuoteHolds(p, req, e.nonce)
    ensures id in s'.spent && SpentBy(p, s', id)
  {
    assert s'.history[..|s.history|] == s.history;
  }

  /** A handler gets past `verify` with an event that spends a registration. */
  lemma NewSpend(p: Policy, s: State, id: nat, req: UnsealRequest, e: Event, s': State)
    requires SpentInv(p, s) && Standing(s, id) == None
    requires s'.history == s.history + [e] && s'.spent == s.spent[id := |s.history|]
    requires Standing(s', id) == Some(req)
    requires forall other: nat :: other != id ==> Standing(s', other) == Standing(s, other)
    requires e.Consumed? && Live(s.history, e.nonce, e.at)
    requires Presented(p, req) == Some(e.nonce) && QuoteHolds(p, req, e.nonce)
    ensures SpentInv(p, s')
  {
    NewSpendBy(p, s, id, req, e, s');
    SpendsStand(p, s, id, e, s');
    NewSpendIsOwn(s.spent, id, |s.history|);
  }

  lemma SpendsStand(p: Policy, s: State, id: nat, e: Event, s': State)
    requires EachSpends(p, s) && id !in s.spent
    requires s'.history == s.history + [e] && s'.spent == s.spent[id := |s.history|] && SpentBy(p, s', id)
    requires forall other: nat :: other != id ==> Standing(s', other) == Standing(s, other)
    ensures EachSpends(p, s') && forall other :: other in s.spent ==> s.spent[other] < |s.history|
  {
    forall other | other in s.spent
      ensures s.spent[other] < |s.history| && SpentBy(p, s', other)
    {
      OldSpend(p, s, other, id, e, s');
    }
  }

  lemma AcceptMoves(p: Policy, s: State, id: nat, s': State)
    requires Step(p, s, Check(id, Accepted), s')
    ensures Standing(s, id) == None && Standing(s', id) == Some(s.handlers[id].req)
    ensures forall other: nat :: other != id ==> Standing(s', other) == Standing(s, other)
  {
  }

  lemma AcceptKeepsSpent(p: Policy, s: State, id: nat, s': State)
    requires StoreInv(s) && SpentInv(p, s) && Step(p, s, Check(id, Accepted), s')
    ensures SpentInv(p, s')
  {
    var req := s.handlers[id].req;
    AcceptMoves(p, s, id, s');
    AcceptedExactlyWhen(p, req, s.store, s.history, s.now, s'.store, s'.now, Accepted);
    NewSpend(p, s, id, req, Consumed(Presented(p, req).value, s'.now), s');
  }

  lemma StepKeepsSpent(p: Policy, s: State, a: Action, s': State)
    requires StoreInv(s) && SpentInv(p, s) && Step(p, s, a, s')
    ensures SpentInv(p, s')
  {
    if a.Check? && a.verdict.Accepted? {
      AcceptKeepsSpent(p, s, a.id, s');
    } else {
      OthersKeepStanding(p, s, a, s');
      HistoryGrows(p, s, a, s');
      StandingKeepsSpent(p, s, s');
    }
  }

  lemma {:induction false} RunKeeps(p: Policy, states: seq<State>, actions: seq<Action>, k: nat)
    requires Run(p, states, actions) && k < |states|
    ensures StoreInv(states[k]) && SpentInv(p, states[k])
  {
    if k > 0 {
      RunKeeps(p, states, actions, k - 1);
      StepKeepsStore(p, states[k - 1], actions[k - 1], states[k]);
      StepKeepsSpent(p, states[k - 1], actions[k - 1], states[k]);
    }
  }

  // ----- the theorems about runs

  /** In every reachable state the vault accepts a request exactly when the event history says so:
      pruning and the passing of time inside the critical sections are never visible. */
  lemma ChecksFollowHistory(p: Policy, states: seq<State>, actions: seq<Action>, k: nat,
                            id: nat, kind: Kind, req: UnsealRequest)
    requires Run(p, states, actions) && k < |actions| && actions[k].Check? && actions[k].id == id
    requires id in states[k].handlers && states[k].handlers[id] == Received(kind, req)
    ensures actions[k].verdict.Accepted? <==>
              && Presented(p, req).Some?
              && Live(states[k].history, Presented(p, req).value, states[k + 1].now)
              && QuoteHolds(p, req, Presented(p, req).value)
  {
    RunKeeps(p, states, actions, k);
    var s, s' := states[k], states[k + 1];
    assert Step(p, s, actions[k], s');
    AcceptedExactlyWhen(p, req, s.store, s.history, s.now, s'.store, s'.now, actions[k].verdict);
  }

  /** The registration that an admitted handler spent. */
  ghost function RegistrationOf(s: State, id: nat): nat
    requires id in s.spent && Spends(s.history, s.spent[id])
  {
    Source(s.history, s.spent[id])
  }

  ghost predicate HasOwnRegistration(p: Policy, s: State, id: nat)
  {
    && id in s.spent && id in s.handlers && Passed(s.handlers[id])
    && Spends(s.history, s.spent[id])
    && var r := RegistrationOf(s, id);
    && r < s.spent[id] < |s.history| && s.history[r].Registered?
    && Presented(p, s.handlers[id].req) == Some(s.history[r].nonce)
    && s.history[s.spent[id]].at - s.history[r].at < 30_000
  }

  /** In every reachable state, each handler past `verify` spent a registration of the bytes it
      presented, less than 30 seconds old when spent, and no two handlers spent the same one,
      whichever endpoint they used and however their nonce texts were spelled. */
  lemma OwnRegistrations(p: Policy, states: seq<State>, actions: seq<Action>, k: nat)
    requires Run(p, states, actions) && k < |states|
    ensures var s := states[k];
            && (forall id :: id in s.handlers && Passed(s.handlers[id]) ==> HasOwnRegistration(p, s, id))
            && (forall i, j :: i != j && HasOwnRegistration(p, s, i) && HasOwnRegistration(p, s, j) ==>
                  RegistrationOf(s, i) != RegistrationOf(s, j))
  {
    var s := states[k];
    RunKeeps(p, states, actions, k);
    forall id | id in s.handlers && Passed(s.handlers[id])
      ensures HasOwnRegistration(p, s, id)
    {
      assert Standing(s, id) == Some(s.handlers[id].req);
      assert SpentBy(p, s, id);
      SourceMeaning(s.history, s.spent[id]);
    }
    forall i, j | i != j && HasOwnRegistration(p, s, i) && HasOwnRegistration(p, s, j)
      ensures RegistrationOf(s, i) != RegistrationOf(s, j)
    {
      SourcesDiffer(s.history, s.spent[i], s.spent[j]);
    }
  }

  /** The registrations of `n` so far. */
  function RegistrationsOf(h: History, n: Nonce): set<nat>
  {
    set i: nat | i < |h| && h[i].Registered? && h[i].nonce == n
  }

  function AllRegistrations(h: History): set<nat>
  {
    set i: nat | i < |h| && h[i].Registered?
  }

  /** The handlers past `verify` whose nonce texts decode to `n`. */
  function AdmittedWith(s: State, n: Nonce): set<nat>
  {
    set id | id in s.handlers && Passed(s.handlers[id]) && Hex.Decode(s.handlers[id].req.nonce) == Some(n)
  }

  function WithBundle(s: State): set<nat>
  {
    set id | id in s.handlers && HasBundle(s.handlers[id])
  }

  /** Single use, per byte string: over any run, at most as many requests naming the same bytes are
      admitted as those bytes were registered, and no more certificates exist than registrations. */
  lemma NoMoreThanRegistered(p: Policy, states: seq<State>, actions: seq<Action>, k: nat, n: Nonce)
    requires Run(p, states, actions) && k < |states|
    ensures |AdmittedWith(states[k], n)| <= |RegistrationsOf(states[k].history, n)|
    ensures |WithBundle(states[k])| <= |AllRegistrations(states[k].history)|
  {
    var s := states[k];
    OwnRegistrations(p, states, actions, k);
    var f := (id: nat) => if id in s.spent && Spends(s.history, s.spent[id]) then RegistrationOf(s, id) else 0;
    forall id | id in AdmittedWith(s, n)
      ensures f(id) in RegistrationsOf(s.history, n)
    {
      assert HasOwnRegistration(p, s, id);
    }
    forall id | id in WithBundle(s)
      ensures f(id) in AllRegistrations(s.history)
    {
      assert HasOwnRegistration(p, s, id);
    }
    InjectionBounds(f, AdmittedWith(s, n), RegistrationsOf(s.history, n));
    InjectionBounds(f, WithBundle(s), AllRegistrations(s.history));
  }

  /** The nonce map never holds more than the registrations made since shortly before the last
      pruning began, and only registering can make it larger. */
  lemma StoreBounded(p: Policy, states: seq<State>, actions: seq<Action>, k: nat)
    requires Run(p, states, actions) && k < |states|
    ensures Bounded(states[k].store, states[k].history, states[k].swept)
    ensures k < |actions| && !actions[k].Register? ==> states[k + 1].store.Keys <= states[k].store.Keys
  {
    var s := states[k];
    RunKeeps(p, states, actions, k);
    OutstandingCount(s.history, s.swept - WINDOW_MS, s.store.Keys);
    assert |s.store| == |s.store.Keys|;
    if k < |actions| && !actions[k].Register? {
      assert Step(p, s, actions[k], states[k + 1]);
    }
  }
}
