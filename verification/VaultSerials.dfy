/**
  Conservation of serials over whole runs of the vault: every ticket taken from the counter is in
  exactly one place, one of them being the log as a reader finds it in its file. A returned bundle is
  missing there exactly when its own append, or an unfinished line before it, went wrong.
 */
module VaultSerials {
  import opened Prelude
  import opened Attestation
  import opened Issuance
  import opened LogEntries
  import opened Framing
  import opened IssuanceLogs
  import opened VaultProtocol
  import opened VaultLog
  import opened Counting

  predicate HasTicket(h: Handler)
  {
    h.Allocated? || h.Signed? || h.Granted? || h.Errored?
  }

  function TicketOf(s: State, id: nat): Option<nat>
  {
    if id in s.handlers && HasTicket(s.handlers[id]) then Some(s.handlers[id].ticket) else None
  }

  /** Tickets and the handlers that took them correspond one to one. */
  ghost predicate OwnersInv(s: State)
  {
    && |s.owners| == s.tickets
    && (forall k :: 0 <= k < s.tickets ==> TicketOf(s, s.owners[k]) == Some(k))
    && (forall id: nat :: TicketOf(s, id).Some? ==>
          TicketOf(s, id).value < s.tickets && s.owners[TicketOf(s, id).value] == id)
  }

  // ----- what every step keeps

  /** The same handlers hold the same tickets. */
  ghost predicate SameTickets(s: State, s': State)
  {
    && s'.owners == s.owners && s'.tickets == s.tickets
    && forall id: nat :: TicketOf(s', id) == TicketOf(s, id)
  }

  lemma MoverKeepsTicket(p: Policy, s: State, a: Action, s': State)
    requires Step(p, s, a, s') && !a.Allocate?
    ensures s'.owners == s.owners && s'.tickets == s.tickets
    ensures !a.Tick? ==> TicketOf(s', a.id) == TicketOf(s, a.id)
  {
  }

  lemma OthersKeepTickets(p: Policy, s: State, a: Action, s': State)
    requires Step(p, s, a, s') && !a.Allocate?
    ensures SameTickets(s, s')
  {
    OneMoves(p, s, a, s');
    MoverKeepsTicket(p, s, a, s');
  }

  lemma StepKeepsOwners(p: Policy, s: State, a: Action, s': State)
    requires OwnersInv(s) && Step(p, s, a, s')
    ensures OwnersInv(s')
  {
    if a.Allocate? {
      assert forall id: nat :: TicketOf(s', id) == if id == a.id then Some(s.tickets) else TicketOf(s, id);
      assert forall k :: 0 <= k < s.tickets ==> s'.owners[k] == s.owners[k];
    } else {
      OthersKeepTickets(p, s, a, s');
    }
  }

  lemma {:induction false} RunKeepsOwners(p: Policy, states: seq<State>, actions: seq<Action>, k: nat)
    requires Run(p, states, actions) && k < |states|
    ensures OwnersInv(states[k])
  {
    if k > 0 {
      RunKeepsOwners(p, states, actions, k - 1);
      StepAt(p, states, actions, k - 1);
      StepKeepsOwners(p, states[k - 1], actions[k - 1], states[k]);
    }
  }

  lemma HoldersOwn(s: State)
    requires OwnersInv(s)
    ensures forall id :: id in s.handlers && HasTicket(s.handlers[id]) ==>
              s.handlers[id].ticket < s.tickets && s.owners[s.handlers[id].ticket] == id
  {
    forall id | id in s.handlers && HasTicket(s.handlers[id])
      ensures s.handlers[id].ticket < s.tickets && s.owners[s.handlers[id].ticket] == id
    {
      assert TicketOf(s, id).Some?;
    }
  }

  // ----- the grants that a reader finds

  /** Entry `e` is that of a grant of the serial of `ticket`. */
  predicate Names(e: LogEntry, ticket: nat)
  {
    e.granted && e.certSerial == TextOf(ticket)
  }

  /** A reader of the file finds a grant of the serial of `ticket` among the lines added. */
  ghost predicate InFile(c: Codec, initial: string, s: State, ticket: nat)
    requires c.Faithful()
  {
    exists e :: Some(e) in Entries(c, initial, s) && Names(e, ticket)
  }

  lemma LoggedIsInFile(c: Codec, initial: string, s: State, id: nat)
    requires c.Faithful() && AppendsInv(s)
    requires id in s.handlers && s.handlers[id].Granted? && InLog(c, initial, s, id)
    ensures InFile(c, initial, s, s.handlers[id].ticket)
  {
    var i :| 0 <= i < |s.appends| && i < |s.writers| && s.writers[i] == id && ReadsBack(c, initial, s, i);
    assert WrittenBy(s, i);
    assert Some(s.appends[i].entry) in Entries(c, initial, s) && Names(s.appends[i].entry, s.handlers[id].ticket);
  }

  /** A grant that a reader finds is that of a handler whose own append reads back. */
  lemma GranteeOf(c: Codec, initial: string, s: State, n: nat) returns (id: nat)
    requires c.Faithful() && AppendsInv(s) && n < |Entries(c, initial, s)|
    requires Entries(c, initial, s)[n].Some? && Entries(c, initial, s)[n].value.granted
    ensures id in s.handlers && s.handlers[id].Granted? && InLog(c, initial, s, id)
    ensures Names(Entries(c, initial, s)[n].value, s.handlers[id].ticket)
    ensures exists i :: 0 <= i < |s.appends| && i < |s.writers| && s.writers[i] == id
                        && OwnLine(Writes(c, s.appends), i) == n
  {
    var i := FoundIsAppended(c, initial, s, n);
    id := s.writers[i];
    assert WrittenBy(s, i);
  }

  lemma InFileIsLogged(c: Codec, initial: string, s: State, id: nat)
    requires c.Faithful() && AppendsInv(s) && OwnersInv(s) && s.tickets <= U64_RANGE
    requires id in s.handlers && HasTicket(s.handlers[id]) && InFile(c, initial, s, s.handlers[id].ticket)
    ensures s.handlers[id].Granted? && InLog(c, initial, s, id)
  {
    var ticket := s.handlers[id].ticket;
    var e :| Some(e) in Entries(c, initial, s) && Names(e, ticket);
    var n :| 0 <= n < |Entries(c, initial, s)| && Entries(c, initial, s)[n] == Some(e);
    var other := GranteeOf(c, initial, s, n);
    HoldersOwn(s);
    SerialsCollide(ticket, s.handlers[other].ticket);
  }

  /** In every run: a reader of the file finds the serial of a bundle that was returned if and only if
      the append of its entry completed and nothing unfinished stood before it. As long as no serial
      has come round again, that is; the `if` needs not even this. */
  lemma ReturnedInFileExactlyWhen(p: Policy, c: Codec, initial: string, states: seq<State>, actions: seq<Action>,
                                  k: nat, id: nat)
    requires c.Faithful() && Run(p, states, actions) && k < |states|
    requires id in states[k].handlers && states[k].handlers[id].Granted?
    ensures var found := InFile(c, initial, states[k], states[k].handlers[id].ticket);
            var well := exists j :: 0 <= j < k && AppendsWell(c, initial, states, actions, j, id);
            && (well ==> found)
            && (states[k].tickets <= U64_RANGE ==> (found <==> well))
  {
    var s := states[k];
    RunKeepsAppends(p, states, actions, k);
    RunKeepsOwners(p, states, actions, k);
    InLogExactlyWhen(p, c, initial, states, actions, k, id);
    if InLog(c, initial, s, id) {
      LoggedIsInFile(c, initial, s, id);
    }
    if s.tickets <= U64_RANGE && InFile(c, initial, s, s.handlers[id].ticket) {
      InFileIsLogged(c, initial, s, id);
    }
  }

  /** A bundle is returned only after the append of its entry, which names its serial, its service and
      its machine. */
  lemma ReturnedMeansAppended(p: Policy, states: seq<State>, actions: seq<Action>, k: nat, id: nat)
    requires Run(p, states, actions) && k < |states|
    requires id in states[k].handlers && states[k].handlers[id].Granted?
    ensures var h := states[k].handlers[id];
            exists j :: 0 <= j < k && actions[j].LogGrant? && actions[j].id == id
                        && IsGrant(h.req, h.ticket, actions[j].append.entry)
  {
    var s := states[k];
    RunKeepsAppends(p, states, actions, k);
    assert WriterOf(s, id).Some?;
    var i :| 0 <= i < |s.writers| && s.writers[i] == id;
    assert WrittenBy(s, i);
    var j := StepOfAppend(p, states, actions, k, i);
    StepAt(p, states, actions, j);
  }

  /** Up to 2^64 calls of `issue`, no two grants that a reader finds have the same serial. */
  lemma FoundSerialsDistinct(p: Policy, c: Codec, initial: string, states: seq<State>, actions: seq<Action>, k: nat,
                             m: nat, n: nat)
    requires c.Faithful() && Run(p, states, actions) && k < |states| && states[k].tickets <= U64_RANGE
    requires m < n < |Entries(c, initial, states[k])|
    requires var found := Entries(c, initial, states[k]);
             found[m].Some? && found[m].value.granted && found[n].Some? && found[n].value.granted
    ensures var found := Entries(c, initial, states[k]); found[m].value.certSerial != found[n].value.certSerial
  {
    RunKeepsAppends(p, states, actions, k);
    RunKeepsOwners(p, states, actions, k);
    GrantsDiffer(c, initial, states[k], m, n);
  }

  lemma GrantsDiffer(c: Codec, initial: string, s: State, m: nat, n: nat)
    requires c.Faithful() && AppendsInv(s) && OwnersInv(s) && s.tickets <= U64_RANGE
    requires m < n < |Entries(c, initial, s)|
    requires var found := Entries(c, initial, s);
             found[m].Some? && found[m].value.granted && found[n].Some? && found[n].value.granted
    ensures var found := Entries(c, initial, s); found[m].value.certSerial != found[n].value.certSerial
  {
    var one := GranteeOf(c, initial, s, m);
    var two := GranteeOf(c, initial, s, n);
    HoldersOwn(s);
    SerialsCollide(s.handlers[one].ticket, s.handlers[two].ticket);
  }

  // ----- conservation

  /** The tickets of handlers between the counter and the log. */
  function Pending(s: State): set<nat>
  {
    set id | id in s.handlers && (s.handlers[id].Allocated? || s.handlers[id].Signed?) :: s.handlers[id].ticket
  }

  /** The tickets used up by calls of `issue` that failed. */
  function Failed(s: State): set<nat>
  {
    set id | id in s.handlers && s.handlers[id].Errored? :: s.handlers[id].ticket
  }

  /** The tickets of bundles that were returned and whose appends read back. */
  ghost function Logged(c: Codec, initial: string, s: State): set<nat>
    requires c.Faithful()
  {
    set id | id in s.handlers && s.handlers[id].Granted? && InLog(c, initial, s, id) :: s.handlers[id].ticket
  }

  /** The tickets of bundles that were returned though their appends do not read back. */
  ghost function Lost(c: Codec, initial: string, s: State): set<nat>
    requires c.Faithful()
  {
    set id | id in s.handlers && s.handlers[id].Granted? && !InLog(c, initial, s, id) :: s.handlers[id].ticket
  }

  /** The place of a ticket is decided by where its handler stands. */
  lemma PlaceOf(c: Codec, initial: string, s: State, t: nat)
    requires c.Faithful() && OwnersInv(s) && t < s.tickets
    ensures s.owners[t] in s.handlers && HasTicket(s.handlers[s.owners[t]])
    ensures var h := s.handlers[s.owners[t]];
            && (t in Pending(s) <==> h.Allocated? || h.Signed?)
            && (t in Failed(s) <==> h.Errored?)
            && (t in Lost(c, initial, s) <==> h.Granted? && !InLog(c, initial, s, s.owners[t]))
            && (t in Logged(c, initial, s) <==> h.Granted? && InLog(c, initial, s, s.owners[t]))
  {
    assert TicketOf(s, s.owners[t]) == Some(t);
    HoldersOwn(s);
  }

  lemma PlacesAreTickets(c: Codec, initial: string, s: State)
    requires c.Faithful() && OwnersInv(s)
    ensures Logged(c, initial, s) <= UpTo(s.tickets) && Lost(c, initial, s) <= UpTo(s.tickets)
    ensures Pending(s) <= UpTo(s.tickets) && Failed(s) <= UpTo(s.tickets)
  {
    HoldersOwn(s);
  }

  /** The tickets logged are those whose serials a reader finds granted. */
  lemma LoggedExactlyWhenInFile(c: Codec, initial: string, s: State, t: nat)
    requires c.Faithful() && AppendsInv(s) && OwnersInv(s) && s.tickets <= U64_RANGE && t < s.tickets
    ensures t in Logged(c, initial, s) <==> InFile(c, initial, s, t)
  {
    var id := s.owners[t];
    PlaceOf(c, initial, s, t);
    assert TicketOf(s, id) == Some(t);
    if InFile(c, initial, s, t) {
      InFileIsLogged(c, initial, s, id);
    }
    if t in Logged(c, initial, s) {
      LoggedIsInFile(c, initial, s, id);
    }
  }

  /** `all` is the disjoint union of the four sets. */
  ghost predicate Partition(all: set<nat>, a: set<nat>, b: set<nat>, c: set<nat>, d: set<nat>)
  {
    && all == a + b + c + d
    && a !! b && c !! d && a + b !! c + d
    && |all| == |a| + |b| + |c| + |d|
  }

  lemma FourParts(all: set<nat>, a: set<nat>, b: set<nat>, c: set<nat>, d: set<nat>)
    requires a <= all && b <= all && c <= all && d <= all
    requires forall t :: t in all ==> t in a || t in b || t in c || t in d
    requires a !! b && c !! d && a + b !! c + d
    ensures Partition(all, a, b, c, d)
  {
    assert all == (a + b) + (c + d);
  }

  lemma PlacesPartition(c: Codec, initial: string, s: State)
    requires c.Faithful() && OwnersInv(s)
    ensures Partition(UpTo(s.tickets), Logged(c, initial, s), Lost(c, initial, s), Pending(s), Failed(s))
  {
    PlacesAreTickets(c, initial, s);
    forall t: nat | t < s.tickets
      ensures t in Logged(c, initial, s) || t in Lost(c, initial, s) || t in Pending(s) || t in Failed(s)
      ensures t in Logged(c, initial, s) ==> t !in Lost(c, initial, s)
      ensures t in Pending(s) ==> t !in Failed(s)
      ensures t in Logged(c, initial, s) + Lost(c, initial, s) ==> t !in Pending(s) + Failed(s)
    {
      PlaceOf(c, initial, s, t);
    }
    FourParts(UpTo(s.tickets), Logged(c, initial, s), Lost(c, initial, s), Pending(s), Failed(s));
  }

  /** In every reachable state the tickets handed out are exactly those logged, those pending, those
      failed in `issue`, and those lost to the log although their bundles were returned; no ticket is in
      two of these. Up to 2^64 calls of `issue`, those logged are those whose serials a reader finds
      granted in the file. */
  lemma SerialsConserved(p: Policy, c: Codec, initial: string, states: seq<State>, actions: seq<Action>, k: nat)
    requires c.Faithful() && Run(p, states, actions) && k < |states|
    ensures var s := states[k];
            && |UpTo(s.tickets)| == s.tickets
            && Partition(UpTo(s.tickets), Logged(c, initial, s), Lost(c, initial, s), Pending(s), Failed(s))
            && (s.tickets <= U64_RANGE ==>
                  forall t: nat :: t < s.tickets ==> (t in Logged(c, initial, s) <==> InFile(c, initial, s, t)))
  {
    var s := states[k];
    RunKeepsAppends(p, states, actions, k);
    RunKeepsOwners(p, states, actions, k);
    PlacesPartition(c, initial, s);
    forall t: nat | t < s.tickets <= U64_RANGE
      ensures t in Logged(c, initial, s) <==> InFile(c, initial, s, t)
    {
      LoggedExactlyWhenInFile(c, initial, s, t);
    }
  }

  // ----- runs in which nothing is lost

  /** A grant that was appended is that of a handler that has returned its bundle ever since. */
  lemma GrantStands(p: Policy, states: seq<State>, actions: seq<Action>, k: nat, j: nat)
    requires Run(p, states, actions) && j < k < |states| && actions[j].LogGrant?
    ensures actions[j].id in states[k].handlers && states[k].handlers[actions[j].id].Granted?
  {
    RunKeepsAppends(p, states, actions, k);
    AppendOfStep(p, states, actions, k, j);
    StepAt(p, states, actions, j);
    assert WrittenBy(states[k], |states[j].appends|);
  }

  lemma LoggedStepIsClean(p: Policy, c: Codec, initial: string, states: seq<State>, actions: seq<Action>,
                          k: nat, j: nat)
    requires c.Faithful() && Run(p, states, actions) && j < k < |states| && IsAppend(actions[j])
    requires InLog(c, initial, states[k], actions[j].id)
    ensures AppendsWell(c, initial, states, actions, j, actions[j].id)
  {
    var s := states[k];
    RunKeepsAppends(p, states, actions, k);
    AppendOfStep(p, states, actions, k, j);
    var i :| 0 <= i < |s.appends| && i < |s.writers| && s.writers[i] == actions[j].id && ReadsBack(c, initial, s, i);
    assert i == |states[j].appends|;
    ReadsBackExactlyWhenClean(c, initial, s, i);
  }

  /** No bundle that was returned is missing from the file exactly when the append of every grant so
      far completed with nothing unfinished before it. */
  lemma NothingLostExactlyWhen(p: Policy, c: Codec, initial: string, states: seq<State>, actions: seq<Action>, k: nat)
    requires c.Faithful() && Run(p, states, actions) && k < |states|
    ensures Lost(c, initial, states[k]) == {}
            <==> forall j :: 0 <= j < k && actions[j].LogGrant? ==>
                   AppendsWell(c, initial, states, actions, j, actions[j].id)
  {
    var s := states[k];
    if Lost(c, initial, s) == {} {
      forall j | 0 <= j < k && actions[j].LogGrant?
        ensures AppendsWell(c, initial, states, actions, j, actions[j].id)
      {
        GrantStands(p, states, actions, k, j);
        assert InLog(c, initial, s, actions[j].id) by {
          assert s.handlers[actions[j].id].ticket !in Lost(c, initial, s);
        }
        LoggedStepIsClean(p, c, initial, states, actions, k, j);
      }
    } else {
      var t :| t in Lost(c, initial, s);
      var id :| id in s.handlers && s.handlers[id].Granted? && !InLog(c, initial, s, id);
      ReturnedMeansAppended(p, states, actions, k, id);
      InLogExactlyWhen(p, c, initial, states, actions, k, id);
    }
  }

  function EntriesOf(appends: seq<Appending>): (es: seq<LogEntry>)
    ensures |es| == |appends|
    ensures forall i :: 0 <= i < |appends| ==> es[i] == appends[i].entry
  {
    if appends == [] then [] else EntriesOf(appends[..|appends| - 1]) + [appends[|appends| - 1].entry]
  }

  predicate AllComplete(appends: seq<Appending>)
  {
    forall i :: 0 <= i < |appends| ==> appends[i].stop.None?
  }

  lemma {:induction false} CompleteLines(c: Codec, appends: seq<Appending>)
    requires AllComplete(appends)
    ensures Completed(Writes(c, appends)) == Encoded(c, EntriesOf(appends))
  {
    if appends != [] {
      var init := appends[..|appends| - 1];
      CompleteLines(c, init);
      WritesPrefix(c, appends, |appends| - 1);
      assert EntriesOf(appends)[..|appends| - 1] == EntriesOf(init);
    }
  }

  /** No append of the run so far, of a grant or of a refusal, failed. */
  predicate NoWriteErrors(actions: seq<Action>, k: nat)
    requires k <= |actions|
  {
    forall j :: 0 <= j < k && IsAppend(actions[j]) ==> actions[j].append.stop.None?
  }

  lemma AllAreComplete(p: Policy, states: seq<State>, actions: seq<Action>, k: nat)
    requires Run(p, states, actions) && k < |states| && NoWriteErrors(actions, k)
    ensures AllComplete(states[k].appends)
  {
    forall i | 0 <= i < |states[k].appends|
      ensures states[k].appends[i].stop.None?
    {
      var j := StepOfAppend(p, states, actions, k, i);
    }
  }

  lemma CompleteIsNotMidLine(c: Codec, initial: string, appends: seq<Appending>)
    requires Rest(initial) == "" && AllComplete(appends)
    ensures !MidLine(initial, Writes(c, appends))
  {
  }

  /** In a run in which no append failed, and whose file ended where a line ends, the file reads as
      before and then as exactly the entries appended, in order, and the serial of every bundle
      returned is in it. */
  lemma NothingLostWithoutErrors(p: Policy, c: Codec, initial: string, states: seq<State>, actions: seq<Action>, k: nat)
    requires c.Faithful() && Run(p, states, actions) && k < |states| && Rest(initial) == ""
    requires NoWriteErrors(actions, k)
    ensures ReadsAs(c, initial, LogFile(c, initial, states[k]), EntriesOf(states[k].appends))
    ensures Lost(c, initial, states[k]) == {}
  {
    CompleteReads(p, c, initial, states, actions, k);
    forall j | 0 <= j < k && actions[j].LogGrant?
      ensures AppendsWell(c, initial, states, actions, j, actions[j].id)
    {
      AllAreComplete(p, states, actions, j);
      CompleteIsNotMidLine(c, initial, states[j].appends);
    }
    NothingLostExactlyWhen(p, c, initial, states, actions, k);
  }

  lemma CompleteReads(p: Policy, c: Codec, initial: string, states: seq<State>, actions: seq<Action>, k: nat)
    requires c.Faithful() && Run(p, states, actions) && k < |states| && Rest(initial) == ""
    requires NoWriteErrors(actions, k)
    ensures ReadsAs(c, initial, LogFile(c, initial, states[k]), EntriesOf(states[k].appends))
  {
    var appends := states[k].appends;
    AllAreComplete(p, states, actions, k);
    CompleteLines(c, appends);
    CompleteIsNotGlued(c, initial, appends);
    ReadsAsExactlyWhenNothingGlued(c, initial, Writes(c, appends), EntriesOf(appends));
  }

  lemma CompleteIsNotGlued(c: Codec, initial: string, appends: seq<Appending>)
    requires Rest(initial) == "" && AllComplete(appends)
    ensures NothingGlued(initial, Writes(c, appends))
  {
  }
}
