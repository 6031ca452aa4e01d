/**
  The issuance log over whole runs of the vault, as the text of its file: which grants and refusals a
  reader finds there. An append that stops inside its line loses its own entry and the next one.
 */
module VaultLog {
  import opened Prelude
  import opened Attestation
  import opened LogEntries
  import opened Framing
  import opened IssuanceLogs
  import opened VaultProtocol

  function Writes(c: Codec, appends: seq<Appending>): (ws: seq<Write>)
    ensures |ws| == |appends|
    ensures c.Faithful() ==> AllPossible(ws)
  {
    seq(|appends|, i requires 0 <= i < |appends| => ToWrite(c, appends[i]))
  }

  /** The log file, which held `initial` when the vault started. */
  ghost function LogFile(c: Codec, initial: string, s: State): string
    requires c.Faithful()
  {
    File(initial, Writes(c, s.appends))
  }

  /** What a reader makes of the lines added to the file since the vault started. */
  ghost function Entries(c: Codec, initial: string, s: State): seq<Option<LogEntry>>
    requires c.Faithful()
  {
    Found(c, initial, Writes(c, s.appends))
  }

  lemma EntriesAreInTheFile(c: Codec, initial: string, s: State)
    requires c.Faithful()
    ensures ReadLog(c, LogFile(c, initial, s)) == ReadLog(c, initial) + Entries(c, initial, s)
  {
    ReadsWhatWasAdded(c, initial, Writes(c, s.appends));
  }

  // ----- every append is that of one handler

  predicate HasAppended(h: Handler)
  {
    h.Granted? || (h.Denied? && h.kind == Unseal)
  }

  /** The entry that such a handler appends. */
  predicate Wrote(h: Handler, e: LogEntry)
  {
    || (h.Granted? && IsGrant(h.req, h.ticket, e))
    || (h.Denied? && h.kind == Unseal && IsRefusal(h.req, h.reason, e))
  }

  function WriterOf(s: State, id: nat): Option<Handler>
  {
    if id in s.handlers && HasAppended(s.handlers[id]) then Some(s.handlers[id]) else None
  }

  ghost predicate AppendsInv(s: State)
  {
    && |s.writers| == |s.appends|
    && (forall i :: 0 <= i < |s.writers| ==> WrittenBy(s, i))
    && (forall i, j :: 0 <= i < j < |s.writers| ==> s.writers[i] != s.writers[j])
    && (forall id: nat :: WriterOf(s, id).Some? ==> id in s.writers)
  }

  predicate WrittenBy(s: State, i: nat)
    requires i < |s.writers| == |s.appends|
  {
    var h := WriterOf(s, s.writers[i]);
    h.Some? && Wrote(h.value, s.appends[i].entry)
  }

  predicate IsAppend(a: Action)
  {
    a.LogGrant? || a.LogRefusal?
  }

  lemma AppendMoves(p: Policy, s: State, a: Action, s': State)
    requires Step(p, s, a, s') && IsAppend(a)
    ensures s'.appends == s.appends + [a.append] && s'.writers == s.writers + [a.id]
    ensures WriterOf(s, a.id) == None
    ensures WriterOf(s', a.id).Some? && Wrote(WriterOf(s', a.id).value, a.append.entry)
    ensures forall id: nat :: id != a.id ==> WriterOf(s', id) == WriterOf(s, id)
  {
  }

  lemma MoverAppendsNothing(p: Policy, s: State, a: Action, s': State)
    requires Step(p, s, a, s') && !IsAppend(a)
    ensures s'.appends == s.appends && s'.writers == s.writers
    ensures !a.Tick? ==> WriterOf(s', a.id) == WriterOf(s, a.id)
  {
  }

  lemma OthersAppendNothing(p: Policy, s: State, a: Action, s': State)
    requires Step(p, s, a, s') && !IsAppend(a)
    ensures s'.appends == s.appends && s'.writers == s.writers
    ensures forall id: nat :: WriterOf(s', id) == WriterOf(s, id)
  {
    OneMoves(p, s, a, s');
    MoverAppendsNothing(p, s, a, s');
  }

  lemma AppendKeepsInv(s: State, id: nat, append: Appending, s': State)
    requires AppendsInv(s) && WriterOf(s, id) == None
    requires s'.appends == s.appends + [append] && s'.writers == s.writers + [id]
    requires WriterOf(s', id).Some? && Wrote(WriterOf(s', id).value, append.entry)
    requires forall other: nat :: other != id ==> WriterOf(s', other) == WriterOf(s, other)
    ensures AppendsInv(s')
  {
    forall i | 0 <= i < |s.writers|
      ensures s.writers[i] != id && WrittenBy(s', i)
    {
      assert WrittenBy(s, i);
    }
    forall other: nat | WriterOf(s', other).Some?
      ensures other in s'.writers
    {
      assert other == id || other in s.writers;
      assert s'.writers[|s.writers|] == id;
    }
  }

  lemma StepKeepsAppends(p: Policy, s: State, a: Action, s': State)
    requires AppendsInv(s) && Step(p, s, a, s')
    ensures AppendsInv(s')
  {
    if IsAppend(a) {
      AppendMoves(p, s, a, s');
      AppendKeepsInv(s, a.id, a.append, s');
    } else {
      OthersAppendNothing(p, s, a, s');
      forall i | 0 <= i < |s.writers|
        ensures WrittenBy(s', i)
      {
        assert WrittenBy(s, i);
      }
    }
  }

  lemma {:induction false} RunKeepsAppends(p: Policy, states: seq<State>, actions: seq<Action>, k: nat)
    requires Run(p, states, actions) && k < |states|
    ensures AppendsInv(states[k])
  {
    if k > 0 {
      RunKeepsAppends(p, states, actions, k - 1);
      StepAt(p, states, actions, k - 1);
      StepKeepsAppends(p, states[k - 1], actions[k - 1], states[k]);
    }
  }

  lemma NextAppends(p: Policy, states: seq<State>, actions: seq<Action>, j: nat)
    requires Run(p, states, actions) && j < |actions|
    ensures |states[j].writers| == |states[j].appends|
    ensures IsAppend(actions[j]) ==>
              && states[j + 1].appends == states[j].appends + [actions[j].append]
              && states[j + 1].writers == states[j].writers + [actions[j].id]
    ensures !IsAppend(actions[j]) ==>
              states[j + 1].appends == states[j].appends && states[j + 1].writers == states[j].writers
  {
    RunKeepsAppends(p, states, actions, j);
    StepAt(p, states, actions, j);
    if IsAppend(actions[j]) {
      AppendMoves(p, states[j], actions[j], states[j + 1]);
    } else {
      OthersAppendNothing(p, states[j], actions[j], states[j + 1]);
    }
  }

  lemma NextAppendsMore(p: Policy, states: seq<State>, actions: seq<Action>, j: nat)
    requires Run(p, states, actions) && j < |actions|
    ensures states[j].appends <= states[j + 1].appends && states[j].writers <= states[j + 1].writers
  {
    NextAppends(p, states, actions, j);
  }

  lemma AppendsGrow(p: Policy, states: seq<State>, actions: seq<Action>, j: nat, k: nat)
    requires Run(p, states, actions) && j <= k < |states|
    ensures states[j].appends <= states[k].appends && states[j].writers <= states[k].writers
  {
    var appends := seq(|states|, i requires 0 <= i < |states| => states[i].appends);
    var writers := seq(|states|, i requires 0 <= i < |states| => states[i].writers);
    forall i | 0 <= i < |states| - 1
      ensures appends[i] <= appends[i + 1] && writers[i] <= writers[i + 1]
    {
      NextAppendsMore(p, states, actions, i);
    }
    PrefixesGrow(appends, j, k);
    PrefixesGrow(writers, j, k);
  }

  // ----- appends and the steps that made them

  /** Append `i` of state `s` was made by action `a` of state `before`. */
  predicate MadeBy(s: State, i: nat, before: State, a: Action)
  {
    && IsAppend(a) && |before.appends| == i < |s.appends| && i < |s.writers|
    && s.appends[i] == a.append && s.writers[i] == a.id && s.appends[..i] == before.appends
  }

  lemma AppendOfStep(p: Policy, states: seq<State>, actions: seq<Action>, k: nat, j: nat)
    requires Run(p, states, actions) && j < k < |states| && IsAppend(actions[j])
    ensures MadeBy(states[k], |states[j].appends|, states[j], actions[j])
  {
    NextAppends(p, states, actions, j);
    AppendsGrow(p, states, actions, j + 1, k);
  }

  lemma {:induction false} StepOfAppend(p: Policy, states: seq<State>, actions: seq<Action>, k: nat, i: nat)
    returns (j: nat)
    requires Run(p, states, actions) && k < |states| && i < |states[k].appends|
    ensures j < k && MadeBy(states[k], i, states[j], actions[j])
  {
    NextAppends(p, states, actions, k - 1);
    if i < |states[k - 1].appends| {
      j := StepOfAppend(p, states, actions, k - 1, i);
      AppendOfStep(p, states, actions, k, j);
    } else {
      j := k - 1;
    }
  }

  // ----- exactly which entries a reader finds

  /** Append `i` completed, and the line it ended reads as its entry. */
  ghost predicate ReadsBack(c: Codec, initial: string, s: State, i: nat)
    requires c.Faithful() && i < |s.appends|
  {
    && s.appends[i].stop.None?
    && var n := OwnLine(Writes(c, s.appends), i);
    && n < |Entries(c, initial, s)| && Entries(c, initial, s)[n] == Some(s.appends[i].entry)
  }

  /** The append that handler `id` made reads back. */
  ghost predicate InLog(c: Codec, initial: string, s: State, id: nat)
    requires c.Faithful()
  {
    exists i :: 0 <= i < |s.appends| && i < |s.writers| && s.writers[i] == id && ReadsBack(c, initial, s, i)
  }

  /** Append `i` completed, and found the file where a line ends. */
  ghost predicate Clean(c: Codec, initial: string, appends: seq<Appending>, i: nat)
    requires i < |appends|
  {
    appends[i].stop.None? && !MidLine(initial, Writes(c, appends[..i]))
  }

  lemma WritesPrefix(c: Codec, appends: seq<Appending>, i: nat)
    requires i <= |appends|
    ensures Writes(c, appends)[..i] == Writes(c, appends[..i])
  {
  }

  lemma ReadsBackExactlyWhenClean(c: Codec, initial: string, s: State, i: nat)
    requires c.Faithful() && i < |s.appends|
    ensures ReadsBack(c, initial, s, i) <==> Clean(c, initial, s.appends, i)
  {
    if s.appends[i].stop.None? {
      WritesPrefix(c, s.appends, i);
      OwnLineReads(c, initial, Writes(c, s.appends), i, s.appends[i].entry);
    }
  }

  /** Whatever a reader finds is the entry of a completed append that found the file where a line
      ends. */
  lemma FoundIsAppended(c: Codec, initial: string, s: State, n: nat) returns (i: nat)
    requires c.Faithful() && n < |Entries(c, initial, s)| && Entries(c, initial, s)[n].Some?
    ensures i < |s.appends| && OwnLine(Writes(c, s.appends), i) == n
    ensures Entries(c, initial, s)[n] == Some(s.appends[i].entry) && ReadsBack(c, initial, s, i)
  {
    var ws := Writes(c, s.appends);
    i := AppendOfLine(initial, ws, n);
    OwnLineReads(c, initial, ws, i, s.appends[i].entry);
  }

  /** Step `j` is the append of handler `id`; it completes, and no line of the file, of an append that
      stopped inside it or from before the vault started, is then unfinished. */
  ghost predicate AppendsWell(c: Codec, initial: string, states: seq<State>, actions: seq<Action>, j: nat, id: nat)
    requires j < |actions| && j < |states|
  {
    && IsAppend(actions[j]) && actions[j].id == id
    && actions[j].append.stop.None? && !MidLine(initial, Writes(c, states[j].appends))
  }

  /** In every run, a reader finds what a handler appended if and only if its append completed and
      nothing unfinished stood before it: neither an append that stopped inside its line since the last
      one that completed, nor the end of a file that stopped inside a line before the vault started. */
  lemma InLogExactlyWhen(p: Policy, c: Codec, initial: string, states: seq<State>, actions: seq<Action>,
                         k: nat, id: nat)
    requires c.Faithful() && Run(p, states, actions) && k < |states|
    ensures InLog(c, initial, states[k], id)
            <==> exists j :: 0 <= j < k && AppendsWell(c, initial, states, actions, j, id)
  {
    var s := states[k];
    if InLog(c, initial, s, id) {
      var i :| 0 <= i < |s.appends| && i < |s.writers| && s.writers[i] == id && ReadsBack(c, initial, s, i);
      var j := StepOfAppend(p, states, actions, k, i);
      ReadsBackExactlyWhenClean(c, initial, s, i);
      assert AppendsWell(c, initial, states, actions, j, id);
    }
    if j :| 0 <= j < k && AppendsWell(c, initial, states, actions, j, id) {
      AppendOfStep(p, states, actions, k, j);
      ReadsBackExactlyWhenClean(c, initial, s, |states[j].appends|);
    }
  }

  /** A refused request has its entry in the log if and only if it came to `unseal`, the append of its
      entry has completed, and nothing unfinished stood before it. */
  lemma RefusalInLogExactlyWhen(p: Policy, c: Codec, initial: string, states: seq<State>, actions: seq<Action>,
                                k: nat, id: nat)
    requires c.Faithful() && Run(p, states, actions) && k < |states|
    requires id in states[k].handlers && (states[k].handlers[id].Turned? || states[k].handlers[id].Denied?)
    ensures var s := states[k];
            var h := s.handlers[id];
            && (InLog(c, initial, s, id) <==>
                  h.kind == Unseal && exists j :: 0 <= j < k && AppendsWell(c, initial, states, actions, j, id))
            && (InLog(c, initial, s, id) ==>
                  h.Denied? && exists e :: Some(e) in Entries(c, initial, s) && IsRefusal(h.req, h.reason, e))
            && (id in s.writers <==> h.Denied? && h.kind == Unseal)
  {
    var s := states[k];
    RunKeepsAppends(p, states, actions, k);
    InLogExactlyWhen(p, c, initial, states, actions, k, id);
    assert WriterOf(s, id).Some? <==> s.handlers[id].Denied? && s.handlers[id].kind == Unseal;
    if id in s.writers {
      var i :| 0 <= i < |s.writers| && s.writers[i] == id;
      assert WrittenBy(s, i);
    }
    if InLog(c, initial, s, id) {
      var i :| 0 <= i < |s.appends| && i < |s.writers| && s.writers[i] == id && ReadsBack(c, initial, s, i);
      assert WrittenBy(s, i);
      assert Some(s.appends[i].entry) in Entries(c, initial, s);
    }
  }
}
