/**
  Any number of handlers appending to the issuance log at once. A line goes out in pieces, one
  step at a time, while its writer holds the mutex; any other handler may step in between. The code
  never flushes the file: a piece is taken to be in the file before the mutex is released.
 */
module LogWriters {
  import opened Prelude
  import opened LogEntries
  import opened Framing
  import opened IssuanceLogs

  /** `line` is the text with its newline, rendered before the mutex is asked for. */
  datatype Writer =
    | Queued(line: string)
    | Writing(line: string, written: nat)
    | Closed(write: Write)

  /** `writes` and `entries` are history variables: the appends that released the mutex, in order,
      and the entries of the completed ones. */
  datatype State = State(
    file: string,
    holder: Option<nat>,
    writers: map<nat, Writer>,
    submitted: map<nat, LogEntry>,
    writes: seq<Write>,
    entries: seq<LogEntry>)

  datatype Action =
    | Submit(id: nat, entry: LogEntry)
    | Lock(id: nat)
    | Put(id: nat, count: nat)
    | Finish(id: nat)
    | GiveUp(id: nat)

  /** `initial` is what an earlier process left in the file. */
  function Init(initial: string): State
  {
    State(initial, None, map[], map[], [], [])
  }

  predicate IsWriting(s: State, id: nat)
  {
    id in s.writers && s.writers[id].Writing?
  }

  ghost predicate Step(c: Codec, s: State, a: Action, s': State)
  {
    match a
    case Submit(id, e) =>
      && id !in s.writers
      && s' == s.(writers := s.writers[id := Queued(c.encode(e))], submitted := s.submitted[id := e])
    case Lock(id) =>
      && s.holder.None? && id in s.writers && s.writers[id].Queued?
      && s' == s.(holder := Some(id), writers := s.writers[id := Writing(s.writers[id].line, 0)])
    case Put(id, count) =>
      && IsWriting(s, id)
      && var Writing(line, k) := s.writers[id];
      && k + count <= |line| + 1
      && s' == s.(file := s.file + (line + "\n")[k..k + count],
                  writers := s.writers[id := Writing(line, k + count)])
    case Finish(id) =>
      && IsWriting(s, id) && id in s.submitted
      && var Writing(line, k) := s.writers[id];
      && k == |line| + 1
      && s' == s.(holder := None, writers := s.writers[id := Closed(Whole(line))],
                  writes := s.writes + [Whole(line)], entries := s.entries + [s.submitted[id]])
    case GiveUp(id) =>
      && IsWriting(s, id)
      && var Writing(line, k) := s.writers[id];
      && k <= |line|
      && s' == s.(holder := None, writers := s.writers[id := Closed(Torn(line, k))],
                  writes := s.writes + [Torn(line, k)])
  }

  ghost predicate Run(c: Codec, initial: string, states: seq<State>, actions: seq<Action>)
  {
    && |states| == |actions| + 1
    && states[0] == Init(initial)
    && forall i :: 0 <= i < |actions| ==> Step(c, states[i], actions[i], states[i + 1])
  }

  // ----- what every step keeps

  function LineOf(w: Writer): string
  {
    match w
    case Queued(line) => line
    case Writing(line, _) => line
    case Closed(write) => write.line
  }

  ghost predicate LinesAreEncodings(c: Codec, s: State)
  {
    && s.submitted.Keys == s.writers.Keys
    && forall id :: id in s.writers ==> LineOf(s.writers[id]) == c.encode(s.submitted[id])
  }

  /** Only the holder of the mutex is writing. */
  ghost predicate Exclusive(s: State)
  {
    && (forall id: nat :: IsWriting(s, id) ==> s.holder == Some(id))
    && (s.holder.Some? ==>
          IsWriting(s, s.holder.value) && s.writers[s.holder.value].written <= |s.writers[s.holder.value].line| + 1)
  }

  /** What the holder has put out so far. */
  function InProgress(s: State): string
  {
    if s.holder.Some? && IsWriting(s, s.holder.value)
       && s.writers[s.holder.value].written <= |s.writers[s.holder.value].line| + 1
    then (s.writers[s.holder.value].line + "\n")[..s.writers[s.holder.value].written]
    else ""
  }

  /** The file is what was there, the released appends in order, and what the holder has put out. */
  ghost predicate FileInOrder(c: Codec, initial: string, s: State)
  {
    && AllPossible(s.writes)
    && s.file == File(initial, s.writes) + InProgress(s)
    && Completed(s.writes) == Encoded(c, s.entries)
  }

  lemma StepKeepsLines(c: Codec, s: State, a: Action, s': State)
    requires LinesAreEncodings(c, s) && Step(c, s, a, s')
    ensures LinesAreEncodings(c, s')
  {
  }

  lemma StepKeepsExclusive(c: Codec, s: State, a: Action, s': State)
    requires Exclusive(s) && Step(c, s, a, s')
    ensures Exclusive(s')
  {
  }

  lemma Prefixes(line: string, j: nat, k: nat)
    requires j <= k <= |line| + 1
    ensures (line + "\n")[..j] + (line + "\n")[j..k] == (line + "\n")[..k]
    ensures (line + "\n")[..|line| + 1] == line + "\n"
    ensures j <= |line| ==> (line + "\n")[..j] == line[..j]
  {
  }

  lemma FinishedWrites(c: Codec, initial: string, s: State, e: LogEntry, s': State)
    requires FileInOrder(c, initial, s) && '\n' !in c.encode(e) && InProgress(s) == c.encode(e) + "\n"
    requires s'.writes == s.writes + [Whole(c.encode(e))] && s'.entries == s.entries + [e]
    requires s'.holder.None? && s'.file == s.file
    ensures FileInOrder(c, initial, s')
  {
    var w := Whole(c.encode(e));
    AppendOne(initial, s.writes, w);
    assert s'.writes[..|s'.writes| - 1] == s.writes && s'.entries[..|s'.entries| - 1] == s.entries;
    assert s'.file == File(initial, s'.writes) + "";
  }

  lemma GivenUpWrites(c: Codec, initial: string, s: State, w: Write, s': State)
    requires FileInOrder(c, initial, s) && w.Torn? && Possible(w) && InProgress(s) == Text(w)
    requires s'.writes == s.writes + [w] && s'.entries == s.entries
    requires s'.holder.None? && s'.file == s.file
    ensures FileInOrder(c, initial, s')
  {
    AppendOne(initial, s.writes, w);
    assert s'.writes[..|s'.writes| - 1] == s.writes;
    assert s'.file == File(initial, s'.writes) + "";
  }

  /** What the holder of the mutex is writing. */
  lemma HolderWrites(c: Codec, s: State, id: nat)
    requires c.Faithful() && LinesAreEncodings(c, s) && Exclusive(s) && IsWriting(s, id)
    ensures s.holder == Some(id) && id in s.submitted
    ensures var Writing(line, k) := s.writers[id];
            && k <= |line| + 1 && line == c.encode(s.submitted[id]) && '\n' !in line
            && InProgress(s) == (line + "\n")[..k]
  {
    assert LineOf(s.writers[id]) == c.encode(s.submitted[id]);
  }

  lemma PutKeepsFile(c: Codec, initial: string, s: State, id: nat, count: nat, s': State)
    requires c.Faithful() && LinesAreEncodings(c, s) && Exclusive(s) && FileInOrder(c, initial, s)
    requires Step(c, s, Put(id, count), s')
    ensures FileInOrder(c, initial, s') && s.file <= s'.file
  {
    HolderWrites(c, s, id);
    var Writing(line, k) := s.writers[id];
    Prefixes(line, k, k + count);
    var out := (line + "\n")[..k + count];
    assert InProgress(s') == out;
    assert File(initial, s.writes) + out == s.file + (line + "\n")[k..k + count];
  }

  lemma FinishKeepsFile(c: Codec, initial: string, s: State, id: nat, s': State)
    requires c.Faithful() && LinesAreEncodings(c, s) && Exclusive(s) && FileInOrder(c, initial, s)
    requires Step(c, s, Finish(id), s')
    ensures FileInOrder(c, initial, s') && s'.file == s.file
  {
    HolderWrites(c, s, id);
    Prefixes(s.writers[id].line, 0, 0);
    FinishedWrites(c, initial, s, s.submitted[id], s');
  }

  lemma GiveUpKeepsFile(c: Codec, initial: string, s: State, id: nat, s': State)
    requires c.Faithful() && LinesAreEncodings(c, s) && Exclusive(s) && FileInOrder(c, initial, s)
    requires Step(c, s, GiveUp(id), s')
    ensures FileInOrder(c, initial, s') && s'.file == s.file
  {
    HolderWrites(c, s, id);
    var Writing(line, k) := s.writers[id];
    Prefixes(line, k, k);
    GivenUpWrites(c, initial, s, Torn(line, k), s');
  }

  lemma LockKeepsFile(c: Codec, initial: string, s: State, id: nat, s': State)
    requires FileInOrder(c, initial, s) && Step(c, s, Lock(id), s')
    ensures FileInOrder(c, initial, s') && s'.file == s.file
  {
    assert InProgress(s) == "" == InProgress(s');
  }

  lemma SubmitKeepsFile(c: Codec, initial: string, s: State, id: nat, e: LogEntry, s': State)
    requires Exclusive(s) && FileInOrder(c, initial, s) && Step(c, s, Submit(id, e), s')
    ensures FileInOrder(c, initial, s') && s'.file == s.file
  {
    assert InProgress(s') == InProgress(s);
  }

  lemma StepKeepsFile(c: Codec, initial: string, s: State, a: Action, s': State)
    requires c.Faithful() && LinesAreEncodings(c, s) && Exclusive(s) && FileInOrder(c, initial, s)
    requires Step(c, s, a, s')
    ensures FileInOrder(c, initial, s')
    ensures s.file <= s'.file
  {
    match a
    case Submit(id, e) => SubmitKeepsFile(c, initial, s, id, e, s');
    case Lock(id) => LockKeepsFile(c, initial, s, id, s');
    case Put(id, count) => PutKeepsFile(c, initial, s, id, count, s');
    case Finish(id) => FinishKeepsFile(c, initial, s, id, s');
    case GiveUp(id) => GiveUpKeepsFile(c, initial, s, id, s');
  }

  lemma {:induction false} RunKeeps(c: Codec, initial: string, states: seq<State>, actions: seq<Action>, k: nat)
    requires c.Faithful() && Run(c, initial, states, actions) && k < |states|
    ensures LinesAreEncodings(c, states[k]) && Exclusive(states[k]) && FileInOrder(c, initial, states[k])
  {
    if k == 0 {
      assert initial + "" == initial;
    } else {
      RunKeeps(c, initial, states, actions, k - 1);
      StepKeepsLines(c, states[k - 1], actions[k - 1], states[k]);
      StepKeepsExclusive(c, states[k - 1], actions[k - 1], states[k]);
      StepKeepsFile(c, initial, states[k - 1], actions[k - 1], states[k]);
    }
  }

  /** The file only ever grows at its end: no entry is modified or removed. */
  lemma {:induction false} AppendOnly(c: Codec, initial: string, states: seq<State>, actions: seq<Action>,
                                      j: nat, k: nat)
    requires c.Faithful() && Run(c, initial, states, actions) && j <= k < |states|
    ensures states[j].file <= states[k].file
  {
    if j < k {
      AppendOnly(c, initial, states, actions, j, k - 1);
      RunKeeps(c, initial, states, actions, k - 1);
      StepKeepsFile(c, initial, states[k - 1], actions[k - 1], states[k]);
    }
  }

  lemma {:induction false} TornNeedsError(c: Codec, initial: string, states: seq<State>, actions: seq<Action>, k: nat)
    requires Run(c, initial, states, actions) && k < |states|
    requires forall i :: 0 <= i < k ==> !actions[i].GiveUp?
    ensures forall i :: 0 <= i < |states[k].writes| ==> states[k].writes[i].Whole?
  {
    if k > 0 {
      TornNeedsError(c, initial, states, actions, k - 1);
      var last := actions[k - 1];
      assert Step(c, states[k - 1], last, states[k]) && !last.GiveUp?;
    }
  }

  /** The line the holder is putting out, as the append it would be if it stopped now. */
  function HolderWrite(s: State): seq<Write>
  {
    if s.holder.Some? && IsWriting(s, s.holder.value)
    then
      var Writing(line, k) := s.writers[s.holder.value];
      [if k == |line| + 1 then Whole(line) else Torn(line, k)]
    else []
  }

  /** The entries released so far, and that of the holder once all of its line is out. */
  function Visible(s: State): seq<LogEntry>
  {
    if s.holder.Some? && IsWriting(s, s.holder.value) && s.holder.value in s.submitted
       && s.writers[s.holder.value].written == |s.writers[s.holder.value].line| + 1
    then s.entries + [s.submitted[s.holder.value]]
    else s.entries
  }

  /** A state in which the holder has part of its line out holds what appends would leave. */
  lemma FileIsAppends(c: Codec, initial: string, s: State)
    requires c.Faithful() && LinesAreEncodings(c, s) && Exclusive(s) && FileInOrder(c, initial, s)
    ensures var ws := s.writes + HolderWrite(s);
            AllPossible(ws) && s.file == File(initial, ws) && Completed(ws) == Encoded(c, Visible(s))
  {
    if s.holder.None? {
      assert s.file == File(initial, s.writes) && s.writes + [] == s.writes;
    } else {
      var id := s.holder.value;
      HolderWrites(c, s, id);
      var Writing(line, k) := s.writers[id];
      Prefixes(line, k, k);
      var w := HolderWrite(s)[0];
      AppendOne(initial, s.writes, w);
      assert (s.writes + [w])[..|s.writes|] == s.writes;
      assert w.Whole? ==> Visible(s)[..|s.entries|] == s.entries;
    }
  }

  /** At any moment of any interleaving, with or without write errors, however much of a line is half
      out: the file reads as before and then as exactly the visible entries in lock order, if and only
      if the file at first ended where a line ends and no append that stopped inside its line precedes
      a completed one. */
  lemma ReadsBackInLockOrder(c: Codec, initial: string, states: seq<State>, actions: seq<Action>, k: nat)
    requires c.Faithful() && Run(c, initial, states, actions) && k < |states|
    ensures var s := states[k];
            NothingGlued(initial, s.writes + HolderWrite(s)) <==> ReadsAs(c, initial, s.file, Visible(s))
  {
    var s := states[k];
    RunKeeps(c, initial, states, actions, k);
    FileIsAppends(c, initial, s);
    ReadsAsExactlyWhenNothingGlued(c, initial, s.writes + HolderWrite(s), Visible(s));
  }

  lemma OnlyTheFirstIsGlued(initial: string, ws: seq<Write>, last: seq<Write>)
    requires |last| <= 1 && forall i :: 0 <= i < |ws| ==> ws[i].Whole?
    ensures NothingGlued(initial, ws + last)
            <==> Rest(initial) == "" || (ws == [] && forall w :: w in last ==> w.Torn?)
  {
    var all := ws + last;
    assert forall i :: 0 <= i < |ws| ==> all[i] == ws[i] && all[i].Whole?;
    if ws == [] {
      assert all == last;
      assert forall w :: w in last <==> exists i :: 0 <= i < |all| && all[i] == w;
    } else {
      assert all[0].Whole?;
    }
  }

  /** Without write errors the file reads, at every moment of every interleaving, as before and then as
      exactly the visible entries in lock order, unless it stopped inside a line before the first
      append: then it does so only until the first entry is out. */
  lemma ReadsBackWithoutErrors(c: Codec, initial: string, states: seq<State>, actions: seq<Action>, k: nat)
    requires c.Faithful() && Run(c, initial, states, actions) && k < |states|
    requires forall i :: 0 <= i < k ==> !actions[i].GiveUp?
    ensures ReadsAs(c, initial, states[k].file, Visible(states[k]))
            <==> Rest(initial) == "" || Visible(states[k]) == []
  {
    var s := states[k];
    RunKeeps(c, initial, states, actions, k);
    TornNeedsError(c, initial, states, actions, k);
    ReadsBackInLockOrder(c, initial, states, actions, k);
    OnlyTheFirstIsGlued(initial, s.writes, HolderWrite(s));
    FileIsAppends(c, initial, s);
    AllWhole(s.writes);
    if s.holder.Some? {
      HolderWrites(c, s, s.holder.value);
    }
  }

  lemma {:induction false} AllWhole(ws: seq<Write>)
    requires forall i :: 0 <= i < |ws| ==> ws[i].Whole?
    ensures |Completed(ws)| == |ws|
  {
    if ws != [] {
      AllWhole(ws[..|ws| - 1]);
    }
  }

  /** With the JSON lines of the issuance log: any interleaving of appends without write errors. */
  lemma IssuanceLogReadsBack(initial: string, states: seq<State>, actions: seq<Action>, k: nat)
    requires Run(JSON, initial, states, actions) && k < |states|
    requires forall i :: 0 <= i < k ==> !actions[i].GiveUp?
    ensures ReadsAs(JSON, initial, states[k].file, Visible(states[k]))
            <==> Rest(initial) == "" || Visible(states[k]) == []
  {
    JsonIsFaithful();
    ReadsBackWithoutErrors(JSON, initial, states, actions, k);
  }

  lemma PutOut(c: Codec, a: Appending) returns (count: nat)
    requires c.Faithful()
    ensures var line, w := c.encode(a.entry), ToWrite(c, a);
            && count <= |line| + 1 && (line + "\n")[0..count] == Text(w)
            && (w.Whole? ==> count == |line| + 1 && w == Whole(line))
            && (w.Torn? ==> count <= |line| && w == Torn(line, count))
  {
    var line, w := c.encode(a.entry), ToWrite(c, a);
    count := if w.Whole? then |line| + 1 else w.written;
    Prefixes(line, count, count);
    assert (line + "\n")[0..count] == (line + "\n")[..count];
  }

  /** An append that runs from its start to its end with nothing in between, as the steps of the machine:
      file and appends end as `IssuanceLog.Append` leaves them. */
  lemma AppendIsARun(c: Codec, s: State, id: nat, a: Appending) returns (states: seq<State>, actions: seq<Action>)
    requires c.Faithful() && s.holder.None? && id !in s.writers
    ensures |states| == |actions| + 1 && states[0] == s
    ensures forall i :: 0 <= i < |actions| ==> Step(c, states[i], actions[i], states[i + 1])
    ensures var s' := states[|actions|];
            && s'.writes == s.writes + [ToWrite(c, a)] && s'.file == s.file + Text(ToWrite(c, a))
            && s'.holder.None? && s'.entries == s.entries + if a.stop.None? then [a.entry] else []
  {
    var line, w := c.encode(a.entry), ToWrite(c, a);
    var count := PutOut(c, a);
    var s1 := s.(writers := s.writers[id := Queued(line)], submitted := s.submitted[id := a.entry]);
    var s2 := s1.(holder := Some(id), writers := s1.writers[id := Writing(line, 0)]);
    var s3 := s2.(file := s2.file + Text(w), writers := s2.writers[id := Writing(line, count)]);
    var s4 := s3.(holder := None, writers := s3.writers[id := Closed(w)], writes := s3.writes + [w],
                  entries := s3.entries + if w.Whole? then [a.entry] else []);
    states := [s, s1, s2, s3, s4];
    actions := [Submit(id, a.entry), Lock(id), Put(id, count), if w.Whole? then Finish(id) else GiveUp(id)];
  }
}
