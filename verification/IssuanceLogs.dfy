/**
  The issuance log: every grant, and every rejection by `unseal`, as one JSON line. An append may
  fail before its first character or part of the way through its line; the code only reports that.
  The code never flushes the file: that lines stand in the order in which the mutex was held assumes
  that a completed `write_all` is in the file when the mutex is released.
 */
module IssuanceLogs {
  import opened Prelude
  import opened Clocks
  import opened LogEntries
  import opened Framing

  /** How an entry is written on one line, and how a reader reads a line. */
  datatype Codec = Codec(encode: LogEntry -> string, decode: string -> Option<LogEntry>) {

    /** Entries are lines that read back. */
    ghost predicate ReadsBack() {
      forall e :: '\n' !in encode(e) && decode(encode(e)) == Some(e)
    }

    /** Nothing can be read once something stands before an entry. */
    ghost predicate BreaksWhenGlued() {
      forall carry, e :: carry != "" ==> decode(carry + encode(e)) == None
    }

    ghost predicate Faithful() {
      ReadsBack() && BreaksWhenGlued()
    }
  }

  const JSON := Codec(Encode, Decode)

  lemma JsonReadsBack()
    ensures JSON.ReadsBack()
  {
    forall e
      ensures '\n' !in JSON.encode(e) && JSON.decode(JSON.encode(e)) == Some(e)
    {
      RoundTrip(e);
    }
  }

  lemma JsonBreaksWhenGlued()
    ensures JSON.BreaksWhenGlued()
  {
    forall carry, e | carry != ""
      ensures JSON.decode(carry + JSON.encode(e)) == None
    {
      GluedIsUnreadable(carry, e);
    }
  }

  lemma JsonIsFaithful()
    ensures JSON.Faithful()
  {
    JsonReadsBack();
    JsonBreaksWhenGlued();
  }

  function Encoded(c: Codec, es: seq<LogEntry>): (lines: seq<string>)
    ensures |lines| == |es|
  {
    if es == [] then [] else Encoded(c, es[..|es| - 1]) + [c.encode(es[|es| - 1])]
  }

  function Readings(c: Codec, lines: seq<string>): (es: seq<Option<LogEntry>>)
    ensures |es| == |lines|
  {
    seq(|lines|, i requires 0 <= i < |lines| => c.decode(lines[i]))
  }

  /** What a reader makes of the complete lines of a file. */
  function ReadLog(c: Codec, file: string): seq<Option<LogEntry>>
  {
    Readings(c, Lines(file))
  }

  function Present(es: seq<LogEntry>): seq<Option<LogEntry>>
  {
    seq(|es|, i requires 0 <= i < |es| => Some(es[i]))
  }

  /** A file that held `initial` reads as before and then as exactly these entries. */
  ghost predicate ReadsAs(c: Codec, initial: string, file: string, es: seq<LogEntry>)
  {
    ReadLog(c, file) == ReadLog(c, initial) + Present(es)
  }

  lemma {:induction false} EncodedAt(c: Codec, es: seq<LogEntry>, i: nat)
    requires i < |es|
    ensures Encoded(c, es)[i] == c.encode(es[i])
  {
    if i < |es| - 1 {
      EncodedAt(c, es[..|es| - 1], i);
    }
  }

  lemma EncodedReads(c: Codec, initial: string, file: string, es: seq<LogEntry>)
    requires c.Faithful() && Lines(file) == Lines(initial) + Encoded(c, es)
    ensures ReadsAs(c, initial, file, es)
  {
    forall i | 0 <= i < |es|
      ensures c.decode(Encoded(c, es)[i]) == Some(es[i])
    {
      EncodedAt(c, es, i);
    }
    assert Readings(c, Encoded(c, es)) == Present(es);
    assert Readings(c, Lines(initial) + Encoded(c, es)) == ReadLog(c, initial) + Readings(c, Encoded(c, es));
  }

  // ----- appends

  /** One append. When writing failed, `stop` says after how many characters; an append that failed
      with its whole line out still lacks the newline. */
  datatype Appending = Appending(entry: LogEntry, stop: Option<nat>)

  function ToWrite(c: Codec, a: Appending): (w: Write)
    ensures c.Faithful() ==> Possible(w)
  {
    var line := c.encode(a.entry);
    if a.stop.None? then Whole(line) else Torn(line, if a.stop.value <= |line| then a.stop.value else |line|)
  }

  /** What a reader makes of the lines that these appends add to a file that held `initial`. */
  function Found(c: Codec, initial: string, ws: seq<Write>): seq<Option<LogEntry>>
    requires AllPossible(ws)
  {
    Readings(c, Added(initial, ws))
  }

  lemma ReadsWhatWasAdded(c: Codec, initial: string, ws: seq<Write>)
    requires AllPossible(ws)
    ensures ReadLog(c, File(initial, ws)) == ReadLog(c, initial) + Found(c, initial, ws)
  {
    SplitFile(initial, ws);
  }

  /** The line that a completed append ends reads as its entry if the file was not in the middle of a
      line, and as nothing otherwise. */
  lemma OwnLineReads(c: Codec, initial: string, ws: seq<Write>, i: nat, e: LogEntry)
    requires c.Faithful() && AllPossible(ws) && i < |ws| && ws[i] == Whole(c.encode(e))
    ensures OwnLine(ws, i) < |Found(c, initial, ws)|
    ensures Found(c, initial, ws)[OwnLine(ws, i)] == if MidLine(initial, ws[..i]) then None else Some(e)
  {
    LineOfAppend(initial, ws, i);
    RestOfFile(initial, ws[..i]);
    var carry := Rest(File(initial, ws[..i]));
    assert carry == "" ==> carry + c.encode(e) == c.encode(e);
  }

  /** The lines of these appends are the encodings of `es`; then the file reads as `es` exactly when
      nothing was glued. */
  lemma ReadsAsExactlyWhenNothingGlued(c: Codec, initial: string, ws: seq<Write>, es: seq<LogEntry>)
    requires c.Faithful() && AllPossible(ws) && Completed(ws) == Encoded(c, es)
    ensures NothingGlued(initial, ws) <==> ReadsAs(c, initial, File(initial, ws), es)
  {
    GluedExactlyWhen(initial, ws);
    SplitFile(initial, ws);
    ReadsWhatWasAdded(c, initial, ws);
    if NothingGlued(initial, ws) {
      EncodedReads(c, initial, File(initial, ws), es);
    }
    if ReadsAs(c, initial, File(initial, ws), es) {
      var before := ReadLog(c, initial);
      assert (before + Found(c, initial, ws))[|before|..] == Found(c, initial, ws);
      assert (before + Present(es))[|before|..] == Present(es);
      forall n | 0 <= n < |es|
        ensures Added(initial, ws)[n] == Completed(ws)[n]
      {
        assert Found(c, initial, ws)[n] == Some(es[n]);
        ReadableLineIsWhole(c, initial, ws, es, n);
      }
    }
  }

  lemma ReadableLineIsWhole(c: Codec, initial: string, ws: seq<Write>, es: seq<LogEntry>, n: nat)
    requires c.Faithful() && AllPossible(ws) && Completed(ws) == Encoded(c, es) && n < |es|
    requires c.decode(Added(initial, ws)[n]).Some?
    ensures Added(initial, ws)[n] == Completed(ws)[n]
  {
    var i := AppendOfLine(initial, ws, n);
    LineOfAppend(initial, ws, i);
    EncodedAt(c, es, n);
    var carry := Rest(File(initial, ws[..i]));
    assert Added(initial, ws)[n] == carry + c.encode(es[n]);
    if carry == "" {
      assert carry + c.encode(es[n]) == c.encode(es[n]);
    }
  }

  /** The entry grants this service on this machine the serial, and is stamped with time `at`; `render`
      is how time stamps are written. */
  ghost predicate GrantOf(e: LogEntry, render: nat -> string, serviceName: string, machineId: string,
                          certSerial: string, expiresAt: nat, at: nat)
  {
    && e.granted && e.reason.None? && e.certSerial == certSerial
    && e.serviceName == serviceName && e.machineId == machineId
    && e.timestamp == render(at) && e.expiresAt == render(expiresAt)
  }

  /** The entry refuses them for this reason, and is stamped between times `t0` and `t1`. Its second time
      stamp, that of `t1`, means nothing. */
  ghost predicate RejectionOf(e: LogEntry, render: nat -> string, serviceName: string, machineId: string,
                              reason: string, t0: nat, t1: nat)
  {
    && !e.granted && e.reason == Some(reason) && e.certSerial == ""
    && e.serviceName == serviceName && e.machineId == machineId
    && (exists at: nat :: t0 <= at <= t1 && e.timestamp == render(at)) && e.expiresAt == render(t1)
  }

  /** One append was made, of this entry. */
  ghost predicate Appended(c: Codec, e: LogEntry, stop: Option<nat>, writes: seq<Write>, writes': seq<Write>)
  {
    writes' == writes + [ToWrite(c, Appending(e, stop))]
  }

  class IssuanceLog {
    var file: string
    /** What was in the file before the first append. */
    ghost const initial: string
    ghost var writes: seq<Write>
    /** How `chrono` renders a time stamp. */
    const render: nat -> string
    const codec: Codec

    constructor (file: string, render: nat -> string, codec: Codec)
      requires codec.Faithful()
      ensures Valid() && this.file == initial == file && writes == []
      ensures this.render == render && this.codec == codec
    {
      this.file := file;
      initial := file;
      writes := [];
      this.render := render;
      this.codec := codec;
    }

    ghost predicate Valid()
      reads this
    {
      codec.Faithful() && AllPossible(writes) && file == File(initial, writes)
    }

    /** Append one line; `stop` says how many characters are written when that fails. */
    method Append(entry: LogEntry, stop: Option<nat>)
      requires Valid()
      modifies this
      ensures Valid()
      ensures Appended(codec, entry, stop, old(writes), writes)
      ensures old(file) <= file
      // what is put out
      ensures stop.None? ==> file == old(file) + codec.encode(entry) + "\n"
      ensures stop.Some? && stop.value <= |codec.encode(entry)| ==>
                file == old(file) + codec.encode(entry)[..stop.value]
    {
      var line := codec.encode(entry);
      ghost var write := ToWrite(codec, Appending(entry, stop));
      AppendOne(initial, writes, write);
      if stop.None? {
        assert file + (line + "\n") == file + line + "\n";
        file := file + (line + "\n");
      } else {
        var written := if stop.value <= |line| then stop.value else |line|;
        file := file + line[..written];
      }
      writes := writes + [write];
    }

    method RecordGrant(serviceName: string, machineId: string, certSerial: string, expiresAt: nat,
                       stop: Option<nat>, clock: Clock)
      requires Valid()
      modifies this, clock
      ensures Valid() && old(clock.now) <= clock.now && old(file) <= file
      ensures exists e ::
                && GrantOf(e, render, serviceName, machineId, certSerial, expiresAt, clock.now)
                && Appended(codec, e, stop, old(writes), writes)
    {
      var now := clock.Read();
      var entry := LogEntry(render(now), serviceName, machineId, certSerial, render(expiresAt), true, None);
      Append(entry, stop);
      assert GrantOf(entry, render, serviceName, machineId, certSerial, expiresAt, clock.now);
      assert Appended(codec, entry, stop, old(writes), writes);
    }

    /** A rejection reads the clock twice, once for each of its time stamps. */
    method RecordRejection(serviceName: string, machineId: string, reason: string, stop: Option<nat>, clock: Clock)
      requires Valid()
      modifies this, clock
      ensures Valid() && old(clock.now) <= clock.now && old(file) <= file
      ensures exists e ::
                && RejectionOf(e, render, serviceName, machineId, reason, old(clock.now), clock.now)
                && Appended(codec, e, stop, old(writes), writes)
    {
      var timestamp := clock.Read();
      var expiresAt := clock.Read();
      var entry := LogEntry(render(timestamp), serviceName, machineId, "", render(expiresAt), false, Some(reason));
      Append(entry, stop);
      assert RejectionOf(entry, render, serviceName, machineId, reason, old(clock.now), clock.now);
      assert Appended(codec, entry, stop, old(writes), writes);
    }
  }
}
