/** One entry of the issuance log and its one-line JSON text. */
module LogEntries {
  import opened Prelude
  import opened Json

  /** A piece of a line. */
  type Piece = s: string | '\n' !in s

  /** The two time stamps are their rendered texts. */
  datatype LogEntry = LogEntry(
    timestamp: string,
    serviceName: string,
    machineId: string,
    certSerial: string,
    expiresAt: string,
    granted: bool,
    reason: Option<string>)

  const F_TIMESTAMP: Piece := "{\"timestamp\":"
  const F_SERVICE: Piece := ",\"service_name\":"
  const F_MACHINE: Piece := ",\"machine_id\":"
  const F_SERIAL: Piece := ",\"cert_serial\":"
  const F_EXPIRES: Piece := ",\"expires_at\":"
  const F_GRANTED: Piece := ",\"granted\":true"
  const F_REFUSED: Piece := ",\"granted\":false"
  const F_NO_REASON: Piece := ",\"reason\":null}"
  const F_REASON: Piece := ",\"reason\":"
  const F_END: Piece := "}"

  /** A member with a string value, and the rest of the object. */
  function Field(lit: Piece, value: string, rest: Piece): Piece
  {
    lit + (Quoted(value) + rest)
  }

  function Tail(e: LogEntry): Piece
  {
    (if e.granted then F_GRANTED else F_REFUSED)
    + (if e.reason.None? then F_NO_REASON else Field(F_REASON, e.reason.value, F_END))
  }

  /** The text of an entry, on one line. */
  function Encode(e: LogEntry): (s: string)
    ensures '\n' !in s
  {
    Field(F_TIMESTAMP, e.timestamp,
          Field(F_SERVICE, e.serviceName,
                Field(F_MACHINE, e.machineId,
                      Field(F_SERIAL, e.certSerial,
                            Field(F_EXPIRES, e.expiresAt, Tail(e))))))
  }

  function ReadField(lit: string, s: string): Option<(string, string)>
  {
    var s' :- ReadLiteral(lit, s);
    ReadQuoted(s')
  }

  function ReadReason(s: string): Option<Option<string>>
  {
    if s == F_NO_REASON then Some(None)
    else
      var (reason, end) :- ReadField(F_REASON, s);
      if end == F_END then Some(Some(reason)) else None
  }

  /** Read an entry back from a line. */
  function Decode(s: string): Option<LogEntry>
  {
    var (timestamp, s1) :- ReadField(F_TIMESTAMP, s);
    var (serviceName, s2) :- ReadField(F_SERVICE, s1);
    var (machineId, s3) :- ReadField(F_MACHINE, s2);
    var (certSerial, s4) :- ReadField(F_SERIAL, s3);
    var (expiresAt, s5) :- ReadField(F_EXPIRES, s4);
    var granted := ReadLiteral(F_GRANTED, s5);
    var s6 :- if granted.Some? then granted else ReadLiteral(F_REFUSED, s5);
    var reason :- ReadReason(s6);
    Some(LogEntry(timestamp, serviceName, machineId, certSerial, expiresAt, granted.Some?, reason))
  }

  lemma ReadBackField(lit: Piece, value: string, rest: Piece)
    ensures ReadField(lit, Field(lit, value, rest)) == Some((value, rest))
  {
    ReadBackLiteral(lit, Quoted(value) + rest);
    ReadBackQuoted(value, rest);
  }

  lemma ReadBackReason(e: LogEntry)
    ensures var r := if e.reason.None? then F_NO_REASON else Field(F_REASON, e.reason.value, F_END);
            ReadReason(r) == Some(e.reason)
  {
    if e.reason.Some? {
      ReadBackField(F_REASON, e.reason.value, F_END);
      var r := Field(F_REASON, e.reason.value, F_END);
      assert r[|F_REASON|] == QUOTE;
      assert F_NO_REASON[|F_REASON|] == 'n';
    }
  }

  /** The line of an entry holds the whole entry, whatever characters its texts contain. */
  lemma RoundTrip(e: LogEntry)
    ensures Decode(Encode(e)) == Some(e)
  {
    var r := if e.reason.None? then F_NO_REASON else Field(F_REASON, e.reason.value, F_END);
    var s5 := Tail(e);
    var s4 := Field(F_EXPIRES, e.expiresAt, s5);
    var s3 := Field(F_SERIAL, e.certSerial, s4);
    var s2 := Field(F_MACHINE, e.machineId, s3);
    var s1 := Field(F_SERVICE, e.serviceName, s2);
    ReadBackField(F_TIMESTAMP, e.timestamp, s1);
    ReadBackField(F_SERVICE, e.serviceName, s2);
    ReadBackField(F_MACHINE, e.machineId, s3);
    ReadBackField(F_SERIAL, e.certSerial, s4);
    ReadBackField(F_EXPIRES, e.expiresAt, s5);
    TailReads(e, r);
    ReadBackReason(e);
  }

  lemma TailReads(e: LogEntry, r: string)
    requires r == if e.reason.None? then F_NO_REASON else Field(F_REASON, e.reason.value, F_END)
    ensures ReadLiteral(F_GRANTED, Tail(e)) == if e.granted then Some(r) else None
    ensures !e.granted ==> ReadLiteral(F_REFUSED, Tail(e)) == Some(r)
  {
    if e.granted {
      ReadBackLiteral(F_GRANTED, r);
    } else {
      ReadBackLiteral(F_REFUSED, r);
      assert F_REFUSED[11] == 'f' && F_GRANTED[11] == 't';
      assert Tail(e)[11] == 'f';
    }
  }

  // ----- the line as a JSON object

  /** What precedes the value of a member of this name. */
  function Key(start: string, name: string): string
  {
    start + ("\"" + name + "\":")
  }

  lemma FirstKeys()
    ensures F_TIMESTAMP == Key("{", "timestamp") && F_SERVICE == Key(",", "service_name")
  {
  }

  lemma MiddleKeys()
    ensures F_MACHINE == Key(",", "machine_id") && F_SERIAL == Key(",", "cert_serial")
  {
  }

  lemma LastKeys()
    ensures F_EXPIRES == Key(",", "expires_at") && F_REASON == Key(",", "reason")
  {
  }

  lemma FlagSpelledOut()
    ensures F_GRANTED == Key(",", "granted") + "true" && F_REFUSED == Key(",", "granted") + "false"
  {
  }

  lemma NoReasonSpelledOut()
    ensures F_NO_REASON == Key(",", "reason") + ("null" + "}")
  {
  }

  lemma Regrouped(a: string, b: string, c: string)
    ensures (a + b) + c == a + (b + c)
  {
  }

  lemma TailSpelledOut(e: LogEntry)
    ensures Tail(e) == Key(",", "granted")
                       + ((if e.granted then "true" else "false")
                          + (Key(",", "reason")
                             + ((if e.reason.None? then "null" else Quoted(e.reason.value)) + "}")))
  {
    var reason := if e.reason.None? then F_NO_REASON else Field(F_REASON, e.reason.value, F_END);
    FlagSpelledOut();
    NoReasonSpelledOut();
    LastKeys();
    Regrouped(Key(",", "granted"), if e.granted then "true" else "false", reason);
  }

  /** The line of an entry is one JSON object (section 4 of RFC 8259) with the fields of the entry, by
      name and in order. */
  lemma EncodeIsObject(e: LogEntry)
    ensures Encode(e) == Key("{", "timestamp") + (Quoted(e.timestamp)
                         + (Key(",", "service_name") + (Quoted(e.serviceName)
                         + (Key(",", "machine_id") + (Quoted(e.machineId)
                         + (Key(",", "cert_serial") + (Quoted(e.certSerial)
                         + (Key(",", "expires_at") + (Quoted(e.expiresAt)
                         + (Key(",", "granted")
                            + ((if e.granted then "true" else "false")
                               + (Key(",", "reason")
                                  + ((if e.reason.None? then "null" else Quoted(e.reason.value)) + "}")))))))))))))
  {
    FirstKeys();
    MiddleKeys();
    LastKeys();
    TailSpelledOut(e);
  }

  // ----- a line that something stands in front of

  /** Every entry begins with these three characters; only the first of them opens an object. */
  predicate OpensAt(s: string, i: nat)
  {
    i + 2 < |s| && s[i] == '{' && s[i + 1] == QUOTE && s[i + 2] == 't'
  }

  ghost predicate OpensLater(s: string)
  {
    exists i: nat :: OpensAt(s, i)
  }

  /** An entry begins further on, or its opening brace and quote have just been read. */
  ghost predicate Derailed(s: string)
  {
    OpensLater(s) || (s != "" && s[0] == 't')
  }

  lemma DropKeepsOpening(s: string, i: nat, k: nat)
    requires OpensAt(s, i) && k <= i
    ensures OpensLater(s[k..])
  {
    assert OpensAt(s[k..], i - k);
  }

  /** Reading one character of a string body never steps over the opening. */
  lemma CharKeepsOpening(s: string, i: nat)
    requires OpensAt(s, i) && s[0] != QUOTE && ReadChar(s).Some?
    ensures i == 0 || OpensLater(ReadChar(s).value.1)
    ensures i == 0 ==> ReadChar(s).value.1 == s[1..]
  {
    if i > 0 {
      var rest := ReadChar(s).value.1;
      var k := |s| - |rest|;
      assert rest == s[k..] && k <= i;
      DropKeepsOpening(s, i, k);
    }
  }

  lemma {:induction false} BodyDerails(s: string)
    requires OpensLater(s) && ReadBody(s).Some?
    ensures Derailed(ReadBody(s).value.1)
    decreases |s|
  {
    var i: nat :| OpensAt(s, i);
    if s[0] == QUOTE {
      DropKeepsOpening(s, i, 1);
    } else {
      CharKeepsOpening(s, i);
      var rest := ReadChar(s).value.1;
      if i == 0 {
        assert rest[0] == QUOTE && ReadBody(rest).value.1 == rest[1..] && rest[1] == 't';
      } else {
        BodyDerails(rest);
      }
    }
  }

  /** A literal that opens no object after its first character. */
  predicate Plain(lit: string)
  {
    lit != "" && lit[0] != 't' && forall j :: 1 <= j < |lit| ==> lit[j] != '{'
  }

  lemma FieldDerails(lit: string, s: string)
    requires Plain(lit) && Derailed(s) && (lit[0] == '{' ==> exists i: nat :: i > 0 && OpensAt(s, i))
    requires ReadField(lit, s).Some?
    ensures Derailed(ReadField(lit, s).value.1)
  {
    var s' := ReadLiteral(lit, s).value;
    assert forall j :: 0 <= j < |lit| ==> s[j] == lit[j];
    var i: nat :| OpensAt(s, i) && (lit[0] == '{' ==> i > 0);
    assert OpensAt(s', i - |lit|) && i > |lit|;
    DropKeepsOpening(s', i - |lit|, 1);
    BodyDerails(s'[1..]);
  }

  lemma LiteralsArePlain()
    ensures Plain(F_TIMESTAMP) && F_TIMESTAMP[0] == '{'
    ensures forall lit :: lit in [F_SERVICE, F_MACHINE, F_SERIAL, F_EXPIRES, F_GRANTED, F_REFUSED, F_REASON] ==>
              Plain(lit) && lit[0] == ','
  {
  }

  lemma ReasonDerails(s: string)
    requires Derailed(s)
    ensures ReadReason(s) == None
  {
    LiteralsArePlain();
    assert s != F_NO_REASON by {
      assert forall j :: 0 <= j < |F_NO_REASON| ==> F_NO_REASON[j] != '{' && F_NO_REASON[0] == ',';
    }
    if ReadField(F_REASON, s).Some? {
      FieldDerails(F_REASON, s);
      assert Derailed(ReadField(F_REASON, s).value.1);
    }
  }

  lemma FlagDerails(lit: string, s: string)
    requires Plain(lit) && lit[0] == ',' && Derailed(s) && ReadLiteral(lit, s).Some?
    ensures Derailed(ReadLiteral(lit, s).value)
  {
    assert forall j :: 0 <= j < |lit| ==> s[j] == lit[j];
    var i: nat :| OpensAt(s, i);
    assert OpensAt(s[|lit|..], i - |lit|);
  }

  lemma TailDerails(s: string)
    requires Derailed(s)
    ensures ReadLiteral(F_GRANTED, s).Some? ==> ReadReason(ReadLiteral(F_GRANTED, s).value) == None
    ensures ReadLiteral(F_REFUSED, s).Some? ==> ReadReason(ReadLiteral(F_REFUSED, s).value) == None
  {
    LiteralsArePlain();
    if ReadLiteral(F_GRANTED, s).Some? {
      FlagDerails(F_GRANTED, s);
      ReasonDerails(ReadLiteral(F_GRANTED, s).value);
    }
    if ReadLiteral(F_REFUSED, s).Some? {
      FlagDerails(F_REFUSED, s);
      ReasonDerails(ReadLiteral(F_REFUSED, s).value);
    }
  }

  /** Whatever stands on a line in front of an entry, the line cannot be read. */
  lemma GluedIsUnreadable(carry: string, e: LogEntry)
    requires carry != ""
    ensures Decode(carry + Encode(e)) == None
  {
    var s := carry + Encode(e);
    EntryOpens(e);
    assert OpensAt(s, |carry|);
    if Decode(s).Some? {
      LiteralsArePlain();
      var s1 := ReadField(F_TIMESTAMP, s).value.1;
      FieldDerails(F_TIMESTAMP, s);
      var s2 := ReadField(F_SERVICE, s1).value.1;
      FieldDerails(F_SERVICE, s1);
      var s3 := ReadField(F_MACHINE, s2).value.1;
      FieldDerails(F_MACHINE, s2);
      var s4 := ReadField(F_SERIAL, s3).value.1;
      FieldDerails(F_SERIAL, s3);
      var s5 := ReadField(F_EXPIRES, s4).value.1;
      FieldDerails(F_EXPIRES, s4);
      TailDerails(s5);
    }
  }

  lemma EntryOpens(e: LogEntry)
    ensures OpensAt(Encode(e), 0)
  {
    assert F_TIMESTAMP[0] == '{' && F_TIMESTAMP[1] == QUOTE && F_TIMESTAMP[2] == 't';
  }
}
