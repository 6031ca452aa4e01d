/**
  Newline framing of an append-only file that may have had contents before. One append adds a line
  and its newline, or stops part of the way through. The file is a text here; in UTF-8 the newline
  byte stands for the newline character alone.
 */
module Framing {

  /** One append, in lock order: the whole line, or only its first `written` characters. */
  datatype Write = Whole(line: string) | Torn(line: string, written: nat)

  /** Lines hold no newline, and a torn write stops before the end of its line and newline. */
  predicate Possible(w: Write)
  {
    && '\n' !in w.line
    && (w.Torn? ==> w.written <= |w.line|)
  }

  predicate AllPossible(ws: seq<Write>)
  {
    forall i :: 0 <= i < |ws| ==> Possible(ws[i])
  }

  function Text(w: Write): string
    requires Possible(w)
  {
    match w
    case Whole(line) => line + "\n"
    case Torn(line, k) => line[..k]
  }

  /** The file after these appends, with `initial` in it before the first. */
  function File(initial: string, ws: seq<Write>): string
    requires AllPossible(ws)
  {
    if ws == [] then initial else File(initial, ws[..|ws| - 1]) + Text(ws[|ws| - 1])
  }

  /** The lines of the completed appends. */
  function Completed(ws: seq<Write>): seq<string>
  {
    if ws == [] then []
    else Completed(ws[..|ws| - 1]) + if ws[|ws| - 1].Whole? then [ws[|ws| - 1].line] else []
  }

  /** The complete lines of a text. */
  function Lines(s: string): seq<string>
  {
    if s == "" then []
    else if s[|s| - 1] == '\n' then Lines(s[..|s| - 1]) + [Rest(s[..|s| - 1])]
    else Lines(s[..|s| - 1])
  }

  /** What follows the last newline of a text. */
  function Rest(s: string): string
  {
    if s == "" || s[|s| - 1] == '\n' then "" else Rest(s[..|s| - 1]) + [s[|s| - 1]]
  }

  lemma OneMore(s: string, c: char)
    ensures Rest(s + [c]) == if c == '\n' then "" else Rest(s) + [c]
    ensures Lines(s + [c]) == Lines(s) + if c == '\n' then [Rest(s)] else []
  {
    var all := s + [c];
    assert all[|all| - 1] == c && all[..|all| - 1] == s;
  }

  lemma SplitOneMore(s: string, init: string, last: char)
    requires last != '\n' && Lines(s + init) == Lines(s) && Rest(s + init) == Rest(s) + init
    ensures var t := init + [last]; Lines(s + t) == Lines(s) && Rest(s + t) == Rest(s) + t
  {
    OneMore(s + init, last);
    assert s + (init + [last]) == (s + init) + [last];
    assert Rest(s) + (init + [last]) == (Rest(s) + init) + [last];
  }

  lemma {:induction false} SplitPrefix(s: string, t: string, k: nat)
    requires '\n' !in t && k <= |t|
    ensures Lines(s + t[..k]) == Lines(s) && Rest(s + t[..k]) == Rest(s) + t[..k]
  {
    if k == 0 {
      assert s + t[..k] == s && Rest(s) + t[..k] == Rest(s);
    } else {
      SplitPrefix(s, t, k - 1);
      SplitOneMore(s, t[..k - 1], t[k - 1]);
      assert t[..k] == t[..k - 1] + [t[k - 1]];
    }
  }

  lemma SplitMore(s: string, t: string)
    requires '\n' !in t
    ensures Lines(s + t) == Lines(s) && Rest(s + t) == Rest(s) + t
  {
    SplitPrefix(s, t, |t|);
    assert t[..|t|] == t;
  }

  lemma SplitLine(s: string, line: string)
    requires '\n' !in line
    ensures Lines(s + (line + "\n")) == Lines(s) + [Rest(s) + line]
    ensures Rest(s + (line + "\n")) == ""
  {
    SplitMore(s, line);
    OneMore(s + line, '\n');
    assert s + (line + "\n") == (s + line) + ['\n'];
  }

  // ----- the lines that appends add

  /** Characters of the append are in the file, but not its newline. */
  predicate StopsInside(w: Write)
  {
    w.Torn? && w.written > 0
  }

  /** The file stops inside a line: the last thing put into it, by an append or before them all, is
      not a newline. */
  ghost predicate MidLine(initial: string, ws: seq<Write>)
  {
    || (Rest(initial) != "" && forall j :: 0 <= j < |ws| ==> ws[j].Torn?)
    || exists i :: 0 <= i < |ws| && StopsInside(ws[i]) && forall j :: i < j < |ws| ==> ws[j].Torn?
  }

  lemma MidLineStep(initial: string, ws: seq<Write>, w: Write)
    ensures MidLine(initial, ws + [w]) <==> w.Torn? && (StopsInside(w) || MidLine(initial, ws))
  {
    var all := ws + [w];
    assert all[|ws|] == w;
    assert forall i :: 0 <= i < |ws| ==> all[i] == ws[i];
    if w.Torn? && MidLine(initial, ws) && !(Rest(initial) != "" && forall j :: 0 <= j < |ws| ==> ws[j].Torn?) {
      var i :| 0 <= i < |ws| && StopsInside(ws[i]) && forall j :: i < j < |ws| ==> ws[j].Torn?;
      assert StopsInside(all[i]) && forall j :: i < j < |all| ==> all[j].Torn?;
    }
    if StopsInside(w) {
      assert StopsInside(all[|ws|]);
    }
  }

  lemma {:induction false} RestOfFile(initial: string, ws: seq<Write>)
    requires AllPossible(ws)
    ensures Rest(File(initial, ws)) != "" <==> MidLine(initial, ws)
  {
    if ws != [] {
      var init, last := ws[..|ws| - 1], ws[|ws| - 1];
      RestOfFile(initial, init);
      MidLineStep(initial, init, last);
      assert ws == init + [last];
      if last.Whole? {
        SplitLine(File(initial, init), last.line);
      } else {
        SplitMore(File(initial, init), last.line[..last.written]);
      }
    }
  }

  /** The lines that these appends add. A completed append ends the line that the file stopped in. */
  function Added(initial: string, ws: seq<Write>): (lines: seq<string>)
    requires AllPossible(ws)
    ensures |lines| == |Completed(ws)|
  {
    if ws == [] then []
    else
      var init, last := ws[..|ws| - 1], ws[|ws| - 1];
      Added(initial, init) + if last.Whole? then [Rest(File(initial, init)) + last.line] else []
  }

  lemma {:induction false} SplitFile(initial: string, ws: seq<Write>)
    requires AllPossible(ws)
    ensures Lines(File(initial, ws)) == Lines(initial) + Added(initial, ws)
  {
    if ws != [] {
      var init, last := ws[..|ws| - 1], ws[|ws| - 1];
      SplitFile(initial, init);
      if last.Whole? {
        var own := [Rest(File(initial, init)) + last.line];
        SplitLine(File(initial, init), last.line);
        assert Lines(initial) + (Added(initial, init) + own) == (Lines(initial) + Added(initial, init)) + own;
      } else {
        assert Added(initial, ws) == Added(initial, init);
        SplitMore(File(initial, init), last.line[..last.written]);
      }
    }
  }

  /** The line that a completed append ends, counted from the first line added. */
  function OwnLine(ws: seq<Write>, i: nat): nat
    requires i < |ws|
  {
    |Completed(ws[..i])|
  }

  lemma {:induction false} LineOfAppend(initial: string, ws: seq<Write>, i: nat)
    requires AllPossible(ws) && i < |ws| && ws[i].Whole?
    ensures OwnLine(ws, i) < |Added(initial, ws)|
    ensures Added(initial, ws)[OwnLine(ws, i)] == Rest(File(initial, ws[..i])) + ws[i].line
    ensures Completed(ws)[OwnLine(ws, i)] == ws[i].line
  {
    var init := ws[..|ws| - 1];
    if i < |ws| - 1 {
      LineOfAppend(initial, init, i);
      assert init[..i] == ws[..i];
    }
  }

  /** Every line added is the own line of a completed append. */
  lemma {:induction false} AppendOfLine(initial: string, ws: seq<Write>, n: nat) returns (i: nat)
    requires AllPossible(ws) && n < |Added(initial, ws)|
    ensures i < |ws| && ws[i].Whole? && OwnLine(ws, i) == n
  {
    var init, last := ws[..|ws| - 1], ws[|ws| - 1];
    if n < |Added(initial, init)| {
      i := AppendOfLine(initial, init, n);
      assert init[..i] == ws[..i];
    } else {
      i := |ws| - 1;
    }
  }

  // ----- exactly when the whole file can be read back

  /** Every line appended starts a line of its own: the file did not stop inside a line before the
      appends, and no append that stopped inside its line comes before one that completed. */
  ghost predicate NothingGlued(initial: string, ws: seq<Write>)
  {
    && (Rest(initial) != "" ==> forall j :: 0 <= j < |ws| ==> ws[j].Torn?)
    && forall i, j :: 0 <= i < j < |ws| && StopsInside(ws[i]) ==> ws[j].Torn?
  }

  ghost predicate SomeUnfinished(initial: string, ws: seq<Write>)
  {
    Rest(initial) != "" || exists i :: 0 <= i < |ws| && StopsInside(ws[i])
  }

  lemma GluedStep(initial: string, ws: seq<Write>, w: Write)
    ensures NothingGlued(initial, ws + [w])
            <==> NothingGlued(initial, ws) && (SomeUnfinished(initial, ws) ==> w.Torn?)
    ensures SomeUnfinished(initial, ws + [w]) <==> SomeUnfinished(initial, ws) || StopsInside(w)
  {
    var all := ws + [w];
    assert all[|ws|] == w;
    assert forall i :: 0 <= i < |ws| ==> all[i] == ws[i];
  }

  lemma AppendedLine(lines: seq<string>, expected: seq<string>, carry: string, line: string)
    requires |lines| == |expected|
    ensures lines + [carry + line] == expected + [line] <==> lines == expected && carry == ""
  {
    var left, right := lines + [carry + line], expected + [line];
    if left == right {
      assert left[..|lines|] == lines && right[..|lines|] == expected;
      assert carry + line == left[|lines|] == right[|lines|] == line;
      assert |carry| == 0;
    }
    if carry == "" {
      assert carry + line == line;
    }
  }

  lemma {:induction false} GluedExactlyWhen(initial: string, ws: seq<Write>)
    requires AllPossible(ws)
    ensures NothingGlued(initial, ws) <==> Added(initial, ws) == Completed(ws)
    ensures NothingGlued(initial, ws) ==> (SomeUnfinished(initial, ws) <==> Rest(File(initial, ws)) != "")
  {
    if ws != [] {
      var init, last := ws[..|ws| - 1], ws[|ws| - 1];
      GluedExactlyWhen(initial, init);
      GluedStep(initial, init, last);
      assert ws == init + [last];
      if last.Whole? {
        SplitLine(File(initial, init), last.line);
        AppendedLine(Added(initial, init), Completed(init), Rest(File(initial, init)), last.line);
      } else {
        assert Added(initial, ws) == Added(initial, init) && Completed(ws) == Completed(init);
        SplitMore(File(initial, init), last.line[..last.written]);
      }
    }
  }

  /** The complete lines of the file are those it had before and then exactly the completed appends
      in order if and only if the file did not stop inside a line at first, and no append that stopped
      inside its line precedes a completed one. */
  lemma ReadableExactlyWhenNothingGlued(initial: string, ws: seq<Write>)
    requires AllPossible(ws)
    ensures NothingGlued(initial, ws) <==> Lines(File(initial, ws)) == Lines(initial) + Completed(ws)
  {
    SplitFile(initial, ws);
    GluedExactlyWhen(initial, ws);
    assert (Lines(initial) + Added(initial, ws))[|Lines(initial)|..] == Added(initial, ws);
    assert (Lines(initial) + Completed(ws))[|Lines(initial)|..] == Completed(ws);
  }

  lemma AppendOne(initial: string, ws: seq<Write>, w: Write)
    requires AllPossible(ws) && Possible(w)
    ensures AllPossible(ws + [w]) && File(initial, ws + [w]) == File(initial, ws) + Text(w)
    ensures Added(initial, ws + [w])
            == Added(initial, ws) + if w.Whole? then [Rest(File(initial, ws)) + w.line] else []
  {
    var all := ws + [w];
    assert all[..|all| - 1] == ws && all[|all| - 1] == w;
  }

  /** One append stopped after its first character swallows the line of the next. */
  lemma TornWriteLosesNextLine(initial: string, line: string, next: string)
    requires Rest(initial) == ""
    requires line != "" && '\n' !in line && '\n' !in next
    ensures var ws := [Torn(line, 1), Whole(next)];
            AllPossible(ws) && Added(initial, ws) == [line[..1] + next] && [line[..1] + next] != [next]
  {
    var first, last := Torn(line, 1), Whole(next);
    AppendOne(initial, [], first);
    AppendOne(initial, [first], last);
    assert [] + [first] == [first] && [first] + [last] == [first, last];
    SplitMore(initial, line[..1]);
    assert Added(initial, []) == [] && Rest(initial) + line[..1] == line[..1];
    assert |line[..1] + next| == 1 + |next|;
    assert [line[..1] + next][0] != [next][0];
  }
}
