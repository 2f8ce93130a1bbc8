/**
 * The entries `send_commands_in` (scpi.py) replays: iterating over a text
 * file yields its lines in order, each still ending in the line terminator
 * (only a last line without one lacks it). The text here is the file's
 * content after decoding and newline translation.
 */
module CommandFile {
  import opened PyText
  import opened Framing
  import opened CommandReplay

  /** `s` holds no line terminator. */
  predicate HasNoEnd(s: string) {
    forall i :: 0 <= i < |s| ==> s[i] != End
  }

  /** The length of the first line of `text`, its terminator included. */
  function LineLength(text: string): (k: nat)
    requires text != []
    ensures 0 < k <= |text|
    ensures HasNoEnd(text[..k - 1])
    ensures text[k - 1] == End || k == |text|
  {
    if text[0] == End || |text| == 1 then 1 else 1 + LineLength(text[1..])
  }

  /** The lines of a file, as `for line in f` yields them. */
  function Lines(text: string): seq<string>
    decreases |text|
  {
    if text == [] then [] else [text[..LineLength(text)]] + Lines(text[LineLength(text)..])
  }

  function Concat(lines: seq<string>): string {
    if lines == [] then [] else lines[0] + Concat(lines[1..])
  }

  /** The file whose lines are `commands`, each followed by the terminator. */
  function Terminated(commands: seq<string>): seq<string> {
    if commands == [] then [] else [commands[0] + [End]] + Terminated(commands[1..])
  }

  /** Splitting into lines loses nothing and adds nothing. */
  lemma {:induction false} ConcatLines(text: string)
    ensures Concat(Lines(text)) == text
  {
    if text != [] {
      var k := LineLength(text);
      ConcatLines(text[k..]);
      assert text[..k] + text[k..] == text;
    }
  }

  /** Every line is non-empty and holds the terminator at most once, at its
      end; every line but the last ends in it. */
  lemma {:induction false} LinesAreLines(text: string)
    ensures var ls := Lines(text);
            forall j :: 0 <= j < |ls| ==>
              && ls[j] != []
              && HasNoEnd(ls[j][..|ls[j]| - 1])
              && (j < |ls| - 1 ==> EndsWith(ls[j], End))
  {
    if text != [] {
      var k := LineLength(text);
      LinesAreLines(text[k..]);
      var ls := Lines(text);
      assert ls == [text[..k]] + Lines(text[k..]);
      forall j | 0 <= j < |ls|
        ensures ls[j] != [] && HasNoEnd(ls[j][..|ls[j]| - 1])
        ensures j < |ls| - 1 ==> EndsWith(ls[j], End)
      {
        if j == 0 {
          if 0 < |ls| - 1 {
            assert text[k..] != [];
          }
        } else {
          assert ls[j] == Lines(text[k..])[j - 1];
        }
      }
    }
  }

  lemma FirstLineOf(c: string, rest: string)
    requires HasNoEnd(c)
    ensures LineLength(c + [End] + rest) == |c| + 1
    ensures (c + [End] + rest)[..|c| + 1] == c + [End]
    ensures (c + [End] + rest)[|c| + 1..] == rest
  {
    var t := c + [End] + rest;
    var k := LineLength(t);
    assert t[|c|] == End;
  }

  /** A file written as `commands`, one per line, reads back as those
      commands each with its terminator. */
  lemma {:induction false} LinesOfTerminated(commands: seq<string>)
    requires forall k :: 0 <= k < |commands| ==> HasNoEnd(commands[k])
    ensures Lines(Concat(Terminated(commands))) == Terminated(commands)
  {
    if commands != [] {
      var c, rest := commands[0], commands[1..];
      var tail := Concat(Terminated(rest));
      assert Concat(Terminated(commands)) == c + [End] + tail;
      FirstLineOf(c, tail);
      LinesOfTerminated(rest);
    }
  }

  lemma TerminatedEntryEvents(c: string, autorecv: bool)
    requires c != []
    ensures EntryEvents(c + [End], autorecv) == EntryEvents(c, false)
  {
    StripAppendSpace(c, End);
    assert (c + [End])[0] == c[0];
  }

  /** Replaying a file of non-empty single-line commands sends what the
      list of those commands sends, but never receives: each line, as
      given, ends in the terminator and not in `?`. */
  lemma {:induction false} FileReplayNeverReceives(commands: seq<string>, autorecv: bool)
    requires forall k :: 0 <= k < |commands| ==> commands[k] != [] && HasNoEnd(commands[k])
    ensures Trace(Lines(Concat(Terminated(commands))), autorecv) == Trace(commands, false)
  {
    LinesOfTerminated(commands);
    TerminatedTrace(commands, autorecv);
  }

  lemma {:induction false} TerminatedTrace(commands: seq<string>, autorecv: bool)
    requires forall k :: 0 <= k < |commands| ==> commands[k] != []
    ensures Trace(Terminated(commands), autorecv) == Trace(commands, false)
  {
    if commands != [] {
      TerminatedEntryEvents(commands[0], autorecv);
      TerminatedTrace(commands[1..], autorecv);
    }
  }

  /** The file holding `*RST` and `*CLS`, one per line. */
  lemma ResetClearFile()
    ensures Concat(Terminated(["*RST", "*CLS"])) == "*RST\n*CLS\n"
    ensures Lines("*RST\n*CLS\n") == ["*RST\n", "*CLS\n"]
  {
    var cs := ["*RST", "*CLS"];
    assert cs[1..] == ["*CLS"] && cs[1..][1..] == [];
    assert "*RST" + [End] == "*RST\n" && "*CLS" + [End] == "*CLS\n";
    assert Terminated(cs) == ["*RST\n", "*CLS\n"];
    var ls := ["*RST\n", "*CLS\n"];
    assert ls[1..] == ["*CLS\n"] && ls[1..][1..] == [];
    assert Concat(ls) == "*RST\n*CLS\n";
    LinesOfTerminated(cs);
  }

  lemma ResetClearList(autorecv: bool)
    ensures Trace(["*RST", "*CLS"], autorecv) == [Send("*RST"), Send("*CLS")]
  {
    var cs := ["*RST", "*CLS"];
    assert cs[1..] == ["*CLS"] && cs[1..][1..] == [];
    assert Strip("*RST") == "*RST";
    assert EntryEvents("*RST", autorecv) == [Send("*RST")];
    assert Strip("*CLS") == "*CLS";
    assert EntryEvents("*CLS", autorecv) == [Send("*CLS")];
    assert Trace(["*CLS"], autorecv) == [Send("*CLS")];
    assert Trace(cs, autorecv) == [Send("*RST")] + Trace(["*CLS"], autorecv);
  }

  lemma ResetClearSingleLines()
    ensures var cs := ["*RST", "*CLS"];
            forall k :: 0 <= k < |cs| ==> cs[k] != [] && HasNoEnd(cs[k])
  {
  }

  /** The equivalence the documentation of `send_commands_in` states: a file
      holding `*RST` and `*CLS` sends what `["*RST", "*CLS"]` sends. */
  lemma DocumentedEquivalence()
    ensures Trace(Lines("*RST\n*CLS\n"), true) == Trace(["*RST", "*CLS"], true)
    ensures Trace(["*RST", "*CLS"], true) == [Send("*RST"), Send("*CLS")]
  {
    var cs := ["*RST", "*CLS"];
    ResetClearFile();
    ResetClearSingleLines();
    FileReplayNeverReceives(cs, true);
    ResetClearList(true);
    ResetClearList(false);
  }

  // ----- file lines keep their terminator -----

  /** As written, a file line keeps its terminator through the filter: a
      blank line is sent as the empty command, where the empty entry of a
      list is skipped. */
  lemma BlankFileLineIsSent(autorecv: bool)
    ensures Trace(["\n"], autorecv) == [Send("")]
    ensures Trace([""], autorecv) == []
  {
  }

  /** As written, a file line keeps its terminator through the `?` test: a
      query line is sent without the receive its list form gets. */
  lemma QueryFileLineIsNotAnswered()
    ensures Trace(["SYST:ERR?\n"], true) == [Send("SYST:ERR?")]
    ensures Trace(["SYST:ERR?"], true) == [Send("SYST:ERR?"), Recv]
  {
    assert "SYST:ERR?" + [End] == "SYST:ERR?\n";
    StripAppendSpace("SYST:ERR?", End);
    assert Strip("SYST:ERR?") == "SYST:ERR?";
    assert EntryEvents("SYST:ERR?\n", true) == [Send("SYST:ERR?")];
    assert EntryEvents("SYST:ERR?", true) == [Send("SYST:ERR?"), Recv];
    assert ["SYST:ERR?\n"][1..] == [] && ["SYST:ERR?"][1..] == [];
  }

  lemma ScenarioTerminated()
    ensures Terminated(["*RST", "", "#comment", "SYST:ERR?"]) == ["*RST\n", "\n", "#comment\n", "SYST:ERR?\n"]
  {
    var cs := ["*RST", "", "#comment", "SYST:ERR?"];
    assert cs[1..] == ["", "#comment", "SYST:ERR?"];
    assert cs[1..][1..] == ["#comment", "SYST:ERR?"];
    assert cs[1..][1..][1..] == ["SYST:ERR?"];
    assert "*RST" + [End] == "*RST\n" && "" + [End] == "\n";
    assert "#comment" + [End] == "#comment\n" && "SYST:ERR?" + [End] == "SYST:ERR?\n";
  }

  lemma ScenarioConcat()
    ensures Concat(["*RST\n", "\n", "#comment\n", "SYST:ERR?\n"]) == "*RST\n\n#comment\nSYST:ERR?\n"
  {
  }

  lemma ScenarioFileLines()
    ensures Lines("*RST\n\n#comment\nSYST:ERR?\n") == ["*RST\n", "\n", "#comment\n", "SYST:ERR?\n"]
  {
    var cs := ["*RST", "", "#comment", "SYST:ERR?"];
    ScenarioTerminated();
    ScenarioConcat();
    assert forall k :: 0 <= k < |cs| ==> HasNoEnd(cs[k]);
    LinesOfTerminated(cs);
  }

  lemma ScenarioFileTrace()
    ensures Trace(["*RST\n", "\n", "#comment\n", "SYST:ERR?\n"], true)
         == [Send("*RST"), Send(""), Send("SYST:ERR?")]
  {
    var ls := ["*RST\n", "\n", "#comment\n", "SYST:ERR?\n"];
    assert "*RST" + [End] == ls[0];
    StripAppendSpace("*RST", End);
    assert Strip("*RST") == "*RST";
    assert Strip("\n") == Strip("\n"[1..]);
    assert ls[1..] == ["\n", "#comment\n", "SYST:ERR?\n"];
    assert ls[1..][1..] == ["#comment\n", "SYST:ERR?\n"];
    assert ls[1..][1..][1..] == ["SYST:ERR?\n"];
    QueryFileLineIsNotAnswered();
  }

  /** The same four commands written one per line in a file: the blank
      line becomes an empty command and the error query goes unanswered. */
  lemma ResetThenErrorQueryFile()
    ensures Trace(Lines("*RST\n\n#comment\nSYST:ERR?\n"), true)
         == [Send("*RST"), Send(""), Send("SYST:ERR?")]
  {
    ScenarioFileLines();
    ScenarioFileTrace();
  }

  /** A line without its terminator (one trailing terminator dropped). */
  function Chomp(line: string): string {
    if EndsWith(line, End) then line[..|line| - 1] else line
  }

  function ChompAll(lines: seq<string>): seq<string> {
    if lines == [] then [] else [Chomp(lines[0])] + ChompAll(lines[1..])
  }

  /** The entries a command file evidently stands for: its lines without
      their terminators. */
  function FileEntries(text: string): seq<string> {
    ChompAll(Lines(text))
  }

  lemma {:induction false} ChompTerminated(commands: seq<string>)
    ensures ChompAll(Terminated(commands)) == commands
  {
    if commands != [] {
      ChompTerminated(commands[1..]);
      assert (commands[0] + [End])[..|commands[0]|] == commands[0];
    }
  }

  /** With terminators dropped, replaying a file of single-line commands is
      replaying the list of those commands, receives and skips included. */
  lemma CorrectedFileMatchesList(commands: seq<string>, autorecv: bool)
    requires forall k :: 0 <= k < |commands| ==> HasNoEnd(commands[k])
    ensures Trace(FileEntries(Concat(Terminated(commands))), autorecv) == Trace(commands, autorecv)
  {
    LinesOfTerminated(commands);
    ChompTerminated(commands);
  }
}
