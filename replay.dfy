/**
 * What `send_commands` (scpi.py) does on the connection, as a trace of
 * actions: for each entry, in order, nothing when the entry is empty or
 * starts with `#`; otherwise one send of the stripped entry, followed by
 * one receive when `autorecv` is set and the entry, as given, ends in `?`.
 *
 * `Trace` is that trace when every send and receive succeeds; `Replay` is
 * the run as the code performs it, which stops at the first send whose text
 * ASCII cannot encode, or at the first receive that finds no reply or a
 * reply ASCII cannot decode.
 */
module CommandReplay {
  import opened Wrappers
  import opened PyText
  import opened Framing

  /** One action on the connection. */
  datatype Event = Send(command: string) | Recv

  /** The `commands` argument, `Union[Sequence[str], str]`. */
  datatype Commands = Single(command: string) | Many(commands: seq<string>)

  /** A single string is taken as the one-element sequence holding it. */
  function Entries(c: Commands): seq<string> {
    match c
    case Single(s) => [s]
    case Many(ss) => ss
  }

  /** `not command or command.startswith("#")`, tested on the entry as given. */
  predicate Skipped(entry: string) {
    entry == [] || StartsWith(entry, '#')
  }

  /** `autorecv and command.endswith("?")`, tested on the entry as given. */
  predicate Receives(entry: string, autorecv: bool) {
    autorecv && EndsWith(entry, '?')
  }

  /** The actions one entry causes when nothing fails. */
  function EntryEvents(entry: string, autorecv: bool): seq<Event> {
    if Skipped(entry) then []
    else [Send(Strip(entry))] + (if Receives(entry, autorecv) then [Recv] else [])
  }

  /** The actions `send_commands` performs when nothing fails. */
  function Trace(entries: seq<string>, autorecv: bool): seq<Event> {
    if entries == [] then [] else EntryEvents(entries[0], autorecv) + Trace(entries[1..], autorecv)
  }

  /** The entries that are not skipped, in input order. */
  function Kept(entries: seq<string>): seq<string> {
    if entries == [] then []
    else (if Skipped(entries[0]) then [] else [entries[0]]) + Kept(entries[1..])
  }

  function StripAll(ss: seq<string>): seq<string> {
    if ss == [] then [] else [Strip(ss[0])] + StripAll(ss[1..])
  }

  /** The texts sent, in order. */
  function Sends(trace: seq<Event>): seq<string> {
    if trace == [] then []
    else (if trace[0].Send? then [trace[0].command] else []) + Sends(trace[1..])
  }

  function CountRecv(trace: seq<Event>): nat {
    if trace == [] then 0 else (if trace[0] == Recv then 1 else 0) + CountRecv(trace[1..])
  }

  /** The number of entries that are followed by a receive. */
  function QueryCount(entries: seq<string>, autorecv: bool): nat {
    if entries == [] then 0
    else (if !Skipped(entries[0]) && Receives(entries[0], autorecv) then 1 else 0)
         + QueryCount(entries[1..], autorecv)
  }

  // ----- the trace when nothing fails -----

  lemma {:induction false} TraceAppend(xs: seq<string>, ys: seq<string>, autorecv: bool)
    ensures Trace(xs + ys, autorecv) == Trace(xs, autorecv) + Trace(ys, autorecv)
  {
    if xs == [] {
      assert xs + ys == ys;
    } else {
      assert (xs + ys)[0] == xs[0];
      assert (xs + ys)[1..] == xs[1..] + ys;
      TraceAppend(xs[1..], ys, autorecv);
    }
  }

  /** The actions of entry `i` form one contiguous block, after those of
      every earlier entry and before those of every later one. */
  lemma TraceSplitAt(entries: seq<string>, autorecv: bool, i: nat)
    requires i < |entries|
    ensures Trace(entries, autorecv)
         == Trace(entries[..i], autorecv) + EntryEvents(entries[i], autorecv)
            + Trace(entries[i + 1..], autorecv)
  {
    assert entries == entries[..i] + ([entries[i]] + entries[i + 1..]);
    TraceAppend(entries[..i], [entries[i]] + entries[i + 1..], autorecv);
    assert ([entries[i]] + entries[i + 1..])[1..] == entries[i + 1..];
  }

  /** A skipped entry causes no action at all: the trace is the one of the
      other entries. */
  lemma SkippedEntryIsInvisible(entries: seq<string>, autorecv: bool, i: nat)
    requires i < |entries| && Skipped(entries[i])
    ensures Trace(entries, autorecv) == Trace(entries[..i] + entries[i + 1..], autorecv)
  {
    TraceSplitAt(entries, autorecv, i);
    TraceAppend(entries[..i], entries[i + 1..], autorecv);
  }

  /** No entry's actions begin with a receive. */
  lemma {:induction false} TraceStartsWithSend(entries: seq<string>, autorecv: bool)
    ensures Trace(entries, autorecv) != [] ==> Trace(entries, autorecv)[0].Send?
  {
    if entries != [] && Skipped(entries[0]) {
      TraceStartsWithSend(entries[1..], autorecv);
    }
  }

  /** A kept entry `i` is sent, stripped, at the position after the actions
      of the entries before it; the very next action is a receive exactly
      when `autorecv` is set and the entry as given ends in `?`. */
  lemma EntryActionsAt(entries: seq<string>, autorecv: bool, i: nat)
    requires i < |entries| && !Skipped(entries[i])
    ensures var t, p := Trace(entries, autorecv), |Trace(entries[..i], autorecv)|;
            p < |t| && t[p] == Send(Strip(entries[i]))
            && ((p + 1 < |t| && t[p + 1] == Recv) <==> Receives(entries[i], autorecv))
  {
    TraceSplitAt(entries, autorecv, i);
    TraceStartsWithSend(entries[i + 1..], autorecv);
  }

  lemma {:induction false} SendsAppend(s: seq<Event>, t: seq<Event>)
    ensures Sends(s + t) == Sends(s) + Sends(t)
  {
    if s == [] {
      assert s + t == t;
    } else {
      assert (s + t)[1..] == s[1..] + t;
      SendsAppend(s[1..], t);
    }
  }

  lemma EntrySends(entry: string, autorecv: bool)
    ensures Sends(EntryEvents(entry, autorecv)) == if Skipped(entry) then [] else [Strip(entry)]
  {
    if !Skipped(entry) {
      var ee := EntryEvents(entry, autorecv);
      if Receives(entry, autorecv) {
        assert ee == [Send(Strip(entry)), Recv];
        assert ee[1..] == [Recv] && [Recv][1..] == [];
      } else {
        assert ee == [Send(Strip(entry))];
        assert ee[1..] == [];
      }
    }
  }

  /** The texts sent are exactly the kept entries, stripped, in input order. */
  lemma {:induction false} SendsAreStrippedKept(entries: seq<string>, autorecv: bool)
    ensures Sends(Trace(entries, autorecv)) == StripAll(Kept(entries))
  {
    if entries != [] {
      var e, rest := entries[0], entries[1..];
      SendsAreStrippedKept(rest, autorecv);
      SendsAppend(EntryEvents(e, autorecv), Trace(rest, autorecv));
      EntrySends(e, autorecv);
      var k := Kept(rest);
      if !Skipped(e) {
        assert Kept(entries) == [e] + k;
        assert ([e] + k)[0] == e && ([e] + k)[1..] == k;
        assert StripAll(Kept(entries)) == [Strip(e)] + StripAll(k);
      } else {
        assert Kept(entries) == [] + k == k;
      }
    }
  }

  /** Without `autorecv` nothing is ever received. */
  lemma {:induction false} NoRecvWithoutAutorecv(entries: seq<string>)
    ensures forall k :: 0 <= k < |Trace(entries, false)| ==> Trace(entries, false)[k].Send?
  {
    if entries != [] {
      NoRecvWithoutAutorecv(entries[1..]);
    }
  }

  ghost predicate RecvsFollowSends(t: seq<Event>) {
    forall k :: 0 <= k < |t| && t[k] == Recv ==> 0 < k && t[k - 1].Send?
  }

  /** Every receive directly follows a send: the trace never starts with a
      receive and never holds two in a row, so no entry receives twice. */
  lemma {:induction false} RecvFollowsSend(entries: seq<string>, autorecv: bool)
    ensures RecvsFollowSends(Trace(entries, autorecv))
  {
    if entries != [] {
      RecvFollowsSend(entries[1..], autorecv);
      var ee, rest := EntryEvents(entries[0], autorecv), Trace(entries[1..], autorecv);
      var t := ee + rest;
      forall k | 0 <= k < |t| && t[k] == Recv
        ensures 0 < k && t[k - 1].Send?
      {
        if k >= |ee| {
          assert rest[k - |ee|] == Recv;
          if k - |ee| == 0 {
            assert false;
          } else {
            var j := k - |ee|;
            assert 0 <= j < |rest| && rest[j] == Recv;
            assert rest[j - 1].Send?;
            assert t[k - 1] == rest[j - 1];
          }
        } else {
          assert !Skipped(entries[0]);
          if Receives(entries[0], autorecv) {
            assert ee == [Send(Strip(entries[0])), Recv];
          } else {
            assert ee == [Send(Strip(entries[0]))];
          }
          assert k == 1 && t[0] == ee[0];
        }
      }
    }
  }

  lemma {:induction false} CountRecvAppend(s: seq<Event>, t: seq<Event>)
    ensures CountRecv(s + t) == CountRecv(s) + CountRecv(t)
  {
    if s == [] {
      assert s + t == t;
    } else {
      assert (s + t)[1..] == s[1..] + t;
      CountRecvAppend(s[1..], t);
    }
  }

  /** One receive per entry that asks for one, and no other. */
  lemma {:induction false} RecvCountIsQueryCount(entries: seq<string>, autorecv: bool)
    ensures CountRecv(Trace(entries, autorecv)) == QueryCount(entries, autorecv)
  {
    if entries != [] {
      RecvCountIsQueryCount(entries[1..], autorecv);
      CountRecvAppend(EntryEvents(entries[0], autorecv), Trace(entries[1..], autorecv));
    }
  }

  /** A single string behaves exactly as the one-element sequence holding it. */
  lemma SingleIsOneElementSequence(s: string, autorecv: bool, inbox: seq<seq<byte>>)
    ensures Replay(Entries(Single(s)), autorecv, inbox) == Replay(Entries(Many([s])), autorecv, inbox)
    ensures Trace(Entries(Single(s)), autorecv) == EntryEvents(s, autorecv)
  {
  }

  /** The filter and the `?` test look at the entry as given, the send
      carries it stripped: an indented comment is sent, and a query with
      trailing blanks is sent without a receive. */
  lemma RawEntryTests()
    ensures EntryEvents("  #c", true) == [Send("#c")]
    ensures EntryEvents("Q? ", true) == [Send("Q?")]
    ensures EntryEvents("#c", true) == []
    ensures EntryEvents("Q?", true) == [Send("Q?"), Recv]
  {
    assert Strip("  #c") == Strip(" #c") == Strip("#c") == "#c";
    assert Strip("Q? ") == Strip("Q?") == "Q?";
  }

  /** A reset, a blank entry, a comment and an error query: two round
      trips, the second one answered. */
  lemma ResetThenErrorQuery()
    ensures Trace(["*RST", "", "#comment", "SYST:ERR?"], true)
         == [Send("*RST"), Send("SYST:ERR?"), Recv]
  {
  }

  // ----- the run as performed, with its failures -----

  /** `UnicodeEncodeError` / `UnicodeDecodeError`, or no reply arriving in
      time for a receive. */
  datatype Error = Codec(codec: CodecError) | Timeout

  datatype Outcome = Completed | Failed(error: Error)

  /** What a replay did: its actions, the replies still unread, and how it ended. */
  datatype Run = Run(trace: seq<Event>, inbox: seq<seq<byte>>, outcome: Outcome)

  function Prepend(events: seq<Event>, run: Run): Run {
    Run(events + run.trace, run.inbox, run.outcome)
  }

  /** One entry of `send_commands` on a connection whose peer will deliver
      `inbox`, one chunk per read. */
  function EntryRun(entry: string, autorecv: bool, inbox: seq<seq<byte>>): Run {
    if Skipped(entry) then Run([], inbox, Completed)
    else
      match Frame(Strip(entry))
      case Err(e) => Run([], inbox, Failed(Codec(e)))
      case Ok(_) =>
        if !Receives(entry, autorecv) then Run([Send(Strip(entry))], inbox, Completed)
        else if inbox == [] then Run([Send(Strip(entry))], inbox, Failed(Timeout))
        else
          match Unframe(inbox[0])
          case Err(e) => Run([Send(Strip(entry)), Recv], inbox[1..], Failed(Codec(e)))
          case Ok(_) => Run([Send(Strip(entry)), Recv], inbox[1..], Completed)
  }

  /** `send_commands` on a connection whose peer will deliver `inbox`:
      the entries in order, until the first error. */
  function Replay(entries: seq<string>, autorecv: bool, inbox: seq<seq<byte>>): Run {
    if entries == [] then Run([], inbox, Completed)
    else
      var first := EntryRun(entries[0], autorecv, inbox);
      if first.outcome.Failed? then first
      else Prepend(first.trace, Replay(entries[1..], autorecv, first.inbox))
  }

  /** One entry performs a prefix of its failure-free actions, reads one
      reply per receive, and performs all of them when it completes. */
  lemma EntryRunFollowsEvents(entry: string, autorecv: bool, inbox: seq<seq<byte>>)
    ensures var run := EntryRun(entry, autorecv, inbox);
            && run.trace <= EntryEvents(entry, autorecv)
            && CountRecv(run.trace) <= |inbox|
            && run.inbox == inbox[CountRecv(run.trace)..]
            && (run.outcome.Completed? ==> run.trace == EntryEvents(entry, autorecv))
  {
    var run := EntryRun(entry, autorecv, inbox);
    if |run.trace| == 2 {
      assert run.trace[1..] == [Recv] && [Recv][1..] == [];
    } else if |run.trace| == 1 {
      assert run.trace[1..] == [];
    }
  }

  /** An entry whose stripped text ASCII cannot encode performs nothing. */
  lemma EntryRunEncodeFailure(entry: string, autorecv: bool, inbox: seq<seq<byte>>)
    requires EntryRun(entry, autorecv, inbox).outcome.Failed?
    requires EntryRun(entry, autorecv, inbox).outcome.error.Codec?
    requires EntryRun(entry, autorecv, inbox).outcome.error.codec.EncodeError?
    ensures EntryRun(entry, autorecv, inbox).trace == []
    ensures !Skipped(entry) && !IsAscii(Strip(entry))
    ensures EntryEvents(entry, autorecv)[0] == Send(Strip(entry))
  {
  }

  /** A kept entry whose stripped text ASCII cannot encode fails with the
      encoding error, before anything is sent and without reading a reply. */
  lemma EntryRunRejectsNonAscii(entry: string, autorecv: bool, inbox: seq<seq<byte>>)
    requires !Skipped(entry) && !IsAscii(Strip(entry))
    ensures var run := EntryRun(entry, autorecv, inbox);
            && run.trace == [] && run.inbox == inbox
            && run.outcome.Failed? && run.outcome.error.Codec? && run.outcome.error.codec.EncodeError?
  {
  }

  /** An entry completes, with its failure-free actions, when its stripped
      text is ASCII and, if it receives, a decodable reply is waiting. */
  lemma EntryRunCompletes(entry: string, autorecv: bool, inbox: seq<seq<byte>>)
    requires !Skipped(entry) ==> IsAscii(Strip(entry))
    requires !Skipped(entry) && Receives(entry, autorecv) ==> inbox != [] && IsAsciiBytes(inbox[0])
    ensures var q := if !Skipped(entry) && Receives(entry, autorecv) then 1 else 0;
            EntryRun(entry, autorecv, inbox) == Run(EntryEvents(entry, autorecv), inbox[q..], Completed)
  {
  }

  /** A run performs a prefix of the failure-free trace, reads one reply per
      receive it performs, and performs all of the trace when it completes. */
  lemma {:induction false} ReplayFollowsTrace(entries: seq<string>, autorecv: bool, inbox: seq<seq<byte>>)
    ensures var run := Replay(entries, autorecv, inbox);
            && run.trace <= Trace(entries, autorecv)
            && CountRecv(run.trace) <= |inbox|
            && run.inbox == inbox[CountRecv(run.trace)..]
            && (run.outcome.Completed? ==> run.trace == Trace(entries, autorecv))
  {
    if entries != [] {
      var first := EntryRun(entries[0], autorecv, inbox);
      var ee, tail := EntryEvents(entries[0], autorecv), Trace(entries[1..], autorecv);
      EntryRunFollowsEvents(entries[0], autorecv, inbox);
      if first.outcome.Failed? {
        PrefixExtends(first.trace, ee, tail);
      } else {
        var n := CountRecv(first.trace);
        ReplayFollowsTrace(entries[1..], autorecv, first.inbox);
        var r := Replay(entries[1..], autorecv, first.inbox);
        CountRecvAppend(first.trace, r.trace);
        PrefixAppend(ee, r.trace, tail);
        assert inbox[n..][CountRecv(r.trace)..] == inbox[n + CountRecv(r.trace)..];
      }
    }
  }

  lemma PrefixExtends(a: seq<Event>, b: seq<Event>, c: seq<Event>)
    requires a <= b
    ensures a <= b + c
  {
  }

  lemma PrefixAppend(a: seq<Event>, b: seq<Event>, c: seq<Event>)
    requires b <= c
    ensures a + b <= a + c
  {
  }

  /** When a run fails to encode, it stops exactly before the send of a text
      ASCII cannot encode: that send, and everything after it, is not performed. */
  lemma {:induction false} ReplayStopsAtUnencodable(entries: seq<string>, autorecv: bool, inbox: seq<seq<byte>>)
    requires Replay(entries, autorecv, inbox).outcome.Failed?
    requires Replay(entries, autorecv, inbox).outcome.error.Codec?
    requires Replay(entries, autorecv, inbox).outcome.error.codec.EncodeError?
    ensures var run, t := Replay(entries, autorecv, inbox), Trace(entries, autorecv);
            |run.trace| < |t| && t[|run.trace|].Send? && !IsAscii(t[|run.trace|].command)
  {
    var first := EntryRun(entries[0], autorecv, inbox);
    var ee, tail := EntryEvents(entries[0], autorecv), Trace(entries[1..], autorecv);
    if first.outcome.Failed? {
      EntryRunEncodeFailure(entries[0], autorecv, inbox);
    } else {
      EntryRunFollowsEvents(entries[0], autorecv, inbox);
      ReplayStopsAtUnencodable(entries[1..], autorecv, first.inbox);
      var r := Replay(entries[1..], autorecv, first.inbox);
      assert (ee + tail)[|ee| + |r.trace|] == tail[|r.trace|];
    }
  }

  /** When a run times out, it has sent a query whose reply the peer never
      delivered: every reply was used up and the next action due is a receive. */
  lemma {:induction false} ReplayStopsAtMissingReply(entries: seq<string>, autorecv: bool, inbox: seq<seq<byte>>)
    requires Replay(entries, autorecv, inbox).outcome == Failed(Timeout)
    ensures var run, t := Replay(entries, autorecv, inbox), Trace(entries, autorecv);
            run.inbox == [] && |run.trace| < |t| && t[|run.trace|] == Recv
            && run.trace != [] && run.trace[|run.trace| - 1].Send?
  {
    var first := EntryRun(entries[0], autorecv, inbox);
    var ee, tail := EntryEvents(entries[0], autorecv), Trace(entries[1..], autorecv);
    EntryRunFollowsEvents(entries[0], autorecv, inbox);
    if first.outcome.Failed? {
      assert first.trace == [ee[0]] && ee[1] == Recv;
    } else {
      ReplayStopsAtMissingReply(entries[1..], autorecv, first.inbox);
      var r := Replay(entries[1..], autorecv, first.inbox);
      assert (ee + tail)[|ee| + |r.trace|] == tail[|r.trace|];
      assert (first.trace + r.trace)[|first.trace| + |r.trace| - 1] == r.trace[|r.trace| - 1];
    }
  }

  /** Every entry is sendable when each kept entry, stripped, is ASCII. */
  ghost predicate AllSendable(entries: seq<string>) {
    forall k :: 0 <= k < |entries| && !Skipped(entries[k]) ==> IsAscii(Strip(entries[k]))
  }

  lemma AllSendableTail(entries: seq<string>)
    requires entries != [] && AllSendable(entries)
    ensures AllSendable(entries[1..])
    ensures !Skipped(entries[0]) ==> Frame(Strip(entries[0])).Ok?
  {
  }

  lemma InboxTail(inbox: seq<seq<byte>>, n: nat)
    requires n + 1 <= |inbox|
    requires forall k :: 0 <= k < n + 1 ==> IsAsciiBytes(inbox[k])
    ensures IsAsciiBytes(inbox[0])
    ensures forall k :: 0 <= k < n ==> IsAsciiBytes(inbox[1..][k])
    ensures inbox[1..][n..] == inbox[n + 1..]
  {
  }

  /** When every kept entry is ASCII and the peer has a decodable reply for
      every query, the run completes, performs the failure-free trace and
      reads exactly one reply per query. */
  lemma {:induction false} ReplayCompletes(entries: seq<string>, autorecv: bool, inbox: seq<seq<byte>>)
    requires AllSendable(entries)
    requires QueryCount(entries, autorecv) <= |inbox|
    requires forall k :: 0 <= k < QueryCount(entries, autorecv) ==> IsAsciiBytes(inbox[k])
    ensures Replay(entries, autorecv, inbox)
         == Run(Trace(entries, autorecv), inbox[QueryCount(entries, autorecv)..], Completed)
  {
    if entries != [] {
      var entry, rest := entries[0], entries[1..];
      AllSendableTail(entries);
      if Skipped(entry) || !Receives(entry, autorecv) {
        EntryRunCompletes(entry, autorecv, inbox);
        ReplayCompletes(rest, autorecv, inbox);
      } else {
        InboxTail(inbox, QueryCount(rest, autorecv));
        EntryRunCompletes(entry, autorecv, inbox);
        ReplayCompletes(rest, autorecv, inbox[1..]);
        assert inbox[1..][QueryCount(rest, autorecv)..] == inbox[QueryCount(entries, autorecv)..];
      }
    }
  }

  /** The converse of `ReplayCompletes`: a run completes only when every kept
      entry is ASCII and the peer has a decodable reply for every query. */
  lemma {:induction false} ReplayCompletesOnlyIf(entries: seq<string>, autorecv: bool, inbox: seq<seq<byte>>)
    requires Replay(entries, autorecv, inbox).outcome.Completed?
    ensures AllSendable(entries)
    ensures QueryCount(entries, autorecv) <= |inbox|
    ensures forall k :: 0 <= k < QueryCount(entries, autorecv) ==> IsAsciiBytes(inbox[k])
  {
    if entries != [] {
      var entry, rest := entries[0], entries[1..];
      var first := EntryRun(entry, autorecv, inbox);
      assert first.outcome.Completed?;
      ReplayCompletesOnlyIf(rest, autorecv, first.inbox);
      AllSendableCons(entries);
      if !Skipped(entry) && Receives(entry, autorecv) {
        assert first.inbox == inbox[1..] && IsAsciiBytes(inbox[0]);
        forall k | 0 <= k < QueryCount(entries, autorecv)
          ensures IsAsciiBytes(inbox[k])
        {
          if k > 0 {
            assert inbox[k] == inbox[1..][k - 1];
          }
        }
      } else {
        assert first.inbox == inbox;
      }
    }
  }

  lemma AllSendableCons(entries: seq<string>)
    requires entries != [] && AllSendable(entries[1..])
    requires !Skipped(entries[0]) ==> IsAscii(Strip(entries[0]))
    ensures AllSendable(entries)
  {
    forall k | 0 <= k < |entries| && !Skipped(entries[k])
      ensures IsAscii(Strip(entries[k]))
    {
      if k > 0 {
        assert entries[k] == entries[1..][k - 1];
      }
    }
  }
}
