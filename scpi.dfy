/**
 * The connection side of scpi.py: `CustomSocket`'s line `send` and `recv`
 * over an abstract connection, and `send_commands` / `send_commands_in`,
 * which open a connection and replay commands over it.
 *
 * The connection records the bytes written to it (`wire`), the actions
 * performed on it (`trace`), and holds the replies the instrument has yet
 * to deliver (`inbox`), one chunk per read.
 */
module Scpi {
  import opened Wrappers
  import opened PyText
  import opened Framing
  import opened CommandReplay
  import opened CommandFile

  /** The bytes a trace puts on the wire: the frame of every text sent. */
  function WireOf(trace: seq<Event>): seq<byte> {
    if trace == [] then []
    else
      WireOf(trace[..|trace| - 1])
      + match trace[|trace| - 1]
        case Send(s) => (match Frame(s) case Ok(bytes) => bytes case Err(_) => [])
        case Recv => []
  }

  class CommandSocket {
    var wire: seq<byte>
    var inbox: seq<seq<byte>>
    var trace: seq<Event>

    /** A connection just opened to an instrument that will answer with
        `replies`. */
    constructor (replies: seq<seq<byte>>)
      ensures wire == [] && inbox == replies && trace == []
    {
      wire, inbox, trace := [], replies, [];
    }

    /** `CustomSocket.send`: writes `s` and the terminator, ASCII-encoded,
        and returns the number of bytes written; a text ASCII cannot encode
        raises before anything is written. */
    method Send(s: string) returns (r: Result<nat, Error>)
      modifies this
      ensures inbox == old(inbox)
      ensures r.Ok? <==> IsAscii(s)
      ensures r.Ok? ==> r.value == |s| + 1 && wire == old(wire) + Frame(s).value
                        && trace == old(trace) + [Event.Send(s)]
      ensures r.Err? ==> r.error == Codec(Frame(s).error) && wire == old(wire) && trace == old(trace)
    {
      match Frame(s)
      case Err(e) =>
        r := Err(Codec(e));
      case Ok(bytes) =>
        wire := wire + bytes;
        trace := trace + [Event.Send(s)];
        r := Ok(|bytes|);
    }

    /** `CustomSocket.recv`: reads the next reply and returns it decoded,
        without its trailing terminators. No reply stands for the timeout
        expiring; a reply ASCII cannot decode raises once it has been read. */
    method Recv() returns (r: Result<string, Error>)
      modifies this
      ensures wire == old(wire)
      ensures old(inbox) == [] ==> r == Err(Timeout) && inbox == old(inbox) && trace == old(trace)
      ensures old(inbox) != [] ==>
                && inbox == old(inbox)[1..] && trace == old(trace) + [Event.Recv]
                && r == match Unframe(old(inbox)[0]) case Ok(t) => Ok(t) case Err(e) => Err(Codec(e))
    {
      if inbox == [] {
        r := Err(Timeout);
      } else {
        var received := inbox[0];
        inbox := inbox[1..];
        trace := trace + [Event.Recv];
        match Unframe(received)
        case Ok(t) =>
          r := Ok(t);
        case Err(e) =>
          r := Err(Codec(e));
      }
    }
  }

  /** `send_commands`: opens a connection to an instrument that will answer
      with `replies` and replays `commands` over it, stopping at the first
      error. The connection ends up having performed exactly the run
      `Replay` describes, and holds on its wire the frames of exactly the
      texts that run sent. */
  method SendCommands(commands: Commands, replies: seq<seq<byte>>, autorecv: bool)
    returns (sock: CommandSocket, outcome: Outcome)
    ensures fresh(sock)
    ensures var run := Replay(Entries(commands), autorecv, replies);
            && sock.trace == run.trace && sock.inbox == run.inbox && outcome == run.outcome
            && sock.wire == WireOf(run.trace)
  {
    var entries := Entries(commands);
    sock := new CommandSocket(replies);
    var i := 0;
    assert entries[0..] == entries;
    assert Prepend([], Replay(entries, autorecv, replies)) == Replay(entries, autorecv, replies);
    while i < |entries|
      invariant 0 <= i <= |entries|
      invariant sock.wire == WireOf(sock.trace)
      invariant Replay(entries, autorecv, replies) == Prepend(sock.trace, Replay(entries[i..], autorecv, sock.inbox))
    {
      ghost var before, waiting := sock.trace, sock.inbox;
      ghost var first := EntryRun(entries[i], autorecv, waiting);
      ReplayAt(entries, autorecv, waiting, i);
      var done := ReplayEntry(sock, entries[i], autorecv);
      if done.Failed? {
        assert Replay(entries[i..], autorecv, waiting) == first;
        return sock, done;
      }
      ghost var later := Replay(entries[i + 1..], autorecv, sock.inbox);
      assert Replay(entries[i..], autorecv, waiting) == Prepend(first.trace, later);
      PrependTwice(before, first.trace, later);
      i := i + 1;
    }
    assert entries[i..] == [];
    outcome := Completed;
  }

  /** The body of the loop in `send_commands`, for one entry. */
  method ReplayEntry(sock: CommandSocket, command: string, autorecv: bool) returns (outcome: Outcome)
    requires sock.wire == WireOf(sock.trace)
    modifies sock
    ensures var run := EntryRun(command, autorecv, old(sock.inbox));
            && sock.trace == old(sock.trace) + run.trace && sock.inbox == run.inbox
            && outcome == run.outcome && sock.wire == WireOf(sock.trace)
  {
    if Skipped(command) {
      return Completed;
    }
    ghost var before := sock.trace;
    var sent := sock.Send(Strip(command));
    if sent.Err? {
      return Failed(sent.error);
    }
    WireOfSend(before, Strip(command));
    if Receives(command, autorecv) {
      var reply := sock.Recv();
      WireOfRecv(before + [Event.Send(Strip(command))]);
      if reply.Err? {
        return Failed(reply.error);
      }
    }
    outcome := Completed;
  }

  /** The run of the entries from `i` on is entry `i`'s run, followed, when
      that completes, by the run of the entries after it. */
  lemma ReplayAt(entries: seq<string>, autorecv: bool, inbox: seq<seq<byte>>, i: nat)
    requires i < |entries|
    ensures var first := EntryRun(entries[i], autorecv, inbox);
            Replay(entries[i..], autorecv, inbox)
            == if first.outcome.Failed? then first
               else Prepend(first.trace, Replay(entries[i + 1..], autorecv, first.inbox))
  {
  }

  lemma PrependTwice(a: seq<Event>, b: seq<Event>, run: Run)
    ensures Prepend(a, Prepend(b, run)) == Prepend(a + b, run)
  {
  }

  lemma WireOfSend(trace: seq<Event>, s: string)
    requires IsAscii(s)
    ensures WireOf(trace + [Event.Send(s)]) == WireOf(trace) + Frame(s).value
  {
  }

  lemma WireOfRecv(trace: seq<Event>)
    ensures WireOf(trace + [Event.Recv]) == WireOf(trace)
  {
  }

  /** `send_commands_in`: `send_commands` over the lines of a file, each
      line still ending in its terminator. */
  method SendCommandsIn(text: string, replies: seq<seq<byte>>, autorecv: bool)
    returns (sock: CommandSocket, outcome: Outcome)
    ensures fresh(sock)
    ensures var run := Replay(Lines(text), autorecv, replies);
            && sock.trace == run.trace && sock.inbox == run.inbox && outcome == run.outcome
            && sock.wire == WireOf(run.trace)
  {
    sock, outcome := SendCommands(Many(Lines(text)), replies, autorecv);
  }
}
