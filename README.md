# SCPI command replay — a Dafny model

This project models the core of `scpi.py`, the client that drives laboratory
instruments (a function generator and a pulse generator) by sending SCPI text
commands over a stream socket. The core is small:

- `send_commands` replays a string or a sequence of strings over one connection.
  It skips entries that are empty or start with `#`. It sends every other entry
  stripped of surrounding whitespace. When `autorecv` is set and the entry, as
  given, ends in `?`, it reads one reply.
- `send_commands_in` does the same over the lines of a file. Each line still
  carries its `"\n"`.
- `CustomSocket.send` frames a string as `string + "\n"`, ASCII-encoded.
  `CustomSocket.recv` decodes a reply and strips every trailing `"\n"`.

The model has these modules:

- `PyText` (pytext.dfy): Python's `str.isspace`, `str.strip()`, and the
  one-character `startswith` / `endswith` tests.
- `Framing` (framing.dfy): ASCII encoding and decoding, with the position of the
  first rejected character or byte as Python reports it, and the framing and
  unframing of a line.
- `CommandReplay` (replay.dfy): the replay as a trace of `Send(text)` and `Recv`
  actions. `Trace` is the trace when nothing fails. `Replay` is the run as the
  code performs it, which stops at the first send ASCII cannot encode, the first
  receive that finds no reply, or the first reply ASCII cannot decode.
- `CommandFile` (commandfile.dfy): the lines a file yields, and what replaying
  them does.
- `Scpi` (scpi.dfy): `CommandSocket`, a class standing for the connection. It
  records the bytes written (`wire`) and the actions performed (`trace`), and it
  holds the replies the instrument has yet to deliver (`inbox`), one chunk per
  read. It also holds `SendCommands` and `SendCommandsIn`, the loop proved
  against `Replay`.

The model follows the code as written:

- The filter and the `?` test look at the entry as given, not at the stripped
  entry. So `"  #c"` is sent as `"#c"`.
- A blank file line is sent as an empty command, and a query line read from a
  file gets no receive (see Findings).

## Model

| member | source | states |
|---|---|---|
| `PyText.IsSpace` | scpi.py:75 | the characters `str.isspace()` accepts, which `strip()` with no argument removes: tab to carriage return, the four separators U+1C to U+1F, space, U+85, U+A0, U+1680, U+2000 to U+200A, U+2028, U+2029, U+202F, U+205F and U+3000 |
| `PyText.Strip` | scpi.py:75 | `command.strip()`: the result is empty or starts and ends with a non-whitespace character, and is no longer than the input |
| `PyText.StripIsTrimmedSlice` | scpi.py:75 | what `strip` keeps is one contiguous slice of the entry; everything removed before and after it is whitespace |
| `PyText.StripAppendSpace` | scpi.py:75 | a trailing whitespace character, such as a file line's `"\n"`, does not change the stripped text |
| `PyText.StripIdempotent` | scpi.py:75 | stripping twice is stripping once |
| `Framing.Encode` | scpi.py:132 | ASCII encoding succeeds iff every character is below 128, and then maps each character to its code; otherwise it reports the first rejected position |
| `Framing.Decode` | scpi.py:148 | ASCII decoding succeeds iff every byte is below 128, and then maps each byte to its character; otherwise it reports the first rejected position |
| `Framing.RStrip` | scpi.py:148 | `rstrip("\n")` keeps a prefix, removes only `"\n"` characters, and leaves no trailing `"\n"` |
| `Framing.Frame` | scpi.py:132 | the bytes sent for `s` are the codes of `s` followed by the code of `"\n"`; framing fails exactly when `s` is not ASCII |
| `Framing.Unframe` | scpi.py:148 | a received reply decodes iff it is ASCII; the text is a prefix of the bytes, the rest is all `"\n"`, and the text never ends in `"\n"` |
| `Framing.DecodeEncode` | scpi.py:132 | decoding the encoding of ASCII text gives the text back |
| `Framing.EncodeDecode` | scpi.py:148 | encoding the decoding of ASCII bytes gives the bytes back |
| `Framing.UnframeFrame` | scpi.py:132-148 | receiving the frame of `s` gives `s` with its trailing `"\n"` characters removed |
| `Framing.UnframeFrameExact` | scpi.py:132-148 | the round trip returns `s` exactly when `s` does not end in `"\n"` |
| `Framing.UnframeIdempotent` | scpi.py:132-148 | re-framing a received reply and receiving it again gives the same text |
| `Framing.UnframeKeepsCarriageReturn` | scpi.py:148 | only `"\n"` is stripped: a reply ending in `"\r\n\n"` keeps its `"\r"` |
| `CommandReplay.Entries` | scpi.py:67-68 | the entries replayed: a single string stands for the one-element sequence holding it, and a sequence for itself |
| `CommandReplay.Skipped` | scpi.py:72-73 | an entry is skipped when, as given, it is empty or starts with `#` |
| `CommandReplay.Receives` | scpi.py:77 | a reply is read after an entry when `autorecv` is set and the entry, as given, ends in `?` |
| `CommandReplay.EntryEvents` | scpi.py:72-78 | the actions of one entry when nothing fails: none if it is skipped, else the send of the stripped entry, then a receive if it asks for one |
| `CommandReplay.Trace` | scpi.py:70-78 | the actions of the whole loop when nothing fails: each entry's actions, in input order |
| `CommandReplay.EntryRun` | scpi.py:72-78 | one pass of the loop with failures: a skipped entry does nothing; an entry whose stripped text is not ASCII fails before sending; a query with no reply waiting times out after its send; an undecodable reply fails after the receive |
| `CommandReplay.Replay` | scpi.py:70-78 | the loop with failures: each entry's run in order, stopping at the first one that fails, with the replies it did not read |
| `CommandReplay.TraceSplitAt` | scpi.py:71-78 | the actions of entry `i` form one block, after those of every earlier entry and before those of every later one |
| `CommandReplay.SkippedEntryIsInvisible` | scpi.py:72-73 | an empty entry or one starting with `#` causes no send and no receive: the trace is that of the other entries |
| `CommandReplay.TraceStartsWithSend` | scpi.py:75-78 | no entry's actions begin with a receive |
| `CommandReplay.EntryActionsAt` | scpi.py:71-78 | a kept entry is sent, stripped, right after the earlier entries' actions; the next action is a receive iff `autorecv` is set and the raw entry ends in `?` |
| `CommandReplay.SendsAreStrippedKept` | scpi.py:71-75 | the texts sent are exactly the kept entries, stripped, in input order |
| `CommandReplay.NoRecvWithoutAutorecv` | scpi.py:77 | with `autorecv` off, the trace holds no receive |
| `CommandReplay.RecvFollowsSend` | scpi.py:75-78 | every receive directly follows a send, so no entry receives twice |
| `CommandReplay.RecvCountIsQueryCount` | scpi.py:77-78 | the trace holds one receive per kept entry that asks for one, and no other |
| `CommandReplay.SingleIsOneElementSequence` | scpi.py:67-68 | a single string replays exactly as the one-element sequence holding it |
| `CommandReplay.RawEntryTests` | scpi.py:72-77 | `"  #c"` is sent as `"#c"`; `"Q? "` is sent as `"Q?"` with no receive |
| `CommandReplay.ResetThenErrorQuery` | scpi.py:71-78 | the entries `*RST`, blank, `#comment`, `SYST:ERR?` give send `*RST`, send `SYST:ERR?`, receive |
| `CommandReplay.EntryRunFollowsEvents` | scpi.py:72-78 | one entry performs a prefix of its failure-free actions and reads one reply per receive |
| `CommandReplay.EntryRunEncodeFailure` | scpi.py:75 | an entry that fails to encode has sent nothing; it is a kept entry whose stripped text is not ASCII, and its first due action is that send |
| `CommandReplay.EntryRunRejectsNonAscii` | scpi.py:75 | a kept entry whose stripped text is not ASCII fails with the encoding error, sends nothing and reads no reply |
| `CommandReplay.EntryRunCompletes` | scpi.py:72-78 | an entry completes with its failure-free actions when its stripped text is ASCII and any reply it waits for is decodable |
| `CommandReplay.ReplayFollowsTrace` | scpi.py:70-78 | a run performs a prefix of the failure-free trace, consumes one reply per receive, and performs all of it when it completes |
| `CommandReplay.ReplayStopsAtUnencodable` | scpi.py:75 | an encoding failure stops the run right before the send of a non-ASCII text, which is not performed |
| `CommandReplay.ReplayStopsAtMissingReply` | scpi.py:77-78 | a timeout stops the run after a query's send, with every reply used up |
| `CommandReplay.ReplayCompletes` | scpi.py:70-78 | with ASCII entries and a decodable reply for every query, the run completes with the failure-free trace and reads exactly one reply per query |
| `CommandReplay.ReplayCompletesOnlyIf` | scpi.py:70-78 | a run completes only when every kept entry is ASCII and the peer has a decodable reply for every query; with `ReplayCompletes`, these conditions are exactly when the loop ends without an error |
| `CommandFile.LineLength` | scpi.py:116-117 | a file's first line runs up to and including the first `"\n"`, or to the end of the text |
| `CommandFile.Lines` | scpi.py:116-117 | the lines `for line in f` yields, in order, each keeping its `"\n"` |
| `CommandFile.ConcatLines` | scpi.py:116-117 | splitting a file into lines loses and adds nothing |
| `CommandFile.LinesAreLines` | scpi.py:116-117 | every line is non-empty and holds `"\n"` only at its end; every line but the last ends in it |
| `CommandFile.LinesOfTerminated` | scpi.py:116-117 | a file written as commands, one per line, reads back as those commands each with `"\n"` |
| `CommandFile.FileReplayNeverReceives` | scpi.py:116-117 | replaying a file of non-empty single-line commands sends what the list sends, and never receives |
| `CommandFile.DocumentedEquivalence` | scpi.py:105-113 | the file `*RST`, `*CLS` sends what `['*RST', '*CLS']` sends: `*RST` then `*CLS` |
| `CommandFile.BlankFileLineIsSent` | scpi.py:72-75 | a blank file line is sent as the empty command, while an empty list entry is skipped |
| `CommandFile.QueryFileLineIsNotAnswered` | scpi.py:75-77 | the file line `SYST:ERR?` is sent with no receive, while the list entry gets one |
| `CommandFile.ResetThenErrorQueryFile` | scpi.py:116-117 | the four-line file `*RST`, blank, `#comment`, `SYST:ERR?` sends `*RST`, the empty command and `SYST:ERR?`, and never receives |
| `CommandFile.FileEntries` | scpi.py:105-113 | the corrected reading of a file: its lines, each with one trailing `"\n"` dropped |
| `CommandFile.CorrectedFileMatchesList` | scpi.py:105-113 | with line terminators dropped, replaying a file is replaying the list of its commands, receives and skips included |
| `Scpi.WireOf` | scpi.py:132 | the bytes a trace puts on the connection: the frame of every text sent, in order; receives write nothing |
| `Scpi.CommandSocket.constructor` | scpi.py:184-188 | a new connection has written nothing and performed nothing, and its peer will answer with the given replies |
| `Scpi.CommandSocket.Send` | scpi.py:124-137 | on ASCII text, writes the frame, records the send and returns its length; otherwise fails with the encoding error and changes nothing |
| `Scpi.CommandSocket.Recv` | scpi.py:139-152 | consumes the next reply, records the receive and returns it unframed, or the decoding error; with no reply, times out and changes nothing |
| `Scpi.ReplayEntry` | scpi.py:72-78 | one pass of the loop performs exactly the entry's run on the connection, keeping the wire equal to the frames of the texts sent |
| `Scpi.SendCommands` | scpi.py:67-78 | the connection ends up with the trace, unread replies and outcome of `Replay`, and its wire holds exactly the frames of the texts sent |
| `Scpi.SendCommandsIn` | scpi.py:116-117 | `SendCommands` over the lines of the file, each keeping its `"\n"` |

## Left out

- `connect` and the socket plumbing (scpi.py:154-188): socket creation, `settimeout`, `connect`, `getpeername` and `close`. These are operating-system network calls. As written, `close` (scpi.py:154-157) calls `shutdown()` without the argument Python's socket requires, so it raises `TypeError`. Python's `socket.__exit__` calls `close()`, so every `with connect(...)` block in `send_commands` (scpi.py:70) ends by raising `TypeError`, and that exception replaces any encoding, decoding or timeout error raised inside the block.
- Logging (scpi.py:136, 151): side effects only.
- Connection errors raised by the operating system on a send or a receive: not modelled.
- `bufsize` (scpi.py:147): each receive takes one whole reply chunk from the inbox. How many bytes one read returns depends on the network.
- Encodings other than the default ASCII (scpi.py:18). The `encoding` parameter is fixed to ASCII.
- Opening and decoding the command file (scpi.py:116), and universal-newline translation: the model starts from the file's decoded text.
- `Scpi.SendCommands`: its `outcome` is the outcome of the loop. It is not what the caller of the Python function sees, which, because of `close`, is always `TypeError`.
- `CommandSocket.Send`: returns the full frame length. The source returns what the kernel accepted, which can be less for a partial write.
- `CommandSocket.Recv`: with no reply waiting, the model returns a timeout. With the default `timeout=None` the source blocks instead.
- optsw-ctrl.py: a sequencing script of environment reads, prompts, sleeps and an endless polling loop. It calls `send_from`, which `CustomSocket` does not define. It is not part of this model.

## Findings

| source | as written | input that shows it | evidently intended | confidence | as-written member | corrected member |
|---|---|---|---|---|---|---|
| scpi.py:116-117 | file lines reach `send_commands` still ending in `"\n"`, so the empty-entry test and the `?` test see the terminator | the file `*RST`, blank, `#comment`, `SYST:ERR?` sends `*RST`, the empty command and `SYST:ERR?`, and reads no reply | the documented equivalence with the list form (scpi.py:105-113): lines replayed without their terminators, so blank lines are skipped and queries are answered | medium, not executed | `CommandFile.ResetThenErrorQueryFile` | `CommandFile.CorrectedFileMatchesList` |

`SendCommandsIn` models the code as written. `CommandFile.FileEntries` is the corrected reading of a file, and `CorrectedFileMatchesList` proves that it makes file and list replay agree.
