/**
 * The line framing of `CustomSocket.send` and `CustomSocket.recv`
 * (scpi.py): a command goes on the wire as `(string + "\n").encode("ascii")`;
 * a reply comes off it as `received.decode("ascii").rstrip("\n")`.
 * ASCII is the identity on character codes below 128 and fails otherwise,
 * at the first offending position, as Python's codec reports it.
 */
module Framing {
  import opened Wrappers
  import opened PyText

  type byte = b: int | 0 <= b < 256

  /** The line terminator `END`. */
  const End: char := '\n'

  /** Python's `UnicodeEncodeError` / `UnicodeDecodeError`, with the index
      of the first character or byte the ASCII codec rejects. */
  datatype CodecError = EncodeError(position: nat) | DecodeError(position: nat)

  predicate IsAscii(s: string) {
    forall i :: 0 <= i < |s| ==> s[i] as int < 128
  }

  predicate IsAsciiBytes(b: seq<byte>) {
    forall i :: 0 <= i < |b| ==> b[i] < 128
  }

  /** `s.encode("ascii")` */
  function Encode(s: string): (r: Result<seq<byte>, CodecError>)
    ensures r.Ok? <==> IsAscii(s)
    ensures r.Ok? ==> |r.value| == |s| && forall i :: 0 <= i < |s| ==> r.value[i] == s[i] as int
    ensures r.Err? ==> r.error.EncodeError? && r.error.position < |s|
                       && s[r.error.position] as int >= 128 && IsAscii(s[..r.error.position])
  {
    if s == [] then Ok([])
    else if s[0] as int >= 128 then Err(EncodeError(0))
    else
      match Encode(s[1..])
      case Ok(rest) => Ok([s[0] as int] + rest)
      case Err(e) => Err(EncodeError(e.position + 1))
  }

  /** `b.decode("ascii")` */
  function Decode(b: seq<byte>): (r: Result<string, CodecError>)
    ensures r.Ok? <==> IsAsciiBytes(b)
    ensures r.Ok? ==> |r.value| == |b| && forall i :: 0 <= i < |b| ==> r.value[i] as int == b[i]
    ensures r.Err? ==> r.error.DecodeError? && r.error.position < |b|
                       && b[r.error.position] >= 128 && IsAsciiBytes(b[..r.error.position])
  {
    if b == [] then Ok([])
    else if b[0] >= 128 then Err(DecodeError(0))
    else
      match Decode(b[1..])
      case Ok(rest) => Ok([b[0] as char] + rest)
      case Err(e) => Err(DecodeError(e.position + 1))
  }

  /** `s.rstrip(c)`: drops every trailing `c`, and nothing else. */
  function RStrip(s: string, c: char): (r: string)
    ensures r <= s
    ensures forall i :: |r| <= i < |s| ==> s[i] == c
    ensures !EndsWith(r, c)
  {
    if EndsWith(s, c) then RStrip(s[..|s| - 1], c) else s
  }

  /** The bytes `CustomSocket.send` hands to the connection for `s`. */
  function Frame(s: string): (r: Result<seq<byte>, CodecError>)
    ensures r.Ok? <==> IsAscii(s)
    ensures r.Ok? ==> |r.value| == |s| + 1 && r.value[|s|] == End as int
                      && forall i :: 0 <= i < |s| ==> r.value[i] == s[i] as int
    ensures r.Err? ==> r.error.EncodeError? && r.error.position < |s|
  {
    assert (s + [End])[|s|] == End;
    assert forall i :: 0 <= i < |s| ==> (s + [End])[i] == s[i];
    Encode(s + [End])
  }

  /** The text `CustomSocket.recv` returns for the bytes one read delivers. */
  function Unframe(b: seq<byte>): (r: Result<string, CodecError>)
    ensures r.Ok? <==> IsAsciiBytes(b)
    ensures r.Err? ==> r.error.DecodeError? && r.error.position < |b|
    ensures r.Ok? ==> !EndsWith(r.value, End)
    ensures r.Ok? ==> |r.value| <= |b| && forall i :: 0 <= i < |r.value| ==> r.value[i] as int == b[i]
    ensures r.Ok? ==> forall i :: |r.value| <= i < |b| ==> b[i] == End as int
  {
    match Decode(b)
    case Ok(s) => Ok(RStrip(s, End))
    case Err(e) => Err(e)
  }

  /** Decoding what was encoded gives the text back. */
  lemma {:induction false} DecodeEncode(s: string)
    requires IsAscii(s)
    ensures Decode(Encode(s).value) == Ok(s)
  {
    var b := Encode(s).value;
    assert Decode(b).value == s;
  }

  /** Encoding what was decoded gives the bytes back. */
  lemma {:induction false} EncodeDecode(b: seq<byte>)
    requires IsAsciiBytes(b)
    ensures Encode(Decode(b).value) == Ok(b)
  {
    var s := Decode(b).value;
    assert Encode(s).value == b;
  }

  /** Receiving the frame of `s` gives back `s` with its trailing line
      terminators removed. */
  lemma UnframeFrame(s: string)
    requires IsAscii(s)
    ensures Unframe(Frame(s).value) == Ok(RStrip(s, End))
  {
    var b := Frame(s).value;
    assert Decode(b).value == s + [End];
    assert (s + [End])[..|s|] == s;
  }

  /** The round trip is exact for an ASCII text exactly when the text does
      not itself end in a line terminator. */
  lemma UnframeFrameExact(s: string)
    requires IsAscii(s)
    ensures Unframe(Frame(s).value) == Ok(s) <==> !EndsWith(s, End)
  {
    UnframeFrame(s);
  }

  /** Re-framing a received reply and receiving it again changes nothing. */
  lemma UnframeIdempotent(b: seq<byte>)
    requires IsAsciiBytes(b)
    ensures IsAscii(Unframe(b).value)
    ensures Unframe(Frame(Unframe(b).value).value) == Unframe(b)
  {
    var s := Unframe(b).value;
    assert IsAscii(s);
    UnframeFrameExact(s);
  }

  /** Only `"\n"` is stripped: a reply terminated by `"\r\n"` keeps its `"\r"`. */
  lemma UnframeKeepsCarriageReturn()
    ensures Unframe([48, 13, 10, 10]) == Ok(['0', '\r'])
  {
    var d := Decode([48, 13, 10, 10]).value;
    assert d == ['0', '\r', '\n', '\n'];
    assert RStrip(d, End) == RStrip(['0', '\r', '\n'], End);
    assert RStrip(['0', '\r', '\n'], End) == RStrip(['0', '\r'], End);
  }
}
