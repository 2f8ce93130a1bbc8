/**
 * The Python `str` operations the command replay applies to each entry:
 * `str.isspace` on one character, `str.strip()` with no argument,
 * and the one-character `startswith` / `endswith` tests.
 */
module PyText {

  /** Python's `str.isspace()` for one character: the Unicode whitespace
      that `str.strip()` with no argument removes. */
  predicate IsSpace(c: char) {
    || ('\t' <= c <= '\r')              // tab, line feed, vertical tab, form feed, carriage return
    || ('\U{1C}' <= c <= '\U{1F}')      // file, group, record and unit separators
    || c == ' '
    || c == '\U{85}' || c == '\U{A0}' || c == '\U{1680}'
    || ('\U{2000}' <= c <= '\U{200A}')
    || c == '\U{2028}' || c == '\U{2029}' || c == '\U{202F}' || c == '\U{205F}' || c == '\U{3000}'
  }

  ghost predicate AllSpace(s: string) {
    forall i :: 0 <= i < |s| ==> IsSpace(s[i])
  }

  /** `s.strip()`: removes whitespace from both ends. */
  function Strip(s: string): (r: string)
    ensures |r| <= |s|
    ensures r != [] ==> !IsSpace(r[0]) && !IsSpace(r[|r| - 1])
  {
    if s != [] && IsSpace(s[0]) then Strip(s[1..])
    else if s != [] && IsSpace(s[|s| - 1]) then Strip(s[..|s| - 1])
    else s
  }

  /** `s.startswith(c)` for a one-character prefix. */
  predicate StartsWith(s: string, c: char) {
    s != [] && s[0] == c
  }

  /** `s.endswith(c)` for a one-character suffix. */
  predicate EndsWith(s: string, c: char) {
    s != [] && s[|s| - 1] == c
  }

  /** Where the text kept by `strip` starts in the input. */
  ghost function StripStart(s: string): nat
  {
    if s != [] && IsSpace(s[0]) then 1 + StripStart(s[1..])
    else if s != [] && IsSpace(s[|s| - 1]) then StripStart(s[..|s| - 1])
    else 0
  }

  /** `r` is the slice of `s` starting at `i`, and everything on either
      side of it is whitespace. */
  ghost predicate TrimmedSliceAt(s: string, i: nat, r: string) {
    && i + |r| <= |s|
    && r == s[i..i + |r|]
    && AllSpace(s[..i])
    && AllSpace(s[i + |r|..])
  }

  /** What `strip` keeps is a contiguous slice of the input, and everything
      it removes on either side of that slice is whitespace. */
  lemma {:induction false} StripIsTrimmedSlice(s: string)
    ensures TrimmedSliceAt(s, StripStart(s), Strip(s))
  {
    if s != [] && IsSpace(s[0]) {
      StripIsTrimmedSlice(s[1..]);
      SliceAfterHead(s, StripStart(s[1..]), Strip(s[1..]));
    } else if s != [] && IsSpace(s[|s| - 1]) {
      StripIsTrimmedSlice(s[..|s| - 1]);
      SliceBeforeLast(s, StripStart(s[..|s| - 1]), Strip(s[..|s| - 1]));
    } else {
      assert s[0..|s|] == s && s[..0] == [] && s[|s|..] == [];
    }
  }

  lemma SliceAfterHead(s: string, i: nat, r: string)
    requires s != [] && IsSpace(s[0])
    requires TrimmedSliceAt(s[1..], i, r)
    ensures TrimmedSliceAt(s, i + 1, r)
  {
    assert s[1..][i..i + |r|] == s[i + 1..i + 1 + |r|];
    assert s[..i + 1] == [s[0]] + s[1..][..i];
    assert s[i + 1 + |r|..] == s[1..][i + |r|..];
  }

  lemma SliceBeforeLast(s: string, i: nat, r: string)
    requires s != [] && IsSpace(s[|s| - 1])
    requires TrimmedSliceAt(s[..|s| - 1], i, r)
    ensures TrimmedSliceAt(s, i, r)
  {
    assert s[..|s| - 1][i..i + |r|] == s[i..i + |r|];
    assert s[..|s| - 1][..i] == s[..i];
    assert s[i + |r|..] == s[..|s| - 1][i + |r|..] + [s[|s| - 1]];
  }

  /** Whitespace appended at the end does not change the stripped text:
      `(s + "\n").strip() == s.strip()`. */
  lemma {:induction false} StripAppendSpace(s: string, w: char)
    requires IsSpace(w)
    ensures Strip(s + [w]) == Strip(s)
  {
    if s == [] {
      assert Strip([w]) == Strip([w][..0]);
    } else if IsSpace(s[0]) {
      assert (s + [w])[1..] == s[1..] + [w];
      StripAppendSpace(s[1..], w);
    } else {
      assert (s + [w])[..|s|] == s;
    }
  }

  /** Stripping twice is stripping once. */
  lemma StripIdempotent(s: string)
    ensures Strip(Strip(s)) == Strip(s)
  {
  }
}
