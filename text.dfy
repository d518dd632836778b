/**
 * The few pieces of Python's `str` that the tracker relies on to read
 * pacman's output: `startswith`, `split(':', 1)`, `strip()` and `split()`.
 */
module Text {
  import opened Wrappers

  /** Python's `str.isspace()`: the characters `strip()` and `split()` discard. */
  predicate IsSpace(c: char) {
    var k := c as int;
    (9 <= k <= 13) || (0x1C <= k <= 0x20) || k == 0x85 || k == 0xA0 || k == 0x1680
    || (0x2000 <= k <= 0x200A) || k == 0x2028 || k == 0x2029 || k == 0x202F
    || k == 0x205F || k == 0x3000
  }

  /**
   * Among the ASCII characters, `isspace` holds of the six in
   * `string.whitespace` and of the four information separators 0x1C-0x1F.
   */
  lemma AsciiSpaces(c: char)
    requires c as int < 128
    ensures IsSpace(c) <==> c in " \t\n\r\U{B}\U{C}\U{1C}\U{1D}\U{1E}\U{1F}"
  {
    var ws := " \t\n\r\U{B}\U{C}\U{1C}\U{1D}\U{1E}\U{1F}";
    if IsSpace(c) {
      var k := c as int;
      if k == 0x20 { assert c == ws[0]; }
      else if k == 9 { assert c == ws[1]; }
      else if k == 10 { assert c == ws[2]; }
      else if k == 13 { assert c == ws[3]; }
      else if k == 11 { assert c == ws[4]; }
      else if k == 12 { assert c == ws[5]; }
      else if k == 0x1C { assert c == ws[6]; }
      else if k == 0x1D { assert c == ws[7]; }
      else if k == 0x1E { assert c == ws[8]; }
      else { assert c == ws[9]; }
    }
  }

  /** `str.startswith`: `s` begins with the characters of `prefix`. */
  predicate StartsWith(s: string, prefix: string) {
    |prefix| <= |s| && s[..|prefix|] == prefix
  }

  /** A string starts with `prefix` exactly when it agrees with `prefix` character by character. */
  lemma StartsWithChars(s: string, prefix: string)
    ensures StartsWith(s, prefix) <==> |prefix| <= |s| && forall i :: 0 <= i < |prefix| ==> s[i] == prefix[i]
  {
    if |prefix| <= |s| && forall i :: 0 <= i < |prefix| ==> s[i] == prefix[i] {
      assert s[..|prefix|] == prefix;
    }
  }

  /** A string made of `prefix` and more starts with `prefix`. */
  lemma StartsWithAppend(prefix: string, rest: string)
    ensures StartsWith(prefix + rest, prefix)
  {
    assert (prefix + rest)[..|prefix|] == prefix;
  }

  /** The position of the first `c` in `s`, if any. */
  function IndexOf(s: string, c: char): (r: Option<nat>)
    ensures r.None? <==> c !in s
    ensures r.Some? ==> r.value < |s| && s[r.value] == c && c !in s[..r.value]
  {
    if |s| == 0 then None
    else if s[0] == c then Some(0)
    else
      match IndexOf(s[1..], c)
      case None => None
      case Some(i) =>
        assert s[1..][..i] == s[1..i + 1];
        Some(i + 1)
  }

  /** The number of whitespace characters that open `s`. */
  function LeadingSpaces(s: string): (n: nat)
    ensures n <= |s|
  {
    if |s| > 0 && IsSpace(s[0]) then 1 + LeadingSpaces(s[1..]) else 0
  }

  /** The leading whitespace is all whitespace. */
  lemma {:induction false} LeadingAllSpaces(s: string)
    ensures forall k :: 0 <= k < LeadingSpaces(s) ==> IsSpace(s[k])
  {
    if |s| > 0 && IsSpace(s[0]) {
      var t := s[1..];
      LeadingAllSpaces(t);
      forall k | 1 <= k < LeadingSpaces(s) ensures IsSpace(s[k]) {
        assert s[k] == t[k - 1];
      }
    }
  }

  /** What follows the leading whitespace is not whitespace. */
  lemma {:induction false} LeadingStops(s: string)
    ensures LeadingSpaces(s) < |s| ==> !IsSpace(s[LeadingSpaces(s)])
  {
    if |s| > 0 && IsSpace(s[0]) {
      var t := s[1..];
      LeadingStops(t);
      if LeadingSpaces(s) < |s| {
        assert s[LeadingSpaces(s)] == t[LeadingSpaces(t)];
      }
    }
  }

  /** The number of whitespace characters that close `s`. */
  function TrailingSpaces(s: string): (n: nat)
    ensures n <= |s|
  {
    if |s| > 0 && IsSpace(s[|s| - 1]) then 1 + TrailingSpaces(s[..|s| - 1]) else 0
  }

  /** The trailing whitespace is all whitespace. */
  lemma {:induction false} TrailingAllSpaces(s: string)
    ensures forall k :: |s| - TrailingSpaces(s) <= k < |s| ==> IsSpace(s[k])
  {
    if |s| > 0 && IsSpace(s[|s| - 1]) {
      var t := s[..|s| - 1];
      TrailingAllSpaces(t);
      forall k | |s| - TrailingSpaces(s) <= k < |s| - 1 ensures IsSpace(s[k]) {
        assert s[k] == t[k];
      }
    }
  }

  /** What precedes the trailing whitespace is not whitespace. */
  lemma {:induction false} TrailingStops(s: string)
    ensures TrailingSpaces(s) < |s| ==> !IsSpace(s[|s| - TrailingSpaces(s) - 1])
  {
    if |s| > 0 && IsSpace(s[|s| - 1]) {
      var t := s[..|s| - 1];
      TrailingStops(t);
      if TrailingSpaces(s) < |s| {
        assert s[|s| - TrailingSpaces(s) - 1] == t[|t| - TrailingSpaces(t) - 1];
      }
    }
  }

  /** `s.lstrip()`: drops the leading whitespace. */
  function TrimLeft(s: string): string {
    s[LeadingSpaces(s)..]
  }

  /** `s.rstrip()`: drops the trailing whitespace. */
  function TrimRight(s: string): string {
    s[..|s| - TrailingSpaces(s)]
  }

  /** `s.strip()`: drops the whitespace at both ends. */
  function Strip(s: string): string {
    TrimRight(TrimLeft(s))
  }

  /**
   * The stripped text is the slice of `s` left once the whitespace at both
   * ends is gone: it starts after the leading whitespace, only whitespace
   * follows it, and it neither starts nor ends with whitespace.
   */
  lemma StripSpec(s: string)
    ensures var r := Strip(s);
            && LeadingSpaces(s) + |r| <= |s|
            && r == s[LeadingSpaces(s)..LeadingSpaces(s) + |r|]
            && (forall k :: LeadingSpaces(s) + |r| <= k < |s| ==> IsSpace(s[k]))
            && (r == [] || (!IsSpace(r[0]) && !IsSpace(r[|r| - 1])))
  {
    StripSlice(s);
    StripTrailing(s);
    StripEnds(s);
  }

  /** The stripped text is the slice that starts right after the leading whitespace. */
  lemma StripSlice(s: string)
    ensures LeadingSpaces(s) + |Strip(s)| <= |s|
    ensures Strip(s) == s[LeadingSpaces(s)..LeadingSpaces(s) + |Strip(s)|]
  {
    var i := LeadingSpaces(s);
    var t := TrimLeft(s);
    assert Strip(s) == t[..|t| - TrailingSpaces(t)];
  }

  /** Everything after the stripped text is whitespace. */
  lemma StripTrailing(s: string)
    ensures forall k :: LeadingSpaces(s) + |Strip(s)| <= k < |s| ==> IsSpace(s[k])
  {
    var i := LeadingSpaces(s);
    var t := TrimLeft(s);
    var r := Strip(s);
    TrailingAllSpaces(t);
    forall k | i + |r| <= k < |s| ensures IsSpace(s[k]) {
      assert s[k] == t[k - i];
    }
  }

  /** The stripped text neither starts nor ends with whitespace. */
  lemma StripEnds(s: string)
    ensures Strip(s) == [] || (!IsSpace(Strip(s)[0]) && !IsSpace(Strip(s)[|Strip(s)| - 1]))
  {
    var t := TrimLeft(s);
    var r := Strip(s);
    if r != [] {
      LeadingStops(s);
      TrailingStops(t);
      assert r[0] == t[0] == s[LeadingSpaces(s)];
      assert r[|r| - 1] == t[|t| - TrailingSpaces(t) - 1];
    }
  }

  /**
   * The text after the first `sep`, stripped; `None` stands for the
   * IndexError Python raises when `sep` is absent.
   */
  function ValueAfter(s: string, sep: char): (r: Option<string>)
    ensures r.None? <==> sep !in s
  {
    match IndexOf(s, sep)
    case None => None
    case Some(i) => Some(Strip(s[i + 1..]))
  }

  /** A value is the stripped text after the first occurrence of `sep`. */
  lemma ValueAfterSpec(s: string, sep: char)
    requires sep in s
    ensures exists i :: 0 <= i < |s| && s[i] == sep && sep !in s[..i] && ValueAfter(s, sep) == Some(Strip(s[i + 1..]))
  {
    var i := IndexOf(s, sep).value;
    assert s[i] == sep && sep !in s[..i];
  }

  /** The length of the run of non-whitespace characters that starts `s`. */
  function WordLength(s: string): (n: nat)
    ensures n <= |s|
  {
    if |s| == 0 || IsSpace(s[0]) then 0 else 1 + WordLength(s[1..])
  }

  /** The run is free of whitespace and ends at whitespace or at the end of `s`. */
  lemma {:induction false} WordLengthSpec(s: string)
    ensures forall k :: 0 <= k < WordLength(s) ==> !IsSpace(s[k])
    ensures WordLength(s) < |s| ==> IsSpace(s[WordLength(s)])
  {
    if |s| > 0 && !IsSpace(s[0]) {
      var t := s[1..];
      WordLengthSpec(t);
      forall k | 1 <= k < WordLength(s) ensures !IsSpace(s[k]) {
        assert s[k] == t[k - 1];
      }
      if WordLength(s) < |s| {
        assert s[WordLength(s)] == t[WordLength(t)];
      }
    }
  }

  predicate IsWord(w: string) {
    w != [] && forall k :: 0 <= k < |w| ==> !IsSpace(w[k])
  }

  /** `s.split()` with no separator: the maximal runs of non-whitespace characters, in order. */
  function Tokens(s: string): (ts: seq<string>)
    ensures |ts| <= |s|
    decreases |s|
  {
    var t := TrimLeft(s);
    if t == [] then []
    else
      LeadingStops(s);
      assert !IsSpace(t[0]);
      var n := WordLength(t);
      [t[..n]] + Tokens(t[n..])
  }

  /** No token is empty and none holds whitespace. */
  lemma {:induction false} TokensAreWords(s: string)
    ensures forall k :: 0 <= k < |Tokens(s)| ==> IsWord(Tokens(s)[k])
    decreases |s|
  {
    var t := TrimLeft(s);
    if t != [] {
      LeadingStops(s);
      var n := WordLength(t);
      WordLengthSpec(t);
      TokensAreWords(t[n..]);
      assert Tokens(s) == [t[..n]] + Tokens(t[n..]);
      assert IsWord(t[..n]);
    }
  }

  /** Words joined by single spaces, as a command prints them. */
  function JoinWords(ws: seq<string>): string {
    if |ws| == 0 then []
    else if |ws| == 1 then ws[0]
    else ws[0] + " " + JoinWords(ws[1..])
  }

  /** `split()` takes apart what `JoinWords` put together. */
  lemma {:induction false} TokensOfJoinWords(ws: seq<string>)
    requires forall k :: 0 <= k < |ws| ==> IsWord(ws[k])
    ensures Tokens(JoinWords(ws)) == ws
  {
    if |ws| == 1 {
      TokensOfWordThen(ws[0], []);
      assert ws[0] + [] == ws[0];
    } else if |ws| > 1 {
      var rest := JoinWords(ws[1..]);
      assert JoinWords(ws) == ws[0] + (" " + rest);
      TokensOfWordThen(ws[0], " " + rest);
      assert (" " + rest)[1..] == rest;
      assert Tokens(" " + rest) == Tokens(rest);
      TokensOfJoinWords(ws[1..]);
    }
  }

  /** `split()` takes apart a line of words joined by single spaces and ended by a newline, as a command prints it. */
  lemma {:induction false} TokensOfLine(ws: seq<string>)
    requires |ws| > 0 && forall k :: 0 <= k < |ws| ==> IsWord(ws[k])
    ensures Tokens(JoinWords(ws) + "\n") == ws
  {
    if |ws| == 1 {
      TokensOfWordThen(ws[0], "\n");
      NewlineNoTokens();
    } else {
      var x := JoinWords(ws[1..]) + "\n";
      assert JoinWords(ws) + "\n" == ws[0] + (" " + x);
      WordSpaceThen(ws[0], x);
      TokensOfLine(ws[1..]);
      assert [ws[0]] + ws[1..] == ws;
    }
  }

  /** A word and a blank before more text are split off as one token. */
  lemma WordSpaceThen(w: string, x: string)
    requires IsWord(w)
    ensures Tokens(w + (" " + x)) == [w] + Tokens(x)
  {
    assert IsSpace((" " + x)[0]);
    TokensOfWordThen(w, " " + x);
    SpaceThen(x);
  }

  /** A leading blank adds no token. */
  lemma SpaceThen(t: string)
    ensures Tokens(" " + t) == Tokens(t)
  {
    assert (" " + t)[1..] == t;
    assert TrimLeft(" " + t) == TrimLeft(t);
  }

  /** A line break alone holds no token. */
  lemma NewlineNoTokens()
    ensures Tokens("\n") == []
  {
    assert IsSpace("\n"[0]);
    assert TrimLeft("\n") == [];
  }

  /** A word followed by whitespace (or nothing) is split off as one token. */
  lemma TokensOfWordThen(w: string, tail: string)
    requires IsWord(w)
    requires tail == [] || IsSpace(tail[0])
    ensures Tokens(w + tail) == [w] + Tokens(tail)
  {
    var s := w + tail;
    assert s[0] == w[0];
    assert LeadingSpaces(s) == 0;
    assert TrimLeft(s) == s;
    WordLengthOfWordThen(w, tail);
    assert s[..|w|] == w;
    assert s[|w|..] == tail;
    calc {
      Tokens(s);
      [s[..WordLength(s)]] + Tokens(s[WordLength(s)..]);
      [w] + Tokens(tail);
    }
  }

  /** A word followed by whitespace (or nothing) is a run exactly as long as the word. */
  lemma {:induction false} WordLengthOfWordThen(w: string, tail: string)
    requires forall k :: 0 <= k < |w| ==> !IsSpace(w[k])
    requires tail == [] || IsSpace(tail[0])
    ensures WordLength(w + tail) == |w|
  {
    if w == [] {
      assert w + tail == tail;
    } else {
      var s := w + tail;
      assert s[0] == w[0];
      assert s[1..] == w[1..] + tail;
      forall k | 0 <= k < |w[1..]| ensures !IsSpace(w[1..][k]) {
        assert w[1..][k] == w[k + 1];
      }
      WordLengthOfWordThen(w[1..], tail);
    }
  }
}
