/** The parts of Python's `str` semantics the two scripts rely on:
    `str.isspace` (also what the regex class `\s` matches on a `str`
    pattern), `str.strip()`, `str.rstrip(c)`, and how a text-mode file is
    cut into lines. */
module PyStr {

  /** Python's whitespace characters: bidirectional class WS, B or S, or
      general category Zs. */
  predicate IsSpace(c: char) {
    || c == ' ' || c == '\t' || c == '\n' || c == '\r'
    || c == '\U{0B}' || c == '\U{0C}'
    || c == '\U{1C}' || c == '\U{1D}' || c == '\U{1E}' || c == '\U{1F}'
    || c == '\U{85}' || c == '\U{A0}' || c == '\U{1680}'
    || ('\U{2000}' <= c <= '\U{200A}')
    || c == '\U{2028}' || c == '\U{2029}' || c == '\U{202F}' || c == '\U{205F}'
    || c == '\U{3000}'
  }

  /** No whitespace anywhere in `s`. */
  predicate NoSpace(s: string) {
    forall k :: 0 <= k < |s| ==> !IsSpace(s[k])
  }

  /** `s.lstrip()`. */
  function StripLeft(s: string): string
  {
    if s != [] && IsSpace(s[0]) then StripLeft(s[1..]) else s
  }

  /** `s.rstrip()`. */
  function StripRight(s: string): string
  {
    if s != [] && IsSpace(s[|s| - 1]) then StripRight(s[..|s| - 1]) else s
  }

  /** `s.strip()`. */
  function Strip(s: string): string
  {
    StripRight(StripLeft(s))
  }

  /** `lstrip` keeps the suffix from the first non-space on. */
  lemma {:induction false} StripLeftMeaning(s: string)
    ensures |StripLeft(s)| <= |s| && StripLeft(s) == s[|s| - |StripLeft(s)|..]
    ensures StripLeft(s) == [] || !IsSpace(StripLeft(s)[0])
    ensures forall k :: 0 <= k < |s| - |StripLeft(s)| ==> IsSpace(s[k])
  {
    if s != [] && IsSpace(s[0]) {
      var t := s[1..];
      StripLeftMeaning(t);
      var r := StripLeft(t);
      assert StripLeft(s) == r;
      assert t[|t| - |r|..] == s[|s| - |r|..];
      forall k | 0 <= k < |s| - |r| ensures IsSpace(s[k]) {
        if k > 0 {
          assert s[k] == t[k - 1];
        }
      }
    }
  }

  /** `rstrip` keeps the prefix up to the last non-space. */
  lemma {:induction false} StripRightMeaning(s: string)
    ensures var r := StripRight(s);
      && |r| <= |s| && r == s[..|r|]
      && (r == [] || !IsSpace(r[|r| - 1]))
      && (forall k :: |r| <= k < |s| ==> IsSpace(s[k]))
  {
    if s != [] && IsSpace(s[|s| - 1]) {
      StripRightMeaning(s[..|s| - 1]);
    }
  }

  /** Where `strip` starts cutting: the first non-space of `s`. */
  function StripStart(s: string): (i: nat)
    ensures i <= |s|
  {
    StripLeftMeaning(s);
    |s| - |StripLeft(s)|
  }

  /** What `strip` keeps: the piece of `s` from its first to its last
      non-space, with only whitespace outside it; it neither starts nor ends
      with whitespace, and it is empty exactly when `s` is all whitespace. */
  lemma StripMeaning(s: string)
    ensures var r, i := Strip(s), StripStart(s);
      && i + |r| <= |s| && r == s[i..i + |r|]
      && (r == [] || (!IsSpace(r[0]) && !IsSpace(r[|r| - 1])))
      && (forall k :: 0 <= k < i ==> IsSpace(s[k]))
      && (forall k :: i + |r| <= k < |s| ==> IsSpace(s[k]))
      && (r == [] <==> forall k :: 0 <= k < |s| ==> IsSpace(s[k]))
  {
    var l := StripLeft(s);
    StripLeftMeaning(s);
    var r := StripRight(l);
    StripRightMeaning(l);
    var i := |s| - |l|;
    assert r == s[i..i + |r|];
    if r != [] {
      assert r[0] == l[0];
    }
    forall k | i + |r| <= k < |s| ensures IsSpace(s[k]) {
      assert s[k] == l[k - i];
    }
  }

  /** Stripping twice is stripping once. */
  lemma StripIdempotent(s: string)
    ensures Strip(Strip(s)) == Strip(s)
  {
    StripMeaning(s);
    StripUnchanged(Strip(s));
  }

  /** A string that neither starts nor ends with whitespace is its own strip. */
  lemma StripUnchanged(s: string)
    requires s == [] || (!IsSpace(s[0]) && !IsSpace(s[|s| - 1]))
    ensures Strip(s) == s
  {
  }

  /** `s.rstrip(c)`: drop every trailing `c`. */
  function RStripChar(s: string, c: char): string
  {
    if s != [] && s[|s| - 1] == c then RStripChar(s[..|s| - 1], c) else s
  }

  /** With no `c` at its end, `rstrip(c)` leaves a string as it is, and
      otherwise it removes exactly the trailing run of `c`. */
  lemma {:induction false} RStripCharMeaning(s: string, c: char)
    ensures var r := RStripChar(s, c);
      && |r| <= |s| && r == s[..|r|]
      && (r == [] || r[|r| - 1] != c)
      && (forall k :: |r| <= k < |s| ==> s[k] == c)
  {
    if s != [] && s[|s| - 1] == c {
      RStripCharMeaning(s[..|s| - 1], c);
    }
  }

  /** A line break as a text-mode file sees it: universal newlines turn
      "\r\n" and a lone "\r" into "\n". */
  predicate IsLineBreak(c: char) {
    c == '\n' || c == '\r'
  }

  /** The text of `s` cut at every line break. Iterating a Python text file
      yields these pieces (each with its terminator, which `strip` removes);
      "\r\n" gives an extra empty piece here, and a trailing break gives a
      final empty piece, which Python does not yield. Both are blank. */
  function Lines(s: string): (r: seq<string>)
    ensures |r| >= 1
  {
    if s == [] then [""]
    else
      var rest := Lines(s[1..]);
      if IsLineBreak(s[0]) then [""] + rest
      else [[s[0]] + rest[0]] + rest[1..]
  }

  /** No piece holds a line break. */
  lemma {:induction false} LinesHaveNoBreaks(s: string)
    ensures forall k, j :: 0 <= k < |Lines(s)| && 0 <= j < |Lines(s)[k]| ==> !IsLineBreak(Lines(s)[k][j])
  {
    if s != [] {
      LinesHaveNoBreaks(s[1..]);
    }
  }

  /** Text with no line break in `d` continues the first piece of what follows. */
  lemma {:induction false} LinesPrefix(d: string, t: string)
    requires forall j :: 0 <= j < |d| ==> !IsLineBreak(d[j])
    ensures Lines(d + t) == [d + Lines(t)[0]] + Lines(t)[1..]
  {
    if d != [] {
      assert (d + t)[0] == d[0];
      assert (d + t)[1..] == d[1..] + t;
      LinesPrefix(d[1..], t);
      assert [d[0]] + (d[1..] + Lines(t)[0]) == d + Lines(t)[0];
    } else {
      assert d + t == t && d + Lines(t)[0] == Lines(t)[0];
      assert Lines(t) == [Lines(t)[0]] + Lines(t)[1..];
    }
  }

  /** One line of text followed by "\n": a piece of its own. */
  lemma LinesOfLine(d: string, rest: string)
    requires forall j :: 0 <= j < |d| ==> !IsLineBreak(d[j])
    ensures Lines(d + "\n" + rest) == [d] + Lines(rest)
  {
    assert d + "\n" + rest == d + ("\n" + rest);
    LinesPrefix(d, "\n" + rest);
    assert ("\n" + rest)[0] == '\n' && ("\n" + rest)[1..] == rest;
    assert Lines("\n" + rest) == [""] + Lines(rest);
    assert d + "" == d;
  }
}
