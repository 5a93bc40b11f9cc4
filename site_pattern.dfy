/** The one regular expression of the domain extractor,
    `site:(?:https?://)?(?:www\.)?([^/\s\+]+)`, applied with `re.search`,
    written as a matcher for this pattern alone: the leftmost position where
    the pattern matches wins, optional parts are tried consumed first, and
    the capture takes the longest run. */
module SitePattern {
  import opened Wrappers
  import opened PyStr

  /** The class `[^/\s\+]`. */
  predicate InRun(c: char) {
    c != '/' && c != '+' && !IsSpace(c)
  }

  /** `lit` occurs in `q` at position p. */
  predicate HasAt(q: string, p: nat, lit: string) {
    p + |lit| <= |q| && q[p..p + |lit|] == lit
  }

  /** Where a literal is found at i, the character at i + k is its k-th. */
  lemma HasAtChar(q: string, i: nat, lit: string, k: nat)
    requires k < |lit|
    ensures HasAt(q, i, lit) ==> q[i + k] == lit[k]
  {
    if i + |lit| <= |q| {
      assert q[i..i + |lit|][k] == q[i + k];
    }
  }

  /** `q[start:end]`, the span of the capture group. */
  datatype Span = Span(start: nat, end: nat)

  /** A match: where it starts, and the span of group 1. */
  datatype Found = Found(start: nat, group: Span)

  /** Where the longest run of class characters from i ends. */
  function RunEnd(q: string, i: nat): (e: nat)
    requires i <= |q|
    ensures i <= e <= |q|
    ensures forall j :: i <= j < e ==> InRun(q[j])
    ensures e == |q| || !InRun(q[e])
    decreases |q| - i
  {
    if i < |q| && InRun(q[i]) then RunEnd(q, i + 1) else i
  }

  /** `([^/\s\+]+)` at i: greedy, and nothing follows it in the pattern, so
      the longest run is the one taken; it must not be empty. */
  function Group(q: string, i: nat): Option<Span>
    requires i <= |q|
  {
    var e := RunEnd(q, i);
    if e > i then Some(Span(i, e)) else None
  }

  /** `(?:www\.)?([^/\s\+]+)` at i: with the prefix if that leaves a
      non-empty run, else without it. */
  function AfterWww(q: string, i: nat): (r: Option<Span>)
    requires i <= |q|
    ensures r.Some? ==> i <= r.value.start < r.value.end <= |q| && r.value.end == RunEnd(q, r.value.start)
    ensures r.Some? ==> q[i..r.value.start] in {"", "www."}
  {
    if HasAt(q, i, "www.") && Group(q, i + 4).Some? then
      assert q[i..i + 4] == "www.";
      Group(q, i + 4)
    else
      assert q[i..i] == "";
      Group(q, i)
  }

  /** Where `https?://` at i ends, if it occurs there. */
  function SchemeEnd(q: string, i: nat): (r: Option<nat>)
    ensures r.Some? ==> i <= r.value <= |q| && q[i..r.value] in {"http://", "https://"}
  {
    if HasAt(q, i, "https://") then Some(i + 8)
    else if HasAt(q, i, "http://") then Some(i + 7)
    else None
  }

  /** `(?:https?://)?(?:www\.)?([^/\s\+]+)` at i: with the scheme if the
      rest matches after it, else without it. */
  function AfterSite(q: string, i: nat): (r: Option<Span>)
    requires i <= |q|
    ensures r.Some? ==> i <= r.value.start < r.value.end <= |q| && r.value.end == RunEnd(q, r.value.start)
    ensures r.Some? ==> SkippedPrefix(q[i..r.value.start])
  {
    match SchemeEnd(q, i)
    case Some(j) =>
      if AfterWww(q, j).Some? then
        var s := AfterWww(q, j).value.start;
        assert q[i..s] == q[i..j] + q[j..s];
        SchemeThenWww(q[i..j], q[j..s]);
        AfterWww(q, j)
      else AfterWww(q, i)
    case None => AfterWww(q, i)
  }

  /** What the pattern may skip between `site:` and the capture. */
  predicate SkippedPrefix(s: string) {
    s in {"", "www.", "http://", "http://www.", "https://", "https://www."}
  }

  /** A scheme followed by an optional `www.` is a prefix the pattern skips. */
  lemma SchemeThenWww(scheme: string, www: string)
    requires scheme in {"http://", "https://"} && www in {"", "www."}
    ensures SkippedPrefix(scheme + www)
  {
    assert scheme == "http://" || scheme == "https://";
    assert www == "" || www == "www.";
    assert "http://" + "" == "http://" && "https://" + "" == "https://";
    assert "http://" + "www." == "http://www." && "https://" + "www." == "https://www.";
  }

  /** The whole pattern anchored at p: span of group 1 if it matches. */
  function MatchAt(q: string, p: nat): (r: Option<Span>)
    requires p <= |q|
    ensures r.Some? ==> HasAt(q, p, "site:") && p + 5 <= r.value.start < r.value.end <= |q|
    ensures r.Some? ==> r.value.end == RunEnd(q, r.value.start)
    ensures r.Some? ==> SkippedPrefix(q[p + 5..r.value.start])
  {
    if HasAt(q, p, "site:") then AfterSite(q, p + 5) else None
  }

  /** Skipping `pre` at i leaves a non-empty run for the group: the
      alternative the regex needs for a match. */
  predicate Workable(q: string, i: nat, pre: string) {
    HasAt(q, i, pre) && RunEnd(q, i + |pre|) > i + |pre|
  }

  /** After a literal s found at i, `s + w` is workable at i exactly when w
      is workable where s ends. */
  lemma WorkableAfter(q: string, i: nat, s: string, w: string)
    requires HasAt(q, i, s)
    ensures Workable(q, i, s + w) <==> Workable(q, i + |s|, w)
  {
    if i + |s| + |w| <= |q| {
      var x := q[i + |s|..i + |s| + |w|];
      assert q[i..i + |s| + |w|] == q[i..i + |s|] + x;
      assert (s + x)[|s|..] == x && (s + w)[|s|..] == w;
    }
  }

  /** Without s at i, no prefix that begins with s is workable there. */
  lemma NotWorkableWithout(q: string, i: nat, s: string, w: string)
    requires !HasAt(q, i, s)
    ensures !Workable(q, i, s + w)
  {
    if i + |s| + |w| <= |q| {
      assert q[i..i + |s| + |w|][..|s|] == q[i..i + |s|];
      assert (s + w)[..|s|] == s;
    }
  }

  /** `(?:www\.)?([^/\s\+]+)` at j matches exactly when a run starts at j, and
      it skips `www.` exactly when a run is left after it. */
  lemma AfterWwwMeaning(q: string, j: nat)
    requires j <= |q|
    ensures AfterWww(q, j).Some? <==> Workable(q, j, "")
    ensures Workable(q, j, "www.") ==> Workable(q, j, "")
    ensures AfterWww(q, j).Some? ==> AfterWww(q, j).value.start == if Workable(q, j, "www.") then j + 4 else j
  {
    assert HasAt(q, j, "");
    if HasAt(q, j, "www.") {
      WwwInRun(q, j);
    }
  }

  /** `https?://` at i is found exactly when `https://` or `http://` occurs
      there; the two never both occur. */
  lemma SchemeEndMeaning(q: string, i: nat)
    ensures !(HasAt(q, i, "https://") && HasAt(q, i, "http://"))
    ensures SchemeEnd(q, i) == Some(i + 8) <==> HasAt(q, i, "https://")
    ensures SchemeEnd(q, i) == Some(i + 7) <==> HasAt(q, i, "http://")
    ensures SchemeEnd(q, i).None? <==> !HasAt(q, i, "https://") && !HasAt(q, i, "http://")
  {
    HasAtChar(q, i, "https://", 4);
    HasAtChar(q, i, "http://", 4);
  }

  /** `h` at i rules out `www.` there. */
  lemma SchemeRulesOutWww(q: string, i: nat, s: string)
    requires s in {"http://", "https://"} && HasAt(q, i, s)
    ensures !Workable(q, i, "www.")
  {
    HasAtChar(q, i, s, 0);
    HasAtChar(q, i, "www.", 0);
  }

  /** The six prefixes, each split into its scheme and its `www.` part. */
  lemma PrefixParts()
    ensures "https://www." == "https://" + "www." && "https://" == "https://" + ""
    ensures "http://www." == "http://" + "www." && "http://" == "http://" + ""
  {
  }

  /** With the scheme s at i and not o, the prefixes with o or a bare `www.`
      are not workable, those with s are workable as their rest is after s,
      and the pattern tries the rest after s first. */
  lemma AfterSiteScheme(q: string, i: nat, s: string, o: string)
    requires i <= |q|
    requires (s == "https://" && o == "http://") || (s == "http://" && o == "https://")
    requires HasAt(q, i, s) && !HasAt(q, i, o)
    ensures i + |s| <= |q|
    ensures AfterSite(q, i) == if AfterWww(q, i + |s|).Some? then AfterWww(q, i + |s|) else AfterWww(q, i)
    ensures Workable(q, i, s + "www.") <==> Workable(q, i + |s|, "www.")
    ensures Workable(q, i, s) <==> Workable(q, i + |s|, "")
    ensures !Workable(q, i, o + "www.") && !Workable(q, i, o) && !Workable(q, i, "www.")
  {
    SchemeEndMeaning(q, i);
    assert SchemeEnd(q, i) == Some(i + |s|);
    WorkableAfter(q, i, s, "www.");
    WorkableAfter(q, i, s, "");
    assert s + "" == s && o + "" == o;
    NotWorkableWithout(q, i, o, "www.");
    NotWorkableWithout(q, i, o, "");
    SchemeRulesOutWww(q, i, s);
  }

  /** Neither scheme at i: only `www.` and the empty prefix can be
      workable, and the pattern goes on at i. */
  lemma AfterSiteNoScheme(q: string, i: nat)
    requires i <= |q|
    requires !HasAt(q, i, "https://") && !HasAt(q, i, "http://")
    ensures AfterSite(q, i) == AfterWww(q, i)
    ensures !Workable(q, i, "https://www.") && !Workable(q, i, "https://")
    ensures !Workable(q, i, "http://www.") && !Workable(q, i, "http://")
  {
    SchemeEndMeaning(q, i);
    PrefixParts();
    NotWorkableWithout(q, i, "https://", "www.");
    NotWorkableWithout(q, i, "https://", "");
    NotWorkableWithout(q, i, "http://", "www.");
    NotWorkableWithout(q, i, "http://", "");
  }

  /** None of the six prefixes is workable at i, written out. */
  predicate NoneWorkable(q: string, i: nat) {
    && !Workable(q, i, "https://www.") && !Workable(q, i, "https://")
    && !Workable(q, i, "http://www.") && !Workable(q, i, "http://")
    && !Workable(q, i, "www.") && !Workable(q, i, "")
  }

  /** No workable prefix at i is longer than n, written out. */
  predicate NoneLonger(q: string, i: nat, n: nat) {
    && (Workable(q, i, "https://www.") ==> 12 <= n) && (Workable(q, i, "https://") ==> 8 <= n)
    && (Workable(q, i, "http://www.") ==> 11 <= n) && (Workable(q, i, "http://") ==> 7 <= n)
    && (Workable(q, i, "www.") ==> 4 <= n)
  }

  lemma NoneWorkableAll(q: string, i: nat)
    ensures NoneWorkable(q, i) ==> forall pre :: SkippedPrefix(pre) ==> !Workable(q, i, pre)
  {
  }

  lemma NoneLongerAll(q: string, i: nat, n: nat)
    ensures NoneLonger(q, i, n) ==> forall pre :: SkippedPrefix(pre) && Workable(q, i, pre) ==> |pre| <= n
  {
  }

  /** The two halves of AfterSiteMeaning when the scheme s occurs at i. */
  lemma AfterSiteSchemeMeaning(q: string, i: nat, s: string, o: string)
    requires i <= |q|
    requires (s == "https://" && o == "http://") || (s == "http://" && o == "https://")
    requires HasAt(q, i, s) && !HasAt(q, i, o)
    ensures AfterSite(q, i).Some? ==> NoneLonger(q, i, AfterSite(q, i).value.start - i)
    ensures AfterSite(q, i).None? ==> NoneWorkable(q, i)
  {
    PrefixParts();
    AfterSiteScheme(q, i, s, o);
    AfterWwwMeaning(q, i + |s|);
    AfterWwwMeaning(q, i);
  }

  /** The two halves when neither scheme occurs at i. */
  lemma AfterSiteNoSchemeMeaning(q: string, i: nat)
    requires i <= |q|
    requires !HasAt(q, i, "https://") && !HasAt(q, i, "http://")
    ensures AfterSite(q, i).Some? ==> NoneLonger(q, i, AfterSite(q, i).value.start - i)
    ensures AfterSite(q, i).None? ==> NoneWorkable(q, i)
  {
    AfterSiteNoScheme(q, i);
    AfterWwwMeaning(q, i);
  }

  /** After `site:` the regex tries the optional parts consumed first and
      backs off only when no run would be left, so it matches exactly when
      some skipped prefix leaves a run, and it skips the longest such
      prefix. */
  lemma AfterSiteMeaning(q: string, i: nat)
    requires i <= |q|
    ensures AfterSite(q, i).Some? ==> Workable(q, i, q[i..AfterSite(q, i).value.start])
    ensures AfterSite(q, i).Some? ==>
      forall pre :: SkippedPrefix(pre) && Workable(q, i, pre) ==> |pre| <= AfterSite(q, i).value.start - i
    ensures AfterSite(q, i).None? ==> forall pre :: SkippedPrefix(pre) ==> !Workable(q, i, pre)
  {
    SchemeEndMeaning(q, i);
    if HasAt(q, i, "https://") {
      AfterSiteSchemeMeaning(q, i, "https://", "http://");
    } else if HasAt(q, i, "http://") {
      AfterSiteSchemeMeaning(q, i, "http://", "https://");
    } else {
      AfterSiteNoSchemeMeaning(q, i);
    }
    if AfterSite(q, i).Some? {
      NoneLongerAll(q, i, AfterSite(q, i).value.start - i);
    } else {
      NoneWorkableAll(q, i);
    }
  }

  /** The pattern anchored at p matches exactly when `site:` is at p and one
      of the six prefixes after it leaves a non-empty run; the prefix it
      skips is the longest that does. */
  lemma MatchAtMeaning(q: string, p: nat)
    requires p <= |q|
    ensures MatchAt(q, p).Some? <==>
      HasAt(q, p, "site:") && exists pre :: SkippedPrefix(pre) && Workable(q, p + 5, pre)
    ensures MatchAt(q, p).Some? ==> Workable(q, p + 5, q[p + 5..MatchAt(q, p).value.start])
    ensures MatchAt(q, p).Some? ==>
      forall pre :: SkippedPrefix(pre) && Workable(q, p + 5, pre) ==> |pre| <= MatchAt(q, p).value.start - (p + 5)
  {
    if HasAt(q, p, "site:") {
      AfterSiteMeaning(q, p + 5);
      if MatchAt(q, p).Some? {
        var pre := q[p + 5..MatchAt(q, p).value.start];
        assert SkippedPrefix(pre) && Workable(q, p + 5, pre);
      }
    }
  }

  /** The first position from p up to n where `at` finds a match. */
  function FirstFrom(at: nat -> Option<Span>, p: nat, n: nat): (r: Option<Found>)
    requires p <= n
    ensures r.Some? ==> p <= r.value.start <= n && at(r.value.start) == Some(r.value.group)
    ensures r.Some? ==> forall j :: p <= j < r.value.start ==> at(j).None?
    ensures r.None? ==> forall j :: p <= j <= n ==> at(j).None?
    decreases n - p
  {
    match at(p)
    case Some(g) => Some(Found(p, g))
    case None => if p == n then None else FirstFrom(at, p + 1, n)
  }

  /** The pattern anchored at each position of q. */
  function MatchesIn(q: string): nat -> Option<Span>
  {
    (j: nat) => if j <= |q| then MatchAt(q, j) else None
  }

  /** `re.search` from position p on: the first position that matches. */
  function SearchFrom(q: string, p: nat): (r: Option<Found>)
    requires p <= |q|
    ensures r.Some? ==> p <= r.value.start <= |q| && MatchAt(q, r.value.start) == Some(r.value.group)
    ensures r.Some? ==> forall j :: p <= j < r.value.start ==> MatchAt(q, j).None?
    ensures r.None? ==> forall j :: p <= j <= |q| ==> MatchAt(q, j).None?
  {
    var r := FirstFrom(MatchesIn(q), p, |q|);
    assert forall j :: 0 <= j <= |q| ==> MatchesIn(q)(j) == MatchAt(q, j);
    r
  }

  /** `re.search(pattern, q)`. */
  function Search(q: string): Option<Found>
  {
    SearchFrom(q, 0)
  }

  /** `site_match.group(1)`, or nothing when there is no match. */
  function Captured(q: string): Option<string>
  {
    match Search(q)
    case Some(f) => Some(q[f.group.start..f.group.end])
    case None => None
  }

  /** The text of a capture: never empty, and without `/`, whitespace or `+`. */
  lemma CapturedIsRun(q: string)
    ensures Captured(q).Some? ==>
      var d := Captured(q).value;
      d != [] && forall k :: 0 <= k < |d| ==> InRun(d[k])
  {
    if Search(q).Some? {
      var g := Search(q).value.group;
      var d := q[g.start..g.end];
      assert g.end == RunEnd(q, g.start);
      assert forall k :: 0 <= k < |d| ==> d[k] == q[g.start + k];
    }
  }

  /** The capture is the longest one: in `q` it is followed by the end of
      the text, `/`, whitespace or `+`, and preceded by `site:` and one of
      the skipped prefixes. */
  lemma CaptureIsMaximal(q: string)
    ensures Search(q).Some? ==>
      var f := Search(q).value;
      && HasAt(q, f.start, "site:")
      && SkippedPrefix(q[f.start + 5..f.group.start])
      && (f.group.end == |q| || !InRun(q[f.group.end]))
  {
    if Search(q).Some? {
      var f := Search(q).value;
      assert f.group.end == RunEnd(q, f.group.start);
    }
  }

  /** Without a `site:` there is no match. */
  lemma NoSiteNoMatch(q: string)
    requires forall p :: 0 <= p <= |q| ==> !HasAt(q, p, "site:")
    ensures Search(q) == None && Captured(q) == None
  {
  }

  /** A `site:` that is followed by the end of the text, `/`, whitespace or
      `+` does not match, so the search goes on after it. */
  lemma StopAfterSiteFails(q: string, p: nat)
    requires p <= |q| && HasAt(q, p, "site:")
    requires p + 5 == |q| || !InRun(q[p + 5])
    ensures MatchAt(q, p) == None
    ensures p < |q| ==> SearchFrom(q, p) == SearchFrom(q, p + 1)
  {
    var i := p + 5;
    if i < |q| {
      HasAtChar(q, i, "https://", 0);
      HasAtChar(q, i, "http://", 0);
      HasAtChar(q, i, "www.", 0);
    }
  }

  /** RunEnd is the one position that ends a run from i. */
  lemma {:induction false} RunEndOf(q: string, i: nat, e: nat)
    requires i <= e <= |q|
    requires forall k :: i <= k < e ==> InRun(q[k])
    requires e == |q| || !InRun(q[e])
    ensures RunEnd(q, i) == e
    decreases e - i
  {
    if i < e {
      RunEndOf(q, i + 1, e);
    }
  }

  /** A literal at i is a literal at the start of the rest of the text. */
  lemma HasAtSuffix(q: string, i: nat, lit: string)
    requires i <= |q|
    ensures HasAt(q, i, lit) <==> HasAt(q[i..], 0, lit)
  {
    if i + |lit| <= |q| {
      assert q[i..][0..|lit|] == q[i..i + |lit|];
    }
  }

  /** A run of class characters from j that starts with `www.` is at least
      four long. */
  lemma WwwInRun(q: string, j: nat)
    requires j <= |q| && HasAt(q, j, "www.")
    ensures RunEnd(q, j) >= j + 4
  {
    var w := q[j..j + 4];
    assert w == "www.";
    assert InRun(w[0]) && InRun(w[1]) && InRun(w[2]) && InRun(w[3]);
    assert forall k :: j <= k < j + 4 ==> q[k] == w[k - j];
  }

  /** `(?:www\.)?([^/\s\+]+)` on `www + d + rest`, where d is a run that
      ends where rest begins: the capture is d. */
  lemma AfterWwwCanonical(q: string, j: nat, www: string, d: string)
    requires j + |www| + |d| <= |q|
    requires www in {"", "www."} && q[j..j + |www|] == www
    requires q[j + |www|..j + |www| + |d|] == d
    requires d != [] && forall k :: 0 <= k < |d| ==> InRun(d[k])
    requires j + |www| + |d| == |q| || !InRun(q[j + |www| + |d|])
    requires www == "" ==> !(HasAt(d, 0, "www.") && |d| > 4)
    ensures AfterWww(q, j) == Some(Span(j + |www|, j + |www| + |d|))
  {
    var s, e := j + |www|, j + |www| + |d|;
    assert forall k :: s <= k < e ==> q[k] == d[k - s];
    RunEndOf(q, s, e);
    if www == "www." {
      assert HasAt(q, j, "www.");
    } else if HasAt(q, j, "www.") {
      WwwInRun(q, j);
      assert q[j..j + 4] == d[0..4];
      assert |d| == 4;
      RunEndOf(q, e, e);
    }
  }

  /** `(?:https?://)?` on `scheme + www + d + rest`, where `www + d` has no
      `/`: it takes scheme. */
  lemma SchemeEndCanonical(q: string, i: nat, scheme: string)
    requires i + |scheme| <= |q|
    requires scheme in {"", "http://", "https://"} && q[i..i + |scheme|] == scheme
    requires scheme == "" ==> !HasAt(q, i, "http://") && !HasAt(q, i, "https://")
    ensures SchemeEnd(q, i) == if scheme == "" then None else Some(i + |scheme|)
  {
    if scheme == "http://" {
      assert HasAt(q, i, "http://");
      HasAtChar(q, i, "http://", 4);
      HasAtChar(q, i, "https://", 4);
    } else if scheme == "https://" {
      assert HasAt(q, i, "https://");
    }
  }

  /** The search returns the first position where the pattern matches. */
  lemma FirstMatchWins(q: string, m: nat)
    requires m <= |q| && MatchAt(q, m).Some?
    requires forall j :: 0 <= j < m ==> MatchAt(q, j).None?
    ensures Search(q) == Some(Found(m, MatchAt(q, m).value))
  {
  }

  /** The pattern anchored at p, on a text laid out as `site:`, scheme,
      www, a run d and then the end or a character that ends the run. */
  lemma MatchAtCanonical(q: string, p: nat, scheme: string, www: string, d: string)
    requires p + 5 + |scheme| + |www| + |d| <= |q|
    requires q[p..p + 5] == "site:"
    requires scheme in {"", "http://", "https://"} && q[p + 5..p + 5 + |scheme|] == scheme
    requires www in {"", "www."} && q[p + 5 + |scheme|..p + 5 + |scheme| + |www|] == www
    requires q[p + 5 + |scheme| + |www|..p + 5 + |scheme| + |www| + |d|] == d
    requires d != [] && forall k :: 0 <= k < |d| ==> InRun(d[k])
    requires var e := p + 5 + |scheme| + |www| + |d|; e == |q| || !InRun(q[e])
    requires www == "" ==> !(HasAt(d, 0, "www.") && |d| > 4)
    requires scheme == "" ==> !HasAt(q, p + 5, "http://") && !HasAt(q, p + 5, "https://")
    ensures MatchAt(q, p) == Some(Span(p + 5 + |scheme| + |www|, p + 5 + |scheme| + |www| + |d|))
  {
    var i := p + 5;
    var j := i + |scheme|;
    assert HasAt(q, p, "site:");
    AfterWwwCanonical(q, j, www, d);
    SchemeEndCanonical(q, i, scheme);
  }

  /** Where each part of `pre + "site:" + scheme + www + d + rest` lies. */
  lemma Layout(q: string, pre: string, scheme: string, www: string, d: string, rest: string)
    requires q == pre + "site:" + scheme + www + d + rest
    ensures q[..|pre| + 5] == pre + "site:"
    ensures q[|pre|..|pre| + 5] == "site:"
    ensures q[|pre| + 5..] == scheme + www + d + rest
    ensures q[|pre| + 5..|pre| + 5 + |scheme|] == scheme
    ensures q[|pre| + 5 + |scheme|..] == www + d + rest
    ensures q[|pre| + 5 + |scheme|..|pre| + 5 + |scheme| + |www|] == www
    ensures q[|pre| + 5 + |scheme| + |www|..|pre| + 5 + |scheme| + |www| + |d|] == d
    ensures q[|pre| + 5 + |scheme| + |www| + |d|..] == rest
  {
    var a := pre + "site:";
    var b := a + scheme;
    var c := b + www;
    var e := c + d;
    assert q == e + rest;
    assert q[|a|..] == scheme + www + d + rest;
    assert q[|b|..] == www + d + rest;
    assert q[|c|..] == d + rest;
    assert q[|e|..] == rest;
  }

  /** No `site:` starts in u before its last five characters, so where u
      begins the text the pattern does not match there. */
  lemma NoEarlierSite(q: string, u: string)
    requires |u| >= 5 && |u| <= |q| && q[..|u|] == u
    requires forall j :: 0 <= j < |u| - 5 ==> !HasAt(u, j, "site:")
    ensures forall j :: 0 <= j < |u| - 5 ==> MatchAt(q, j).None?
  {
    forall j | 0 <= j < |u| - 5
      ensures !HasAt(q, j, "site:")
    {
      assert q[..|u|][j..j + 5] == q[j..j + 5];
      assert !HasAt(u, j, "site:");
    }
  }

  /** What the extractor is built for: in a query `pre + "site:" + scheme +
      www + d + rest`, where this `site:` is the first one, scheme and www are
      the optional parts, d is a run of class characters and rest starts with
      a character that ends the run, the capture is d. The last two
      conditions rule out the cases where the regex would read the start of
      d as an optional part. */
  lemma CanonicalCapture(pre: string, scheme: string, www: string, d: string, rest: string)
    requires forall j :: 0 <= j < |pre| ==> !HasAt(pre + "site:", j, "site:")
    requires scheme in {"", "http://", "https://"} && www in {"", "www."}
    requires d != [] && forall k :: 0 <= k < |d| ==> InRun(d[k])
    requires rest == [] || !InRun(rest[0])
    requires www == "" ==> !(HasAt(d, 0, "www.") && |d| > 4)
    requires scheme == "" ==> !HasAt(www + d + rest, 0, "http://") && !HasAt(www + d + rest, 0, "https://")
    ensures Captured(pre + "site:" + scheme + www + d + rest) == Some(d)
  {
    var q := pre + "site:" + scheme + www + d + rest;
    var p := |pre|;
    var s := p + 5 + |scheme| + |www|;
    var e := s + |d|;
    Layout(q, pre, scheme, www, d, rest);
    assert e < |q| ==> q[e] == q[e..][0];
    if scheme == "" {
      HasAtSuffix(q, p + 5, "http://");
      HasAtSuffix(q, p + 5, "https://");
    }
    MatchAtCanonical(q, p, scheme, www, d);
    NoEarlierSite(q, pre + "site:");
    CaptureOfFirstMatch(q, p, Span(s, e));
  }

  /** When p is the first position that matches, the capture is the text
      of its group. */
  lemma CaptureOfFirstMatch(q: string, p: nat, g: Span)
    requires p <= |q| && MatchAt(q, p) == Some(g)
    requires forall j :: 0 <= j < p ==> MatchAt(q, j).None?
    ensures g.start <= g.end <= |q| && Captured(q) == Some(q[g.start..g.end])
  {
    FirstMatchWins(q, p);
  }

  /** `re.search` finds a match exactly when some `site:` in q is followed
      by one of the six prefixes and a non-empty run. */
  lemma SearchMeaning(q: string)
    ensures Search(q).Some? <==>
      exists p, pre :: 0 <= p <= |q| && HasAt(q, p, "site:") && SkippedPrefix(pre) && Workable(q, p + 5, pre)
  {
    if Search(q).Some? {
      var p := Search(q).value.start;
      MatchAtMeaning(q, p);
      var pre :| SkippedPrefix(pre) && Workable(q, p + 5, pre);
      assert 0 <= p <= |q| && HasAt(q, p, "site:");
    } else {
      SearchNoneNoPrefix(q);
    }
  }

  lemma SearchNoneNoPrefix(q: string)
    requires Search(q).None?
    ensures forall p, pre :: 0 <= p <= |q| && HasAt(q, p, "site:") && SkippedPrefix(pre) ==> !Workable(q, p + 5, pre)
  {
    forall p, pre | 0 <= p <= |q| && HasAt(q, p, "site:") && SkippedPrefix(pre)
      ensures !Workable(q, p + 5, pre)
    {
      MatchAtMeaning(q, p);
    }
  }

  /** The run from a scheme at i stops at its first `/`. */
  lemma SchemeRunEnd(q: string, i: nat, scheme: string)
    requires scheme in {"http://", "https://"} && HasAt(q, i, scheme)
    ensures RunEnd(q, i) == i + |scheme| - 2
  {
    var e := i + |scheme| - 2;
    assert forall k :: i <= k <= e ==> q[k] == q[i..i + |scheme|][k - i];
    assert forall k :: 0 <= k < |scheme| - 2 ==> InRun(scheme[k]);
    assert q[e] == '/';
    RunEndOf(q, i, e);
  }

  /** A scheme with no run after it is not skipped: the regex backs off to
      the empty prefix, and the capture is the scheme up to its `:`. */
  lemma SchemeBackedOff(pre: string, scheme: string, rest: string)
    requires forall j :: 0 <= j < |pre| ==> !HasAt(pre + "site:", j, "site:")
    requires scheme in {"http://", "https://"}
    requires rest == [] || !InRun(rest[0])
    ensures Captured(pre + "site:" + scheme + rest) == Some(scheme[..|scheme| - 2])
  {
    var u := pre + "site:";
    var q := u + scheme + rest;
    ThreePieces(u, scheme, rest);
    SiteAtEnd(q, pre);
    NoEarlierSite(q, u);
    SchemeCapture(q, |pre|, scheme, rest);
  }

  /** `pre + "site:"` at the start of q puts `site:` at |pre|. */
  lemma SiteAtEnd(q: string, pre: string)
    requires |pre| + 5 <= |q| && q[..|pre| + 5] == pre + "site:"
    ensures HasAt(q, |pre|, "site:")
  {
    assert q[|pre|..|pre| + 5] == q[..|pre| + 5][|pre|..];
  }

  /** The first match at p, with a scheme after `site:` and then rest:
      the capture is the scheme up to its `:`. */
  lemma SchemeCapture(q: string, p: nat, scheme: string, rest: string)
    requires HasAt(q, p, "site:") && forall j :: 0 <= j < p ==> MatchAt(q, j).None?
    requires scheme in {"http://", "https://"} && p + 5 + |scheme| <= |q|
    requires q[p + 5..p + 5 + |scheme|] == scheme
    requires q[p + 5 + |scheme|..] == rest && (rest == [] || !InRun(rest[0]))
    ensures Captured(q) == Some(scheme[..|scheme| - 2])
  {
    var i, e := p + 5, p + 5 + |scheme| - 2;
    SchemeMatchAt(q, p, scheme, rest);
    CaptureOfFirstMatch(q, p, Span(i, e));
    SliceHead(q, i, scheme, |scheme| - 2);
  }

  lemma SchemeMatchAt(q: string, p: nat, scheme: string, rest: string)
    requires HasAt(q, p, "site:")
    requires scheme in {"http://", "https://"} && p + 5 + |scheme| <= |q|
    requires q[p + 5..p + 5 + |scheme|] == scheme
    requires q[p + 5 + |scheme|..] == rest && (rest == [] || !InRun(rest[0]))
    ensures MatchAt(q, p) == Some(Span(p + 5, p + 5 + |scheme| - 2))
  {
    assert HasAt(q, p + 5, scheme);
    SchemeAfterSiteBacksOff(q, p + 5, scheme, rest);
  }

  /** The first n characters of a literal found at i. */
  lemma SliceHead(q: string, i: nat, t: string, n: nat)
    requires i + |t| <= |q| && q[i..i + |t|] == t && n <= |t|
    ensures q[i..i + n] == t[..n]
  {
    assert q[i..i + n] == q[i..i + |t|][..n];
  }

  /** Where the three parts of `a + b + c` lie. */
  lemma ThreePieces(a: string, b: string, c: string)
    ensures (a + b + c)[..|a|] == a
    ensures (a + b + c)[|a|..|a| + |b|] == b
    ensures (a + b + c)[|a| + |b|..] == c
  {
  }

  /** After `site:`: a scheme at i and then rest, which starts with no class
      character, gives the group from i to the scheme's `:`. */
  lemma SchemeAfterSiteBacksOff(q: string, i: nat, scheme: string, rest: string)
    requires scheme in {"http://", "https://"} && HasAt(q, i, scheme)
    requires q[i + |scheme|..] == rest && (rest == [] || !InRun(rest[0]))
    ensures AfterSite(q, i) == Some(Span(i, i + |scheme| - 2))
  {
    var j := i + |scheme|;
    SchemeEndMeaning(q, i);
    if scheme == "https://" {
      AfterSiteScheme(q, i, "https://", "http://");
    } else {
      AfterSiteScheme(q, i, "http://", "https://");
    }
    assert j < |q| ==> q[j] == q[j..][0];
    RunEndOf(q, j, j);
    AfterWwwMeaning(q, j);
    AfterWwwMeaning(q, i);
    SchemeRunEnd(q, i, scheme);
  }

  /** `site:https:///x` gives `https:`. */
  lemma ExampleSchemeBackedOff()
    ensures Captured("site:https:///x") == Some("https:")
  {
    assert "site:https:///x" == "" + "site:" + "https://" + "/x";
    assert "https://"[..6] == "https:";
    SchemeBackedOff("", "https://", "/x");
  }

  /** Letters, digits, `.` and `-`: the characters of a host name. */
  predicate HostChar(c: char) {
    'a' <= c <= 'z' || 'A' <= c <= 'Z' || '0' <= c <= '9' || c == '.' || c == '-'
  }

  /** Host-name characters are class characters. */
  lemma HostCharsInRun(d: string)
    requires forall k :: 0 <= k < |d| ==> HostChar(d[k])
    ensures forall k :: 0 <= k < |d| ==> InRun(d[k])
  {
  }

  /** The query a feed usually carries: `site:https://www.example.com/x`. */
  lemma ExampleFullUrl()
    ensures Captured("site:https://www.example.com/x") == Some("example.com")
  {
    var d := "example.com";
    HostCharsInRun(d);
    assert "site:https://www.example.com/x" == "" + "site:" + "https://" + "www." + d + "/x";
    CanonicalCapture("", "https://", "www.", d, "/x");
  }

  /** A leading `www.` is kept when nothing of the run would be left. */
  lemma ExampleBareWww()
    ensures Captured("site:www./") == Some("www.")
  {
    var d := "www.";
    HostCharsInRun(d);
    HasAtChar(d + "/", 0, "http://", 0);
    HasAtChar(d + "/", 0, "https://", 0);
    assert "site:www./" == "" + "site:" + "" + "" + d + "/";
    CanonicalCapture("", "", "", d, "/");
  }

  /** Only one `www.` is skipped. */
  lemma ExampleDoubleWww()
    ensures Captured("site:www.www.x") == Some("www.x")
  {
    var d := "www.x";
    HostCharsInRun(d);
    HasAtChar("www." + d, 0, "http://", 0);
    HasAtChar("www." + d, 0, "https://", 0);
    assert "site:www.www.x" == "" + "site:" + "" + "www." + d + "";
    CanonicalCapture("", "", "www.", d, "");
  }
}
