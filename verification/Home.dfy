/** The landing page: reading a GitHub username out of a profile URL, and
    the dark-mode switch. */
module Home {
  import opened JsStrings

  /** `\w` or `-`: the characters a username is made of. */
  predicate IsWordChar(c: char) {
    'a' <= c <= 'z' || 'A' <= c <= 'Z' || '0' <= c <= '9' || c == '_' || c == '-'
  }

  const Host: JsString := "github.com/"

  /** `/github\.com\/([\w-]+)/` matches at i: the host text starts there and
      a username character follows it. */
  predicate MatchAt(s: JsString, i: int) {
    0 <= i && i + |Host| < |s| && s[i..i + |Host|] == Host && IsWordChar(s[i + |Host|])
  }

  /** The length of the run of username characters that starts at j. */
  function WordRun(s: JsString, j: nat): (n: nat)
    requires j <= |s|
    ensures j + n <= |s|
    ensures forall k :: j <= k < j + n ==> IsWordChar(s[k])
    ensures j + n == |s| || !IsWordChar(s[j + n])
    decreases |s| - j
  {
    if j < |s| && IsWordChar(s[j]) then 1 + WordRun(s, j + 1) else 0
  }

  /** The leftmost match at or after `from`, scanning as the regular
      expression engine does. */
  function FindMatch(s: JsString, from: nat): (r: Option<nat>)
    ensures r.Some? ==> from <= r.value && r.value + |Host| < |s|
    decreases |s| - from
  {
    if from + |Host| >= |s| then None
    else if MatchAt(s, from) then Some(from)
    else FindMatch(s, from + 1)
  }

  /** The scan finds the first match: none before it, none at all when it
      finds nothing. */
  lemma {:induction false} FindMatchLeftmost(s: JsString, from: nat)
    ensures FindMatch(s, from).Some? ==> MatchAt(s, FindMatch(s, from).value)
    ensures FindMatch(s, from).Some? ==> forall k :: from <= k < FindMatch(s, from).value ==> !MatchAt(s, k)
    ensures FindMatch(s, from).None? ==> forall k :: from <= k ==> !MatchAt(s, k)
    decreases |s| - from
  {
    if from + |Host| < |s| && !MatchAt(s, from) {
      FindMatchLeftmost(s, from + 1);
    }
  }

  /** The username group of a match at i: the run of username characters
      right after the host text. */
  function UsernameAt(url: JsString, i: nat): JsString
    requires i + |Host| <= |url|
  {
    var start := i + |Host|;
    url[start..start + WordRun(url, start)]
  }

  /** `match?.[1]`: the greedy username group of the leftmost match. */
  function Username(url: JsString): Option<JsString> {
    match FindMatch(url, 0)
    case None => None
    case Some(i) => Some(UsernameAt(url, i))
  }

  /** A username is found exactly when "github.com/" occurs followed by a
      username character; it is then the whole run of username characters
      after the leftmost such occurrence: non-empty, made only of those
      characters, and stopped by the first other character or the end. */
  lemma UsernameFound(url: JsString)
    ensures Username(url).Some? <==> exists i :: MatchAt(url, i)
    ensures Username(url).Some? ==>
      var i := FindMatch(url, 0).value;
      var u := Username(url).value;
      (forall k :: 0 <= k < i ==> !MatchAt(url, k)) &&
      url[i..i + |Host|] == Host &&
      u != [] && (forall k :: 0 <= k < |u| ==> IsWordChar(u[k])) &&
      u <= url[i + |Host|..] &&
      (i + |Host| + |u| == |url| || !IsWordChar(url[i + |Host| + |u|]))
  {
    FindMatchLeftmost(url, 0);
    var m := FindMatch(url, 0);
    if m.Some? {
      var start := m.value + |Host|;
      var n := WordRun(url, start);
      var u := url[start..start + n];
      assert n > 0;
      forall k | 0 <= k < |u| ensures IsWordChar(u[k]) {
        assert u[k] == url[start + k];
      }
    }
  }

  lemma MatchShift(p: JsString, s: JsString, k: nat)
    ensures MatchAt(p + s, k + |p|) <==> MatchAt(s, k)
  {
    if k + |Host| < |s| {
      assert (p + s)[k + |p|..k + |p| + |Host|] == s[k..k + |Host|];
      assert (p + s)[k + |p| + |Host|] == s[k + |Host|];
    }
  }

  /** Scanning p + s from inside s finds the match of s, shifted. */
  lemma {:induction false} FindMatchShift(p: JsString, s: JsString, from: nat)
    ensures FindMatch(p + s, from + |p|) ==
      if FindMatch(s, from).Some? then Some(FindMatch(s, from).value + |p|) else None
    decreases |s| - from
  {
    if from + |Host| < |s| {
      MatchShift(p, s, from);
      if !MatchAt(s, from) {
        FindMatchShift(p, s, from + 1);
      }
    }
  }

  /** Skipping positions where nothing matches does not change the scan. */
  lemma {:induction false} FindMatchSkip(t: JsString, from: nat, to: int)
    requires from <= to
    requires forall k :: from <= k < to ==> !MatchAt(t, k)
    ensures FindMatch(t, from) == FindMatch(t, to)
    decreases |t| - from
  {
    if from < to && from + |Host| < |t| {
      FindMatchSkip(t, from + 1, to);
    }
  }

  lemma {:induction false} WordRunShift(p: JsString, s: JsString, j: nat)
    requires j <= |s|
    ensures WordRun(p + s, j + |p|) == WordRun(s, j)
    decreases |s| - j
  {
    if j < |s| {
      assert (p + s)[j + |p|] == s[j];
      WordRunShift(p, s, j + 1);
    }
  }

  lemma AppendSlice(p: JsString, s: JsString, i: nat, j: nat)
    requires i <= j <= |s|
    ensures (p + s)[i + |p|..j + |p|] == s[i..j]
  {
  }

  /** The username group of a match does not depend on text in front. */
  lemma {:induction false} UsernameAtShift(p: JsString, s: JsString, i: nat)
    requires i + |Host| <= |s|
    ensures UsernameAt(p + s, i + |p|) == UsernameAt(s, i)
  {
    var start := i + |Host|;
    WordRunShift(p, s, start);
    AppendSlice(p, s, start, start + WordRun(s, start));
  }

  /** The scan of p + s finds the match of s, shifted, when no match
      starts inside p. */
  lemma {:induction false} FindAfterPrefix(p: JsString, s: JsString)
    requires forall k :: 0 <= k < |p| ==> !MatchAt(p + s, k)
    ensures FindMatch(p + s, 0) ==
      if FindMatch(s, 0).Some? then Some(FindMatch(s, 0).value + |p|) else None
  {
    assert FindMatch(p + s, 0) == FindMatch(p + s, |p|) by {
      FindMatchSkip(p + s, 0, |p|);
    }
    FindMatchShift(p, s, 0);
  }

  lemma UsernameOfMatch(url: JsString, i: nat)
    requires FindMatch(url, 0) == Some(i)
    ensures Username(url) == Some(UsernameAt(url, i))
  {
  }

  /** Text in front of the URL where no match starts does not change the
      username. */
  lemma {:induction false} PrefixIgnored(p: JsString, s: JsString)
    requires forall k :: 0 <= k < |p| ==> !MatchAt(p + s, k)
    ensures Username(p + s) == Username(s)
  {
    FindAfterPrefix(p, s);
    var m := FindMatch(s, 0);
    if m.Some? {
      UsernameAtShift(p, s, m.value);
      UsernameOfMatch(p + s, m.value + |p|);
      UsernameOfMatch(s, m.value);
    }
  }

  lemma MatchStartsWithHost(t: JsString, k: int)
    requires MatchAt(t, k)
    ensures t[k] == Host[0]
  {
    assert t[k..k + |Host|][0] == t[k];
  }

  /** The bare profile URL "github.com/x" gives "x". */
  lemma BareUrl()
    ensures Username("github.com/x") == Some("x")
  {
    var s: JsString := "github.com/x";
    assert s[0..|Host|] == Host;
    assert FindMatch(s, 0) == Some(0);
    assert WordRun(s, 12) == 0;
    assert WordRun(s, 11) == 1;
    assert UsernameAt(s, 0) == s[11..12] == "x";
  }

  /** A leading scheme is ignored: "https://github.com/x" and
      "github.com/x" both give "x". */
  lemma SchemeIgnored()
    ensures Username("https://" + "github.com/x") == Username("github.com/x") == Some("x")
  {
    var p: JsString := "https://";
    var s: JsString := "github.com/x";
    forall k | 0 <= k < |p| ensures !MatchAt(p + s, k) {
      if MatchAt(p + s, k) {
        MatchStartsWithHost(p + s, k);
      }
    }
    PrefixIgnored(p, s);
    BareUrl();
  }

  // ---------------------------------------------------------------------
  // handleGenerate and toggleDarkMode

  const SummaryRoute: JsString := "/summary/"
  const InvalidUrlText: JsString := "Please enter a valid GitHub profile URL."

  datatype Action = Navigate(path: JsString) | Alert(message: JsString)

  function HandleGenerate(url: JsString): Action {
    match Username(url)
    case Some(u) => if u != [] then Navigate(SummaryRoute + u) else Alert(InvalidUrlText)
    case None => Alert(InvalidUrlText)
  }

  /** The page navigates exactly when a username is found, and then to
      "/summary/" followed by it; otherwise it alerts. */
  lemma HandleGenerateOutcome(url: JsString)
    ensures HandleGenerate(url).Navigate? <==> exists i :: MatchAt(url, i)
    ensures HandleGenerate(url).Navigate? ==>
      HandleGenerate(url).path == SummaryRoute + Username(url).value &&
      HandleGenerate(url).path[|SummaryRoute|..] == Username(url).value
    ensures HandleGenerate(url).Alert? ==> HandleGenerate(url).message == InvalidUrlText
  {
    UsernameFound(url);
  }

  const InitialDarkMode := true

  /** `setDarkMode(prev => !prev)`. */
  function ToggleDarkMode(prev: bool): (next: bool)
    ensures next != prev
  {
    !prev
  }

  /** Two toggles restore the mode. */
  lemma ToggleTwice(mode: bool)
    ensures ToggleDarkMode(ToggleDarkMode(mode)) == mode
  {
  }
}
