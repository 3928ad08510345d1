/** README discovery of the repository-detail view: candidate file names
    are requested one after another from the raw-content host, the first
    one that arrives wins, and long content is cut for display. The raw
    host is abstracted as `fetch`, which answers each candidate name with
    the body it served or with a miss (any per-candidate request error). */
module Readme {
  import opened JsStrings

  datatype FetchOutcome = Fetched(body: JsString) | Missed

  /** Candidate names, in the order they are requested. */
  const Variants: seq<JsString> :=
    ["README.md", "readme.md", "README.MD", "README.txt", "README"]

  const MaxLength := 5000

  const TruncationNotice: JsString := "\n\n... (Content truncated for display)"

  const NotFoundText: JsString := "No README file found in this repository."

  const FailedText: JsString := "Failed to load README file."

  /** Display form of README content: at most 5000 characters of it, with
      the notice appended when anything was cut. */
  function Truncate(content: JsString): (r: JsString)
    ensures |content| <= MaxLength ==> r == content
    ensures |content| > MaxLength ==>
      |r| == MaxLength + |TruncationNotice| &&
      r[..MaxLength] == content[..MaxLength] &&
      r[MaxLength..] == TruncationNotice
    ensures content != [] ==> r != []
  {
    if |content| > MaxLength then content[..MaxLength] + TruncationNotice else content
  }

  /** The candidate search over `names`: the names requested, in order,
      and the body of the first one fetched, if any. */
  function Search(fetch: JsString -> FetchOutcome, names: seq<JsString>)
    : (r: (seq<JsString>, Option<JsString>))
    ensures r.0 <= names
    ensures r.1.Some? ==> r.0 != [] && fetch(r.0[|r.0| - 1]) == Fetched(r.1.value)
  {
    if names == [] then ([], None)
    else match fetch(names[0])
      case Fetched(body) => ([names[0]], Some(body))
      case Missed =>
        var rest := Search(fetch, names[1..]);
        ([names[0]] + rest.0, rest.1)
  }

  /** The text stored once the search is over: the truncated content of
      the first candidate fetched, or the not-found notice when none was
      fetched or the fetched body is empty. */
  function Resolve(fetch: JsString -> FetchOutcome): (text: JsString)
    ensures text != []
  {
    var found := Search(fetch, Variants).1;
    if found.Some? && found.value != [] then Truncate(found.value) else NotFoundText
  }

  /** The `for … of` loop over the candidates: requests them in order
      and stops at the first one fetched. */
  method FirstFetched(fetch: JsString -> FetchOutcome, names: seq<JsString>)
    returns (requested: seq<JsString>, content: Option<JsString>)
    ensures (requested, content) == Search(fetch, names)
  {
    content := None;
    requested := [];
    var i := 0;
    while i < |names|
      invariant 0 <= i <= |names|
      invariant forall j :: 0 <= j < i ==> fetch(names[j]).Missed?
      invariant content.None? ==> requested == names[..i]
      invariant content.Some? ==>
        i < |names| && requested == names[..i + 1] && fetch(names[i]) == Fetched(content.value)
    {
      var name := names[i];
      requested := requested + [name];
      var outcome := fetch(name);
      if outcome.Fetched? {
        content := Some(outcome.body);
        assert requested == names[..i + 1];
        break;
      }
      i := i + 1;
    }
    if content.Some? {
      SearchStopsAtFirst(fetch, names, i, content.value);
    } else {
      SearchFindsNothing(fetch, names);
      assert requested == names;
    }
  }

  /** `fetchReadme` once the request loop has run: the stored text and the
      candidate names requested. */
  method LoadReadme(fetch: JsString -> FetchOutcome) returns (text: JsString, requested: seq<JsString>)
    ensures requested == Search(fetch, Variants).0
    ensures text == Resolve(fetch)
  {
    var content;
    requested, content := FirstFetched(fetch, Variants);
    if content.Some? && content.value != [] {
      text := Truncate(content.value);
    } else {
      text := NotFoundText;
    }
  }

  /** The search requests exactly the candidates up to the first one
      fetched, and no later one. */
  lemma {:induction false} SearchStopsAtFirst(fetch: JsString -> FetchOutcome, names: seq<JsString>, k: nat, body: JsString)
    requires k < |names| && fetch(names[k]) == Fetched(body)
    requires forall i :: 0 <= i < k ==> fetch(names[i]).Missed?
    ensures Search(fetch, names) == (names[..k + 1], Some(body))
  {
    if k > 0 {
      assert fetch(names[0]).Missed?;
      SearchStopsAtFirst(fetch, names[1..], k - 1, body);
      assert [names[0]] + names[1..][..k] == names[..k + 1];
    } else {
      assert names[..1] == [names[0]];
    }
  }

  /** When every candidate misses, all of them are requested and nothing
      is found. */
  lemma {:induction false} SearchFindsNothing(fetch: JsString -> FetchOutcome, names: seq<JsString>)
    requires forall i :: 0 <= i < |names| ==> fetch(names[i]).Missed?
    ensures Search(fetch, names) == (names, None)
  {
    if names != [] {
      assert fetch(names[0]).Missed?;
      SearchFindsNothing(fetch, names[1..]);
      assert [names[0]] + names[1..] == names;
    }
  }

  /** The first of README.md, readme.md, README.MD, README.txt, README to
      be fetched decides the stored text, and later ones are never
      requested; an empty body counts as no README. */
  lemma FirstFetchedWins(fetch: JsString -> FetchOutcome, k: nat, body: JsString)
    requires k < |Variants| && fetch(Variants[k]) == Fetched(body)
    requires forall i :: 0 <= i < k ==> fetch(Variants[i]).Missed?
    ensures Search(fetch, Variants) == (Variants[..k + 1], Some(body))
    ensures Resolve(fetch) == if body == [] then NotFoundText else Truncate(body)
  {
    SearchStopsAtFirst(fetch, Variants, k, body);
  }

  /** When no candidate is fetched, all five are requested and the stored
      text is the not-found notice. */
  lemma NoneFetched(fetch: JsString -> FetchOutcome)
    requires forall i :: 0 <= i < |Variants| ==> fetch(Variants[i]).Missed?
    ensures Search(fetch, Variants) == (Variants, None)
    ensures Resolve(fetch) == NotFoundText
  {
    SearchFindsNothing(fetch, Variants);
  }
}
