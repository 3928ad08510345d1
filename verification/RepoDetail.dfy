/** The repository-detail view as a state machine: the repository record
    load, the three tabs, and the README and code-analysis fetches behind
    their memo guards. Each network wait is one atomic step: a fetch is
    started (`Begin…`: guard and loading flag) and later completed
    (`Complete…`: the awaited results are parameters). */
module RepoDetail {
  import opened JsStrings
  import opened Readme
  import opened Listing
  import opened Report

  datatype Tab = Overview | ReadmeTab | CodeTab

  /** The repository record; its default branch is part of the raw-content
      and contents URLs, which the fetch parameters stand for. */
  datatype RepoMeta = RepoMeta(defaultBranch: JsString)

  const LoadFailedText: JsString := "Failed to load repository data"
  const NotLoadedText: JsString := "The repository could not be loaded."
  const ReadmePlaceholder: JsString := "README content will appear here..."
  const CodePlaceholder: JsString := "Code analysis will appear here..."

  /** What the active tab shows. */
  datatype Panel = RepoFacts | Spinner | Markdown(text: JsString) | Notice(text: JsString)

  datatype Screen = LoadingScreen | NotFound(message: JsString) | Detail(tab: Tab, panel: Panel)

  class RepoDetailView {
    var repo: Option<RepoMeta>
    var loading: bool
    var error: Option<JsString>
    var activeTab: Tab
    var readmeSummary: JsString
    var readmeLoading: bool
    var codeSummary: JsString
    var codeLoading: bool
    /** The README candidate names requested so far, in order. */
    var readmeRequests: seq<JsString>
    /** The number of contents-listing requests made so far. */
    var listingRequests: nat

    /** A pending fetch has no stored result yet; once requests were made
        the result is stored; so the README candidates are requested in at
        most one pass and the listing at most once. */
    ghost predicate Valid()
      reads this
    {
      (readmeLoading ==> readmeSummary == []) &&
      (codeLoading ==> codeSummary == []) &&
      (readmeRequests != [] ==> readmeSummary != []) &&
      (listingRequests > 0 ==> codeSummary != []) &&
      readmeRequests <= Variants &&
      listingRequests <= 1
    }

    /** The state of a freshly mounted view. */
    constructor()
      ensures Valid()
      ensures repo == None && loading && error == None && activeTab == Overview
      ensures readmeSummary == [] && !readmeLoading && codeSummary == [] && !codeLoading
      ensures readmeRequests == [] && listingRequests == 0
    {
      repo := None;
      loading := true;
      error := None;
      activeTab := Overview;
      readmeSummary := [];
      readmeLoading := false;
      codeSummary := [];
      codeLoading := false;
      readmeRequests := [];
      listingRequests := 0;
    }

    /** `fetchRepoData` once the repository request has answered: the record
        or the failure message, loading over; a new record re-runs the tab
        effect. */
    method FetchRepoData(response: Option<RepoMeta>)
      requires Valid()
      modifies this
      ensures Valid()
      ensures !loading
      ensures response.Some? ==> repo == response && error == None
      ensures response.None? ==> repo == old(repo) && error == Some(LoadFailedText)
      ensures activeTab == old(activeTab)
      ensures readmeSummary == old(readmeSummary) && codeSummary == old(codeSummary)
      ensures readmeRequests == old(readmeRequests) && listingRequests == old(listingRequests)
      ensures readmeLoading == (old(readmeLoading) ||
        (response.Some? && activeTab == ReadmeTab && readmeSummary == []))
      ensures codeLoading == (old(codeLoading) ||
        (response.Some? && activeTab == CodeTab && codeSummary == []))
    {
      error := None;
      if response.Some? {
        repo := response;
        loading := false;
        TabEffect();
      } else {
        error := Some(LoadFailedText);
        loading := false;
      }
    }

    /** A tab button: switching to another tab re-runs the tab effect;
        clicking the active tab changes nothing. */
    method SelectTab(tab: Tab)
      requires Valid()
      modifies this
      ensures Valid()
      ensures activeTab == tab
      ensures repo == old(repo) && loading == old(loading) && error == old(error)
      ensures readmeSummary == old(readmeSummary) && codeSummary == old(codeSummary)
      ensures readmeRequests == old(readmeRequests) && listingRequests == old(listingRequests)
      ensures readmeLoading == (old(readmeLoading) ||
        (tab != old(activeTab) && repo.Some? && tab == ReadmeTab && readmeSummary == []))
      ensures codeLoading == (old(codeLoading) ||
        (tab != old(activeTab) && repo.Some? && tab == CodeTab && codeSummary == []))
    {
      if tab != activeTab {
        activeTab := tab;
        TabEffect();
      }
    }

    /** The effect on `[activeTab, repo]`: starts the fetch behind the active
        tab when a repository is loaded and that tab has nothing stored; the
        overview tab never fetches. */
    method TabEffect()
      requires Valid()
      modifies this
      ensures Valid()
      ensures repo == old(repo) && loading == old(loading) && error == old(error)
      ensures activeTab == old(activeTab)
      ensures readmeSummary == old(readmeSummary) && codeSummary == old(codeSummary)
      ensures readmeRequests == old(readmeRequests) && listingRequests == old(listingRequests)
      ensures readmeLoading == (old(readmeLoading) ||
        (repo.Some? && activeTab == ReadmeTab && readmeSummary == []))
      ensures codeLoading == (old(codeLoading) ||
        (repo.Some? && activeTab == CodeTab && codeSummary == []))
    {
      if repo.None? {
        return;
      }
      if activeTab == ReadmeTab && readmeSummary == [] {
        BeginReadme();
      } else if activeTab == CodeTab && codeSummary == [] {
        BeginCode();
      }
    }

    /** The start of `fetchReadme`: nothing happens when a README text is
        stored or a fetch is pending; otherwise the loading flag is set. */
    method BeginReadme()
      requires Valid()
      modifies this
      ensures Valid()
      ensures old(readmeSummary) != [] || old(readmeLoading) ==> readmeLoading == old(readmeLoading)
      ensures old(readmeSummary) == [] ==> readmeLoading
      ensures repo == old(repo) && loading == old(loading) && error == old(error)
      ensures activeTab == old(activeTab)
      ensures readmeSummary == old(readmeSummary) && codeSummary == old(codeSummary)
      ensures codeLoading == old(codeLoading)
      ensures readmeRequests == old(readmeRequests) && listingRequests == old(listingRequests)
    {
      if readmeSummary != [] || readmeLoading {
        return;
      }
      readmeLoading := true;
    }

    /** The rest of `fetchReadme` once the raw host has answered each
        request (`fetch`): the candidate search, then the stored text; the
        loading flag is cleared whatever happened. Without a repository
        record, reading its default branch throws and the failure message
        is stored. Without a pending fetch there is nothing to complete. */
    method CompleteReadme(fetch: JsString -> FetchOutcome)
      requires Valid()
      modifies this
      ensures Valid()
      ensures !readmeLoading
      ensures !old(readmeLoading) ==>
        readmeSummary == old(readmeSummary) && readmeRequests == old(readmeRequests)
      ensures old(readmeLoading) && repo.Some? ==>
        readmeSummary == Resolve(fetch) && readmeRequests == Search(fetch, Variants).0
      ensures old(readmeLoading) && repo.None? ==>
        readmeSummary == FailedText && readmeRequests == []
      ensures repo == old(repo) && loading == old(loading) && error == old(error)
      ensures activeTab == old(activeTab)
      ensures codeSummary == old(codeSummary) && codeLoading == old(codeLoading)
      ensures listingRequests == old(listingRequests)
    {
      if !readmeLoading {
        return;
      }
      if repo.None? {
        readmeSummary := FailedText;
      } else {
        var text, requested := LoadReadme(fetch);
        readmeRequests := readmeRequests + requested;
        readmeSummary := text;
      }
      readmeLoading := false;
    }

    /** The start of `fetchCodeAnalysis`, guarded like `BeginReadme`. */
    method BeginCode()
      requires Valid()
      modifies this
      ensures Valid()
      ensures old(codeSummary) != [] || old(codeLoading) ==> codeLoading == old(codeLoading)
      ensures old(codeSummary) == [] ==> codeLoading
      ensures repo == old(repo) && loading == old(loading) && error == old(error)
      ensures activeTab == old(activeTab)
      ensures readmeSummary == old(readmeSummary) && codeSummary == old(codeSummary)
      ensures readmeLoading == old(readmeLoading)
      ensures readmeRequests == old(readmeRequests) && listingRequests == old(listingRequests)
    {
      if codeSummary != [] || codeLoading {
        return;
      }
      codeLoading := true;
    }

    /** The rest of `fetchCodeAnalysis` once the contents request has
        answered with a listing, or failed (`None`): the analysis summary or
        the failure message is stored, and the loading flag is cleared. */
    method CompleteCode(listing: Option<seq<Entry>>)
      requires Valid()
      modifies this
      ensures Valid()
      ensures !codeLoading
      ensures !old(codeLoading) ==>
        codeSummary == old(codeSummary) && listingRequests == old(listingRequests)
      ensures old(codeLoading) && repo.Some? ==> listingRequests == 1
      ensures old(codeLoading) && repo.Some? && listing.Some? ==>
        codeSummary == Summary(Analysis(listing.value))
      ensures old(codeLoading) && (repo.None? || listing.None?) ==> codeSummary == AnalysisFailedText
      ensures repo == old(repo) && loading == old(loading) && error == old(error)
      ensures activeTab == old(activeTab)
      ensures readmeSummary == old(readmeSummary) && readmeLoading == old(readmeLoading)
      ensures readmeRequests == old(readmeRequests)
    {
      if !codeLoading {
        return;
      }
      if repo.None? {
        codeSummary := AnalysisFailedText;
      } else {
        listingRequests := listingRequests + 1;
        if listing.None? {
          codeSummary := AnalysisFailedText;
        } else {
          codeSummary := AnalysisReport(listing.value);
        }
      }
      codeLoading := false;
    }

    /** What the view renders: the loading screen first, then the
        not-found screen while there is no record or an error, else the
        active tab's panel. */
    function View(): (s: Screen)
      reads this
      ensures loading <==> s == LoadingScreen
      ensures s.NotFound? <==> !loading && (repo.None? || error.Some?)
      ensures s.NotFound? ==> s.message != []
      ensures s.NotFound? && error.Some? && error.value != [] ==> s.message == error.value
      ensures s.Detail? ==> s.tab == activeTab
      ensures s.Detail? && activeTab == Overview ==> s.panel == RepoFacts
      ensures s.Detail? && activeTab == ReadmeTab ==> (s.panel == Spinner <==> readmeLoading)
      ensures s.Detail? && activeTab == ReadmeTab && !readmeLoading ==>
        s.panel == Markdown(if readmeSummary != [] then readmeSummary else ReadmePlaceholder)
      ensures s.Detail? && activeTab == CodeTab ==> (s.panel == Spinner <==> codeLoading)
      ensures s.Detail? && activeTab == CodeTab && !codeLoading ==>
        s.panel == if codeSummary != [] then Markdown(codeSummary) else Notice(CodePlaceholder)
    {
      if loading then LoadingScreen
      else if repo.None? || error.Some? then
        NotFound(if error.Some? && error.value != [] then error.value else NotLoadedText)
      else
        Detail(activeTab,
          match activeTab
          case Overview => RepoFacts
          case ReadmeTab =>
            if readmeLoading then Spinner
            else Markdown(if readmeSummary != [] then readmeSummary else ReadmePlaceholder)
          case CodeTab =>
            if codeLoading then Spinner
            else if codeSummary != [] then Markdown(codeSummary)
            else Notice(CodePlaceholder))
    }
  }
}
