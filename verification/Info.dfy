/** The profile page's derived data: the five most-starred repositories,
    the distinct languages and the activity feed, all computed from the
    repository list after it has been sorted in place by stars. */
module Info {
  import opened JsStrings
  import opened Sequences
  import opened StableSort

  /** The profile record; the page only needs to know it arrived. */
  datatype Profile = Profile(login: JsString)

  /** A repository of the list: `null` fields are `None`. */
  datatype Repo = Repo(name: JsString, description: Option<JsString>, language: Option<JsString>, stars: nat)

  /** A field value JavaScript treats as true: present and not empty. */
  predicate Truthy(v: Option<JsString>) { v.Some? && v.value != [] }

  function Stars(r: Repo): int { r.stars }

  const MaxShown := 5

  // ---------------------------------------------------------------------
  // The five most-starred repositories

  /** `data.sort((a, b) => b.stargazers_count - a.stargazers_count).slice(0, 5)`. */
  function TopRepos(data: seq<Repo>): (top: seq<Repo>)
    ensures |top| == if |data| < MaxShown then |data| else MaxShown
    ensures top <= SortDesc(data, Stars)
  {
    Take(SortDesc(data, Stars), MaxShown)
  }

  /** The kept repositories are in non-increasing order of stars, no
      repository left out has more stars than one kept, nothing is lost or
      invented by the sort, and repositories with equal stars keep the
      order of the API response. */
  lemma TopReposAreMostStarred(data: seq<Repo>, n: int)
    ensures SortedDesc(TopRepos(data), Stars)
    ensures forall i, j :: 0 <= i < |TopRepos(data)| <= j < |data| ==>
      SortDesc(data, Stars)[i].stars >= SortDesc(data, Stars)[j].stars
    ensures multiset(SortDesc(data, Stars)) == multiset(data)
    ensures WithKey(SortDesc(data, Stars), Stars, n) == WithKey(data, Stars, n)
  {
    var sorted := SortDesc(data, Stars);
    SortDescSorted(data, Stars);
    SortDescPermutation(data, Stars);
    SortDescStable(data, Stars, n);
    var top := TopRepos(data);
    forall i, j | 0 <= i < j < |top| ensures top[i].stars >= top[j].stars {
      assert top[i] == sorted[i] && top[j] == sorted[j];
    }
  }

  // ---------------------------------------------------------------------
  // Languages

  /** The truthy languages of the list, in list order, repeats included. */
  function TruthyLanguages(data: seq<Repo>): seq<JsString> {
    if data == [] then []
    else
      var r := data[|data| - 1];
      TruthyLanguages(data[..|data| - 1]) + (if Truthy(r.language) then [r.language.value] else [])
  }

  lemma {:induction false} TruthyLanguagesMembers(data: seq<Repo>)
    ensures forall l :: l in TruthyLanguages(data) <==>
      exists i :: 0 <= i < |data| && data[i].language == Some(l) && l != []
  {
    if data != [] {
      var init := data[..|data| - 1];
      TruthyLanguagesMembers(init);
      forall l | (exists i :: 0 <= i < |data| && data[i].language == Some(l) && l != [])
        ensures l in TruthyLanguages(data)
      {
        var i :| 0 <= i < |data| && data[i].language == Some(l) && l != [];
        if i < |init| {
          assert init[i] == data[i];
        }
      }
      forall l | l in TruthyLanguages(data)
        ensures exists i :: 0 <= i < |data| && data[i].language == Some(l) && l != []
      {
        if l in TruthyLanguages(init) {
          var i :| 0 <= i < |init| && init[i].language == Some(l) && l != [];
          assert data[i] == init[i];
        }
      }
    }
  }

  /** The language list has no repeats and holds exactly the truthy
      languages of the list, each placed where it first occurs. */
  lemma LanguagesAreDistinctTruthy(data: seq<Repo>)
    ensures Distinct(FirstSeen(TruthyLanguages(data)))
    ensures forall l :: l in FirstSeen(TruthyLanguages(data)) <==>
      exists i :: 0 <= i < |data| && data[i].language == Some(l) && l != []
  {
    FirstSeenMembers(TruthyLanguages(data));
    TruthyLanguagesMembers(data);
  }

  // ---------------------------------------------------------------------
  // Activities

  const ActivityIcon: JsString := "🛠️ "
  const ActivitySep: JsString := ": "

  predicate HasDescription(r: Repo) { Truthy(r.description) }

  function ActivityLine(r: Repo): JsString
    requires HasDescription(r)
  {
    ActivityIcon + r.name + ActivitySep + r.description.value
  }

  /** `data.filter(repo => repo.description).map(repo => …)`. */
  function ActivityLines(data: seq<Repo>): seq<JsString> {
    if data == [] then []
    else
      var r := data[|data| - 1];
      ActivityLines(data[..|data| - 1]) + (if HasDescription(r) then [ActivityLine(r)] else [])
  }

  /** One line per repository with a description, in list order. */
  lemma {:induction false} ActivityLinesFollowDescribed(data: seq<Repo>)
    ensures |ActivityLines(data)| == |Filter(data, HasDescription)|
    ensures forall i :: 0 <= i < |ActivityLines(data)| ==>
      HasDescription(Filter(data, HasDescription)[i]) &&
      ActivityLines(data)[i] == ActivityLine(Filter(data, HasDescription)[i])
  {
    if data != [] {
      ActivityLinesFollowDescribed(data[..|data| - 1]);
    }
  }

  /** At most five activities, the first ones of the feed. */
  function Activities(data: seq<Repo>): (acts: seq<JsString>)
    ensures |acts| == if |ActivityLines(data)| < MaxShown then |ActivityLines(data)| else MaxShown
    ensures acts <= ActivityLines(data)
  {
    Take(ActivityLines(data), MaxShown)
  }

  // ---------------------------------------------------------------------
  // The page

  datatype Screen = Spinner | ProfileError | ProfilePage(profile: Profile, repos: seq<Repo>,
                                                         languages: seq<JsString>, activities: seq<JsString>)

  class ProfileView {
    var profile: Option<Profile>
    var repos: seq<Repo>
    var languages: seq<JsString>
    var activities: seq<JsString>
    var loading: bool

    constructor()
      ensures profile == None && repos == [] && languages == [] && activities == [] && loading
    {
      profile := None;
      repos := [];
      languages := [];
      activities := [];
      loading := true;
    }

    /** The truthy languages of `data`, collected through an insertion-
        ordered set. */
    static method CollectLanguages(data: array<Repo>) returns (langs: seq<JsString>)
      ensures langs == FirstSeen(TruthyLanguages(data[..]))
    {
      langs := [];
      var i := 0;
      while i < data.Length
        invariant 0 <= i <= data.Length
        invariant langs == FirstSeen(TruthyLanguages(data[..i]))
      {
        var repo := data[i];
        assert data[..i + 1][..i] == data[..i];
        ghost var truthy := TruthyLanguages(data[..i]);
        if Truthy(repo.language) {
          assert TruthyLanguages(data[..i + 1]) == truthy + [repo.language.value];
          assert (truthy + [repo.language.value])[..|truthy|] == truthy;
          if repo.language.value !in langs {
            langs := langs + [repo.language.value];
          }
        } else {
          assert TruthyLanguages(data[..i + 1]) == truthy + [];
          assert truthy + [] == truthy;
        }
        i := i + 1;
      }
      assert data[..i] == data[..];
    }

    /** `fetchData` once both requests have answered: `profileResponse` is
        the profile or a failure, `reposResponse` the repository list (an
        array, sorted in place) or a failure. A failed profile request ends
        the attempt before the list is requested; every path ends loading. */
    method FetchData(profileResponse: Option<Profile>, reposResponse: Option<array<Repo>>)
      modifies this, if reposResponse.Some? then {reposResponse.value} else {}
      ensures !loading
      ensures profileResponse.None? ==>
        profile == old(profile) && repos == old(repos) && languages == old(languages) &&
        activities == old(activities)
      ensures profileResponse.Some? ==> profile == profileResponse
      ensures profileResponse.Some? && reposResponse.None? ==>
        repos == old(repos) && languages == old(languages) && activities == old(activities)
      ensures profileResponse.Some? && reposResponse.Some? ==>
        var sorted := SortDesc(old(reposResponse.value[..]), Stars);
        reposResponse.value[..] == sorted &&
        repos == TopRepos(old(reposResponse.value[..])) &&
        languages == FirstSeen(TruthyLanguages(sorted)) &&
        activities == Activities(sorted)
      ensures profileResponse.None? && reposResponse.Some? ==>
        reposResponse.value[..] == old(reposResponse.value[..])
    {
      if profileResponse.None? {
        loading := false;
        return;
      }
      profile := profileResponse;
      if reposResponse.None? {
        loading := false;
        return;
      }
      var data := reposResponse.value;
      SortInPlace(data, Stars);
      repos := Take(data[..], MaxShown);
      languages := CollectLanguages(data);
      activities := Take(ActivityLines(data[..]), MaxShown);
      loading := false;
    }

    /** What the page renders. */
    function View(): (s: Screen)
      reads this
      ensures loading <==> s == Spinner
      ensures !loading && profile.None? <==> s == ProfileError
    {
      if loading then Spinner
      else if profile.None? then ProfileError
      else ProfilePage(profile.value, repos, languages, activities)
    }
  }

  /** The in-place sort decides the language order: two repositories listed
      Go (1 star) then Rust (2 stars) give the languages Rust, Go. */
  lemma SortedOrderDecidesLanguages()
    ensures var data := [Repo("a", None, Some("Go"), 1), Repo("b", None, Some("Rust"), 2)];
      FirstSeen(TruthyLanguages(SortDesc(data, Stars))) == ["Rust", "Go"] &&
      FirstSeen(TruthyLanguages(data)) == ["Go", "Rust"]
  {
    var a, b := Repo("a", None, Some("Go"), 1), Repo("b", None, Some("Rust"), 2);
    var data := [a, b];
    assert data[..1] == [a];
    assert SortDesc([a], Stars) == [a];
    assert [a][..0] == [];
    assert InsertBack([a], b, Stars) == InsertBack([], b, Stars) + [a];
    assert SortDesc(data, Stars) == [b, a];
    assert [b, a][..1] == [b] && [b][..0] == [];
    assert TruthyLanguages([b]) == ["Rust"];
    assert TruthyLanguages([b, a]) == ["Rust", "Go"];
    assert TruthyLanguages(data) == ["Go", "Rust"];
    assert ["Rust", "Go"][..1] == ["Rust"];
    assert ["Go", "Rust"][..1] == ["Go"];
  }
}
