# GitScope: the behaviour behind the views

GitScope is a browser application that summarises a GitHub profile and a
single repository from the GitHub REST API. This project models, in Dafny,
the parts of it that hold sequential logic, and proves properties about them:

- **The repository-detail controller** (`RepoDetail.jsx`). The view loads the
  repository record, then switches between three tabs. The README tab runs
  the README search. It tries five candidate file names in order, the first
  one fetched wins, and long content is truncated. The code tab runs the
  root-listing analysis: counters, an extension frequency table, and
  structure lines annotated with a purpose label. Both fetches sit behind a
  memo guard and a loading flag. The analysis ends in a Markdown report with
  the five most frequent file types and at most 50 structure lines.
- **The profile aggregation** (`Info/index.jsx`). The repository list is
  sorted in place by stars. From it the page takes the five most-starred
  repositories, the distinct languages and an activity feed of at most five
  lines.
- **The landing page** (`Home/index.jsx`). It reads the username out of a
  profile URL, as the regular expression `github\.com\/([\w-]+)` does, and it
  has the dark-mode switch.

Each network request is an input. The README host is a function from
candidate name to a fetched body or a miss. The contents listing is an
optional sequence of `{name, type}` entries. The repository record,
profile and repository list are optional values, and a repository list is
an array the page sorts in place. Each wait on the network is one atomic
step. The README and code fetches are split in two: `Begin…` is the guard
and the loading flag, and `Complete…` is what happens once the answers
are in.

Modules, in dependency order:

- `JsStrings`: strings, `includes`, `split('.').pop()`, `join`, decimal
  numbers, and insertion-ordered sets.
- `Sequences`: `filter` and `slice`.
- `StableSort`: the stable descending sort, as a function and in place on
  an array.
- `Readme`: the candidate search and truncation.
- `Listing`: `analyzeContents` and `getPurposeGuess`.
- `Report`: `Object.entries` order, the top five and the summary text.
- `RepoDetail`: the view's state machine.
- `Info`: the profile page.
- `Home`: the landing page.

## Model

| member | source | states |
|---|---|---|
| JsStrings.ToLower | src/components/RepoDetail.jsx:108 | same length; every character is the ASCII lower-case form of the character at the same place |
| JsStrings.ContainsOccurs | src/components/RepoDetail.jsx:134-138 | `includes` holds exactly when the text occurs at some position |
| JsStrings.AfterLastDot | src/components/RepoDetail.jsx:108 | the result is a suffix of the name with no dot; it is the whole name or is preceded by a dot |
| JsStrings.Join | src/components/RepoDetail.jsx:161 | joining nothing gives the empty text, one part gives that part, and a non-empty first part gives a non-empty result |
| JsStrings.JoinAppend | src/components/RepoDetail.jsx:161 | joining one more part appends the separator and that part to the joined text |
| JsStrings.Decimal | src/components/RepoDetail.jsx:167-169 | a count is written as a non-empty run of decimal digits without a leading zero |
| JsStrings.DecimalValue | src/components/RepoDetail.jsx:160 | reading the digits back gives the count |
| JsStrings.FirstSeenMembers | src/pages/Info/index.jsx:29-33 | a Set's iteration order has no repeats and holds exactly the elements added |
| JsStrings.FirstSeenOrder | src/pages/Info/index.jsx:29-33 | an element listed earlier was first added earlier |
| Sequences.Filter | src/pages/Info/index.jsx:36 | no longer than the input, and every kept element satisfies the predicate |
| Sequences.FilterMembers | src/pages/Info/index.jsx:36 | filtering keeps exactly the elements that satisfy the predicate and invents none |
| Sequences.Take | src/pages/Info/index.jsx:27 | `slice(0, n)` keeps the first n elements, or all of them when fewer |
| StableSort.InsertBack | src/pages/Info/index.jsx:26 | one insertion step of the stable sort: the element goes after every element whose key is at least its own; InsertBackPermutation, InsertBackSorted and InsertBackStable state what it keeps |
| StableSort.SortDesc | src/pages/Info/index.jsx:26 | `sort((a, b) => key(b) - key(a))` as a stable descending sort; SortDescSorted, SortDescPermutation and SortDescStable state its result |
| StableSort.SortDescSorted | src/pages/Info/index.jsx:26 | the comparator `key(b) - key(a)` sorts into non-increasing key order |
| StableSort.SortDescPermutation | src/pages/Info/index.jsx:26 | the sort neither loses nor invents elements |
| StableSort.SortDescStable | src/pages/Info/index.jsx:26 | elements with equal keys keep their input order |
| StableSort.InsertInPlace | src/pages/Info/index.jsx:26 | one in-place insertion step equals the insertion function on the array prefix and leaves the rest alone |
| StableSort.SortInPlace | src/pages/Info/index.jsx:26 | sorting the array in place leaves exactly the stable descending order of its old contents |
| Readme.Truncate | src/components/RepoDetail.jsx:68-70 | content of at most 5000 characters is unchanged; longer content becomes its first 5000 characters followed by the truncation notice |
| Readme.Search | src/components/RepoDetail.jsx:50-64 | the names requested are a prefix of the candidates; a found body is the one the last requested name returned |
| Readme.Resolve | src/components/RepoDetail.jsx:66-74 | the stored README text is never empty |
| Readme.FirstFetched | src/components/RepoDetail.jsx:51-64 | the request loop with `break` requests and finds exactly what the candidate search does |
| Readme.LoadReadme | src/components/RepoDetail.jsx:47-74 | the stored text and the requests made are those of the candidate search |
| Readme.SearchStopsAtFirst | src/components/RepoDetail.jsx:53-64 | the search requests the candidates up to the first one fetched, and no later one |
| Readme.SearchFindsNothing | src/components/RepoDetail.jsx:53-64 | when every candidate misses, all are requested and nothing is found |
| Readme.FirstFetchedWins | src/components/RepoDetail.jsx:50-71 | the first of README.md, readme.md, README.MD, README.txt, README to arrive decides the text; an empty body gives the not-found notice |
| Readme.NoneFetched | src/components/RepoDetail.jsx:72-73 | when no candidate arrives, all five are requested and the not-found notice is stored |
| Listing.Extension | src/components/RepoDetail.jsx:108 | `split('.').pop()?.toLowerCase()`; ExtensionShape and DotlessExtension state what it is |
| Listing.GuessPurpose | src/components/RepoDetail.jsx:131-152 | the first of the nine name and extension rules that applies decides the label, else the extension switch; TestJsxIsTestFile, JsxPurpose, EntryPointNames, DocumentationByExtension and CodeFilesNotDocumentation state its outcomes |
| Listing.ExtensionShape | src/components/RepoDetail.jsx:108 | the extension is the lower-cased text after the last dot and holds no dot |
| Listing.DotlessExtension | src/components/RepoDetail.jsx:108 | a name without a dot is its own extension, lower-cased |
| Listing.TestJsxIsTestFile | src/components/RepoDetail.jsx:131-136 | "test.jsx" has extension "jsx" and is labelled a test file, because the first matching rule wins |
| Listing.JsxPurpose | src/components/RepoDetail.jsx:134-136 | a .jsx file is a test file, a configuration or a React component |
| Listing.EntryPointNames | src/components/RepoDetail.jsx:140 | only index.js and index.ts, in any letter case, are entry points |
| Listing.DocumentationByExtension | src/components/RepoDetail.jsx:141-142 | the documentation label needs extension md and the data label needs json |
| Listing.CodeFilesNotDocumentation | src/components/RepoDetail.jsx:114-142 | a code file is never labelled documentation or data |
| Listing.FileLine | src/components/RepoDetail.jsx:117-121 | a file line: the file icon, the quoted name and, for a code file, the purpose label; FileLineLabelled states when the label is there |
| Listing.DirLine | src/components/RepoDetail.jsx:124 | a directory line: the folder icon and the quoted name followed by a slash |
| Listing.StructureLine | src/components/RepoDetail.jsx:118-124 | the line a file or directory entry adds; AnalysisStructure states the lines collected |
| Listing.FileLineLabelled | src/components/RepoDetail.jsx:115-121 | a file line carries a purpose label exactly when the extension is a code extension |
| Listing.Visit | src/components/RepoDetail.jsx:104-126 | what one entry of the `forEach` does to the statistics; OtherKindsIgnored and AnalysisStep state it |
| Listing.Analysis | src/components/RepoDetail.jsx:95-128 | the statistics after the whole listing; AnalysisCounts, AnalysisFileTypes, AnalysisStructure and CountsBounded state them, and AnalyzeContents is the loop proved equal to it |
| Listing.AnalyzeContents | src/components/RepoDetail.jsx:95-129 | the `forEach` over the listing computes the fold of the per-entry step |
| Listing.AnalysisCounts | src/components/RepoDetail.jsx:104-123 | the counters are the number of files, of code files and of directories |
| Listing.AnalysisFileTypes | src/components/RepoDetail.jsx:108-111 | the table counts the non-empty extensions of the files |
| Listing.AnalysisStructure | src/components/RepoDetail.jsx:118-124 | one structure line per file or directory, in listing order |
| Listing.OtherKindsIgnored | src/components/RepoDetail.jsx:105-125 | an entry that is neither "file" nor "dir" changes nothing |
| Listing.CountsBounded | src/components/RepoDetail.jsx:104-126 | code files are at most the files; the structure lines number files plus directories; at most one counted extension per file |
| Listing.StructureLinesAppend | src/components/RepoDetail.jsx:104 | structure lines follow the listing order |
| Listing.Bump | src/components/RepoDetail.jsx:110 | counting one more occurrence of an extension in an insertion-ordered table, starting from zero; BumpKeys, BumpCount and BumpTotal state its effect |
| Listing.Tally | src/components/RepoDetail.jsx:108-111 | the table built by counting each extension in turn; TallyKeys, TallyCounts, TallyTotal and TallyEntries state its contents |
| Listing.BumpKeys | src/components/RepoDetail.jsx:110 | counting a known key keeps the keys; a new key goes to the end |
| Listing.BumpCount | src/components/RepoDetail.jsx:110 | counting a key adds one to it and to nothing else |
| Listing.BumpTotal | src/components/RepoDetail.jsx:110 | counting a key adds one to the total |
| Listing.TallyKeys | src/components/RepoDetail.jsx:108-111 | the table's keys are the distinct extensions in first-counted order |
| Listing.TallyCounts | src/components/RepoDetail.jsx:108-111 | the number recorded for an extension is how often it was counted |
| Listing.TallyTotal | src/components/RepoDetail.jsx:108-111 | the numbers add up to the number of files with a non-empty extension |
| Listing.TallyEntries | src/components/RepoDetail.jsx:108-111 | every table entry pairs an extension with its frequency |
| Report.EntriesOrder | src/components/RepoDetail.jsx:157 | the `Object.entries` order of the table; EntriesOrderPermutation, EntriesOrderShape and EntriesOrderWithoutIndexKeys state it |
| Report.EntriesOrderPermutation | src/components/RepoDetail.jsx:157 | `Object.entries` lists every entry once |
| Report.EntriesOrderShape | src/components/RepoDetail.jsx:157 | array-index keys come first, ascending; the other keys follow in insertion order |
| Report.EntriesOrderWithoutIndexKeys | src/components/RepoDetail.jsx:157 | without array-index keys the entries come in insertion order |
| Report.RankedTypes | src/components/RepoDetail.jsx:157-158 | the entries sorted by count, descending, ties in entries order; TopFileTypesAreMostFrequent and TopFileTypesTies state it |
| Report.TopFileTypes | src/components/RepoDetail.jsx:157-159 | at most five entries, the first ones of the ranking |
| Report.TopFileTypesAreMostFrequent | src/components/RepoDetail.jsx:157-159 | the kept types are in non-increasing count order, none left out counts more, and the ranking is a rearrangement of the table |
| Report.TopFileTypesTies | src/components/RepoDetail.jsx:158 | types with equal counts keep the `Object.entries` order |
| Report.TypeTexts | src/components/RepoDetail.jsx:160 | one `ext: count` text per kept type, in order |
| Report.TopTypesText | src/components/RepoDetail.jsx:157-170 | the joined type texts, or "N/A" when they are empty; TopTypesTextShape, TopTypesTextEntries and TwoTypesText state the text |
| Report.TopTypesTextShape | src/components/RepoDetail.jsx:160-170 | the text is "N/A" exactly when no extension was counted; otherwise it starts with the most frequent type and its count |
| Report.TopTypesTextStartsWithFirst | src/components/RepoDetail.jsx:157-161 | with a type counted, the text begins with the `ext: count` text of the most frequent type |
| Report.TopTypesTextJoined | src/components/RepoDetail.jsx:160-170 | with a type counted, the text is the joined type texts, never "N/A" |
| Report.TopTypesTextEntries | src/components/RepoDetail.jsx:157-161 | with a type counted, the text is the kept types' `ext: count` texts in ranking order separated by ", ": a single type is its text alone, and the last type follows the others and a ", " |
| Report.TwoTypesRanked | src/components/RepoDetail.jsx:157-158 | two "js" files and three "md" files rank "md" first |
| Report.TwoTypeTexts | src/components/RepoDetail.jsx:160 | ("md", 3) is written "md: 3" and ("js", 2) "js: 2" |
| Report.TwoTypesText | src/components/RepoDetail.jsx:157-170 | two "js" files and three "md" files give "md: 3, js: 2" |
| Report.SummaryLines | src/components/RepoDetail.jsx:163-178 | the report has fourteen lines |
| Report.Summary | src/components/RepoDetail.jsx:163-178 | the fourteen report lines joined by newlines; SummaryStructure and SummaryNotEmpty state it |
| Report.SummaryStructure | src/components/RepoDetail.jsx:173-174 | at most the first 50 structure lines are shown, and the note appears exactly when there are more than 50 |
| Report.SummaryNotEmpty | src/components/RepoDetail.jsx:163-178 | the report is never empty, so once stored it blocks another analysis |
| Report.AnalysisReport | src/components/RepoDetail.jsx:154-180 | the stored text is the summary of the listing's analysis |
| RepoDetail.RepoDetailView.constructor | src/components/RepoDetail.jsx:9-17 | the initial state: loading, overview tab, nothing stored, nothing requested |
| RepoDetail.RepoDetailView.FetchRepoData | src/components/RepoDetail.jsx:19-40 | the record or the failure message is stored, loading ends, and a new record re-runs the tab effect |
| RepoDetail.RepoDetailView.SelectTab | src/components/RepoDetail.jsx:359-368 | the tab changes; only a change of tab re-runs the tab effect |
| RepoDetail.RepoDetailView.TabEffect | src/components/RepoDetail.jsx:190-198 | a fetch starts only with a record, on the README or code tab, when that tab has nothing stored |
| RepoDetail.RepoDetailView.BeginReadme | src/components/RepoDetail.jsx:43-45 | nothing happens with a stored text or a pending fetch; otherwise loading starts |
| RepoDetail.RepoDetailView.CompleteReadme | src/components/RepoDetail.jsx:46-80 | the resolved text, or the failure message without a record, is stored and loading ends |
| RepoDetail.RepoDetailView.BeginCode | src/components/RepoDetail.jsx:84-86 | nothing happens with a stored report or a pending fetch; otherwise loading starts |
| RepoDetail.RepoDetailView.CompleteCode | src/components/RepoDetail.jsx:87-186 | the report of the listing, or the failure message, is stored; the listing is requested at most once; loading ends |
| RepoDetail.RepoDetailView.View | src/components/RepoDetail.jsx:223-522 | the loading screen exactly while loading; the not-found screen exactly when loading ended without a record or with an error, with the error text or a non-empty default; otherwise the selected tab, whose panel is the repository facts, a spinner exactly while its fetch is pending, the stored README text or its placeholder, and the stored report or the code placeholder notice |
| Info.TopRepos | src/pages/Info/index.jsx:26-27 | at most five repositories, the first ones of the star-sorted list |
| Info.TopReposAreMostStarred | src/pages/Info/index.jsx:26-27 | kept repositories have non-increasing stars, none left out has more, nothing is lost, and ties keep the API order |
| Info.TruthyLanguages | src/pages/Info/index.jsx:30-31 | the non-empty language fields in list order, repeats kept; TruthyLanguagesMembers and LanguagesAreDistinctTruthy state what the Set makes of them |
| Info.TruthyLanguagesMembers | src/pages/Info/index.jsx:30-31 | the collected languages are exactly the non-empty language fields |
| Info.LanguagesAreDistinctTruthy | src/pages/Info/index.jsx:29-33 | the language list has no repeats and holds exactly the non-empty languages |
| Info.ActivityLines | src/pages/Info/index.jsx:35-37 | the activity feed before the slice; ActivityLinesFollowDescribed states its lines |
| Info.ActivityLinesFollowDescribed | src/pages/Info/index.jsx:35-37 | one `🛠️ name: description` line per repository with a description, in list order |
| Info.Activities | src/pages/Info/index.jsx:35-38 | exactly the first min(5, n) lines of a feed of n lines |
| Info.ProfileView.constructor | src/pages/Info/index.jsx:13-17 | the initial state: loading, no profile, empty lists |
| Info.ProfileView.CollectLanguages | src/pages/Info/index.jsx:29-33 | the loop into a Set gives the distinct non-empty languages in first-seen order |
| Info.ProfileView.FetchData | src/pages/Info/index.jsx:20-45 | the list is sorted in place; the top five, languages and activities are derived from the sorted order; a failed request leaves the remaining state alone; loading always ends |
| Info.ProfileView.View | src/pages/Info/index.jsx:50-63 | the spinner exactly while loading; the error screen exactly when loading ended without a profile |
| Info.SortedOrderDecidesLanguages | src/pages/Info/index.jsx:26-33 | the in-place sort decides the language order: Go (1 star) then Rust (2 stars) gives Rust, Go |
| Home.MatchAt | src/pages/Home/index.jsx:18 | where `github\.com\/([\w-]+)` can match: the host text followed by a username character; FindMatchLeftmost and UsernameFound use it |
| Home.WordRun | src/pages/Home/index.jsx:18 | the run of username characters is maximal |
| Home.FindMatch | src/pages/Home/index.jsx:18 | a match found lies at or after the start of the scan |
| Home.FindMatchLeftmost | src/pages/Home/index.jsx:18 | the scan finds a match and no earlier one, or finds nothing when there is none |
| Home.Username | src/pages/Home/index.jsx:18-19 | `match?.[1]`: the greedy group of the leftmost match; UsernameFound, PrefixIgnored and SchemeIgnored state it |
| Home.UsernameFound | src/pages/Home/index.jsx:18-19 | a username exists exactly when "github.com/" is followed by a username character; it is then the maximal non-empty run after the leftmost match |
| Home.PrefixIgnored | src/pages/Home/index.jsx:18 | text in front of the URL in which no match starts does not change the username |
| Home.SchemeIgnored | src/pages/Home/index.jsx:18 | "https://github.com/x" and "github.com/x" both give "x" |
| Home.HandleGenerate | src/pages/Home/index.jsx:17-25 | navigate to the summary of the username, or alert; HandleGenerateOutcome states when each happens |
| Home.HandleGenerateOutcome | src/pages/Home/index.jsx:17-25 | the page navigates exactly when a username is found, to "/summary/" followed by it; otherwise it alerts |
| Home.ToggleDarkMode | src/pages/Home/index.jsx:11 | the toggle flips the mode |
| Home.ToggleTwice | src/pages/Home/index.jsx:11 | two toggles restore the mode |

## Left out

- HTTP requests are inputs, not behaviour. This covers the repository record, the raw README host, the contents listing, the profile and the repository list. The URLs built from the username, repository name and default branch are not modelled.
- Rendering is left out: JSX, Markdown rendering, animations, styles and icons. `ProfileCard.jsx`, `RepoTable.jsx`, `LanguageStats.jsx` and `ActivityFeed.jsx` are not part of this model. The views are modelled only as far as which screen and which tab panel show.
- Routing in `App.jsx` is not part of this model. The `/summary/` path is a value.
- The progress percentages and the 500 ms delay before loading ends are left out. Loading ends at once.
- Floating-point display is left out: `formatNumber`, the size in MB and date formatting.
- `getLanguageColor` is a colour lookup and is left out.
- Concurrency is left out. Each network wait is one atomic step, so requests cannot interleave, and updates after the view is gone are not modelled.
- DOM effects are left out: the `dark` class on the document, `alert` and `console.error`. The alert is an `Alert` value.
- Readme.Truncate counts Unicode scalar values, not UTF-16 code units. A README whose first 5000 code units include characters outside the Basic Multilingual Plane is cut later than in the browser.
- JsStrings.ToLower lower-cases the ASCII letters only. Other characters with a lower-case form, such as U+212A KELVIN SIGN, are left unchanged.
- Readme.Search takes every fetched body as text. A raw README that axios would parse as JSON into a non-string value is not modelled.
- The outer README failure is modelled only as reading the default branch with no repository record. It cannot happen once a fetch has started with a record.
- The `path` parameter of `analyzeContents` is always empty at its one call, so the model leaves it out.
- Extensions are keys of a plain object. Keys such as `constructor` or `__proto__`, which read inherited properties, are not modelled: every extension counts from zero.
- The sort is in place, so languages and activities follow star order, not the order the API returned. The model derives all three lists from the sorted array.
- The profile is stored before the repository list is requested, so a failed list request shows the profile with empty lists. The model keeps that state.
- `Object.entries` lists array-index keys first, so file-type ties follow that order: an extension such as "7" ranks ahead of an equally frequent named one.
