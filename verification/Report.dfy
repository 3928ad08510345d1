/** The Markdown report of the code-analysis tab: the five most frequent
    file types, the quick stats, and at most 50 structure lines. */
module Report {
  import opened JsStrings
  import opened Sequences
  import opened StableSort
  import opened Listing

  // ---------------------------------------------------------------------
  // Object.entries(fileTypes)

  /** A property key that is an array index: the canonical decimal form of
      an integer below 2^32 - 1. */
  predicate IsIndexKey(k: JsString) {
    k != [] && (forall i :: 0 <= i < |k| ==> IsDigit(k[i])) && (|k| == 1 || k[0] != '0') &&
    DigitsValue(k) < 0xFFFF_FFFF
  }

  predicate IsIndexEntry(e: (JsString, nat)) { IsIndexKey(e.0) }

  predicate IsNamedEntry(e: (JsString, nat)) { !IsIndexKey(e.0) }

  /** Array-index keys sort ascending by value; as a descending key, minus
      that value. */
  function IndexRank(e: (JsString, nat)): int {
    if IsIndexEntry(e) then 0 - DigitsValue(e.0) else 0
  }

  /** The order `Object.entries` lists an object's own string keys in:
      the array-index keys in ascending numeric order, then the other keys
      in the order they were first added. */
  function EntriesOrder(t: Table): Table {
    SortDesc(Filter(t, IsIndexEntry), IndexRank) + Filter(t, IsNamedEntry)
  }

  /** `Object.entries` lists every entry once. */
  lemma EntriesOrderPermutation(t: Table)
    ensures multiset(EntriesOrder(t)) == multiset(t)
  {
    SortDescPermutation(Filter(t, IsIndexEntry), IndexRank);
    FilterSplit(t, IsIndexEntry, IsNamedEntry);
  }

  /** Index keys come first and ascend; named keys keep insertion order. */
  lemma EntriesOrderShape(t: Table)
    ensures forall i, j :: 0 <= i < j < |EntriesOrder(t)| && IsIndexEntry(EntriesOrder(t)[j]) ==>
      IsIndexEntry(EntriesOrder(t)[i]) &&
      DigitsValue(EntriesOrder(t)[i].0) <= DigitsValue(EntriesOrder(t)[j].0)
    ensures EntriesOrder(t)[|Filter(t, IsIndexEntry)|..] == Filter(t, IsNamedEntry)
  {
    var idx := Filter(t, IsIndexEntry);
    var sorted := SortDesc(idx, IndexRank);
    SortDescSorted(idx, IndexRank);
    SortDescPermutation(idx, IndexRank);
    var r := EntriesOrder(t);
    forall k | 0 <= k < |sorted| ensures IsIndexEntry(sorted[k]) {
      assert sorted[k] in multiset(idx);
      var m :| 0 <= m < |idx| && idx[m] == sorted[k];
    }
    forall i, j | 0 <= i < j < |r| && IsIndexEntry(r[j])
      ensures IsIndexEntry(r[i]) && DigitsValue(r[i].0) <= DigitsValue(r[j].0)
    {
      assert j < |sorted|;
      assert r[i] == sorted[i] && r[j] == sorted[j];
    }
  }

  /** When no extension is an array index, as with ordinary file
      extensions, the entries come in insertion order. */
  lemma EntriesOrderWithoutIndexKeys(t: Table)
    requires forall i :: 0 <= i < |t| ==> !IsIndexKey(t[i].0)
    ensures EntriesOrder(t) == t
  {
    FilterNone(t, IsIndexEntry);
    FilterAll(t, IsNamedEntry);
  }

  // ---------------------------------------------------------------------
  // The top five file types

  function Count(e: (JsString, nat)): int { e.1 }

  /** The entries sorted by count, descending, ties in entries order. */
  function RankedTypes(t: Table): Table {
    SortDesc(EntriesOrder(t), Count)
  }

  /** `.sort(([, a], [, b]) => b - a).slice(0, 5)`. */
  function TopFileTypes(t: Table): (top: Table)
    ensures |top| == if |t| < 5 then |t| else 5
    ensures top <= RankedTypes(t)
  {
    EntriesOrderPermutation(t);
    assert |EntriesOrder(t)| == |multiset(EntriesOrder(t))| == |t|;
    Take(RankedTypes(t), 5)
  }

  /** The kept types are the most frequent ones: in non-increasing order of
      count, none left out counts more than one kept, and the ranking is a
      rearrangement of the table. */
  lemma TopFileTypesAreMostFrequent(t: Table)
    ensures SortedDesc(TopFileTypes(t), Count)
    ensures forall i, j :: 0 <= i < |TopFileTypes(t)| <= j < |RankedTypes(t)| ==>
      RankedTypes(t)[i].1 >= RankedTypes(t)[j].1
    ensures multiset(RankedTypes(t)) == multiset(t)
  {
    SortDescSorted(EntriesOrder(t), Count);
    SortDescPermutation(EntriesOrder(t), Count);
    EntriesOrderPermutation(t);
    var top := TopFileTypes(t);
    forall i, j | 0 <= i < j < |top| ensures top[i].1 >= top[j].1 {
      assert top[i] == RankedTypes(t)[i] && top[j] == RankedTypes(t)[j];
    }
  }

  /** Types with equal counts keep the order `Object.entries` gave them. */
  lemma TopFileTypesTies(t: Table, n: int)
    ensures WithKey(RankedTypes(t), Count, n) == WithKey(EntriesOrder(t), Count, n)
  {
    SortDescStable(EntriesOrder(t), Count, n);
  }

  const CountSep: JsString := ": "
  const TypeSep: JsString := ", "
  const NoTypes: JsString := "N/A"

  /** `${ext}: ${count}`. */
  function TypeText(e: (JsString, nat)): JsString {
    e.0 + CountSep + Decimal(e.1)
  }

  function TypeTexts(top: Table): (r: seq<JsString>)
    ensures |r| == |top|
    ensures forall i :: 0 <= i < |top| ==> r[i] == TypeText(top[i])
  {
    seq(|top|, i requires 0 <= i < |top| => TypeText(top[i]))
  }

  /** `topFileTypes || 'N/A'`. */
  function TopTypesText(t: Table): JsString {
    var joined := Join(TypeTexts(TopFileTypes(t)), TypeSep);
    if joined == [] then NoTypes else joined
  }

  /** The text is "N/A" exactly when the table is empty; otherwise it begins
      with the most frequent type, its count written in decimal. */
  lemma TopTypesTextShape(t: Table)
    ensures TopTypesText(t) == NoTypes <==> t == []
    ensures t != [] ==>
      var first := RankedTypes(t)[0];
      first.0 + CountSep + Decimal(first.1) <= TopTypesText(t) &&
      DigitsValue(Decimal(first.1)) == first.1
  {
    if t != [] {
      var first := RankedTypes(t)[0];
      TopTypesTextStartsWithFirst(t);
      assert TopTypesText(t)[|first.0|] == ':';
      DecimalValue(first.1);
    } else {
      assert TopFileTypes(t) == [];
    }
  }

  lemma TopTypesTextStartsWithFirst(t: Table)
    requires t != []
    ensures TypeText(RankedTypes(t)[0]) <= TopTypesText(t)
  {
    var texts := TypeTexts(TopFileTypes(t));
    assert texts[0] == TypeText(RankedTypes(t)[0]) by {
      assert TopFileTypes(t)[0] == RankedTypes(t)[0];
    }
    TopTypesTextJoined(t);
    JoinStartsWithFirst(texts, TypeSep);
  }

  /** A non-empty table's text is the joined entry texts. */
  lemma TopTypesTextJoined(t: Table)
    requires t != []
    ensures TopTypesText(t) == Join(TypeTexts(TopFileTypes(t)), TypeSep)
  {
    var texts := TypeTexts(TopFileTypes(t));
    JoinStartsWithFirst(texts, TypeSep);
    assert |texts[0]| >= |CountSep|;
  }

  lemma TypeTextsAppend(top: Table)
    requires top != []
    ensures TypeTexts(top) == TypeTexts(top[..|top| - 1]) + [TypeText(top[|top| - 1])]
  {
  }

  /** The text lists the kept types in ranking order, each as
      `ext: count`, separated by ", ": the last kept type follows the text
      of the others and a ", ". */
  lemma TopTypesTextEntries(t: Table)
    requires t != []
    ensures TopTypesText(t) == Join(TypeTexts(TopFileTypes(t)), TypeSep)
    ensures forall i :: 0 <= i < |TopFileTypes(t)| ==>
      TypeTexts(TopFileTypes(t))[i] == RankedTypes(t)[i].0 + CountSep + Decimal(RankedTypes(t)[i].1)
    ensures |TopFileTypes(t)| == 1 ==> TopTypesText(t) == TypeText(RankedTypes(t)[0])
    ensures |TopFileTypes(t)| > 1 ==>
      var n := |TopFileTypes(t)|;
      TopTypesText(t) ==
        Join(TypeTexts(TopFileTypes(t)[..n - 1]), TypeSep) + TypeSep + TypeText(RankedTypes(t)[n - 1])
  {
    var top := TopFileTypes(t);
    TopTypesTextJoined(t);
    var n := |top|;
    if n > 1 {
      var front := TypeTexts(top[..n - 1]);
      var last := TypeText(top[n - 1]);
      TypeTextsAppend(top);
      JoinAppend(front, last, TypeSep);
    }
  }

  /** Two "js" files and three "md" files rank "md" first. */
  lemma TwoTypesRanked()
    ensures RankedTypes([("js", 2), ("md", 3)]) == [("md", 3), ("js", 2)]
  {
    var js, md := ("js", 2), ("md", 3);
    var t: Table := [js, md];
    assert !IsDigit(js.0[0]) && !IsDigit(md.0[0]);
    EntriesOrderWithoutIndexKeys(t);
    assert t[..1] == [js] && [js][..0] == [];
    assert SortDesc([js], Count) == [js];
    assert InsertBack([js], md, Count) == InsertBack([], md, Count) + [js];
  }

  lemma TwoTypeTexts()
    ensures TypeText(("md", 3)) == "md: 3" && TypeText(("js", 2)) == "js: 2"
  {
    assert Decimal(3) == "3" && Decimal(2) == "2";
  }

  /** A listing with two "js" files and three "md" files reports
      "md: 3, js: 2": most frequent first, separated by a comma. */
  lemma TwoTypesText()
    ensures TopTypesText([("js", 2), ("md", 3)]) == "md: 3, js: 2"
  {
    var js, md := ("js", 2), ("md", 3);
    var t: Table := [js, md];
    TwoTypesRanked();
    assert TopFileTypes(t) == [md, js];
    TopTypesTextEntries(t);
    assert [md, js][..1] == [md];
    TwoTypeTexts();
    var front := TypeTexts([md]);
    assert |front| == 1 && front[0] == "md: 3";
    assert front == ["md: 3"];
  }

  // ---------------------------------------------------------------------
  // The summary

  const MaxStructureLines := 50
  const Newline: JsString := "\n"
  const Heading: JsString := "### 🗂️ Repository Structure"
  const StatsHeading: JsString := "**📊 Quick Stats:**"
  const TotalFilesLabel: JsString := "- 📁 Total Files: **"
  const CodeFilesLabel: JsString := "- 💻 Code Files: **"
  const DirectoriesLabel: JsString := "- 📂 Directories: **"
  const Bold: JsString := "**"
  const TopTypesLabel: JsString := "- 🏷️ Top File Types: "
  const StructureHeading: JsString := "**📋 File Structure:**"
  const MoreNote: JsString := "\n... (More files not shown for brevity)"
  const Rule: JsString := "---"
  const Footer: JsString :=
    "*Analysis based on repository root directory. For detailed code analysis, clone the repository locally.*"

  /** The message stored when the listing cannot be fetched or analysed. */
  const AnalysisFailedText: JsString :=
    "Failed to analyze repository code structure. This might be due to API rate limits or repository access restrictions."

  /** The fourteen lines of the summary array, before they are joined. */
  function SummaryLines(stats: FileStats): (lines: seq<JsString>)
    ensures |lines| == 14
  {
    [Heading, [], StatsHeading,
     TotalFilesLabel + Decimal(stats.totalFiles) + Bold,
     CodeFilesLabel + Decimal(stats.codeFiles) + Bold,
     DirectoriesLabel + Decimal(stats.directories) + Bold,
     TopTypesLabel + TopTypesText(stats.fileTypes),
     [], StructureHeading,
     Join(Take(stats.structure, MaxStructureLines), Newline),
     if |stats.structure| > MaxStructureLines then MoreNote else [],
     [], Rule, Footer]
  }

  function Summary(stats: FileStats): JsString {
    Join(SummaryLines(stats), Newline)
  }

  /** The stored text of a successful analysis: the listing analysed, then
      its summary. */
  method AnalysisReport(contents: seq<Entry>) returns (text: JsString)
    ensures text == Summary(Analysis(contents))
    ensures text != []
  {
    var stats := AnalyzeContents(contents);
    SummaryNotEmpty(stats);
    text := Summary(stats);
  }

  /** The structure section shows the first lines (at most 50) in listing
      order, and the note about hidden lines appears exactly when more than
      50 exist. */
  lemma SummaryStructure(stats: FileStats)
    ensures SummaryLines(stats)[9] == Join(Take(stats.structure, MaxStructureLines), Newline)
    ensures |Take(stats.structure, MaxStructureLines)| <= MaxStructureLines
    ensures Take(stats.structure, MaxStructureLines) <= stats.structure
    ensures SummaryLines(stats)[10] != [] <==> |stats.structure| > MaxStructureLines
  {
  }

  /** The summary is never empty, so once stored it blocks a second
      analysis. */
  lemma SummaryNotEmpty(stats: FileStats)
    ensures Summary(stats) != []
  {
    assert SummaryLines(stats)[0] == Heading;
  }
}
