/** The shallow code analysis of a repository's root directory listing:
    counters, the extension frequency table and the annotated structure
    lines that `analyzeContents` builds, and the purpose label
    `getPurposeGuess` gives a code file. */
module Listing {
  import opened JsStrings
  import opened Sequences

  /** One item of the contents listing: its `name` and its `type`. */
  datatype Entry = Entry(name: JsString, kind: JsString)

  const FileKind: JsString := "file"
  const DirKind: JsString := "dir"

  /** An entry is never both a file and a directory. */
  lemma KindsDiffer()
    ensures FileKind != DirKind
  {
    assert FileKind[0] == 'f' && DirKind[0] == 'd';
  }

  /** The 17 extensions that make a file a code file. */
  const CodeExtensions: seq<JsString> := [
    "js", "jsx", "ts", "tsx", "py", "java", "cpp", "c", "h",
    "css", "html", "php", "rb", "go", "rs", "swift", "kt"]

  /** `name.split('.').pop()?.toLowerCase()`: the lower-cased text after
      the last dot, or the whole lower-cased name when it has no dot. */
  function Extension(name: JsString): JsString {
    ToLower(AfterLastDot(name))
  }

  /** The extension is the lower-cased tail of the name after its last dot
      (the whole name when it has none), and holds no dot. */
  lemma ExtensionShape(name: JsString)
    ensures |Extension(name)| <= |name|
    ensures Extension(name) == ToLower(name[|name| - |Extension(name)|..])
    ensures DOT !in Extension(name)
    ensures |Extension(name)| == |name| || name[|name| - |Extension(name)| - 1] == DOT
  {
    var last := AfterLastDot(name);
    var ext := ToLower(last);
    forall i | 0 <= i < |ext| ensures ext[i] != DOT {
      assert last[i] != DOT;
    }
  }

  /** A name without a dot is its own extension, lower-cased. */
  lemma DotlessExtension(name: JsString)
    requires DOT !in name
    ensures Extension(name) == ToLower(name)
  {
    ExtensionShape(name);
    assert name[|name| - |Extension(name)|..] == name;
  }

  // ---------------------------------------------------------------------
  // getPurposeGuess

  datatype Purpose =
    | TestFile | Configuration | ReactComponent | ApiService | Utility | Styling
    | EntryPoint | Documentation | DataConfig
    | ScriptSource | PythonScript | JavaClass | CSource | HtmlPage | SourceFile

  /** The labels, in the order of the chain below. */
  const Labels: seq<JsString> := [
    "🧪 Test File", "⚙️ Configuration", "⚛️ React Component", "🛠️ API/Service", "🔧 Utility",
    "🎨 Styling", "🏠 Entry Point", "📚 Documentation", "📊 Data/Config", "📝 JavaScript/TypeScript",
    "🐍 Python Script", "☕ Java Class", "⚡ C/C++ Source", "🌐 HTML Page", "📄 Source File"]

  function Rank(p: Purpose): (r: nat)
    ensures r < |Labels|
  {
    match p
    case TestFile => 0 case Configuration => 1 case ReactComponent => 2 case ApiService => 3
    case Utility => 4 case Styling => 5 case EntryPoint => 6 case Documentation => 7
    case DataConfig => 8 case ScriptSource => 9 case PythonScript => 10 case JavaClass => 11
    case CSource => 12 case HtmlPage => 13 case SourceFile => 14
  }

  function Label(p: Purpose): JsString {
    Labels[Rank(p)]
  }


  /** First match wins: substrings of the lower-cased name first, then the
      extension. */
  function GuessPurpose(filename: JsString, ext: JsString): Purpose {
    var name := ToLower(filename);
    if Contains(name, "test") || Contains(name, "spec") then TestFile
    else if Contains(name, "config") || Contains(name, "setup") then Configuration
    else if Contains(name, "component") || ext == "jsx" || ext == "tsx" then ReactComponent
    else if Contains(name, "api") || Contains(name, "service") then ApiService
    else if Contains(name, "util") || Contains(name, "helper") then Utility
    else if Contains(name, "style") || ext == "css" || ext == "scss" then Styling
    else if name == "index.js" || name == "index.ts" then EntryPoint
    else if ext == "md" then Documentation
    else if ext == "json" then DataConfig
    else if ext == "js" || ext == "ts" then ScriptSource
    else if ext == "py" then PythonScript
    else if ext == "java" then JavaClass
    else if ext == "cpp" || ext == "c" then CSource
    else if ext == "html" then HtmlPage
    else SourceFile
  }

  /** First match wins: "test.jsx" is a test file, not a React component. */
  lemma TestJsxIsTestFile()
    ensures Extension("test.jsx") == "jsx"
    ensures GuessPurpose("test.jsx", "jsx") == TestFile
    ensures Label(GuessPurpose("test.jsx", "jsx")) == "🧪 Test File"
  {
    var name: JsString := "test.jsx";
    assert Extension(name) == "jsx" by {
      assert AfterLastDot(name) == "jsx";
      assert ToLower("jsx") == "jsx";
    }
    assert Contains(ToLower(name), "test") by {
      assert ToLower(name)[..4] == "test";
    }
  }

  /** A .jsx file is a React component unless an earlier rule (test or
      configuration) claims it by name. */
  lemma JsxPurpose(filename: JsString)
    ensures GuessPurpose(filename, "jsx") in {TestFile, Configuration, ReactComponent}
  {
  }

  /** Only index.js and index.ts (in any letter case) are entry points. */
  lemma EntryPointNames(filename: JsString, ext: JsString)
    requires GuessPurpose(filename, ext) == EntryPoint
    ensures ToLower(filename) == "index.js" || ToLower(filename) == "index.ts"
  {
  }

  /** A code extension is never labelled as documentation or data. */
  lemma CodeFilesNotDocumentation(filename: JsString, ext: JsString)
    requires ext in CodeExtensions
    ensures GuessPurpose(filename, ext) !in {Documentation, DataConfig}
  {
    DocumentationByExtension(filename, ext);
    assert "md" !in CodeExtensions && "json" !in CodeExtensions;
  }

  /** Documentation and data labels are decided by the extension alone. */
  lemma DocumentationByExtension(filename: JsString, ext: JsString)
    ensures GuessPurpose(filename, ext) == Documentation ==> ext == "md"
    ensures GuessPurpose(filename, ext) == DataConfig ==> ext == "json"
  {
  }

  // ---------------------------------------------------------------------
  // analyzeContents

  predicate IsFile(e: Entry) { e.kind == FileKind }
  predicate IsDir(e: Entry) { e.kind == DirKind }
  predicate IsListed(e: Entry) { IsFile(e) || IsDir(e) }
  predicate IsCodeFile(e: Entry) { IsFile(e) && Extension(e.name) in CodeExtensions }

  const FileIcon: JsString := "📄 `"
  const DirIcon: JsString := "📁 `"
  const NameEnd: JsString := "`"
  const DirEnd: JsString := "/`"
  const LabelSep: JsString := "` - "

  /** The structure line of a file: annotated with its purpose label when
      its extension is a code extension, bare otherwise. */
  function FileLine(name: JsString, ext: JsString): JsString {
    if ext in CodeExtensions then FileIcon + name + LabelSep + Label(GuessPurpose(name, ext))
    else FileIcon + name + NameEnd
  }

  function DirLine(name: JsString): JsString {
    DirIcon + name + DirEnd
  }

  function StructureLine(e: Entry): JsString {
    if IsFile(e) then FileLine(e.name, Extension(e.name)) else DirLine(e.name)
  }

  /** A file line carries a purpose label exactly when the extension is a
      code extension: otherwise it ends right after the quoted name. */
  lemma FileLineLabelled(name: JsString, ext: JsString)
    ensures ext !in CodeExtensions <==> FileLine(name, ext)[|FileLine(name, ext)| - 1] == '`'
  {
    var p := GuessPurpose(name, ext);
    assert Label(p)[|Label(p)| - 1] != '`';
  }

  /** One structure line per file or directory entry, in listing order;
      entries of any other type contribute nothing. */
  function StructureLines(contents: seq<Entry>): seq<JsString> {
    if contents == [] then []
    else
      var e := contents[|contents| - 1];
      StructureLines(contents[..|contents| - 1]) + (if IsListed(e) then [StructureLine(e)] else [])
  }

  predicate HasExtension(e: Entry) { IsFile(e) && Extension(e.name) != [] }

  /** The non-empty extensions of the files, in listing order: what is
      counted into `fileTypes`. */
  function CountedExtensions(contents: seq<Entry>): seq<JsString> {
    if contents == [] then []
    else
      var e := contents[|contents| - 1];
      CountedExtensions(contents[..|contents| - 1]) + (if HasExtension(e) then [Extension(e.name)] else [])
  }

  /** The number of "file" entries. */
  function FileCount(contents: seq<Entry>): nat {
    if contents == [] then 0
    else FileCount(contents[..|contents| - 1]) + (if IsFile(contents[|contents| - 1]) then 1 else 0)
  }

  /** The number of files whose extension is a code extension. */
  function CodeFileCount(contents: seq<Entry>): nat {
    if contents == [] then 0
    else CodeFileCount(contents[..|contents| - 1]) + (if IsCodeFile(contents[|contents| - 1]) then 1 else 0)
  }

  /** The number of "dir" entries. */
  function DirCount(contents: seq<Entry>): nat {
    if contents == [] then 0
    else DirCount(contents[..|contents| - 1]) + (if IsDir(contents[|contents| - 1]) then 1 else 0)
  }

  /** A frequency table: keys with their counts, in insertion order, as
      `Object` keeps string keys. */
  type Table = seq<(JsString, nat)>

  function Keys(t: Table): (ks: seq<JsString>)
    ensures |ks| == |t|
  {
    seq(|t|, i requires 0 <= i < |t| => t[i].0)
  }

  /** `fileTypes[ext] = (fileTypes[ext] || 0) + 1`. */
  function Bump(t: Table, k: JsString): Table {
    if t == [] then [(k, 1)]
    else if t[0].0 == k then [(k, t[0].1 + 1)] + t[1..]
    else [t[0]] + Bump(t[1..], k)
  }

  /** Counting a key already present keeps the keys and their order; a new
      key goes to the end. */
  lemma {:induction false} BumpKeys(t: Table, k: JsString)
    ensures Keys(Bump(t, k)) == if k in Keys(t) then Keys(t) else Keys(t) + [k]
  {
    if t != [] {
      assert Keys(t)[0] == t[0].0;
      assert Keys(t)[1..] == Keys(t[1..]);
      if t[0].0 == k {
        assert Keys(Bump(t, k)) == Keys(t);
      } else {
        BumpKeys(t[1..], k);
        assert Keys([t[0]] + Bump(t[1..], k)) == [t[0].0] + Keys(Bump(t[1..], k));
      }
    }
  }

  /** The table built by counting each of xs in turn. */
  function Tally(xs: seq<JsString>): Table {
    if xs == [] then [] else Bump(Tally(xs[..|xs| - 1]), xs[|xs| - 1])
  }

  lemma TallyStep(xs: seq<JsString>, x: JsString)
    ensures Tally(xs + [x]) == Bump(Tally(xs), x)
  {
    assert (xs + [x])[..|xs|] == xs;
  }

  /** The number recorded for key k (0 when k is absent). */
  function CountOf(t: Table, k: JsString): nat {
    if t == [] then 0 else (if t[0].0 == k then t[0].1 else 0) + CountOf(t[1..], k)
  }

  function Total(t: Table): nat {
    if t == [] then 0 else t[0].1 + Total(t[1..])
  }

  datatype FileStats = FileStats(
    totalFiles: nat, codeFiles: nat, directories: nat, fileTypes: Table, structure: seq<JsString>)

  /** What visiting one more entry does to the counters, the table and
      the structure lines. */
  function Visit(acc: FileStats, e: Entry): FileStats {
    if IsFile(e) then
      var ext := Extension(e.name);
      FileStats(
        acc.totalFiles + 1,
        if ext in CodeExtensions then acc.codeFiles + 1 else acc.codeFiles,
        acc.directories,
        if ext != [] then Bump(acc.fileTypes, ext) else acc.fileTypes,
        acc.structure + [FileLine(e.name, ext)])
    else if IsDir(e) then
      FileStats(acc.totalFiles, acc.codeFiles, acc.directories + 1, acc.fileTypes, acc.structure + [DirLine(e.name)])
    else acc
  }

  /** The state after visiting every entry of the listing in order. */
  function Analysis(contents: seq<Entry>): FileStats {
    if contents == [] then FileStats(0, 0, 0, [], [])
    else Visit(Analysis(contents[..|contents| - 1]), contents[|contents| - 1])
  }

  lemma AnalysisStep(contents: seq<Entry>, i: nat)
    requires i < |contents|
    ensures Analysis(contents[..i + 1]) == Visit(Analysis(contents[..i]), contents[i])
  {
    assert contents[..i + 1][..i] == contents[..i];
  }

  /** The `forEach` over the listing. */
  method AnalyzeContents(contents: seq<Entry>) returns (stats: FileStats)
    ensures stats == Analysis(contents)
  {
    var totalFiles, codeFiles, directories := 0, 0, 0;
    var fileTypes: Table := [];
    var structure: seq<JsString> := [];
    var i := 0;
    while i < |contents|
      invariant 0 <= i <= |contents|
      invariant FileStats(totalFiles, codeFiles, directories, fileTypes, structure) == Analysis(contents[..i])
    {
      var item := contents[i];
      ghost var before := FileStats(totalFiles, codeFiles, directories, fileTypes, structure);
      AnalysisStep(contents, i);
      if item.kind == FileKind {
        totalFiles := totalFiles + 1;
        var ext := Extension(item.name);
        if ext != [] {
          fileTypes := Bump(fileTypes, ext);
        }
        if ext in CodeExtensions {
          codeFiles := codeFiles + 1;
        }
        structure := structure + [FileLine(item.name, ext)];
      } else if item.kind == DirKind {
        directories := directories + 1;
        structure := structure + [DirLine(item.name)];
      }
      assert FileStats(totalFiles, codeFiles, directories, fileTypes, structure) == Visit(before, item);
      i := i + 1;
    }
    assert contents[..i] == contents;
    stats := FileStats(totalFiles, codeFiles, directories, fileTypes, structure);
  }

  // ---------------------------------------------------------------------
  // What the analysis computes

  /** The counters count the "file" entries, the code files among them
      and the "dir" entries. */
  lemma {:induction false} AnalysisCounts(contents: seq<Entry>)
    ensures Analysis(contents).totalFiles == FileCount(contents)
    ensures Analysis(contents).codeFiles == CodeFileCount(contents)
    ensures Analysis(contents).directories == DirCount(contents)
  {
    if contents != [] {
      AnalysisCounts(contents[..|contents| - 1]);
      KindsDiffer();
    }
  }

  /** The table counts the non-empty extensions of the files. */
  lemma {:induction false} AnalysisFileTypes(contents: seq<Entry>)
    ensures Analysis(contents).fileTypes == Tally(CountedExtensions(contents))
  {
    if contents != [] {
      var init := contents[..|contents| - 1];
      AnalysisFileTypes(init);
      var e := contents[|contents| - 1];
      if HasExtension(e) {
        TallyStep(CountedExtensions(init), Extension(e.name));
      } else {
        assert CountedExtensions(contents) == CountedExtensions(init) + [];
        assert CountedExtensions(init) + [] == CountedExtensions(init);
      }
    }
  }

  /** One structure line per file or directory, in listing order. */
  lemma {:induction false} AnalysisStructure(contents: seq<Entry>)
    ensures Analysis(contents).structure == StructureLines(contents)
  {
    if contents != [] {
      AnalysisStructure(contents[..|contents| - 1]);
      KindsDiffer();
    }
  }

  /** Entries whose type is neither "file" nor "dir" change nothing. */
  lemma OtherKindsIgnored(contents: seq<Entry>, e: Entry)
    requires e.kind != FileKind && e.kind != DirKind
    ensures Analysis(contents + [e]) == Analysis(contents)
  {
    assert (contents + [e])[..|contents|] == contents;
  }

  /** Code files are files; every file or directory gives exactly one
      structure line; only files contribute extensions. */
  lemma {:induction false} CountsBounded(contents: seq<Entry>)
    ensures CodeFileCount(contents) <= FileCount(contents)
    ensures |StructureLines(contents)| == FileCount(contents) + DirCount(contents)
    ensures |CountedExtensions(contents)| <= FileCount(contents)
  {
    if contents != [] {
      CountsBounded(contents[..|contents| - 1]);
      KindsDiffer();
    }
  }

  /** The structure lines follow the listing order. */
  lemma {:induction false} StructureLinesAppend(a: seq<Entry>, b: seq<Entry>)
    ensures StructureLines(a + b) == StructureLines(a) + StructureLines(b)
  {
    if b == [] {
      assert a + b == a;
    } else {
      var b' := b[..|b| - 1];
      assert (a + b)[..|a + b| - 1] == a + b';
      StructureLinesAppend(a, b');
    }
  }

  /** The keys of the table are the distinct counted extensions, in the
      order each was first counted. */
  lemma {:induction false} TallyKeys(xs: seq<JsString>)
    ensures Keys(Tally(xs)) == FirstSeen(xs)
  {
    if xs != [] {
      TallyKeys(xs[..|xs| - 1]);
      BumpKeys(Tally(xs[..|xs| - 1]), xs[|xs| - 1]);
    }
  }

  lemma {:induction false} BumpCount(t: Table, k: JsString, j: JsString)
    ensures CountOf(Bump(t, k), j) == CountOf(t, j) + (if j == k then 1 else 0)
  {
    if t != [] && t[0].0 != k {
      BumpCount(t[1..], k, j);
      assert ([t[0]] + Bump(t[1..], k))[1..] == Bump(t[1..], k);
    }
  }

  lemma {:induction false} BumpTotal(t: Table, k: JsString)
    ensures Total(Bump(t, k)) == Total(t) + 1
  {
    if t != [] && t[0].0 != k {
      BumpTotal(t[1..], k);
      assert ([t[0]] + Bump(t[1..], k))[1..] == Bump(t[1..], k);
    }
  }

  /** The number recorded for each extension is how often it was counted. */
  lemma {:induction false} TallyCounts(xs: seq<JsString>, k: JsString)
    ensures CountOf(Tally(xs), k) == multiset(xs)[k]
  {
    if xs != [] {
      var init, x := xs[..|xs| - 1], xs[|xs| - 1];
      TallyCounts(init, k);
      BumpCount(Tally(init), x, k);
      assert multiset(xs) == multiset(init) + multiset{x} by {
        assert xs == init + [x];
      }
    }
  }

  /** The numbers add up to the count of files with an extension. */
  lemma {:induction false} TallyTotal(xs: seq<JsString>)
    ensures Total(Tally(xs)) == |xs|
  {
    if xs != [] {
      TallyTotal(xs[..|xs| - 1]);
      BumpTotal(Tally(xs[..|xs| - 1]), xs[|xs| - 1]);
    }
  }

  /** In a table with distinct keys, the number stored beside a key is
      the number recorded for it. */
  lemma {:induction false} CountOfDistinct(t: Table, i: nat)
    requires Distinct(Keys(t)) && i < |t|
    ensures CountOf(t, t[i].0) == t[i].1
  {
    assert Keys(t[1..]) == Keys(t)[1..];
    if i == 0 {
      forall j | 0 <= j < |t| - 1 ensures Keys(t[1..])[j] != t[0].0 {
        assert Keys(t)[j + 1] != Keys(t)[0];
      }
      CountOfAbsent(t[1..], t[0].0);
    } else {
      assert t[0].0 == Keys(t)[0] && t[i].0 == Keys(t)[i];
      CountOfDistinct(t[1..], i - 1);
    }
  }

  lemma {:induction false} CountOfAbsent(t: Table, k: JsString)
    requires k !in Keys(t)
    ensures CountOf(t, k) == 0
  {
    if t != [] {
      assert Keys(t)[0] == t[0].0;
      assert Keys(t[1..]) == Keys(t)[1..];
      CountOfAbsent(t[1..], k);
    }
  }

  /** Every entry of the table pairs an extension with its frequency. */
  lemma TallyEntries(xs: seq<JsString>)
    ensures forall i :: 0 <= i < |Tally(xs)| ==> Tally(xs)[i].1 == multiset(xs)[Tally(xs)[i].0]
  {
    var t := Tally(xs);
    TallyKeys(xs);
    FirstSeenMembers(xs);
    forall i | 0 <= i < |t| ensures t[i].1 == multiset(xs)[t[i].0] {
      CountOfDistinct(t, i);
      TallyCounts(xs, t[i].0);
    }
  }
}
