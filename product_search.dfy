/**
 * The client-side product search of the `ProductSearch` component: it keeps the XML documents
 * taken from the selected files (plain `.xml` files, and the `.xml` entries of `.zip` files under
 * their base name), and `search()` rebuilds the list of products whose name or code contains the
 * lower-cased term, or whose EAN equals it.
 *
 * The browser is abstracted away: the DOM of a document is what a `DomParser` finds in it (the
 * `det` elements in document order, each with the first `prod` it contains), a ZIP file is what
 * JSZip lists for it, and a toast is its severity alone.
 */
module ProductSearch {
  import opened Wrappers
  import opened Text
  import opened Sequences

  /** The first `prod` of a `det`: for each child tag, the text of its first element, or None
      when the product has no element with that tag. */
  datatype Prod = Prod(xProd: Option<string>, cProd: Option<string>, cEAN: Option<string>,
                       qCom: Option<string>, uCom: Option<string>)

  /** A `det` element, with its first `prod` (None when it has none). */
  datatype Det = Det(prod: Option<Prod>)

  /** `DOMParser.parseFromString(content, 'text/xml').getElementsByTagName('det')`. */
  type DomParser = string -> seq<Det>

  /** One row of `results`. `quantity` keeps the text of `qCom` (None: no `qCom` element); the
      `parseFloat` that turns it into a number is not part of this model. */
  datatype SearchResult = SearchResult(fileName: string, productName: string, productCode: string,
                                       ean: string, quantity: Option<string>, unit: string)

  /** One loaded document. */
  datatype XmlFileContent = XmlFileContent(name: string, content: string)

  /** One key of `loadedZip.files`: its name, whether it is a directory, its text. */
  datatype ZipEntry = ZipEntry(name: string, dir: bool, content: string)

  /** A file of the selection: its name, its text, and the entries JSZip lists when it reads it as
      a ZIP archive (None: `loadAsync` rejects it). */
  datatype SelectedFile = SelectedFile(name: string, text: string, zip: Option<seq<ZipEntry>>)

  datatype Severity = Success | Info | Warn | Error

  // ---------------------------------------------------------------------------------------------
  // Loading files

  predicate HasSuffix(name: string, suffix: string) {
    EndsWith(Lower(name), suffix)
  }

  /** `filename.split('/').pop() || filename`: the last '/'-separated part, or the whole name when
      that part is empty. */
  function SimpleName(filename: string): string {
    var last := AfterLast(filename, '/');
    if last == [] then filename else last
  }

  /** The simple name is a suffix of the name; unless it is the whole name, it is the non-empty part
      after the last '/'. */
  lemma SimpleNameSpec(filename: string)
    ensures EndsWith(filename, SimpleName(filename))
    ensures SimpleName(filename) != filename ==>
              SimpleName(filename) != [] && '/' !in SimpleName(filename) &&
              filename[|filename| - |SimpleName(filename)| - 1] == '/'
  {
    AfterLastSpec(filename, '/');
  }

  /** What `processZipFile` pushes for one entry: an `.xml` file entry under its simple name. */
  function ZipContribution(e: ZipEntry): seq<XmlFileContent> {
    if HasSuffix(e.name, ".xml") && !e.dir then [XmlFileContent(SimpleName(e.name), e.content)] else []
  }

  /** The documents `processZipFile` pushes for a list of entries, in key order. */
  function ZipXmlFiles(entries: seq<ZipEntry>): seq<XmlFileContent> {
    if entries == [] then []
    else ZipXmlFiles(entries[..|entries| - 1]) + ZipContribution(entries[|entries| - 1])
  }

  /** What the timer callback of `onSelectFiles` loads: the documents pushed so far, and whether a
      ZIP archive was rejected (which ends the loop). */
  datatype Loading = Loading(files: seq<XmlFileContent>, failed: bool)

  /** What one selected file contributes: a `.zip` name is read as an archive (None when JSZip
      rejects it), otherwise an `.xml` name is one document, and any other file gives nothing. */
  function FileContribution(f: SelectedFile): Option<seq<XmlFileContent>> {
    if HasSuffix(f.name, ".zip") then
      match f.zip
      case None => None
      case Some(entries) => Some(ZipXmlFiles(entries))
    else if HasSuffix(f.name, ".xml") then Some([XmlFileContent(f.name, f.text)])
    else Some([])
  }

  /** The outcome of loading `files` in order; the first rejected archive ends the loading. */
  function Load(files: seq<SelectedFile>): Loading {
    if files == [] then Loading([], false)
    else
      var before := Load(files[..|files| - 1]);
      if before.failed then before
      else match FileContribution(files[|files| - 1])
        case None => Loading(before.files, true)
        case Some(c) => Loading(before.files + c, false)
  }

  /** A name under which an archive's document is stored: non-empty, without '/', and still
      ending, lower-cased, in ".xml". */
  predicate IsBaseXmlName(name: string) {
    name != [] && '/' !in name && HasSuffix(name, ".xml")
  }

  /** The simple name of an `.xml` entry is such a name. */
  lemma SimpleNameOfXmlEntry(name: string)
    requires HasSuffix(name, ".xml")
    ensures IsBaseXmlName(SimpleName(name))
  {
    AfterLastSpec(name, '/');
    SuffixOfLastComponent(name);
  }

  /** Every document taken from an archive is stored under a non-empty name with no '/' that
      still ends, lower-cased, in ".xml". */
  lemma {:induction false} ZipNamesAreBaseNames(entries: seq<ZipEntry>)
    ensures forall f | f in ZipXmlFiles(entries) :: IsBaseXmlName(f.name)
  {
    if entries != [] {
      var e := entries[|entries| - 1];
      ZipNamesAreBaseNames(entries[..|entries| - 1]);
      if HasSuffix(e.name, ".xml") && !e.dir {
        SimpleNameOfXmlEntry(e.name);
      }
    }
  }

  /** Appending one entry appends what that entry contributes. */
  lemma ZipXmlFilesSnoc(entries: seq<ZipEntry>, e: ZipEntry)
    ensures ZipXmlFiles(entries + [e]) == ZipXmlFiles(entries) + ZipContribution(e)
  {
    assert (entries + [e])[..|entries|] == entries;
  }

  /** The documents of an archive split like the archive: the entries' documents in key order. */
  lemma {:induction false} ZipXmlFilesAppend(a: seq<ZipEntry>, b: seq<ZipEntry>)
    ensures ZipXmlFiles(a + b) == ZipXmlFiles(a) + ZipXmlFiles(b)
  {
    if b != [] {
      var n := |b| - 1;
      ZipXmlFilesAppend(a, b[..n]);
      SplitLast(a, b);
      ZipXmlFilesSnoc(a + b[..n], b[n]);
      ZipXmlFilesSnoc(b[..n], b[n]);
    } else {
      assert a + b == a;
    }
  }

  /** One more entry adds what that entry contributes. */
  lemma ZipXmlFilesStep(entries: seq<ZipEntry>, i: nat)
    requires i < |entries|
    ensures ZipXmlFiles(entries[..i + 1]) == ZipXmlFiles(entries[..i]) + ZipContribution(entries[i])
  {
    assert entries[..i + 1][..i] == entries[..i];
  }

  /** A single entry gives one document, under its simple name, exactly when it is not a
      directory and its name ends, lower-cased, in ".xml"; otherwise none. */
  lemma OneEntry(e: ZipEntry)
    ensures ZipXmlFiles([e]) == if HasSuffix(e.name, ".xml") && !e.dir then [XmlFileContent(SimpleName(e.name), e.content)] else []
  {
    assert [e][..0] == [];
  }

  /** Loading one more file after no failure: it fails iff that file is a rejected archive, and
      otherwise appends what that file contributes. */
  lemma LoadStep(files: seq<SelectedFile>, i: nat)
    requires i < |files| && !Load(files[..i]).failed
    ensures Load(files[..i + 1]).failed <==> FileContribution(files[i]).None?
    ensures Load(files[..i + 1]).files == Load(files[..i]).files + FileContribution(files[i]).GetOr([])
  {
    assert files[..i + 1][..i] == files[..i];
  }

  // ---------------------------------------------------------------------------------------------
  // Searching

  /** `trim() === ''`: every character is JavaScript white space or a line terminator. */
  predicate IsJsWhitespace(c: char) {
    c == '\t' || c == '\n' || c == '\U{B}' || c == '\U{C}' || c == '\r' || c == ' ' ||
    c == '\U{A0}' || c == '\U{1680}' || '\U{2000}' <= c <= '\U{200A}' || c == '\U{2028}' ||
    c == '\U{2029}' || c == '\U{202F}' || c == '\U{205F}' || c == '\U{3000}' || c == '\U{FEFF}'
  }

  /** The guard of `search()`: `!this.searchTerm || this.searchTerm.trim() === ''`. */
  predicate IsBlank(s: string) {
    forall i :: 0 <= i < |s| ==> IsJsWhitespace(s[i])
  }

  /** The matching rule, for the lower-cased term: the name contains it, or the code contains it,
      or the EAN equals it. A product without `xProd` never matches; a missing `cProd` or `cEAN`
      counts as the empty string. */
  predicate Matches(p: Prod, term: string) {
    p.xProd.Some? &&
    (Contains(Lower(p.xProd.value), term) || Contains(Lower(p.cProd.GetOr("")), term) || p.cEAN.GetOr("") == term)
  }

  /** The result row pushed for a matching product of file `fileName`. */
  function ResultFor(fileName: string, p: Prod): SearchResult
    requires p.xProd.Some?
  {
    SearchResult(fileName, p.xProd.value, p.cProd.GetOr(""), p.cEAN.GetOr(""), p.qCom, p.uCom.GetOr(""))
  }

  /** The `det` element `d` gives a result for `term`. */
  predicate Hit(d: Det, term: string) {
    d.prod.Some? && Matches(d.prod.value, term)
  }

  /** The results of one file, in `det` order. */
  function DetResults(fileName: string, dets: seq<Det>, term: string): seq<SearchResult> {
    if dets == [] then []
    else
      var d := dets[|dets| - 1];
      DetResults(fileName, dets[..|dets| - 1], term) + (if Hit(d, term) then [ResultFor(fileName, d.prod.value)] else [])
  }

  /** The results of a search over `files`: file by file, then `det` by `det`. */
  function SearchResults(files: seq<XmlFileContent>, parse: DomParser, term: string): seq<SearchResult> {
    if files == [] then []
    else
      var f := files[|files| - 1];
      SearchResults(files[..|files| - 1], parse, term) + DetResults(f.name, parse(f.content), term)
  }

  /** One more `det` adds its result when it is a hit. */
  lemma DetResultsStep(fileName: string, dets: seq<Det>, j: nat, term: string)
    requires j < |dets|
    ensures DetResults(fileName, dets[..j + 1], term) ==
              DetResults(fileName, dets[..j], term) +
              (if Hit(dets[j], term) then [ResultFor(fileName, dets[j].prod.value)] else [])
  {
    assert dets[..j + 1][..j] == dets[..j];
  }

  /** One more file adds the results of its `det` elements. */
  lemma SearchResultsStep(files: seq<XmlFileContent>, i: nat, parse: DomParser, term: string)
    requires i < |files|
    ensures SearchResults(files[..i + 1], parse, term) ==
              SearchResults(files[..i], parse, term) + DetResults(files[i].name, parse(files[i].content), term)
  {
    assert files[..i + 1][..i] == files[..i];
  }

  /** A row is among one file's results iff some `det` of that file matches and gives that row. */
  lemma {:induction false} DetResultsMembership(fileName: string, dets: seq<Det>, term: string, r: SearchResult)
    ensures r in DetResults(fileName, dets, term) <==>
              exists j :: 0 <= j < |dets| && Hit(dets[j], term) && r == ResultFor(fileName, dets[j].prod.value)
  {
    if dets != [] {
      var n := |dets| - 1;
      DetResultsMembership(fileName, dets[..n], term, r);
      if r in DetResults(fileName, dets, term) && r !in DetResults(fileName, dets[..n], term) {
        assert Hit(dets[n], term) && r == ResultFor(fileName, dets[n].prod.value);
      }
      if exists j :: 0 <= j < |dets| && Hit(dets[j], term) && r == ResultFor(fileName, dets[j].prod.value) {
        var j :| 0 <= j < |dets| && Hit(dets[j], term) && r == ResultFor(fileName, dets[j].prod.value);
        if j < n {
          assert dets[..n][j] == dets[j];
        }
      }
    }
  }

  /** Every result matches the term on its own fields: its name or code contains it, or its EAN
      equals it. */
  lemma {:induction false} ResultsMatchTerm(files: seq<XmlFileContent>, parse: DomParser, term: string)
    ensures forall r | r in SearchResults(files, parse, term) ::
              Contains(Lower(r.productName), term) || Contains(Lower(r.productCode), term) || r.ean == term
  {
    if files != [] {
      var f := files[|files| - 1];
      ResultsMatchTerm(files[..|files| - 1], parse, term);
      forall r | r in DetResults(f.name, parse(f.content), term)
        ensures Contains(Lower(r.productName), term) || Contains(Lower(r.productCode), term) || r.ean == term
      {
        DetResultsMembership(f.name, parse(f.content), term, r);
      }
    }
  }

  /** Appending one file appends the results of its `det` elements. */
  lemma SearchResultsSnoc(files: seq<XmlFileContent>, f: XmlFileContent, parse: DomParser, term: string)
    ensures SearchResults(files + [f], parse, term) ==
              SearchResults(files, parse, term) + DetResults(f.name, parse(f.content), term)
  {
    assert (files + [f])[..|files|] == files;
  }

  /** Results of a split file list are the results of each part, in order. */
  lemma {:induction false} SearchResultsAppend(a: seq<XmlFileContent>, b: seq<XmlFileContent>, parse: DomParser, term: string)
    ensures SearchResults(a + b, parse, term) == SearchResults(a, parse, term) + SearchResults(b, parse, term)
  {
    if b != [] {
      var n := |b| - 1;
      SearchResultsAppend(a, b[..n], parse, term);
      SplitLast(a, b);
      SearchResultsSnoc(a + b[..n], b[n], parse, term);
      SearchResultsSnoc(b[..n], b[n], parse, term);
    } else {
      assert a + b == a;
    }
  }

  /** Each result carries the name of a loaded file. */
  lemma {:induction false} ResultsNameLoadedFiles(files: seq<XmlFileContent>, parse: DomParser, term: string)
    ensures forall r | r in SearchResults(files, parse, term) :: exists f | f in files :: f.name == r.fileName
  {
    if files != [] {
      var f := files[|files| - 1];
      var rest := files[..|files| - 1];
      ResultsNameLoadedFiles(rest, parse, term);
      forall r | r in SearchResults(files, parse, term)
        ensures exists g | g in files :: g.name == r.fileName
      {
        if r in SearchResults(rest, parse, term) {
          var g :| g in rest && g.name == r.fileName;
          assert g in files;
        } else {
          DetResultsMembership(f.name, parse(f.content), term, r);
          assert f in files;
        }
      }
    }
  }

  // ---------------------------------------------------------------------------------------------
  // The selection list

  /** The names of `names` that contain `term`, case-insensitively. */
  function NamesContaining(names: seq<string>, term: string): (r: seq<string>) {
    if names == [] then []
    else NamesContaining(names[..|names| - 1], term) +
         (if Contains(Lower(names[|names| - 1]), Lower(term)) then [names[|names| - 1]] else [])
  }

  /** The filter keeps exactly the names that contain the term. */
  lemma {:induction false} NamesContainingMembership(names: seq<string>, term: string, x: string)
    ensures x in NamesContaining(names, term) <==> x in names && Contains(Lower(x), Lower(term))
  {
    if names != [] {
      var n := |names| - 1;
      NamesContainingMembership(names[..n], term, x);
      assert names == names[..n] + [names[n]];
    }
  }

  /** The filter keeps the order of the names: filtering a concatenation concatenates the filtered
      parts. */
  lemma {:induction false} NamesContainingAppend(a: seq<string>, b: seq<string>, term: string)
    ensures NamesContaining(a + b, term) == NamesContaining(a, term) + NamesContaining(b, term)
  {
    if b == [] {
      assert a + b == a;
    } else {
      var n := |b| - 1;
      assert (a + b)[..|a + b| - 1] == a + b[..n];
      NamesContainingAppend(a, b[..n], term);
    }
  }

  /** An empty term keeps every name, so the getter's shortcut for it changes nothing. */
  lemma {:induction false} EmptyTermKeepsAll(names: seq<string>)
    ensures NamesContaining(names, "") == names
  {
    if names != [] {
      var n := |names| - 1;
      EmptyTermKeepsAll(names[..n]);
      assert OccursAt(Lower(names[n]), Lower(""), 0);
      assert names == names[..n] + [names[n]];
    }
  }

  // ---------------------------------------------------------------------------------------------
  // The component

  class ProductSearch {
    var searchTerm: string
    var results: seq<SearchResult>
    var isProcessing: bool
    var showFileList: bool
    var fileSearchTerm: string
    var loadedFiles: seq<XmlFileContent>
    /** `fileUploadComponent.files`, by name (None: no upload component or no file list). */
    var selection: Option<seq<string>>
    /** The toasts shown, by severity. */
    var toasts: seq<Severity>

    constructor ()
      ensures searchTerm == "" && results == [] && !isProcessing && !showFileList && fileSearchTerm == ""
      ensures loadedFiles == [] && selection == None && toasts == []
    {
      searchTerm := "";
      results := [];
      isProcessing := false;
      showFileList := false;
      fileSearchTerm := "";
      loadedFiles := [];
      selection := None;
      toasts := [];
    }

    /** `get totalFilesLoaded()`. */
    function TotalFilesLoaded(): nat
      reads this
    {
      |loadedFiles|
    }

    /** `get hasResults()`. */
    predicate HasResults()
      reads this
    {
      |results| > 0
    }

    /** `get filteredFiles()`: nothing without a file list, all of it for an empty term, otherwise
        the names containing the term, case-insensitively. */
    function FilteredFiles(): (r: seq<string>)
      reads this
      ensures forall x :: x in r <==>
                selection.Some? && x in selection.value && Contains(Lower(x), Lower(fileSearchTerm))
    {
      if selection.None? then []
      else if fileSearchTerm == "" then
        forall x ensures Contains(Lower(x), Lower(fileSearchTerm)) {
          assert OccursAt(Lower(x), Lower(fileSearchTerm), 0);
        }
        selection.value
      else
        forall x ensures x in NamesContaining(selection.value, fileSearchTerm) <==>
                         x in selection.value && Contains(Lower(x), Lower(fileSearchTerm)) {
          NamesContainingMembership(selection.value, fileSearchTerm, x);
        }
        NamesContaining(selection.value, fileSearchTerm)
    }

    /** The synchronous part of `onSelectFiles`: show the processing state and drop what was loaded
        and found before. The loading itself runs later, in `LoadSelectedFiles`. */
    method OnSelectFiles()
      modifies this`isProcessing, this`loadedFiles, this`results
      ensures isProcessing && loadedFiles == [] && results == []
      ensures TotalFilesLoaded() == 0 && !HasResults()
    {
      isProcessing := true;
      loadedFiles := [];
      results := [];
    }

    /** `processXmlFile`: push the file under its own name. */
    method ProcessXmlFile(name: string, text: string)
      modifies this`loadedFiles
      ensures loadedFiles == old(loadedFiles) + [XmlFileContent(name, text)]
    {
      loadedFiles := loadedFiles + [XmlFileContent(name, text)];
    }

    /** `processZipFile`: when JSZip reads the archive, push its `.xml` file entries, in key order,
        under their simple names; when it rejects it, throw (`ok` false) before pushing anything. */
    method ProcessZipFile(zip: Option<seq<ZipEntry>>) returns (ok: bool)
      modifies this`loadedFiles
      ensures ok <==> zip.Some?
      ensures loadedFiles == old(loadedFiles) + (if ok then ZipXmlFiles(zip.value) else [])
    {
      if zip.None? {
        return false;
      }
      var fileKeys := zip.value;
      var i := 0;
      while i < |fileKeys|
        invariant 0 <= i <= |fileKeys|
        invariant loadedFiles == old(loadedFiles) + ZipXmlFiles(fileKeys[..i])
      {
        var entry := fileKeys[i];
        ghost var pushed := ZipXmlFiles(fileKeys[..i]);
        ZipXmlFilesStep(fileKeys, i);
        if HasSuffix(entry.name, ".xml") && !entry.dir {
          var simpleName := SimpleName(entry.name);
          loadedFiles := loadedFiles + [XmlFileContent(simpleName, entry.content)];
          assert loadedFiles == old(loadedFiles) + (pushed + ZipContribution(entry));
        } else {
          assert loadedFiles == old(loadedFiles) + (pushed + ZipContribution(entry));
        }
        i := i + 1;
      }
      assert fileKeys[..i] == fileKeys;
      return true;
    }

    /** One turn of the loop of the timer callback, for file `i`: a `.zip` file goes through
        `processZipFile`, otherwise an `.xml` file through `processXmlFile`, and any other file is
        skipped. `start` is what `loadedFiles` held before the loop. */
    method LoadFile(files: seq<SelectedFile>, i: nat, ghost start: seq<XmlFileContent>) returns (ok: bool)
      modifies this`loadedFiles
      requires i < |files| && !Load(files[..i]).failed
      requires loadedFiles == start + Load(files[..i]).files
      ensures ok <==> !Load(files[..i + 1]).failed
      ensures loadedFiles == start + Load(files[..i + 1]).files
    {
      var file := files[i];
      LoadStep(files, i);
      ghost var c := FileContribution(file).GetOr([]);
      ghost var before := loadedFiles;
      ok := true;
      if HasSuffix(file.name, ".zip") {
        ok := ProcessZipFile(file.zip);
        assert loadedFiles == before + c;
      } else if HasSuffix(file.name, ".xml") {
        ProcessXmlFile(file.name, file.text);
        assert loadedFiles == before + c;
      } else {
        assert loadedFiles == before + c;
      }
      AppendAssoc(start, Load(files[..i]).files, c);
    }

    /** The loop of the timer callback of `onSelectFiles`: load the files in order until an archive
        is rejected. */
    method LoadFiles(files: seq<SelectedFile>) returns (failed: bool)
      modifies this`loadedFiles
      ensures failed == Load(files).failed
      ensures loadedFiles == old(loadedFiles) + Load(files).files
    {
      ghost var start := loadedFiles;
      var i := 0;
      failed := false;
      while i < |files| && !failed
        invariant 0 <= i <= |files|
        invariant loadedFiles == start + Load(files[..i]).files && failed == Load(files[..i]).failed
      {
        var ok := LoadFile(files, i, start);
        failed := !ok;
        i := i + 1;
      }
      LoadEnds(files, i);
    }

    /** The timer callback of `onSelectFiles`: load the files; a rejected archive ends the loading
        with an error toast, otherwise a success toast follows; either way processing ends. */
    method LoadSelectedFiles(files: seq<SelectedFile>)
      modifies this`loadedFiles, this`toasts, this`isProcessing
      ensures loadedFiles == old(loadedFiles) + Load(files).files
      ensures toasts == old(toasts) + [if Load(files).failed then Error else Success]
      ensures !isProcessing
    {
      var failed := LoadFiles(files);
      toasts := toasts + [if failed then Error else Success];
      isProcessing := false;
    }

    /** The inner loop of `search()` over the `det` elements of one file: push, in order, the row of
        each `det` whose first `prod` matches the term. */
    method SearchDets(fileName: string, dets: seq<Det>, term: string)
      modifies this`results
      ensures results == old(results) + DetResults(fileName, dets, term)
    {
      var j := 0;
      while j < |dets|
        invariant 0 <= j <= |dets|
        invariant results == old(results) + DetResults(fileName, dets[..j], term)
      {
        var det := dets[j];
        DetResultsStep(fileName, dets, j, term);
        if det.prod.Some? {
          var prod := det.prod.value;
          if prod.xProd.Some? {
            var xProd := prod.xProd.value;
            var cProd := prod.cProd.GetOr("");
            var cEAN := prod.cEAN.GetOr("");
            var matched := false;
            if Contains(Lower(xProd), term) {
              matched := true;
            } else if Contains(Lower(cProd), term) {
              matched := true;
            } else if cEAN == term {
              matched := true;
            }
            if matched {
              results := results + [SearchResult(fileName, xProd, cProd, cEAN, prod.qCom, prod.uCom.GetOr(""))];
            }
          }
        }
        j := j + 1;
      }
      assert dets[..j] == dets;
    }

    /** `search()`. A blank term, or no loaded file, gives a warning and changes nothing else.
        Otherwise `results` becomes the results for the lower-cased (untrimmed) term, followed by an
        info toast when there are none and a success toast when there are some. */
    method Search(parse: DomParser)
      modifies this`results, this`toasts, this`isProcessing
      ensures IsBlank(searchTerm) ==>
                toasts == old(toasts) + [Warn] && results == old(results) && isProcessing == old(isProcessing)
      ensures !IsBlank(searchTerm) && loadedFiles == [] ==>
                toasts == old(toasts) + [Warn] && results == old(results) && isProcessing == old(isProcessing)
      ensures !IsBlank(searchTerm) && loadedFiles != [] ==>
                && results == SearchResults(loadedFiles, parse, Lower(searchTerm))
                && (HasResults() <==> results != [])
                && toasts == old(toasts) + [if results == [] then Info else Success]
                && !isProcessing
    {
      if IsBlank(searchTerm) {
        toasts := toasts + [Warn];
        return;
      }
      if |loadedFiles| == 0 {
        toasts := toasts + [Warn];
        return;
      }
      isProcessing := true;
      results := [];
      var term := Lower(searchTerm);
      var files := loadedFiles;
      var i := 0;
      while i < |files|
        invariant 0 <= i <= |files|
        invariant results == SearchResults(files[..i], parse, term)
        invariant toasts == old(toasts)
      {
        var file := files[i];
        var dets := parse(file.content);
        SearchDets(file.name, dets, term);
        SearchResultsStep(files, i, parse, term);
        i := i + 1;
      }
      assert files[..i] == files;
      toasts := toasts + [if |results| == 0 then Info else Success];
      isProcessing := false;
    }

    /** `clear()`: forget the loaded files, the results and the term. */
    method Clear()
      modifies this`loadedFiles, this`results, this`searchTerm, this`toasts
      ensures loadedFiles == [] && results == [] && searchTerm == ""
      ensures TotalFilesLoaded() == 0 && !HasResults()
      ensures toasts == old(toasts) + [Info]
    {
      loadedFiles := [];
      results := [];
      searchTerm := "";
      toasts := toasts + [Info];
    }

    /** `toggleFileList()`: flip the list's visibility and reset its filter. */
    method ToggleFileList()
      modifies this`showFileList, this`fileSearchTerm
      ensures showFileList == !old(showFileList) && fileSearchTerm == ""
      ensures FilteredFiles() == if selection.Some? then selection.value else []
    {
      showFileList := !showFileList;
      fileSearchTerm := "";
    }
  }

  /** Where the loop stops, after every file or at a rejected archive, the loading is complete. */
  lemma LoadEnds(files: seq<SelectedFile>, n: nat)
    requires n <= |files| && (n == |files| || Load(files[..n]).failed)
    ensures Load(files) == Load(files[..n])
  {
    if n == |files| {
      assert files[..n] == files;
    } else {
      LoadStopsAfterFailure(files, n);
    }
  }

  /** Once a ZIP archive is rejected, the files after it change nothing. */
  lemma {:induction false} LoadStopsAfterFailure(files: seq<SelectedFile>, n: nat)
    requires n <= |files| && Load(files[..n]).failed
    ensures Load(files) == Load(files[..n])
    decreases |files| - n
  {
    if n < |files| {
      assert files[..n + 1][..n] == files[..n];
      LoadStopsAfterFailure(files, n + 1);
    } else {
      assert files[..n] == files;
    }
  }
}
