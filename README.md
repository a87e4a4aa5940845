# NFe classification and product search — a Dafny model

The system sorts Brazilian electronic invoices (NFe XML documents) that arrive in a ZIP archive.
It builds a new archive with three folders and a CSV report:

- `aprovados/` holds documents authorised (`cStat` 100 or 150) with normal emission (`tpEmis` 1);
- `contingencia/` holds documents authorised in any other emission mode;
- `rejeitados/` holds every other document, plus a CSV report with one row per rejected document.

Two back ends implement this:

- a synchronous Python function, `processar_zip_sync`;
- a queued PHP job, `ProcessarXmlJob::handle`, which also records the job's status on a database
  record.

A browser component, `ProductSearch`, searches the products (`det/prod`) of XML documents the
user loads from `.xml` and `.zip` files.

The model has these modules:

- `Nfe` (`nfe.dfy`) holds what both back ends share:
  - archive members and output entries;
  - the outcome of one document, with its folder;
  - the counters;
  - the report rows, and the report entry (present exactly when some document was rejected).

  Each accumulator is a function of the processed documents. The module proves how the
  accumulators relate: the counters sum to the number of documents, `rejeitados` equals the
  number of rows, and rows keep encounter order.
- `PyPipeline` (`python_pipeline.dfy`) models the Python function:
  - Parsing is a parameter: `Parser` maps bytes to the nodes `root.iter()` visits, in document
    order, or to None when `ET.fromstring` raises `ParseError`.
  - A node is an element (its Clark-notation tag and its text) or some other node, such as a
    comment or a processing instruction.
  - The two scans are methods with loops: the last `cStat`/`xMotivo`, and the first `tpEmis`
    with `break`. They are proved against `LastTagged` and `FirstTagged`.
  - The member loop is a method proved against `ClassifiedUpTo`. It covers the
    `BadZipFile` raised on opening the archive, and a `BadZipFile` raised by a read in the middle
    of the loop.
- `PhpJob` (`php_job.dfy`) models the PHP job:
  - `ArquivoProcessamento` is the record, with its status, output path and stats.
  - `ProcessarXmlJob` is the job.
  - `handle` is a method over the archive's members. Whether each ZIP opens is a parameter, and
    so are the unique id and the DOM loader.
  - PHP's loose `==` and `in_array` comparison is a parameter, `LooseEquality`.
  - The entries the job reads are recorded in a ghost trace of events.
- `Divergence` (`divergence.dfy`) compares the two back ends. They agree on which member names
  they treat as documents, except for names ending in '/'. They disagree on two points:
  - Python uses the last `cStat`, PHP the first.
  - PHP compares the status loosely, Python exactly.
- `ProductSearch` (`product_search.dfy`) models the component as a class with its fields:
  - Loading files and searching are methods proved against the functions `Load` and
    `SearchResults`.
  - The DOM is abstracted as `DomParser`: a document's `det` elements, each with its first
    `prod`.
  - A ZIP file is the list of keys JSZip gives for it.
  - A toast is reduced to its severity.
- `Text` (`text.dfy`) holds the string operations the three use:
  - ASCII lower-casing;
  - `endsWith` and `includes`;
  - `split('/').pop()`;
  - PHP's `basename` and `pathinfo(…, PATHINFO_EXTENSION)`.

  It proves that PHP's extension test and Python's suffix test accept the same names, except
  names ending in '/'.
- `Wrappers` and `Sequences` are small helpers: `Option`, and two sequence identities.

Where the two back ends' behaviour is described differently from how their code acts, the model
follows the code. The exception is the two inputs under "## Findings", where the code fails:

- On those inputs, the members that run the pipelines model the evidently intended behaviour. In
  Python these are `FindStatusNodes`, `ClassifyDocument` and `ProcessarZipSync`, which skip
  comments and processing instructions. In PHP these are `Classify`, `ClassifyEntry`,
  `ProcessarXmlJob.ProcessMember`, `ProcessarXmlJob.ProcessEntries` and `Handle`, which reject an
  empty member as invalid XML.
- Separate members model the code as written: `PyPipeline.ScanAsWritten` and
  `PyPipeline.ClassifyAsWritten`, and `PhpJob.Throws`, `PhpJob.ProcessarXmlJob.ProcessMemberAsWritten`,
  `PhpJob.ProcessarXmlJob.ProcessEntriesAsWritten` and `PhpJob.ProcessarXmlJob.HandleAsWritten`.

Cases where following the code matters:

- The Python function returns both the archive and the counters.
- A Python member that fails to read aborts the loop and leaves `ERRO.txt` after the entries
  written so far.
- PHP's `getTagValue` takes the first element of a tag, Python the last `cStat` and `xMotivo`.
- The frontend's `filteredFiles` falls back to the whole selection for an empty filter term.
- A rejected ZIP file ends the frontend's loading loop, with an error toast.

The repository's own Python test (`backend/tests/test_flatten.py:58-74`) expects output entries
flattened to the base name. The function keeps the full member name behind the folder prefix,
and the model follows the function (`Nfe.PlacedAt`).

## Model

| member | source | states |
|---|---|---|
| Nfe.Stats.Count | backend/main.py:119-150 | one more document raises exactly one counter by one: the total grows by one, and `rejeitados` (resp. `aprovados`) grows iff the outcome is a rejection (resp. normal approval) |
| Nfe.ReportEntries | backend/main.py:153-160 | the report entry is absent exactly when there are no rejection rows |
| Nfe.AccumulateStep | backend/main.py:119-150 | one more document adds its output entry, its counter and its report row (if rejected) at the end |
| Nfe.TallyTotal | backend/main.py:68-150 | the three counters sum to the number of documents processed |
| Nfe.TallyRejected | backend/main.py:119-150 | `rejeitados` equals the number of rows of the report |
| Nfe.ReportIffRejected | backend/main.py:153-160 | the report is written iff `rejeitados > 0`; then it holds the header followed by exactly `rejeitados` rows |
| Nfe.PlacedAt | backend/main.py:121-148 | output entry j is document j's bytes under its outcome's folder followed by its full member name (no flattening) |
| Nfe.RejectionsAppend | backend/main.py:119-150 | report rows keep encounter order: the rows of a longer run extend those of a prefix |
| Nfe.RejectionsMembership | backend/main.py:119-150 | a row is in the report iff some processed document was rejected with that name, code and reason |
| Text.LowerIdempotent | backend/main.py:88 | lower-casing twice is lower-casing once, and the lower-cased name that `.xml` is tested against holds no 'A'..'Z' |
| Text.PhpBasename | backend_php/app/Jobs/ProcessarXmlJob.php:72 | no contract of its own: `PathFiltersAgree` and `TrailingSlashKeptOnlyByPhp` state how the base name enters the filter |
| Text.PathExtension | backend_php/app/Jobs/ProcessarXmlJob.php:72 | no contract of its own: `DotSuffixSpec` and `DotSuffixAt` characterise it as the text after the last '.' of the base name, and `PathFiltersAgree` relates it to the ".xml" suffix test |
| Text.AfterLastSpec | frontend/src/app/components/product-search/product-search.ts:156 | the part after the last separator is a suffix free of the separator, preceded by it unless it is the whole string |
| Text.StripTrailingSpec | backend_php/app/Jobs/ProcessarXmlJob.php:72 | stripping trailing slashes keeps a prefix not ending in '/' and removes only slashes |
| Text.DotSuffixSpec | backend_php/app/Jobs/ProcessarXmlJob.php:72 | the extension is the text after the last '.', free of '.'; there is none only when the name has no '.' |
| Text.DotSuffixAt | backend_php/app/Jobs/ProcessarXmlJob.php:72 | a '.' followed by k non-'.' characters makes those k characters the extension |
| Text.ExtensionXmlGivesSuffix | backend_php/app/Jobs/ProcessarXmlJob.php:72 | an extension that lower-cases to "xml" means the base name ends, lower-cased, in ".xml" |
| Text.SuffixGivesExtensionXml | backend_php/app/Jobs/ProcessarXmlJob.php:72 | a base name ending, lower-cased, in ".xml" has an extension lower-casing to "xml" |
| Text.SuffixOfLastComponent | frontend/src/app/components/product-search/product-search.ts:151-156 | a name ends, lower-cased, in ".xml" iff the part after its last '/' does |
| Text.PathFiltersAgree | backend_php/app/Jobs/ProcessarXmlJob.php:72 | for a name not ending in '/', the `pathinfo` extension test accepts exactly the names ending, lower-cased, in ".xml" |
| PyPipeline.IsXmlName | backend/main.py:88 | no contract of its own: `ProcessedAreXmlMembers` states that it selects the processed members, and `Divergence.FiltersAgree` relates it to the PHP filter |
| PyPipeline.Classify | backend/main.py:95-150 | no contract of its own (the corrected classification): `StatusFromLastElement`, `MissingStatusRejected`, `EmissionFromFirstElement` and `MissingEmissionIsContingency` state the decision rule, and `ClassifyIgnoresNonElements` its indifference to comments |
| PyPipeline.Read | backend/main.py:92 | no contract of its own: `ReadLast` and `ReadOwnData` state what it returns |
| PyPipeline.ReadLast | backend/main.py:92 | reading a name gives the data of the last member stored under that name, whatever earlier members of that name hold |
| PyPipeline.LastTagged | backend/main.py:108-112 | a found node is an element whose tag ends in the suffix |
| PyPipeline.FirstTagged | backend/main.py:127-131 | a found node is an element whose tag ends in the suffix |
| PyPipeline.FindStatusNodes | backend/main.py:105-112 | the scan over `root.iter()` ends with the last `cStat` element and the last `xMotivo` element |
| PyPipeline.FindEmissionNode | backend/main.py:127-131 | the scan with `break` ends with the first `tpEmis` element |
| PyPipeline.LastTaggedCharacterised | backend/main.py:108-112 | the result is a tagged node with no tagged node after it; None iff no node is tagged |
| PyPipeline.FirstTaggedCharacterised | backend/main.py:127-131 | the result is a tagged node with no tagged node before it; None iff no node is tagged |
| PyPipeline.LastTaggedIsLastIndex | backend/main.py:108-112 | a tagged node with no tagged node after it is the one found |
| PyPipeline.LastTaggedNone | backend/main.py:105-112 | with no tagged node the variable stays None |
| PyPipeline.FirstTaggedIsFirstIndex | backend/main.py:127-131 | a tagged node with no tagged node before it is the one found |
| PyPipeline.FirstTaggedNone | backend/main.py:127-133 | with no `tpEmis` node the variable stays None |
| PyPipeline.StatusFromLastElement | backend/main.py:108-123 | with the last `cStat` at i, the document is rejected iff its text is neither "100" nor "150", with that text and the last `xMotivo` (or its default) in the row |
| PyPipeline.MissingStatusRejected | backend/main.py:114-123 | a document without `cStat` is rejected with code "N/A" |
| PyPipeline.EmissionFromFirstElement | backend/main.py:125-143 | an authorised document is approved iff its first `tpEmis` has text "1", otherwise contingency |
| PyPipeline.MissingEmissionIsContingency | backend/main.py:133-143 | an authorised document without `tpEmis` goes to contingency |
| PyPipeline.ScanAsWritten | backend/main.py:108-112 | as written, the scan raises exactly when a non-element node is visited, and otherwise finds the last `cStat`/`xMotivo` |
| PyPipeline.ClassifyAsWritten | backend/main.py:95-150 | as written, classification raises exactly on parsed documents holding a non-element node, and otherwise agrees with `Classify` |
| PyPipeline.CommentRaisesAsWritten | backend/main.py:108-109 | an authorised, normally emitted document with a comment raises as written, while the intended classification approves it |
| PyPipeline.Elements | backend/main.py:108-112 | the elements of a node list hold no non-element node |
| PyPipeline.LastTaggedAppend | backend/main.py:108-112 | the last tagged node of a concatenation comes from the second part if it has one |
| PyPipeline.LastTaggedElements | backend/main.py:108-112 | non-element nodes do not change the last tagged element |
| PyPipeline.FirstTaggedElements | backend/main.py:127-131 | non-element nodes do not change the first tagged element |
| PyPipeline.ClassifyIgnoresNonElements | backend/main.py:108-143 | corrected: comments and processing instructions do not change a document's outcome |
| PyPipeline.FirstReadFailure | backend/main.py:85-92 | the loop reads every member before the first one whose read raises, and stops there |
| PyPipeline.FirstReadFailureFrom | backend/main.py:85-92 | searching from a readable prefix finds the first failing read at or after it |
| PyPipeline.FirstReadFailureUnique | backend/main.py:162-165 | the point where the loop stops is unique |
| PyPipeline.ClassifiedStep | backend/main.py:85-150 | one more readable member adds a document iff its name ends in ".xml", with the bytes read and its classification |
| PyPipeline.ClassifyDocument | backend/main.py:95-150 | the outcome of one document is `Classify` of its parse |
| PyPipeline.ProcessarZipSync | backend/main.py:47-170 | a bad archive gives only `ERRO.txt` and zero counters; otherwise the placed documents up to the first failing read, then `ERRO.txt` if a read failed or else the report, with the tallied counters |
| PyPipeline.ProcessedAreXmlMembers | backend/main.py:85-89 | the processed documents are exactly the members whose name ends, lower-cased, in ".xml", in archive order |
| PyPipeline.CountersSumToXmlMembers | backend/main.py:68-150 | after a full run the counters sum to the number of ".xml" members |
| PyPipeline.ProcessedDocument | backend/main.py:92-148 | each processed document has an ".xml" name, holds what reading its name gives, and has the outcome of its parse |
| PyPipeline.ReadOwnData | backend/main.py:92 | with distinct member names, reading a member's name gives that member's own data |
| PyPipeline.CompletedRun | backend/main.py:119-160 | after a full run each output entry is its document under its outcome's folder, and the report exists iff `rejeitados > 0` |
| PhpJob.IsXmlPath | backend_php/app/Jobs/ProcessarXmlJob.php:72 | no contract of its own: `Text.PathFiltersAgree` states which names it accepts, and `ReadsAreXmlMembers` that it selects the members read |
| PhpJob.GetTagValue | backend_php/app/Jobs/ProcessarXmlJob.php:152-155 | no contract of its own: `GetTagValueFirst` and `GetTagValueNone` state what it returns |
| PhpJob.Classify | backend_php/app/Jobs/ProcessarXmlJob.php:75-111 | no contract of its own (the corrected classification): `DecisionRule`, `MissingStatusRejected` and `ParseFailureRejected` state the decision rule |
| PhpJob.FirstThrow | backend_php/app/Jobs/ProcessarXmlJob.php:68-79 | the index of the first member on which `loadXML` throws as written: no member before it throws, and it throws unless it is the end |
| PhpJob.FirstThrowStep | backend_php/app/Jobs/ProcessarXmlJob.php:68-79 | a loop that met no throwing member before i stops at i exactly when member i throws |
| PhpJob.EmptyEntryThrowsAsWritten | backend_php/app/Jobs/ProcessarXmlJob.php:75-79 | an empty `.xml` member satisfies `Throws` (as written, `loadXML` throws on it), while the intended `Classify` rejects it as a parse failure |
| PhpJob.ParseFailureRejected | backend_php/app/Jobs/ProcessarXmlJob.php:79-88 | a member that does not load is rejected with "ERRO_PARSE" and "XML invalido" |
| PhpJob.DecisionRule | backend_php/app/Jobs/ProcessarXmlJob.php:91-111 | with the first `cStat` at i: rejected with its value and the first `xMotivo` (or default) unless it loosely equals "100" or "150"; else approved iff the first `tpEmis` loosely equals "1" |
| PhpJob.MissingStatusRejected | backend_php/app/Jobs/ProcessarXmlJob.php:91-100 | a loaded document without `cStat` is rejected with "N/A" |
| PhpJob.GetTagValueFirst | backend_php/app/Jobs/ProcessarXmlJob.php:152-155 | the value is that of the first element with the tag |
| PhpJob.GetTagValueNone | backend_php/app/Jobs/ProcessarXmlJob.php:152-155 | null exactly when no element has the tag |
| PhpJob.SkipStep | backend_php/app/Jobs/ProcessarXmlJob.php:68-72 | a member without the "xml" extension changes nothing and is not read |
| PhpJob.XmlStep | backend_php/app/Jobs/ProcessarXmlJob.php:72-112 | an ".xml" member is read and adds its output entry, its counter and (if rejected) its report row |
| PhpJob.ReadsAreXmlMembers | backend_php/app/Jobs/ProcessarXmlJob.php:68-75 | entry k is read iff it is among the visited indexes and has the "xml" extension |
| PhpJob.ReadsInIndexOrder | backend_php/app/Jobs/ProcessarXmlJob.php:68-75 | entries are read in strictly increasing index order |
| PhpJob.DocumentsFollowReads | backend_php/app/Jobs/ProcessarXmlJob.php:68-112 | the j-th processed document is the entry of the j-th read, classified |
| PhpJob.CountersSumToXmlMembers | backend_php/app/Jobs/ProcessarXmlJob.php:60-112 | the counters sum to the number of entries read |
| PhpJob.ArquivoProcessamento.constructor | backend_php/database/migrations/2025_12_09_190723_create_arquivo_processamentos_table.php:16-19 | a new record is pending, with no output path and no stats |
| PhpJob.ProcessarXmlJob.constructor | backend_php/app/Jobs/ProcessarXmlJob.php:29-32 | the job keeps the record it is given |
| PhpJob.ProcessarXmlJob.ClassifyEntry | backend_php/app/Jobs/ProcessarXmlJob.php:75-111 | the outcome of one entry is `Classify` of its bytes |
| PhpJob.ProcessarXmlJob.ProcessMember | backend_php/app/Jobs/ProcessarXmlJob.php:68-112 | one iteration takes output, counters, rows and reads from their values at i to their values at i+1 |
| PhpJob.ProcessarXmlJob.ProcessEntries | backend_php/app/Jobs/ProcessarXmlJob.php:68-113 | the loop ends with the placed documents, counters, rows and reads of all members |
| PhpJob.ProcessarXmlJob.ProcessMemberAsWritten | backend_php/app/Jobs/ProcessarXmlJob.php:68-112 | as written, one iteration throws exactly on an `.xml` member with empty bytes, after reading it; otherwise it is the iteration of `ProcessMember` |
| PhpJob.ProcessarXmlJob.ProcessEntriesAsWritten | backend_php/app/Jobs/ProcessarXmlJob.php:68-113 | as written, the loop throws iff some member throws, having read up to and including the first one; otherwise it ends as `ProcessEntries` does |
| PhpJob.ProcessarXmlJob.HandleAsWritten | backend_php/app/Jobs/ProcessarXmlJob.php:39-146 | as written, the record ends at `processando` iff both archives open and some `.xml` member has empty bytes, with no output path, no stats and the reads up to that member; otherwise the final state is `Handle`'s |
| PhpJob.ProcessarXmlJob.Handle | backend_php/app/Jobs/ProcessarXmlJob.php:39-146 | when both archives open: status concluido, the output path, the tallied stats, the placed documents plus the report, and the reads after "processando"; otherwise status erro, nothing else changed |
| Divergence.FiltersAgree | backend/main.py:88 | both back ends accept the same member names, for names not ending in '/' |
| Divergence.TrailingSlashKeptOnlyByPhp | backend_php/app/Jobs/ProcessarXmlJob.php:72 | "notas.xml/" passes the PHP filter and not the Python one |
| Divergence.AfterLastWithout | backend_php/app/Jobs/ProcessarXmlJob.php:72 | a name without the separator is its own last component |
| Divergence.PyRejectsLastStatus | backend/main.py:108-123 | Python rejects a document without `xMotivo` whose last `cStat` has a text other than 100/150, with that code and the default reason, whatever the earlier `cStat` elements say (the general statement is `StatusFromLastElement`) |
| Divergence.FirstOrLastStatus | backend_php/app/Jobs/ProcessarXmlJob.php:152-155 | a document with `cStat` 100 then 204 is approved by PHP (first) and rejected by Python (last) |
| Divergence.LooseStatusComparison | backend_php/app/Jobs/ProcessarXmlJob.php:96-103 | a `cStat` of "100.0" is approved by PHP's loose comparison and rejected by Python's exact one |
| ProductSearch.SimpleName | frontend/src/app/components/product-search/product-search.ts:156 | no contract of its own: `SimpleNameSpec` and `SimpleNameOfXmlEntry` state what it returns |
| ProductSearch.SimpleNameSpec | frontend/src/app/components/product-search/product-search.ts:156 | the simple name is a suffix of the name, and unless it is the whole name it is the non-empty part after the last '/' |
| ProductSearch.SimpleNameOfXmlEntry | frontend/src/app/components/product-search/product-search.ts:150-156 | the simple name of an ".xml" entry is non-empty, has no '/', and still ends in ".xml" |
| ProductSearch.ZipNamesAreBaseNames | frontend/src/app/components/product-search/product-search.ts:149-160 | every document pushed from an archive has such a simple name |
| ProductSearch.ZipXmlFilesSnoc | frontend/src/app/components/product-search/product-search.ts:149-160 | one more key appends its contribution |
| ProductSearch.ZipXmlFilesAppend | frontend/src/app/components/product-search/product-search.ts:149-160 | the documents of concatenated key lists are the concatenation, in key order |
| ProductSearch.ZipXmlFilesStep | frontend/src/app/components/product-search/product-search.ts:149-160 | key i adds its contribution after those of keys before it |
| ProductSearch.OneEntry | frontend/src/app/components/product-search/product-search.ts:150-160 | one key contributes a document iff its name ends in ".xml" and it is not a directory, under its simple name |
| ProductSearch.LoadStep | frontend/src/app/components/product-search/product-search.ts:102-107 | file i fails the loading iff it is a ZIP that JSZip rejects, and otherwise appends its documents |
| ProductSearch.LoadEnds | frontend/src/app/components/product-search/product-search.ts:102-126 | once loading fails or all files are done, the later files change nothing |
| ProductSearch.LoadStopsAfterFailure | frontend/src/app/components/product-search/product-search.ts:102-126 | after a rejected archive no later file is loaded |
| ProductSearch.Matches | frontend/src/app/components/product-search/product-search.ts:209-221 | no contract of its own: `DetResultsMembership` and `ResultsMatchTerm` state that exactly the matching products give results |
| ProductSearch.DetResultsStep | frontend/src/app/components/product-search/product-search.ts:200-235 | `det` j adds its result iff it matches |
| ProductSearch.SearchResultsStep | frontend/src/app/components/product-search/product-search.ts:192-238 | file i adds its results after those of earlier files |
| ProductSearch.DetResultsMembership | frontend/src/app/components/product-search/product-search.ts:200-235 | a row is among a file's results iff some `det` of it has a `prod` with `xProd` that matches the term, and the row is built from it |
| ProductSearch.ResultsMatchTerm | frontend/src/app/components/product-search/product-search.ts:217-234 | every result's name or code contains the term, or its EAN equals it |
| ProductSearch.SearchResultsSnoc | frontend/src/app/components/product-search/product-search.ts:192-238 | one more file appends its results |
| ProductSearch.SearchResultsAppend | frontend/src/app/components/product-search/product-search.ts:192-238 | results of concatenated file lists are concatenated, in file order |
| ProductSearch.ResultsNameLoadedFiles | frontend/src/app/components/product-search/product-search.ts:227-228 | every result names a loaded file |
| ProductSearch.NamesContainingMembership | frontend/src/app/components/product-search/product-search.ts:292-294 | the filter keeps exactly the selected names containing the term, case-insensitively |
| ProductSearch.NamesContainingAppend | frontend/src/app/components/product-search/product-search.ts:292-294 | the filter keeps the order of the names: filtering a concatenation concatenates the filtered parts |
| ProductSearch.EmptyTermKeepsAll | frontend/src/app/components/product-search/product-search.ts:290 | an empty filter term keeps the whole selection |
| ProductSearch.ProductSearch.constructor | frontend/src/app/components/product-search/product-search.ts:59-69 | the component starts with empty term, results, documents and toasts, not processing, list hidden |
| ProductSearch.ProductSearch.TotalFilesLoaded | frontend/src/app/components/product-search/product-search.ts:74-76 | no contract of its own: `OnSelectFiles` and `Clear` state that it is 0 after them |
| ProductSearch.ProductSearch.HasResults | frontend/src/app/components/product-search/product-search.ts:78-80 | no contract of its own: `Search` states that it holds iff the results are non-empty, `OnSelectFiles` and `Clear` that it is false after them |
| ProductSearch.ProductSearch.FilteredFiles | frontend/src/app/components/product-search/product-search.ts:288-295 | a name is listed iff it is in the selection and contains the filter term, case-insensitively; nothing without a selection |
| ProductSearch.ProductSearch.OnSelectFiles | frontend/src/app/components/product-search/product-search.ts:90-93 | a new selection sets processing and empties the documents and results, so `totalFilesLoaded` is 0 and `hasResults` false |
| ProductSearch.ProductSearch.ProcessXmlFile | frontend/src/app/components/product-search/product-search.ts:134-140 | appends one document with the file's name and text |
| ProductSearch.ProductSearch.ProcessZipFile | frontend/src/app/components/product-search/product-search.ts:142-165 | succeeds iff JSZip reads the file, and then appends the archive's ".xml" documents in key order |
| ProductSearch.ProductSearch.LoadFile | frontend/src/app/components/product-search/product-search.ts:102-107 | one file takes the documents from their value after files ..i to their value after files ..i+1 |
| ProductSearch.ProductSearch.LoadFiles | frontend/src/app/components/product-search/product-search.ts:102-113 | the loop appends `Load(files)` and reports whether an archive was rejected |
| ProductSearch.ProductSearch.LoadSelectedFiles | frontend/src/app/components/product-search/product-search.ts:96-131 | the callback appends the loaded documents, adds an error toast iff loading failed (else a success toast), and clears processing |
| ProductSearch.ProductSearch.SearchDets | frontend/src/app/components/product-search/product-search.ts:200-238 | the inner loop appends the file's results in `det` order |
| ProductSearch.ProductSearch.Search | frontend/src/app/components/product-search/product-search.ts:167-264 | a blank term or no documents gives a warning and changes nothing else; otherwise results are rebuilt as `SearchResults` of the lower-cased term, `hasResults` iff non-empty, an info or success toast, processing cleared |
| ProductSearch.ProductSearch.Clear | frontend/src/app/components/product-search/product-search.ts:266-275 | empties documents, results and term, and adds an info toast |
| ProductSearch.ProductSearch.ToggleFileList | frontend/src/app/components/product-search/product-search.ts:283-286 | flips the list's visibility and resets its filter, so the whole selection is listed |

## Left out

- ZIP, XML and CSV formats: archives are lists of members, parsing is a parameter (`Parser`, `Loader`, `DomParser`), and the CSV report is its rows; the byte-order mark, `;` delimiter and quoting are not modelled.
- Duplicate member names: `zip_in.read(name)` returns the last member of that name (`Read`), and writing entries with a repeated name to the output archive is modelled as a list, not as ZipArchive's or zipfile's overwrite or duplicate behaviour.
- Exceptions other than `BadZipFile` and `ParseError` in Python (for example a decompression error) are not modelled.
- A `getFromIndex` that fails in PHP returns `false`, which converts to the empty string. `Handle` then rejects the member as invalid XML, which is the intended behaviour. `HandleAsWritten` throws instead, as the code does (see "## Findings").
- PyPipeline.FindStatusNodes: skips comments and processing instructions, as intended. As written, the scan raises `AttributeError` on them; `PyPipeline.ScanAsWritten` models that scan.
- PyPipeline.ClassifyDocument: classifies a document holding a comment or processing instruction by its elements, as intended. As written, this raises; `PyPipeline.ClassifyAsWritten` models that.
- PyPipeline.ProcessarZipSync: a run over a document holding a comment or processing instruction is modelled with the intended classification. As written, `AttributeError` escapes `processar_zip_sync`. A whole run as written is not modelled; it is shown only at the level of one document.
- PhpJob.Classify: rejects empty bytes as invalid XML, as intended. As written, `loadXML('')` throws.
- PhpJob.ProcessarXmlJob.ClassifyEntry: the same intended rejection of empty bytes.
- PhpJob.ProcessarXmlJob.ProcessMember: an `.xml` member with empty bytes is classified through `ClassifyEntry` and so rejected, as intended. As written, `loadXML('')` throws; `ProcessMemberAsWritten` models that.
- PhpJob.ProcessarXmlJob.ProcessEntries: the loop goes on past an `.xml` member with empty bytes, as intended. As written, it stops there; `ProcessEntriesAsWritten` models that.
- PhpJob.ProcessarXmlJob.Handle: an `.xml` member with empty bytes is rejected as invalid XML, as intended. As written, the job throws and leaves the record at `processando`; `HandleAsWritten` models that.
- PhpJob.ProcessarXmlJob.HandleAsWritten: what becomes of the partly written output archive after the exception is not modelled; `written` is None.
- Unicode case mapping: `lower()`, `strtolower` and `toLowerCase` are modelled as ASCII folding.
- PHP's loose comparison is a parameter, not PHP 8's numeric-string rules.
- Storage paths, `mkdir`, `uniqid` (a parameter), the JSON encoding of the stats, HTTP endpoints, the queue and the database are not modelled; the record is a class whose fields the job sets.
- ProductSearch.ProductSearch.Search: the quantity is kept as the text of `qCom`; `parseFloat`, `totalQuantity` and `formatDecimal` use floating point and are not modelled.
- ProductSearch.ProductSearch.LoadSelectedFiles: the `setTimeout` delay, `await`, the progress percentages and the toast texts are not modelled; a failure of `file.text()` or of reading a ZIP entry is not modelled, only JSZip rejecting an archive.
- ProductSearch.ProductSearch.Search: the error toast of the `catch` block is not modelled, because the abstract parser never throws.
- The DOM's `textContent` of a product's child is taken as given by `DomParser`; `getElementsByTagName` semantics (namespaces, descendants) are abstracted into it.
- `removeFile`, the highlight pipe, the other components and the test scripts are not modelled.

## Findings

| source | as written | input that shows it | evidently intended | confidence | as-written member | corrected member |
|---|---|---|---|---|---|---|
| backend/main.py:108-112 | `node.tag.endswith(...)` is called on every node lxml's `root.iter()` visits; for a comment or processing instruction `node.tag` is a function, so `AttributeError` is raised and escapes the `except ET.ParseError` | an authorised NFe with `<!-- x -->` inside the root element | skip non-element nodes and classify the document by its elements | not executed | PyPipeline.CommentRaisesAsWritten | PyPipeline.ClassifyIgnoresNonElements |
| backend_php/app/Jobs/ProcessarXmlJob.php:75-79 | `$dom->loadXML($conteudoXml)` on an empty `.xml` member throws a `ValueError` in PHP 8, which `@` does not silence, so `handle` ends without setting `concluido` or `erro` | an archive with an empty `nota.xml` | reject the member as invalid XML, like any other member that does not load | not executed | PhpJob.ProcessarXmlJob.HandleAsWritten | PhpJob.ParseFailureRejected |
