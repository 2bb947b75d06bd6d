# junit-to-html: the report generator, modelled in Dafny

junit-to-html turns a folder of JUnit XML result files into HTML reports. It
walks each parsed result file (`parse`), builds a navigation menu as it goes,
finishes the menu with a pass/fail summary (`cleanMenu`), and writes one report
per result file or one merged report for the whole folder
(`convertSingleFileToHTML`, `exportAsOneFile`, `generateFromFolder`).

The model has two layers:

- `render.dfy` (module `Render`) and `report.dfy` (module `Report`) describe,
  as functions, what each step computes from the parsed document and from the
  module-level state (`menu`, `menuID`, `passed`, `failed`). The lemmas there
  state what the steps guarantee.
- `render_state.dfy` (module `Session`) holds that state as the fields of the
  class `RenderState`. `parse`, `cleanMenu` and the three drivers are its
  methods and change the fields step by step, as the program does. Each method
  is proved to leave exactly the state, and return exactly the result, that
  the functions describe.

Supporting modules:

- `junit.dfy`: the parsed result tree as xml2js delivers it.
- `js_number.dfy`: `String(n)` for the anchor counter and `parseInt` for a
  suite's `errors` attribute.
- `text.dfy`: JavaScript `split` and `join`.
- `files.dfy`: the `.xml` filter, report names, and the separator of the
  merged report.

A suite reads its properties by position: index 0, 1 and 2 in the first
suite (spec ID, title, source path), index 1 in the others. A missing property makes JavaScript throw a TypeError.
The model returns that as `Err(MissingProperty(suite, index))` and keeps the
state the earlier suites left behind, as the program does. A throw ends the
run in the drivers.

Where the code and the documentation of the system differ, the model follows
the code:

- A source path with fewer than three `\`-separated segments is not shown
  whole. It gets one `\undefined` for each missing segment, because `fp[n]` is
  read at negative indices (`Render.ShownPathOfShortPath`).
- The menu is reset to `[]`, not back to its start-up placeholder (see
  Findings).
- `menuID` is never reset, so anchor numbers keep increasing across files.
- In the merged mode the pass/fail counters are not reset between files, so
  the summary counts every file.

## Model

| member | source | states |
|---|---|---|
| Session.ShowSourcePath | index.js:47-51 | the loop builds exactly the shown path: `\` plus each of the last `srcFileDepth` segments of the `\`-split property value, in order |
| Session.RenderState.constructor | index.js:17-20 | start-up state: the menu holds the one placeholder `TEMP`, and `menuID`, `passed` and `failed` are 0 |
| Session.RenderState.Push | index.js:60-61 | a node's `<li>` entry, carrying the current `menuID`, is appended to the menu, then `menuID` goes up by one |
| Session.RenderState.RenderCase | index.js:91-113 | a test with an `error` child adds one to `failed`, any other test adds one to `passed`; then its entry is pushed; returns the test's HTML with anchor `test_<menuID>` |
| Session.RenderState.RenderCases | index.js:90-114 | the test loop leaves the state of taking the cases one by one in order, and returns their fragments concatenated, anchors numbered on from the entry `menuID` |
| Session.RenderState.RenderSubSuite | index.js:63-116 | a later suite pushes its own entry, then its cases' entries; returns its opening (attributes verbatim, `has_error` flag), its cases, then `</div></div>` |
| Session.RenderState.Parse | index.js:39-123 | `parse` returns and leaves exactly what `Render.Render` describes: every suite in order, then the container is closed; or the error of the first suite lacking a property, with the state the earlier suites left |
| Session.RenderState.CleanMenu | index.js:125-132 | `menu[0]` becomes the summary of the date and the failed/passed counts (on an empty menu the summary is created), the closing entry is appended, and the counters return to 0 while `menuID` is kept |
| Session.RenderState.ConvertSingleFile | index.js:134-159 | parse, `cleanMenu`, then a report named after the last `\` segment minus 4 characters plus `.html` and holding header, joined menu, body and footer; the menu ends as `[]`; a throw skips all of it |
| Session.RenderState.MergeFile | index.js:166-173 | a `.xml` entry (tested as `substr(-4)`) is parsed and its HTML added to `allFiles`; any other entry changes nothing |
| Session.RenderState.ExportAsOneFile | index.js:161-190 | every `.xml` entry is parsed in directory order, `cleanMenu` runs once, and one report `alltests-<date>.html` joins the results with the separator; the menu ends as `[]` |
| Session.RenderState.ConvertEntry | index.js:210-214 | a `.xml` entry is converted and its report added; any other entry changes nothing |
| Session.RenderState.GenerateFromFolder | index.js:192-222 | the `single` flag picks the merged report or one report per `.xml` entry in directory order; the first throw ends the run |
| Render.ShownPathOfLongPath | index.js:47-51 | a path of more than three segments is shown as `\` plus its last three segments joined by `\`, and that text is a suffix of the path |
| Render.ShownPathOfShortPath | index.js:47-51 | a path of at most three segments is shown whole after one `\undefined` for each missing segment |
| Render.ShownPathKeepsLastThree | index.js:47-51 | whatever precedes them, three separator-free final segments `c`, `d`, `e` are shown as `\c\d\e` |
| Render.AnchorsDistinct | index.js:54-105 | anchors made from different counter values differ, whatever their kinds (`suite_`, `sub_`, `test_`) |
| Render.CaseEntryMarksError | index.js:111-112 | a test's menu entry starts `<li class="test error"` exactly when the test has an error |
| Render.HeaderEntryIffHead | index.js:60-112 | an entry has the class `head` exactly when it links a suite header |
| Render.ErrorFlagOfCount | index.js:70-73 | an `errors` attribute written as a count is flagged `has_error` exactly when the count is positive; a negative count never is |
| Render.WalkRunsIff | index.js:42-65 | the walk of the first `n` suites runs through exactly when none of them lacks a property it reads by position |
| Render.WalkStopsAtFirstGap | index.js:42-65 | a stopped walk names the first suite lacking a property and keeps the state the suites before it reached |
| Render.RenderSucceedsIff | index.js:39-123 | `parse` returns (does not throw) exactly on a well-formed document: three properties in the first suite, two in every other |
| Render.RenderThrowsAtFirstGap | index.js:39-123 | a throw of `parse` reports the first suite lacking a property (index 2 of the first, index 1 of a later one), with the state left by the suites before it |
| Render.FinalStateLayout | index.js:42-119 | on a well-formed document, one entry is appended per suite and per test in document order (the k-th with anchor `menuID + k`), old entries are kept, `menuID` advances by the node count, and `failed`/`passed` grow by the failing/passing tests |
| Render.RenderWellFormed | index.js:39-123 | `parse` of a well-formed document returns HTML ending with the container's closing tag and leaves the state of `FinalStateLayout` |
| Render.RenderCountsEveryCase | index.js:95-102 | `passed + failed` grows by exactly the number of test cases of the suites after the first |
| Render.CasesPartition | index.js:95-102 | every test case is counted as failing or passing, never both |
| Render.NodeCount | index.js:60-113 | one node (menu entry) per suite and one per test case of the later suites |
| Render.OnlyFirstNodeIsHeader | index.js:44-87 | the first suite is the only header: the first node is the header and no other node is |
| Render.EntryAt | index.js:60-113 | the k-th entry links the k-th node under anchor number `id + k` |
| Render.EntriesAppend | index.js:60-113 | the entries of two runs of nodes are those of the first, then those of the second numbered on |
| Render.CasesCounters | index.js:90-114 | the first `n` cases move `menuID` by `n` and `failed`/`passed` by their failing and passing cases |
| Render.CasesMenu | index.js:90-114 | the first `n` cases append their entries in order after the entries already there |
| Render.CleanedAfterPlaceholder | index.js:125-132 | after `parse` from a one-entry menu, `cleanMenu` leaves the summary of this walk's counts, every node's entry in order, and the closing entry |
| Render.SummaryAndCloseAreNotHeaders | index.js:128-129 | neither the summary nor the closing entry has the class `head` |
| Render.WalkOutputByCounter | index.js:42-119 | the HTML of the walk depends on the state only through `menuID`, not on the menu or the pass/fail counters |
| Render.RenderedHtml | index.js:39-123 | `parse` of a well-formed document returns `Html(doc, menuID)`, which is fixed by the document and the starting `menuID` alone |
| Render.FragmentsOpenWithAnchor | index.js:53-105 | the header, sub-suite and test elements open with `id="suite_N"`, `id="sub_N"` and `id="test_N"`, where `N` is the counter they are rendered with |
| Render.SuiteHtmlAt | index.js:42-119 | suite `s` is rendered right after the earlier suites, with `menuID` at the start value plus the number of nodes before it |
| Render.CaseRenderedAt | index.js:90-114 | the k-th test of a sub-suite is rendered with the counter at the test loop's start value plus `k`, right after the first `k` tests |
| Render.SuiteEntriesAt | index.js:60-113 | suite `s`'s nodes sit at positions `p`, `p + 1`, ... and the menu entry at `p + k` links the anchor with the number that node's element is rendered with; so each element's `id` is its menu entry's target |
| JsNumber.NatToString | index.js:54 | `String(n)`: a non-empty run of decimal digits, starting with `0` only for 0, a single digit exactly below 10 |
| JsNumber.DecimalRoundTrip | index.js:54 | reading back the numeral of `n` gives `n` |
| JsNumber.NatToStringInjective | index.js:54 | distinct counters are written as distinct numerals |
| JsNumber.TrimStart | index.js:71 | `parseInt` skips exactly the leading white space |
| JsNumber.DigitRun | index.js:71 | `parseInt` reads the longest run of digits |
| JsNumber.ParseIntOfNumeral | index.js:71 | `parseInt(String(n)) == n` |
| JsNumber.ParseIntOfNegativeNumeral | index.js:71 | `parseInt('-' + String(n)) == -n` |
| JsNumber.PositiveNumeral | index.js:71 | `parseInt(String(n)) > 0` exactly when `n > 0` |
| Text.Split | index.js:47 | `split` always yields at least one part, and no part contains the separator; with `SplitJoin`, this fixes the parts |
| Text.SplitJoin | index.js:47 | joining the parts of a split with the separator gives back the string |
| Text.JoinAppend | index.js:181 | joining two non-empty runs puts exactly one separator between them |
| Files.LastChars | index.js:167 | `substr(-k)` is the last `k` characters, or the whole of a shorter string |
| Files.DropLast | index.js:148 | `substr(0, length - k)` is the prefix without the last `k` characters, empty for a shorter string |
| Files.XmlTestMatchesSubstr | index.js:167 | the `.xml` test of the model is the source's `file.substr(-4) == '.xml'`, shorter names included |
| Files.XmlIffStem | index.js:167 | a name is read exactly when it is some stem followed by `.xml` |
| Files.OutputNameOfXml | index.js:136-148 | `stem.xml` is reported as `stem.html` |
| Files.OutputNameDropsDirectory | index.js:136-148 | only the last `\` segment names the report: `dir\stem.xml` gives `stem.html` |
| Files.MergeAppend | index.js:181 | one more result adds the separator and that result to the merged body |
| Report.ReportMenuOpensWithSummary | index.js:145-149 | a report's menu opens with the summary of the counts `parse` left and ends with the closing entry |
| Report.ReportMenuAfterPlaceholder | index.js:17-149 | from a menu holding one placeholder, the entry after the summary links the document's header |
| Report.ReportMenuAfterEmpty | index.js:157 | from an empty menu, `cleanMenu` writes over the header's entry, so no entry of the report links a header |
| Report.ConvertWellFormed | index.js:134-159 | a well-formed file is converted; the report is named after the file; the menu is the reset value, `menuID` has moved past every node and the counters are 0 |
| Report.ConvertedPage | index.js:147-149 | the report is header, the finished menu joined, the body `parse` returned, footer |
| Report.SecondReportLosesHeader | index.js:157 | as written: after one converted file, the next report has no header entry in its menu |
| Report.SecondReportKeepsHeader | index.js:157 | with the menu reset to the placeholder, the next report's second entry links its header |
| Report.SecondSummaryCountsOwnFile | index.js:128-131 | the counters restart with each report: the next summary counts that file's tests only |
| Report.ConvertNextStep | index.js:210-214 | one entry of the per-file mode adds a report named after a `.xml` entry and nothing otherwise |
| Report.ConvertEachWritesEveryXmlFile | index.js:210-214 | with every `.xml` entry well formed, each gets a report in directory order named after it, and the counters end at 0 |
| Report.ConvertEachStopsAtError | index.js:210-214 | after a throw no later entry is converted |
| Report.MergeFollowsFiles | index.js:166-174 | the merged loop's `allFiles` is exactly `MergedBodies`: for each `.xml` entry in directory order, the HTML of its document rendered with `menuID` where the earlier entries left it; the loop ends in the accumulated state |
| Report.MergedBodyAt | index.js:166-174 | the k-th merged result is the HTML of the k-th `.xml` entry, rendered with `menuID` moved past every node of the `.xml` entries before it |
| Report.ConvertedBody | index.js:142-149 | a converted well-formed file's report is the header, the menu its walk and `cleanMenu` leave, the HTML of its document rendered from the current `menuID`, and the footer; afterwards the menu is the reset one, `menuID` has moved past its nodes and the counters are 0 |
| Report.ConvertEachState | index.js:134-159 | the per-file mode writes one report per `.xml` entry and leaves the state untouched until the first one, then the reset menu, `menuID` past every `.xml` entry's nodes, and zero counters |
| Report.ConvertEachPages | index.js:134-159 | the k-th per-file report is exactly the page of the k-th `.xml` entry: its menu from the state `PerFileStart` gives (the starting state for the first, the reset menu, `menuID` past the earlier entries' nodes and zero counters after), then the k-th `MergedBodies` entry |
| Report.PerFileStartPrefix | index.js:134-159 | a later directory entry does not change the k-th `.xml` entry or the state it is converted from |
| Report.LastPerFilePage | index.js:142-149 | a trailing `.xml` entry's report is its menu from `PerFileStart` followed by its HTML rendered with `menuID` past every earlier `.xml` entry's nodes |
| Report.PerFilePagesHoldMergedResults | index.js:134-190 | from the same state, the k-th per-file report is the k-th entry's page whose body is exactly the k-th result the merged report joins |
| Report.MergeEachStopsAtError | index.js:166-174 | after a throw in the merged loop no later entry is parsed |
| Report.StepThroughAppends | index.js:166-174 | file after file, the menu is the starting menu followed by each file's entries numbered on, and `menuID` has advanced past all of them |
| Report.AccumulatedCounters | index.js:166-177 | over the merged loop, `failed` and `passed` add up every `.xml` file's failing and passing tests |
| Report.DocumentStep | index.js:39-123 | parsing one well-formed document appends its entries, moves `menuID` past its nodes and adds its counts |
| Report.ExportAllReport | index.js:161-190 | the merged report is named after the date; its menu is one summary of all files' counts, every file's entries numbered in one sequence, then the closing entry; its body joins `MergedBodies` with the separator; afterwards the menu is `[]` and the counters are 0 |
| Report.GenerateWritesReports | index.js:192-222 | one report in the merged mode, one per `.xml` entry (named after it, in directory order) otherwise |

## Left out

- Command-line parsing (commander, index.js:22-36) is left out. The input and output directories are not modelled, and `--single` is the `single` parameter.
- File-system calls are left out: reading, listing, writing, `existsSync` and `mkdirSync`. Each directory entry arrives with the document parsed from it, and reports are returned with their file name and without the output-directory prefix.
- XML parsing (xml2js) is left out. The parsed tree is the `JUnit` datatypes, with attribute values as strings. A `testsuites` element without `testsuite` children is the empty `Document`: the `for…in` at index.js:42 over `undefined` runs no iteration, and `Render([], st)` returns `Ok(ContainerClose)` with the state unchanged. A missing `testsuites` element, missing suite attributes, an `<error>` without a `message` attribute, and a parse error are not modelled.
- A `<testcase>` without attributes is not modelled: every `TestCase` has a name and a time. In the source, `test['$']['name']` throws at index.js:106, after `failed++` or `passed++` (index.js:98, index.js:101) has already counted the test. The model therefore never throws inside the test loop, and never leaves that extra count behind.
- A source-path property (index 2 of the first suite) without a `value` attribute is not modelled: every `Property` has a value string. In the source, `.toString()` throws at index.js:47.
- A positional property without any attributes is not modelled. In the source, `['$']` is undefined and the read throws at index.js:47, index.js:55, index.js:58 or index.js:65. The model throws only when the property is missing from the list altogether (`MissingProperty`).
- A suite without any `<properties>` element is treated like one with an empty property list: both throw in the source, and both stop the walk in the model.
- `system-err` text is modelled as a list of strings joined with commas. Element content that xml2js turns into objects is not modelled.
- Asynchronous ordering is left out. `convertSingleFileToHTML` runs its callbacks in the order reads complete; the model converts entries in directory order, one after another. An uncaught throw ends the run; pending writes are not modelled.
- `HTMLVars.HTMLHeader`/`HTMLFooter` are the `Chrome` parameter. The report date (`dateformat` of the clock) is the `generationDate` parameter.
- Logging and run-time measurement (console output, `startTime`/`endTime`) are left out.
- `menuID` and the counters are JavaScript numbers. They are modelled as unbounded naturals, which agree up to 2^53.
- Report.ConvertFile: the per-file lemmas hold for any value the menu is reset to. The class resets it to `[]` as written, and `Report.ConvertFileFixed` is the corrected definition.

## Findings

| source | as written | input that shows it | evidently intended | confidence | as-written member | corrected member |
|---|---|---|---|---|---|---|
| index.js:157 | after each report the menu is reset to `[]`, so the next file's header entry lands at index 0, where `cleanMenu` writes the summary over it | per-file mode, two well-formed `.xml` files: the second report's menu has no `head` entry | reset to the start-up menu `['TEMP']` (index.js:17), whose placeholder `cleanMenu` replaces | not executed | Report.SecondReportLosesHeader | Report.SecondReportKeepsHeader |
