/**
 * The two ways the generator turns a folder of result files into reports:
 * one report per `.xml` file (`convertSingleFileToHTML`), or every file in
 * one report (`exportAsOneFile`), and `generateFromFolder`, which picks one.
 * Reading and writing files is left out: each directory entry comes with the
 * document parsed from it, and the reports are returned instead of written.
 */
module Report {
  import opened Wrappers
  import opened Text
  import opened JUnit
  import opened Render
  import opened Files

  /** A directory entry and the document parsed from its contents. */
  datatype InputFile = InputFile(name: string, doc: Document)

  /** A report: where it is written, and its text. */
  datatype OutputFile = OutputFile(name: string, content: string)

  /** The fixed text around every report (`HTMLVars.HTMLHeader`, `HTMLVars.HTMLFooter`). */
  datatype Chrome = Chrome(header: string, footer: string)

  /** The menu at start-up: one placeholder, for `cleanMenu` to overwrite with the summary. */
  const InitialMenu: seq<string> := ["TEMP"]

  /** The module-level state at start-up. */
  const Start: Snapshot := Snapshot(InitialMenu, 0, 0, 0)

  /** A report's text: header, every menu entry, the rendered results, footer. */
  function Page(chrome: Chrome, menu: seq<string>, body: string): string
  {
    chrome.header + Join(menu, "") + body + chrome.footer
  }

  /** The menu of the report written after `parse` of `doc` from `st` and then `cleanMenu`. */
  function ReportMenu(doc: Document, st: Snapshot, generationDate: string): seq<string>
  {
    Cleaned(FinalState(doc, st), generationDate).menu
  }

  /** One file handled: the report, or the error thrown by `parse`; and the state left behind. */
  datatype Outcome = Outcome(result: Result<OutputFile, RenderError>, state: Snapshot)

  /**
   * `convertSingleFileToHTML` once the file is parsed: render, finish the
   * menu, build the page, then set the menu to `reset`. A throw from `parse`
   * skips everything after it.
   */
  function ConvertWith(file: InputFile, st: Snapshot, generationDate: string, chrome: Chrome,
                       reset: seq<string>): Outcome
  {
    var rendered := Render.Render(file.doc, st);
    match rendered.result
    case Err(e) => Outcome(Err(e), rendered.state)
    case Ok(body) =>
      var cleaned := Cleaned(rendered.state, generationDate);
      Outcome(Ok(OutputFile(OutputName(file.name), Page(chrome, cleaned.menu, body))), cleaned.(menu := reset))
  }

  /** As written: the menu is reset to the empty array (`menu = []`). */
  function ConvertFile(file: InputFile, st: Snapshot, generationDate: string, chrome: Chrome): Outcome
  {
    ConvertWith(file, st, generationDate, chrome, [])
  }

  /** As intended: the menu is reset to what it was at start-up, a placeholder for the summary. */
  function ConvertFileFixed(file: InputFile, st: Snapshot, generationDate: string, chrome: Chrome): Outcome
  {
    ConvertWith(file, st, generationDate, chrome, InitialMenu)
  }

  /** Reports written so far, the error that ended the run if any, and the state. */
  datatype Batch = Batch(written: seq<OutputFile>, failure: Option<RenderError>, state: Snapshot)

  /**
   * The per-file mode over the first `n` directory entries, in order: each
   * `.xml` entry is converted; a throw ends the run.
   */
  function ConvertEach(files: seq<InputFile>, n: nat, st: Snapshot, generationDate: string, chrome: Chrome,
                       reset: seq<string>): Batch
    requires n <= |files|
  {
    if n == 0 then Batch([], None, st)
    else ConvertNext(ConvertEach(files, n - 1, st, generationDate, chrome, reset), files[n - 1],
                     generationDate, chrome, reset)
  }

  /** One directory entry of the per-file mode: skipped after an error or when not `.xml`, converted otherwise. */
  function ConvertNext(prev: Batch, file: InputFile, generationDate: string, chrome: Chrome, reset: seq<string>): Batch
  {
    if prev.failure.Some? || !IsXml(file.name) then prev
    else
      var out := ConvertWith(file, prev.state, generationDate, chrome, reset);
      match out.result
      case Err(e) => Batch(prev.written, Some(e), out.state)
      case Ok(report) => Batch(prev.written + [report], None, out.state)
  }

  /** The rendered results collected so far, the error that ended the loop if any, and the state. */
  datatype Merge = Merge(results: seq<string>, failure: Option<RenderError>, state: Snapshot)

  /** The loop of `exportAsOneFile` over the first `n` directory entries: each `.xml` entry is rendered. */
  function MergeEach(files: seq<InputFile>, n: nat, st: Snapshot): Merge
    requires n <= |files|
  {
    if n == 0 then Merge([], None, st)
    else MergeNext(MergeEach(files, n - 1, st), files[n - 1])
  }

  /** One directory entry of the merged mode: skipped after an error or when not `.xml`, rendered otherwise. */
  function MergeNext(prev: Merge, file: InputFile): Merge
  {
    if prev.failure.Some? || !IsXml(file.name) then prev
    else
      var rendered := Render.Render(file.doc, prev.state);
      match rendered.result
      case Err(e) => Merge(prev.results, Some(e), rendered.state)
      case Ok(body) => Merge(prev.results + [body], None, rendered.state)
  }

  /** `exportAsOneFile`: every result file rendered, one menu finished, one report named after the date. */
  function ExportAll(files: seq<InputFile>, st: Snapshot, generationDate: string, chrome: Chrome): Outcome
  {
    var merged := MergeEach(files, |files|, st);
    match merged.failure
    case Some(e) => Outcome(Err(e), merged.state)
    case None =>
      var cleaned := Cleaned(merged.state, generationDate);
      var page := Page(chrome, cleaned.menu, MergeResults(merged.results));
      Outcome(Ok(OutputFile(MergedName(generationDate), page)), cleaned.(menu := []))
  }

  /** `generateFromFolder` once the directory is listed: one merged report, or one report per file. */
  function Generate(files: seq<InputFile>, single: bool, st: Snapshot, generationDate: string, chrome: Chrome): Batch
  {
    if single then
      var out := ExportAll(files, st, generationDate, chrome);
      match out.result
      case Ok(report) => Batch([report], None, out.state)
      case Err(e) => Batch([], Some(e), out.state)
    else ConvertEach(files, |files|, st, generationDate, chrome, [])
  }

  // ---------------------------------------------------------------------------
  // One file

  /** A report's menu opens with the summary of the counters as `parse` left them. */
  lemma ReportMenuOpensWithSummary(doc: Document, st: Snapshot, generationDate: string)
    ensures var fin := FinalState(doc, st);
            |ReportMenu(doc, st, generationDate)| >= 2
            && ReportMenu(doc, st, generationDate)[0] == Summary(generationDate, fin.failed, fin.passed)
            && ReportMenu(doc, st, generationDate)[|ReportMenu(doc, st, generationDate)| - 1] == MenuClose
  {
    CleanedShape(FinalState(doc, st), generationDate);
  }

  /** From a menu holding one placeholder, the entry after the summary links the document's header. */
  lemma ReportMenuAfterPlaceholder(doc: Document, st: Snapshot, generationDate: string)
    requires WellFormed(doc) && |doc| > 0 && |st.menu| == 1
    ensures |ReportMenu(doc, st, generationDate)| > 1
    ensures ReportMenu(doc, st, generationDate)[1] == MenuEntry(HeadNode(doc[0]), st.menuID)
    ensures IsHeaderEntry(ReportMenu(doc, st, generationDate)[1])
  {
    hide MenuEntry, HeadHtml, SubOpening, CaseFragment, Summary;
    var fin := FinalState(doc, st);
    var entries := Entries(Nodes(doc), st.menuID);
    assert |fin.menu| > 0 && fin.menu[1..] == entries by {
      FinalMenuAfterPlaceholder(doc, st);
    }
    assert |entries| > 0 && entries[0] == MenuEntry(HeadNode(doc[0]), st.menuID) by {
      OnlyFirstNodeIsHeader(doc);
      EntryAt(Nodes(doc), st.menuID, 0);
    }
    CleanedShape(fin, generationDate);
    HeaderEntryIffHead(HeadNode(doc[0]), st.menuID);
  }

  /** A menu framed by two entries that link no header links no header when its middle links none. */
  lemma FramedWithoutHeaders(first: string, middle: seq<string>, last: string)
    requires !IsHeaderEntry(first) && !IsHeaderEntry(last)
    requires forall k | 0 <= k < |middle| :: !IsHeaderEntry(middle[k])
    ensures forall k | 0 <= k < |[first] + middle + [last]| :: !IsHeaderEntry(([first] + middle + [last])[k])
  {
    var menu := [first] + middle + [last];
    forall k | 0 <= k < |menu| ensures !IsHeaderEntry(menu[k]) {
      if k == 0 {
        assert menu[k] == first;
      } else if k == |menu| - 1 {
        assert menu[k] == last;
      } else {
        assert menu[k] == middle[k - 1];
      }
    }
  }

  /** From an empty menu, `cleanMenu` overwrites the header's entry: no entry links a header. */
  lemma ReportMenuAfterEmpty(doc: Document, st: Snapshot, generationDate: string)
    requires WellFormed(doc) && |doc| > 0 && st.menu == []
    ensures forall k | 0 <= k < |ReportMenu(doc, st, generationDate)| :: !IsHeaderEntry(ReportMenu(doc, st, generationDate)[k])
  {
    hide MenuEntry, HeadHtml, SubOpening, CaseFragment, Summary;
    var fin := FinalState(doc, st);
    var rest := Nodes(doc)[1..];
    var middle := Entries(rest, st.menuID + 1);
    var summary := Summary(generationDate, fin.failed, fin.passed);
    assert ReportMenu(doc, st, generationDate) == [summary] + middle + [MenuClose] by {
      FinalMenuAfterEmpty(doc, st);
      CleanedShape(fin, generationDate);
    }
    assert forall k | 0 <= k < |middle| :: !IsHeaderEntry(middle[k]) by {
      assert forall k | 0 <= k < |rest| :: !rest[k].HeadNode? by {
        OnlyFirstNodeIsHeader(doc);
      }
      EntriesWithoutHeaders(rest, st.menuID + 1);
    }
    SummaryAndCloseAreNotHeaders(generationDate, fin.failed, fin.passed);
    FramedWithoutHeaders(summary, middle, MenuClose);
  }

  /**
   * A well-formed file is converted: the report is named after the file,
   * the menu is set to `reset`, the anchor counter has moved past every node
   * and the pass/fail counters are back at zero.
   */
  lemma ConvertWellFormed(file: InputFile, st: Snapshot, generationDate: string, chrome: Chrome, reset: seq<string>)
    requires WellFormed(file.doc)
    ensures var out := ConvertWith(file, st, generationDate, chrome, reset);
            && out.result.Ok?
            && out.result.value.name == OutputName(file.name)
            && out.state == Snapshot(reset, st.menuID + |file.doc| + TotalCases(file.doc), 0, 0)
  {
    hide MenuEntry, HeadHtml, SubOpening, CaseFragment, Summary;
    RenderWellFormed(file.doc, st);
    FinalCounters(file.doc, st);
  }

  /** The report of a converted file shows the menu `ReportMenu` describes. */
  lemma ConvertedPage(file: InputFile, st: Snapshot, generationDate: string, chrome: Chrome, reset: seq<string>)
    requires WellFormed(file.doc)
    ensures var out := ConvertWith(file, st, generationDate, chrome, reset);
            && out.result.Ok?
            && out.result.value.content
               == Page(chrome, ReportMenu(file.doc, st, generationDate), Render.Render(file.doc, st).result.value)
  {
    RenderWellFormed(file.doc, st);
  }

  // ---------------------------------------------------------------------------
  // The per-file mode: what the second report shows

  /**
   * As written, every report after the first loses its header's menu entry:
   * the menu was reset to `[]`, so the header's entry sits at index 0 and
   * `cleanMenu` writes the summary over it.
   */
  lemma SecondReportLosesHeader(first: InputFile, second: InputFile, st: Snapshot, generationDate: string,
                                chrome: Chrome)
    requires WellFormed(first.doc) && WellFormed(second.doc) && |second.doc| > 0
    ensures var mid := ConvertFile(first, st, generationDate, chrome).state;
            forall k | 0 <= k < |ReportMenu(second.doc, mid, generationDate)|
              :: !IsHeaderEntry(ReportMenu(second.doc, mid, generationDate)[k])
  {
    var mid := ConvertFile(first, st, generationDate, chrome).state;
    assert mid.menu == [] by {
      ConvertWellFormed(first, st, generationDate, chrome, []);
    }
    ReportMenuAfterEmpty(second.doc, mid, generationDate);
  }

  /** With the menu reset to the placeholder, the second report keeps its header's entry. */
  lemma SecondReportKeepsHeader(first: InputFile, second: InputFile, st: Snapshot, generationDate: string,
                                chrome: Chrome)
    requires WellFormed(first.doc) && WellFormed(second.doc) && |second.doc| > 0
    ensures var mid := ConvertFileFixed(first, st, generationDate, chrome).state;
            && |ReportMenu(second.doc, mid, generationDate)| > 1
            && ReportMenu(second.doc, mid, generationDate)[1] == MenuEntry(HeadNode(second.doc[0]), mid.menuID)
            && IsHeaderEntry(ReportMenu(second.doc, mid, generationDate)[1])
  {
    var mid := ConvertFileFixed(first, st, generationDate, chrome).state;
    assert mid.menu == InitialMenu by {
      ConvertWellFormed(first, st, generationDate, chrome, InitialMenu);
    }
    ReportMenuAfterPlaceholder(second.doc, mid, generationDate);
  }

  /**
   * The pass/fail counters restart with every report: the second report's
   * summary counts the second file's cases only.
   */
  lemma SecondSummaryCountsOwnFile(first: InputFile, second: InputFile, st: Snapshot, generationDate: string,
                                   chrome: Chrome, reset: seq<string>)
    requires WellFormed(first.doc) && WellFormed(second.doc)
    ensures var mid := ConvertWith(first, st, generationDate, chrome, reset).state;
            ReportMenu(second.doc, mid, generationDate)[0]
            == Summary(generationDate, FailingCases(second.doc), PassingCases(second.doc))
  {
    hide MenuEntry, HeadHtml, SubOpening, CaseFragment, Summary;
    var mid := ConvertWith(first, st, generationDate, chrome, reset).state;
    assert mid.failed == 0 && mid.passed == 0 by {
      ConvertWellFormed(first, st, generationDate, chrome, reset);
    }
    var fin := FinalState(second.doc, mid);
    assert fin.failed == FailingCases(second.doc) && fin.passed == PassingCases(second.doc) by {
      FinalCounters(second.doc, mid);
    }
    ReportMenuOpensWithSummary(second.doc, mid, generationDate);
  }

  // ---------------------------------------------------------------------------
  // Whole folders

  /** The `.xml` entries among the first `n`, in directory order. */
  function XmlEntries(files: seq<InputFile>, n: nat): seq<InputFile>
    requires n <= |files|
  {
    if n == 0 then []
    else XmlEntries(files, n - 1) + (if IsXml(files[n - 1].name) then [files[n - 1]] else [])
  }

  /** Every `.xml` entry among the first `n` holds a well-formed document. */
  predicate XmlWellFormed(files: seq<InputFile>, n: nat)
    requires n <= |files|
  {
    forall k | 0 <= k < n :: IsXml(files[k].name) ==> WellFormed(files[k].doc)
  }

  /** The names of the reports, in order. */
  function Names(reports: seq<OutputFile>): seq<string>
  {
    if |reports| == 0 then [] else Names(reports[..|reports| - 1]) + [reports[|reports| - 1].name]
  }

  /** The report names the `.xml` entries among the first `n` call for. */
  function ReportNames(files: seq<InputFile>, n: nat): seq<string>
    requires n <= |files|
  {
    if n == 0 then []
    else ReportNames(files, n - 1) + (if IsXml(files[n - 1].name) then [OutputName(files[n - 1].name)] else [])
  }

  /** Naming one more report adds its name at the end. */
  lemma NamesAppend(reports: seq<OutputFile>, report: OutputFile)
    ensures Names(reports + [report]) == Names(reports) + [report.name]
  {
    assert (reports + [report])[..|reports|] == reports;
  }

  /** One entry of the per-file mode, when the run has not failed and a `.xml` entry is well formed. */
  lemma ConvertNextStep(prev: Batch, file: InputFile, generationDate: string, chrome: Chrome, reset: seq<string>)
    requires prev.failure.None? && (IsXml(file.name) ==> WellFormed(file.doc))
    ensures var next := ConvertNext(prev, file, generationDate, chrome, reset);
            && next.failure.None?
            && Names(next.written) == Names(prev.written) + (if IsXml(file.name) then [OutputName(file.name)] else [])
            && (IsXml(file.name) ==> next.state.menu == reset && next.state.failed == 0 && next.state.passed == 0)
            && (!IsXml(file.name) ==> next.state == prev.state)
  {
    if IsXml(file.name) {
      var out := ConvertWith(file, prev.state, generationDate, chrome, reset);
      ConvertWellFormed(file, prev.state, generationDate, chrome, reset);
      NamesAppend(prev.written, out.result.value);
    }
  }

  /**
   * In the per-file mode, when every `.xml` entry is well formed, each of
   * them gets a report, in directory order, named after it; after the first
   * one the menu is `reset` and the pass/fail counters are zero.
   */
  lemma {:induction false} ConvertEachWritesEveryXmlFile(files: seq<InputFile>, n: nat, st: Snapshot,
                                                         generationDate: string, chrome: Chrome, reset: seq<string>)
    requires n <= |files| && XmlWellFormed(files, n)
    ensures var batch := ConvertEach(files, n, st, generationDate, chrome, reset);
            && batch.failure.None?
            && Names(batch.written) == ReportNames(files, n)
            && (|XmlEntries(files, n)| > 0 ==> batch.state.menu == reset && batch.state.failed == 0 && batch.state.passed == 0)
    decreases n
  {
    if n > 0 {
      ConvertEachWritesEveryXmlFile(files, n - 1, st, generationDate, chrome, reset);
      ConvertNextStep(ConvertEach(files, n - 1, st, generationDate, chrome, reset), files[n - 1],
                      generationDate, chrome, reset);
    }
  }

  /** Once a file has thrown, the later entries change nothing: no report is written after the error. */
  lemma {:induction false} ConvertEachStopsAtError(files: seq<InputFile>, k: nat, n: nat, st: Snapshot,
                                                   generationDate: string, chrome: Chrome, reset: seq<string>)
    requires k <= n <= |files|
    requires ConvertEach(files, k, st, generationDate, chrome, reset).failure.Some?
    ensures ConvertEach(files, n, st, generationDate, chrome, reset) == ConvertEach(files, k, st, generationDate, chrome, reset)
    decreases n
  {
    if n > k {
      ConvertEachStopsAtError(files, k, n - 1, st, generationDate, chrome, reset);
    }
  }

  /**
   * The state the per-file mode converts the k-th `.xml` entry among the
   * first `n` from: `st` for the first; after that the reset menu, the anchor
   * counter past the nodes of the earlier entries, and zero counts.
   */
  function PerFileStart(files: seq<InputFile>, n: nat, k: nat, st: Snapshot, reset: seq<string>): Snapshot
    requires n <= |files| && k <= |XmlEntries(files, n)|
  {
    if k == 0 then st else Snapshot(reset, st.menuID + Advance(XmlEntries(files, n), k, FileCount), 0, 0)
  }

  /** A converted well-formed file's report: its menu, then the HTML of its document rendered from the current counter. */
  lemma ConvertedBody(file: InputFile, st: Snapshot, generationDate: string, chrome: Chrome, reset: seq<string>)
    requires WellFormed(file.doc)
    ensures var out := ConvertWith(file, st, generationDate, chrome, reset);
            && out.result.Ok?
            && out.result.value.content
               == Page(chrome, ReportMenu(file.doc, st, generationDate), Html(file.doc, st.menuID))
            && out.state == Snapshot(reset, st.menuID + |Nodes(file.doc)|, 0, 0)
  {
    hide MenuEntry, HeadHtml, SubOpening, CaseFragment, Summary, Html;
    ConvertedPage(file, st, generationDate, chrome, reset);
    RenderedHtml(file.doc, st);
    ConvertWellFormed(file, st, generationDate, chrome, reset);
    NodeCount(file.doc);
  }

  /**
   * The state the per-file mode leaves: untouched until the first `.xml`
   * entry; after one, the reset menu, the counter past every node of the
   * `.xml` entries, and zero counts. One report per `.xml` entry.
   */
  lemma {:induction false} ConvertEachState(files: seq<InputFile>, n: nat, st: Snapshot,
                                            generationDate: string, chrome: Chrome, reset: seq<string>)
    requires n <= |files| && XmlWellFormed(files, n)
    ensures var batch := ConvertEach(files, n, st, generationDate, chrome, reset);
            && batch.failure.None?
            && |batch.written| == |XmlEntries(files, n)|
            && batch.state == (if |XmlEntries(files, n)| == 0 then st
                               else Snapshot(reset, st.menuID + MergedCount(files, n), 0, 0))
    decreases n
  {
    hide MenuEntry, HeadHtml, SubOpening, CaseFragment, Summary, Html, ConvertWith, Nodes;
    if n > 0 {
      var file := files[n - 1];
      var prev := ConvertEach(files, n - 1, st, generationDate, chrome, reset);
      ConvertEachState(files, n - 1, st, generationDate, chrome, reset);
      MergedCountOfXml(files, n - 1);
      if IsXml(file.name) {
        ConvertedBody(file, prev.state, generationDate, chrome, reset);
      } else {
        assert XmlEntries(files, n) == XmlEntries(files, n - 1) + [];
      }
    }
  }

  /**
   * The per-file mode writes one report per `.xml` entry, in directory
   * order. The k-th report is the menu that entry's walk and `cleanMenu`
   * leave from `PerFileStart`, followed by the k-th merged result: both modes
   * render the same HTML for a file, because `cleanMenu` and the menu reset
   * keep the anchor counter.
   */
  lemma {:induction false} ConvertEachPages(files: seq<InputFile>, n: nat, st: Snapshot,
                                            generationDate: string, chrome: Chrome, reset: seq<string>)
    requires n <= |files| && XmlWellFormed(files, n)
    ensures var written := ConvertEach(files, n, st, generationDate, chrome, reset).written;
            var xml := XmlEntries(files, n);
            var bodies := MergedBodies(files, n, st.menuID);
            && |written| == |xml| && |bodies| == |xml|
            && forall k | 0 <= k < |xml| ::
                 written[k].content
                 == Page(chrome, ReportMenu(xml[k].doc, PerFileStart(files, n, k, st, reset), generationDate), bodies[k])
    decreases n
  {
    hide MenuEntry, HeadHtml, SubOpening, CaseFragment, Summary, Html, ConvertWith, Nodes, Page, ReportMenu,
         PerFileStart;
    ConvertEachState(files, n, st, generationDate, chrome, reset);
    MergedBodiesLength(files, n, st.menuID);
    if n > 0 {
      var file := files[n - 1];
      var prev := ConvertEach(files, n - 1, st, generationDate, chrome, reset);
      var xml := XmlEntries(files, n - 1);
      var bodies := MergedBodies(files, n - 1, st.menuID);
      ConvertEachPages(files, n - 1, st, generationDate, chrome, reset);
      if IsXml(file.name) {
        var report := ConvertWith(file, prev.state, generationDate, chrome, reset).result.value;
        var body := Html(file.doc, st.menuID + MergedCount(files, n - 1));
        assert ConvertEach(files, n, st, generationDate, chrome, reset).written == prev.written + [report];
        assert XmlEntries(files, n) == xml + [file];
        assert MergedBodies(files, n, st.menuID) == bodies + [body];
        forall k | 0 <= k < |xml| + 1
          ensures (prev.written + [report])[k].content
                  == Page(chrome, ReportMenu((xml + [file])[k].doc, PerFileStart(files, n, k, st, reset), generationDate),
                          (bodies + [body])[k])
        {
          if k < |xml| {
            PerFileStartPrefix(files, n, k, st, reset);
          } else {
            LastPerFilePage(files, n, st, generationDate, chrome, reset);
          }
        }
      } else {
        assert XmlEntries(files, n) == xml + [];
        assert MergedBodies(files, n, st.menuID) == bodies + [];
        forall k | 0 <= k < |xml|
          ensures PerFileStart(files, n, k, st, reset) == PerFileStart(files, n - 1, k, st, reset)
        {
          PerFileStartPrefix(files, n, k, st, reset);
        }
      }
    }
  }

  /** An entry after the k-th `.xml` one does not change the state the k-th is converted from. */
  lemma PerFileStartPrefix(files: seq<InputFile>, n: nat, k: nat, st: Snapshot, reset: seq<string>)
    requires 0 < n <= |files| && k < |XmlEntries(files, n - 1)|
    ensures k < |XmlEntries(files, n)|
    ensures XmlEntries(files, n)[k] == XmlEntries(files, n - 1)[k]
    ensures PerFileStart(files, n, k, st, reset) == PerFileStart(files, n - 1, k, st, reset)
  {
    var xml := XmlEntries(files, n - 1);
    var added := if IsXml(files[n - 1].name) then [files[n - 1]] else [];
    assert XmlEntries(files, n) == xml + added;
    AdvancePrefix(xml, added, k, FileCount);
  }

  /** The report of the last entry, when it is `.xml`: its menu from `PerFileStart`, then its merged result. */
  lemma LastPerFilePage(files: seq<InputFile>, n: nat, st: Snapshot, generationDate: string, chrome: Chrome,
                        reset: seq<string>)
    requires 0 < n <= |files| && XmlWellFormed(files, n) && IsXml(files[n - 1].name)
    ensures var file := files[n - 1];
            var k := |XmlEntries(files, n - 1)|;
            var prev := ConvertEach(files, n - 1, st, generationDate, chrome, reset);
            && k < |XmlEntries(files, n)|
            && ConvertWith(file, prev.state, generationDate, chrome, reset).result.Ok?
            && ConvertWith(file, prev.state, generationDate, chrome, reset).result.value.content
               == Page(chrome, ReportMenu(file.doc, PerFileStart(files, n, k, st, reset), generationDate),
                       Html(file.doc, st.menuID + MergedCount(files, n - 1)))
  {
    hide MenuEntry, HeadHtml, SubOpening, CaseFragment, Summary, Html, ConvertWith, Nodes, Page, ReportMenu,
         ConvertEach;
    var file := files[n - 1];
    var xml := XmlEntries(files, n - 1);
    var prev := ConvertEach(files, n - 1, st, generationDate, chrome, reset);
    assert XmlEntries(files, n) == xml + [file];
    ConvertEachState(files, n - 1, st, generationDate, chrome, reset);
    MergedCountOfXml(files, n - 1);
    AdvancePrefix(xml, [file], |xml|, FileCount);
    ConvertedBody(file, prev.state, generationDate, chrome, reset);
  }

  /**
   * From the same state, the k-th report of the per-file mode holds, after
   * its own menu, exactly the k-th result that the merged mode joins.
   */
  lemma PerFilePagesHoldMergedResults(files: seq<InputFile>, st: Snapshot, generationDate: string, chrome: Chrome,
                                      reset: seq<string>)
    requires XmlWellFormed(files, |files|)
    ensures var written := ConvertEach(files, |files|, st, generationDate, chrome, reset).written;
            var results := MergeEach(files, |files|, st).results;
            var xml := XmlEntries(files, |files|);
            && |written| == |xml| && |results| == |xml|
            && forall k | 0 <= k < |xml| ::
                 written[k].content
                 == Page(chrome, ReportMenu(xml[k].doc, PerFileStart(files, |files|, k, st, reset), generationDate),
                         results[k])
  {
    hide MenuEntry, HeadHtml, SubOpening, CaseFragment, Summary, Html, ConvertWith, Nodes, Page, ReportMenu,
         PerFileStart, MergedBodies, ConvertEach, MergeEach;
    ConvertEachPages(files, |files|, st, generationDate, chrome, reset);
    MergeFollowsFiles(files, |files|, st);
  }

  /** The menu entries a directory entry contributes, numbered from `id`: its document's nodes when it is `.xml`. */
  function FileEntries(file: InputFile, id: nat): seq<string>
  {
    if IsXml(file.name) then Entries(Nodes(file.doc), id) else []
  }

  /** How far a directory entry moves the anchor counter: one step per node of an `.xml` file's document. */
  function FileCount(file: InputFile): nat
  {
    if IsXml(file.name) then |Nodes(file.doc)| else 0
  }

  /** Failing cases a directory entry contributes. */
  function FileFailing(file: InputFile): nat
  {
    if IsXml(file.name) then FailingCases(file.doc) else 0
  }

  /** Passing cases a directory entry contributes. */
  function FilePassing(file: InputFile): nat
  {
    if IsXml(file.name) then PassingCases(file.doc) else 0
  }

  /** The sum of `amount` over the first `n` items. */
  function Advance<T>(items: seq<T>, n: nat, amount: T -> nat): nat
    requires n <= |items|
  {
    if n == 0 then 0 else Advance(items, n - 1, amount) + amount(items[n - 1])
  }

  /** The entries of the first `n` items, item after item, each numbered on from where the previous stopped. */
  function Chained<T>(items: seq<T>, n: nat, id: nat, entries: (T, nat) -> seq<string>, count: T -> nat): seq<string>
    requires n <= |items|
  {
    if n == 0 then [] else Chained(items, n - 1, id, entries, count) + entries(items[n - 1], id + Advance(items, n - 1, count))
  }

  /** The state after `step` has taken in the first `n` items, one after another. */
  function StepThrough<T>(items: seq<T>, n: nat, st: Snapshot, step: (Snapshot, T) -> Snapshot): Snapshot
    requires n <= |items|
  {
    if n == 0 then st else step(StepThrough(items, n - 1, st, step), items[n - 1])
  }

  /** `step` appends an item's entries, numbered from the anchor counter, and moves the counter past them. */
  ghost predicate Appends<T(!new)>(step: (Snapshot, T) -> Snapshot, entries: (T, nat) -> seq<string>, count: T -> nat)
  {
    forall s: Snapshot, t: T :: step(s, t).menu == s.menu + entries(t, s.menuID) && step(s, t).menuID == s.menuID + count(t)
  }

  /** A step that appends leaves the starting menu followed by the chained entries, and the counter past all of them. */
  lemma {:induction false} StepThroughAppends<T(!new)>(items: seq<T>, n: nat, st: Snapshot, step: (Snapshot, T) -> Snapshot,
                                                 entries: (T, nat) -> seq<string>, count: T -> nat)
    requires n <= |items| && Appends(step, entries, count)
    ensures StepThrough(items, n, st, step).menu == st.menu + Chained(items, n, st.menuID, entries, count)
    ensures StepThrough(items, n, st, step).menuID == st.menuID + Advance(items, n, count)
    decreases n
  {
    if n == 0 {
      assert st.menu + [] == st.menu;
    } else {
      var prev := StepThrough(items, n - 1, st, step);
      var earlier := Chained(items, n - 1, st.menuID, entries, count);
      var added := entries(items[n - 1], prev.menuID);
      StepThroughAppends(items, n - 1, st, step, entries, count);
      assert StepThrough(items, n, st, step).menu == prev.menu + added;
      AppendAssociates(st.menu, earlier, added);
    }
  }

  /** How far the first `n` entries move the anchor counter. */
  function MergedCount(files: seq<InputFile>, n: nat): nat
    requires n <= |files|
  {
    Advance(files, n, FileCount)
  }

  /** The merged menu of the first `n` entries: file after file, each numbered on from where the previous stopped. */
  function MergedMenu(files: seq<InputFile>, n: nat, id: nat): seq<string>
    requires n <= |files|
  {
    Chained(files, n, id, FileEntries, FileCount)
  }

  /** Failing cases of the `.xml` entries among the first `n`. */
  function MergedFailing(files: seq<InputFile>, n: nat): nat
    requires n <= |files|
  {
    Advance(files, n, FileFailing)
  }

  /** Passing cases of the `.xml` entries among the first `n`. */
  function MergedPassing(files: seq<InputFile>, n: nat): nat
    requires n <= |files|
  {
    Advance(files, n, FilePassing)
  }

  /**
   * The HTML of the `.xml` entries among the first `n`, in directory order,
   * each rendered with the anchor counter moved from `id` past the nodes of
   * the entries before it.
   */
  function MergedBodies(files: seq<InputFile>, n: nat, id: nat): seq<string>
    requires n <= |files|
  {
    if n == 0 then []
    else MergedBodies(files, n - 1, id)
         + (if IsXml(files[n - 1].name) then [Html(files[n - 1].doc, id + MergedCount(files, n - 1))] else [])
  }

  /** One rendered result per `.xml` entry. */
  lemma {:induction false} MergedBodiesLength(files: seq<InputFile>, n: nat, id: nat)
    requires n <= |files|
    ensures |MergedBodies(files, n, id)| == |XmlEntries(files, n)|
    decreases n
  {
    hide Html;
    if n > 0 {
      MergedBodiesLength(files, n - 1, id);
    }
  }

  /** A sum over the first `k` items does not look past them. */
  lemma {:induction false} AdvancePrefix<T>(a: seq<T>, b: seq<T>, k: nat, amount: T -> nat)
    requires k <= |a|
    ensures Advance(a + b, k, amount) == Advance(a, k, amount)
    decreases k
  {
    if k > 0 {
      AdvancePrefix(a, b, k - 1, amount);
      assert (a + b)[k - 1] == a[k - 1];
    }
  }

  /** The counter moves by the nodes of the `.xml` entries alone. */
  lemma {:induction false} MergedCountOfXml(files: seq<InputFile>, n: nat)
    requires n <= |files|
    ensures MergedCount(files, n) == Advance(XmlEntries(files, n), |XmlEntries(files, n)|, FileCount)
    decreases n
  {
    if n > 0 {
      var xml := XmlEntries(files, n - 1);
      MergedCountOfXml(files, n - 1);
      if IsXml(files[n - 1].name) {
        AdvancePrefix(xml, [files[n - 1]], |xml|, FileCount);
        assert (xml + [files[n - 1]])[|xml|] == files[n - 1];
      } else {
        assert XmlEntries(files, n) == xml;
      }
    }
  }

  /**
   * The k-th merged result is the HTML of the k-th `.xml` entry, rendered
   * with the counter moved past every node of the `.xml` entries before it.
   */
  lemma {:induction false} MergedBodyAt(files: seq<InputFile>, n: nat, id: nat, k: nat)
    requires n <= |files| && k < |XmlEntries(files, n)|
    ensures |MergedBodies(files, n, id)| == |XmlEntries(files, n)|
    ensures MergedBodies(files, n, id)[k]
            == Html(XmlEntries(files, n)[k].doc, id + Advance(XmlEntries(files, n), k, FileCount))
    decreases n
  {
    hide Html;
    MergedBodiesLength(files, n, id);
    MergedBodiesLength(files, n - 1, id);
    var xml := XmlEntries(files, n - 1);
    var file := files[n - 1];
    if !IsXml(file.name) {
      assert XmlEntries(files, n) == xml;
      MergedBodyAt(files, n - 1, id, k);
    } else {
      assert XmlEntries(files, n) == xml + [file];
      AdvancePrefix(xml, [file], k, FileCount);
      if k < |xml| {
        MergedBodyAt(files, n - 1, id, k);
      } else {
        MergedCountOfXml(files, n - 1);
      }
    }
  }

  /** The state after `parse` of a directory entry's document, computed from its nodes and cases. */
  function AfterFile(st: Snapshot, file: InputFile): Snapshot
  {
    Snapshot(st.menu + FileEntries(file, st.menuID), st.menuID + FileCount(file),
             st.passed + FilePassing(file), st.failed + FileFailing(file))
  }

  /** The state after the first `n` entries, file after file. */
  function Accumulated(files: seq<InputFile>, n: nat, st: Snapshot): Snapshot
    requires n <= |files|
  {
    StepThrough(files, n, st, AfterFile)
  }

  /** Parsing one well-formed document appends its entries, moves the anchor counter past its nodes and adds its counts. */
  lemma DocumentStep(doc: Document, st: Snapshot)
    requires WellFormed(doc)
    ensures var r := Render.Render(doc, st);
            && r.result.Ok?
            && r.state.menu == st.menu + Entries(Nodes(doc), st.menuID)
            && r.state.menuID == st.menuID + |Nodes(doc)|
            && r.state.failed == st.failed + FailingCases(doc)
            && r.state.passed == st.passed + PassingCases(doc)
  {
    RenderWellFormed(doc, st);
    FinalStateLayout(doc, st);
    NodeCount(doc);
  }

  /** One entry of the merged mode, when the run has not failed and a `.xml` entry is well formed. */
  lemma MergeNextStep(prev: Merge, file: InputFile)
    requires prev.failure.None? && (IsXml(file.name) ==> WellFormed(file.doc))
    ensures var next := MergeNext(prev, file);
            && next.failure.None?
            && next.results == prev.results + (if IsXml(file.name) then [Html(file.doc, prev.state.menuID)] else [])
            && next.state == AfterFile(prev.state, file)
  {
    hide MenuEntry, HeadHtml, SubOpening, CaseFragment, Summary, Html;
    if IsXml(file.name) {
      var rendered := Render.Render(file.doc, prev.state);
      assert rendered.result.Ok? && rendered.state == AfterFile(prev.state, file) by {
        DocumentStep(file.doc, prev.state);
      }
      RenderedHtml(file.doc, prev.state);
    } else {
      assert prev.state.menu + [] == prev.state.menu;
      assert prev.results + [] == prev.results;
    }
  }

  /**
   * The loop of the merged mode keeps, for each `.xml` file in directory
   * order, the HTML of its document rendered with the anchor counter the
   * earlier files left, and reaches the accumulated state.
   */
  lemma {:induction false} MergeFollowsFiles(files: seq<InputFile>, n: nat, st: Snapshot)
    requires n <= |files| && XmlWellFormed(files, n)
    ensures MergeEach(files, n, st).failure.None?
    ensures MergeEach(files, n, st).results == MergedBodies(files, n, st.menuID)
    ensures MergeEach(files, n, st).state == Accumulated(files, n, st)
    decreases n
  {
    hide MenuEntry, HeadHtml, SubOpening, CaseFragment, Summary, Html;
    if n > 0 {
      var prev := MergeEach(files, n - 1, st);
      var file := files[n - 1];
      assert prev.failure.None? && prev.results == MergedBodies(files, n - 1, st.menuID)
             && prev.state == Accumulated(files, n - 1, st) by {
        MergeFollowsFiles(files, n - 1, st);
      }
      assert prev.state.menuID == st.menuID + MergedCount(files, n - 1) by {
        AccumulatedCounters(files, n - 1, st);
      }
      MergeNextStep(prev, file);
    }
  }

  /** Once a document has thrown in the merged mode, later entries change nothing. */
  lemma {:induction false} MergeEachStopsAtError(files: seq<InputFile>, k: nat, n: nat, st: Snapshot)
    requires k <= n <= |files|
    requires MergeEach(files, k, st).failure.Some?
    ensures MergeEach(files, n, st) == MergeEach(files, k, st)
    decreases n
  {
    if n > k {
      MergeEachStopsAtError(files, k, n - 1, st);
    }
  }

  /** `parse` of a directory entry appends the entry's menu entries and moves the anchor counter past them. */
  lemma AfterFileAppends()
    ensures Appends(AfterFile, FileEntries, FileCount)
  {
  }

  /** The accumulated counters add up every `.xml` file's nodes, failing cases and passing cases. */
  lemma {:induction false} AccumulatedCounters(files: seq<InputFile>, n: nat, st: Snapshot)
    requires n <= |files|
    ensures Accumulated(files, n, st).menuID == st.menuID + MergedCount(files, n)
    ensures Accumulated(files, n, st).failed == st.failed + MergedFailing(files, n)
    ensures Accumulated(files, n, st).passed == st.passed + MergedPassing(files, n)
    decreases n
  {
    if n > 0 {
      AccumulatedCounters(files, n - 1, st);
    }
  }

  /**
   * The merged report, from a menu holding one placeholder: named after the
   * date, its menu is one summary of every file's cases, every file's
   * entries numbered in one sequence, and the closing entry; afterwards the
   * menu is empty and the counters are zero.
   */
  lemma ExportAllReport(files: seq<InputFile>, st: Snapshot, generationDate: string, chrome: Chrome)
    requires XmlWellFormed(files, |files|) && |st.menu| == 1 && st.failed == 0 && st.passed == 0
    ensures var out := ExportAll(files, st, generationDate, chrome);
            && out.result.Ok?
            && out.result.value.name == MergedName(generationDate)
            && out.result.value.content
               == Page(chrome,
                       [Summary(generationDate, MergedFailing(files, |files|), MergedPassing(files, |files|))]
                       + MergedMenu(files, |files|, st.menuID) + [MenuClose],
                       MergeResults(MergedBodies(files, |files|, st.menuID)))
            && out.state == Snapshot([], st.menuID + MergedCount(files, |files|), 0, 0)
  {
    hide MenuEntry, HeadHtml, SubOpening, CaseFragment, Summary, Html, MergedBodies, MergeEach, MergedMenu,
         Cleaned, Page, MergeResults, MergedFailing, MergedPassing, MergedCount, MenuClose;
    var merged := MergeEach(files, |files|, st);
    var entries := MergedMenu(files, |files|, st.menuID);
    MergedLoopState(files, st);
    assert (st.menu + entries)[1..] == entries;
    CleanedReplacesFirst(merged.state, generationDate, entries,
                         MergedFailing(files, |files|), MergedPassing(files, |files|));
  }

  /** The loop of the merged mode over a whole folder: every result, every entry and every count. */
  lemma MergedLoopState(files: seq<InputFile>, st: Snapshot)
    requires XmlWellFormed(files, |files|)
    ensures var merged := MergeEach(files, |files|, st);
            && merged.failure.None?
            && merged.results == MergedBodies(files, |files|, st.menuID)
            && merged.state == Snapshot(st.menu + MergedMenu(files, |files|, st.menuID),
                                        st.menuID + MergedCount(files, |files|),
                                        st.passed + MergedPassing(files, |files|),
                                        st.failed + MergedFailing(files, |files|))
  {
    hide MenuEntry, HeadHtml, SubOpening, CaseFragment, Summary, Html, MergedBodies, MergeNext, Render.Render;
    MergeFollowsFiles(files, |files|, st);
    AfterFileAppends();
    StepThroughAppends(files, |files|, st, AfterFile, FileEntries, FileCount);
    AccumulatedCounters(files, |files|, st);
  }

  /** `generateFromFolder` writes exactly one report in the merged mode, and one per `.xml` entry otherwise. */
  lemma GenerateWritesReports(files: seq<InputFile>, single: bool, st: Snapshot, generationDate: string,
                              chrome: Chrome)
    requires XmlWellFormed(files, |files|) && |st.menu| == 1 && st.failed == 0 && st.passed == 0
    ensures var batch := Generate(files, single, st, generationDate, chrome);
            && batch.failure.None?
            && Names(batch.written)
               == (if single then [MergedName(generationDate)] else ReportNames(files, |files|))
  {
    hide MenuEntry, HeadHtml, SubOpening, CaseFragment, Summary;
    if single {
      ExportAllReport(files, st, generationDate, chrome);
      var out := ExportAll(files, st, generationDate, chrome);
      assert Names([out.result.value]) == [out.result.value.name] by {
        NamesAppend([], out.result.value);
      }
    } else {
      ConvertEachWritesEveryXmlFile(files, |files|, st, generationDate, chrome, []);
    }
  }
}
