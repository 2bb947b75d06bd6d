/**
 * The generator as it runs: the module-level variables `menu`, `menuID`,
 * `passed` and `failed` are the fields of one `RenderState`, and `parse`,
 * `cleanMenu` and the three drivers are its methods, updating those fields
 * step by step. Each method is proved to leave the state, and to return the
 * result, that the functions of render.dfy and report.dfy describe.
 */
module Session {
  import opened Wrappers
  import opened Text
  import opened JUnit
  import opened Render
  import opened Files
  import opened Report

  /** `for (n = fp.length - srcFileDepth; n < fp.length; n++) outFp += '\\' + fp[n]`. */
  method ShowSourcePath(path: string) returns (outFp: string)
    ensures outFp == ShownPath(path)
  {
    var fp := Split(path, '\\');
    var start := |fp| - SrcFileDepth;
    outFp := "";
    var n := start;
    while n < |fp|
      invariant start <= n <= |fp|
      invariant outFp + PathTail(fp, n) == PathTail(fp, start)
      decreases |fp| - n
    {
      var piece := "\\" + SegmentAt(fp, n);
      AppendAssociates(outFp, piece, PathTail(fp, n + 1));
      outFp := outFp + piece;
      n := n + 1;
    }
    assert outFp + "" == outFp;
  }

  class RenderState {
    /** The navigation entries built so far. */
    var menu: seq<string>
    /** The number of the next anchor; never reset. */
    var menuID: nat
    var passed: nat
    var failed: nat

    /** The fields as one value. */
    function State(): Snapshot
      reads this
    {
      Snapshot(menu, menuID, passed, failed)
    }

    /** Start-up: a placeholder menu entry, every counter at zero. */
    constructor ()
      ensures State() == Start
    {
      menu := ["TEMP"];
      menuID := 0;
      passed := 0;
      failed := 0;
    }

    /** Pushes the menu entry of one node and moves the anchor counter on. */
    method Push(node: Node)
      modifies this
      ensures State() == Pushed(old(State()), node)
    {
      hide MenuEntry, HeadHtml, SubOpening, CaseFragment, Summary;
      menu := menu + [MenuEntry(node, menuID)];
      menuID := menuID + 1;
    }

    /** One test case: `failed` or `passed` goes up by one, then its entry is pushed; returns its fragment. */
    method RenderCase(test: TestCase) returns (output: string)
      modifies this
      ensures State() == CaseStep(old(State()), test)
      ensures output == CaseFragment(test, old(menuID))
    {
      hide MenuEntry, HeadHtml, SubOpening, CaseFragment, Summary;
      if test.error.Some? {
        failed := failed + 1;
      } else {
        passed := passed + 1;
      }
      output := CaseFragment(test, menuID);
      Push(CaseNode(test));
    }

    /** The test cases of one sub-suite, in order. */
    method RenderCases(cases: seq<TestCase>) returns (output: string)
      modifies this
      ensures State() == CasesState(cases, |cases|, old(State()))
      ensures output == CasesOutput(cases, |cases|, old(menuID))
    {
      hide MenuEntry, HeadHtml, SubOpening, CaseFragment, Summary;
      ghost var entered := State();
      output := "";
      var t := 0;
      while t < |cases|
        invariant t <= |cases|
        invariant State() == CasesState(cases, t, entered)
        invariant menuID == entered.menuID + t
        invariant output == CasesOutput(cases, t, entered.menuID)
      {
        var fragment := RenderCase(cases[t]);
        assert fragment == CaseFragment(cases[t], entered.menuID + t);
        output := output + fragment;
        assert output == CasesOutput(cases, t + 1, entered.menuID);
        t := t + 1;
      }
    }

    /** One suite after the first: its opening, its cases, then `</div></div>`. */
    method RenderSubSuite(suite: Suite) returns (output: string)
      requires |suite.properties| >= 2
      modifies this
      ensures State() == CasesState(suite.cases, |suite.cases|, Pushed(old(State()), SubNode(suite)))
      ensures output == SubOpening(suite, old(menuID)) + CasesOutput(suite.cases, |suite.cases|, old(menuID) + 1)
                        + SubClose
    {
      hide MenuEntry, HeadHtml, SubOpening, CaseFragment, Summary;
      ghost var id := menuID;
      var opening := SubOpening(suite, menuID);
      Push(SubNode(suite));
      ghost var entered := State();
      assert entered == Pushed(old(State()), SubNode(suite)) && menuID == id + 1;
      var tests := RenderCases(suite.cases);
      assert tests == CasesOutput(suite.cases, |suite.cases|, id + 1)
             && State() == CasesState(suite.cases, |suite.cases|, entered);
      output := opening + tests + SubClose;
    }

    /**
     * `parse(data)`: the suites in order, the first as the header of the
     * result file; a suite lacking a property it reads by position throws,
     * keeping what earlier suites changed.
     */
    method Parse(doc: Document) returns (r: Result<string, RenderError>)
      modifies this
      ensures Rendered(r, State()) == Render.Render(doc, old(State()))
    {
      hide MenuEntry, HeadHtml, SubOpening, CaseFragment, Summary;
      ghost var st0 := State();
      var output := "";
      var s := 0;
      while s < |doc|
        invariant s <= |doc|
        invariant Walk(doc, s, st0) == Running(State())
        invariant output == WalkOutput(doc, s, st0)
      {
        var suite := doc[s];
        ghost var mid := State();
        if s == 0 {
          if |suite.properties| < 3 {
            AbortedStays(doc, 1, |doc|, st0);
            return Err(MissingProperty(0, 2));
          }
          var outFp := ShowSourcePath(suite.properties[2].value);
          output := output + HeadHtml(suite, menuID, outFp);
          Push(HeadNode(suite));
        } else {
          if |suite.properties| < 2 {
            AbortedStays(doc, s + 1, |doc|, st0);
            return Err(MissingProperty(s, 1));
          }
          var fragment := RenderSubSuite(suite);
          output := output + fragment;
        }
        assert State() == SuiteState(doc, s, mid);
        s := s + 1;
      }
      r := Ok(output + ContainerClose);
    }

    /**
     * `cleanMenu()`: the summary goes to index 0 (creating it on an empty
     * menu), the closing entry is pushed, and the counters go back to zero.
     */
    method CleanMenu(generationDate: string)
      modifies this
      ensures State() == Cleaned(old(State()), generationDate)
    {
      hide MenuEntry, HeadHtml, SubOpening, CaseFragment, Summary;
      var summary := Summary(generationDate, failed, passed);
      if |menu| == 0 {
        menu := [summary];
      } else {
        menu := menu[0 := summary];
        assert menu == [summary] + old(menu)[1..];
      }
      menu := menu + [MenuClose];
      failed := 0;
      passed := 0;
    }

    /**
     * `convertSingleFileToHTML` once the file is read and parsed: the report
     * is named after the file, and the menu is emptied afterwards.
     */
    method ConvertSingleFile(file: InputFile, generationDate: string, chrome: Chrome)
      returns (result: Result<OutputFile, RenderError>)
      modifies this
      ensures Outcome(result, State()) == ConvertFile(file, old(State()), generationDate, chrome)
    {
      hide MenuEntry, HeadHtml, SubOpening, CaseFragment, Summary;
      var res := Parse(file.doc);
      if res.Err? {
        return Err(res.error);
      }
      CleanMenu(generationDate);
      result := Ok(OutputFile(OutputName(file.name), Page(chrome, menu, res.value)));
      menu := [];
    }

    /** One directory entry of `exportAsOneFile`: an `.xml` entry is parsed and its HTML added to `allFiles`. */
    method MergeFile(file: InputFile, allFiles: seq<string>) returns (results: seq<string>, failure: Option<RenderError>)
      modifies this
      ensures Merge(results, failure, State()) == MergeNext(Merge(allFiles, None, old(State())), file)
    {
      hide MenuEntry, HeadHtml, SubOpening, CaseFragment, Summary;
      hide Render.Render;
      results, failure := allFiles, None;
      XmlTestMatchesSubstr(file.name);
      if LastChars(file.name, 4) == ".xml" {
        var res := Parse(file.doc);
        if res.Err? {
          return allFiles, Some(res.error);
        }
        results := allFiles + [res.value];
      }
    }

    /**
     * `exportAsOneFile` once the directory is listed: every `.xml` entry
     * rendered in directory order, one menu finished, one report.
     */
    method ExportAsOneFile(files: seq<InputFile>, generationDate: string, chrome: Chrome)
      returns (result: Result<OutputFile, RenderError>)
      modifies this
      ensures Outcome(result, State()) == ExportAll(files, old(State()), generationDate, chrome)
    {
      hide MenuEntry, HeadHtml, SubOpening, CaseFragment, Summary;
      hide MergeNext;
      ghost var st0 := State();
      var allFiles := [];
      var i := 0;
      while i < |files|
        invariant i <= |files|
        invariant MergeEach(files, i, st0) == Merge(allFiles, None, State())
      {
        var failure;
        allFiles, failure := MergeFile(files[i], allFiles);
        if failure.Some? {
          MergeEachStopsAtError(files, i + 1, |files|, st0);
          return Err(failure.value);
        }
        i := i + 1;
      }
      CleanMenu(generationDate);
      result := Ok(OutputFile(MergedName(generationDate), Page(chrome, menu, MergeResults(allFiles))));
      menu := [];
    }

    /** One directory entry of the per-file mode: an `.xml` entry is converted and its report added to `written`. */
    method ConvertEntry(file: InputFile, generationDate: string, chrome: Chrome, written: seq<OutputFile>)
      returns (reports: seq<OutputFile>, failure: Option<RenderError>)
      modifies this
      ensures Batch(reports, failure, State()) == ConvertNext(Batch(written, None, old(State())), file, generationDate, chrome, [])
    {
      hide MenuEntry, HeadHtml, SubOpening, CaseFragment, Summary;
      hide ConvertWith;
      reports, failure := written, None;
      XmlTestMatchesSubstr(file.name);
      if LastChars(file.name, 4) == ".xml" {
        var result := ConvertSingleFile(file, generationDate, chrome);
        if result.Err? {
          return written, Some(result.error);
        }
        reports := written + [result.value];
      }
    }

    /**
     * `generateFromFolder` once the directory is listed: the merged report
     * when `single`, otherwise one report per `.xml` entry in directory
     * order; a throw ends the run.
     */
    method GenerateFromFolder(files: seq<InputFile>, single: bool, generationDate: string, chrome: Chrome)
      returns (written: seq<OutputFile>, failure: Option<RenderError>)
      modifies this
      ensures Batch(written, failure, State()) == Generate(files, single, old(State()), generationDate, chrome)
    {
      hide MenuEntry, HeadHtml, SubOpening, CaseFragment, Summary;
      hide ExportAll, ConvertNext;
      if single {
        var result := ExportAsOneFile(files, generationDate, chrome);
        if result.Ok? {
          return [result.value], None;
        }
        return [], Some(result.error);
      }
      ghost var st0 := State();
      written := [];
      var i := 0;
      while i < |files|
        invariant i <= |files|
        invariant ConvertEach(files, i, st0, generationDate, chrome, []) == Batch(written, None, State())
      {
        written, failure := ConvertEntry(files[i], generationDate, chrome, written);
        if failure.Some? {
          ConvertEachStopsAtError(files, i + 1, |files|, st0, generationDate, chrome, []);
          return;
        }
        i := i + 1;
      }
      failure := None;
    }
  }
}
