/**
 * What `parse` and `cleanMenu` of the report generator compute, as functions
 * of the parsed document and of the module-level state they update (the menu,
 * the anchor counter `menuID` and the `passed`/`failed` counters).
 * The class in render_state.dfy performs the same steps in place and is proved
 * against these functions; the lemmas here state what the steps guarantee.
 */
module Render {
  import opened Wrappers
  import opened Text
  import opened JsNumber
  import opened JUnit

  /** How many trailing segments of the source-file path the report shows. */
  const SrcFileDepth: nat := 3

  /** The module-level state of the generator at one moment. */
  datatype Snapshot = Snapshot(menu: seq<string>, menuID: nat, passed: nat, failed: nat)

  /** A property read by position that is not there: JavaScript throws a TypeError. */
  datatype RenderError = MissingProperty(suite: nat, property: nat)

  /** The walk so far: still running, or stopped by an error; either way, the state reached. */
  datatype Progress = Running(state: Snapshot) | Aborted(error: RenderError, state: Snapshot)

  /** What `parse` returns (or throws), and the state it leaves behind. */
  datatype Rendered = Rendered(result: Result<string, RenderError>, state: Snapshot)

  // ---------------------------------------------------------------------------
  // Source-file path shown in the suite header

  /** `fp[n]`, which is `undefined` (written as that word) outside the array. */
  function SegmentAt(fp: seq<string>, n: int): string
  {
    if 0 <= n < |fp| then fp[n] else "undefined"
  }

  /** `'\\' + fp[n]` for every n from `from` up to the end, concatenated. */
  function PathTail(fp: seq<string>, from: int): string
    decreases |fp| - from
  {
    if from >= |fp| then "" else "\\" + SegmentAt(fp, from) + PathTail(fp, from + 1)
  }

  /** The path as the header shows it: from its `\`-separated segments, the last `SrcFileDepth`. */
  function ShownPath(path: string): string
  {
    var fp := Split(path, '\\');
    PathTail(fp, |fp| - SrcFileDepth)
  }

  /** `k` copies of `s`, one after another. */
  function Repeat(s: string, k: nat): string
  {
    if k == 0 then "" else s + Repeat(s, k - 1)
  }

  /** Inside the segment list, the tail is the separator followed by the remaining segments joined. */
  lemma {:induction false} PathTailJoin(fp: seq<string>, from: nat)
    requires from < |fp|
    ensures PathTail(fp, from) == "\\" + Join(fp[from..], "\\")
    decreases |fp| - from
  {
    if from + 1 < |fp| {
      PathTailJoin(fp, from + 1);
      assert fp[from..][1..] == fp[from + 1..];
    } else {
      assert fp[from..] == [fp[from]];
    }
  }

  /** Before the first segment, every position contributes `\undefined`. */
  lemma {:induction false} PathTailBefore(fp: seq<string>, k: nat)
    requires |fp| >= 1
    ensures PathTail(fp, 0 - k) == Repeat("\\undefined", k) + PathTail(fp, 0)
    decreases k
  {
    if k > 0 {
      PathTailBefore(fp, k - 1);
    }
  }

  /**
   * A path of more than `SrcFileDepth` segments is shown as its own ending:
   * the separator and the last `SrcFileDepth` segments, in order.
   */
  lemma ShownPathOfLongPath(path: string)
    requires |Split(path, '\\')| > SrcFileDepth
    ensures var fp := Split(path, '\\');
            ShownPath(path) == "\\" + Join(fp[|fp| - SrcFileDepth..], "\\")
    ensures var shown := ShownPath(path);
            |shown| <= |path| && path[|path| - |shown|..] == shown
  {
    var fp := Split(path, '\\');
    var k := |fp| - SrcFileDepth;
    var tail := "\\" + Join(fp[k..], "\\");
    assert ShownPath(path) == PathTail(fp, k);
    assert PathTail(fp, k) == tail by {
      PathTailJoin(fp, k);
    }
    assert |tail| <= |path| && path[|path| - |tail|..] == tail by {
      SplitTailIsSuffix(path, '\\', k);
    }
  }

  /**
   * A path of at most `SrcFileDepth` segments is shown whole, after one
   * `\undefined` for each missing segment.
   */
  lemma ShownPathOfShortPath(path: string)
    requires |Split(path, '\\')| <= SrcFileDepth
    ensures ShownPath(path) == Repeat("\\undefined", SrcFileDepth - |Split(path, '\\')|) + "\\" + path
  {
    hide Split, Join, PathTail, Repeat;
    var fp := Split(path, '\\');
    var missing := SrcFileDepth - |fp|;
    assert ShownPath(path) == PathTail(fp, 0 - missing);
    assert PathTail(fp, 0) == "\\" + path by {
      PathTailJoin(fp, 0);
      assert fp[0..] == fp;
      SplitJoin(path, '\\');
    }
    PathTailBefore(fp, missing);
  }

  /** The segments of a path ending in three separator-free segments. */
  lemma SplitLastThree(front: string, c: string, d: string, e: string)
    requires '\\' !in c && '\\' !in d && '\\' !in e
    ensures Split(front + "\\" + c + "\\" + d + "\\" + e, '\\') == Split(front, '\\') + [c, d, e]
  {
    var sep := '\\';
    SplitWhole(e, sep);
    SplitFirst(d, e, sep);
    SplitFirst(c, d + [sep] + e, sep);
    assert front + "\\" + c + "\\" + d + "\\" + e == front + [sep] + (c + [sep] + (d + [sep] + e));
    SplitAround(front, c + [sep] + (d + [sep] + e), sep);
  }

  /**
   * Whatever precedes them, the last three segments are what the header shows:
   * `C:\a\b\c\d\e.cs` is shown as `\c\d\e.cs`.
   */
  lemma ShownPathKeepsLastThree(front: string, c: string, d: string, e: string)
    requires '\\' !in c && '\\' !in d && '\\' !in e
    ensures ShownPath(front + "\\" + c + "\\" + d + "\\" + e) == "\\" + c + "\\" + d + "\\" + e
  {
    var path := front + "\\" + c + "\\" + d + "\\" + e;
    var fp := Split(path, '\\');
    assert |fp| >= 3 && fp[|fp| - 3..] == [c, d, e] by {
      SplitLastThree(front, c, d, e);
    }
    var k := |fp| - 3;
    assert ShownPath(path) == PathTail(fp, k);
    assert PathTail(fp, k) == "\\" + Join([c, d, e], "\\") by {
      PathTailJoin(fp, k);
    }
    JoinThree(c, d, e, "\\");
  }

  // ---------------------------------------------------------------------------
  // Navigation entries and anchors

  /** One element of the rendered tree, in document order: a suite header, a sub-suite, a test case. */
  datatype Node = HeadNode(suite: Suite) | SubNode(suite: Suite) | CaseNode(test: TestCase)

  /** The id prefix of each kind of node. */
  function AnchorPrefix(node: Node): string
  {
    match node
    case HeadNode(_) => "suite_"
    case SubNode(_) => "sub_"
    case CaseNode(_) => "test_"
  }

  /** The element id `suite_N`, `sub_N` or `test_N` of a node rendered when `menuID` was `id`. */
  function Anchor(node: Node, id: nat): string
  {
    AnchorPrefix(node) + NatToString(id)
  }

  /**
   * The text of a node's menu link: a test's name, a suite's second property.
   * The walk stops before it reaches a suite that lacks that property, so the
   * empty fallback never reaches the menu.
   */
  function Label(node: Node): string
  {
    match node
    case CaseNode(t) => t.name
    case _ => if |node.suite.properties| >= 2 then node.suite.properties[1].value else ""
  }

  /** The class of a node's menu entry; a test with an error is `test error`. */
  function EntryClass(node: Node): string
  {
    match node
    case HeadNode(_) => "head"
    case SubNode(_) => "sub"
    case CaseNode(t) => if t.error.Some? then "test error" else "test"
  }

  /** The start of every menu entry, up to its class. */
  const EntryOpen: string := "<li class=\""

  /** The `<li>` that links to a node's anchor: its class, the anchor as the link target, the label. */
  function MenuEntry(node: Node, id: nat): string
  {
    EntryOpen + EntryClass(node) + "\"><a href=\"#" + Anchor(node, id) + "\">" + Label(node) + "</a></li>"
  }

  /** Anchors made from different counter values never coincide, whatever the kinds of node. */
  lemma AnchorsDistinct(a: Node, b: Node, i: nat, j: nat)
    requires i != j
    ensures Anchor(a, i) != Anchor(b, j)
  {
    var pa, pb := AnchorPrefix(a), AnchorPrefix(b);
    var na, nb := NatToString(i), NatToString(j);
    if pa == pb {
      NatToStringInjective(i, j);
      assert Anchor(a, i)[|pa|..] == na;
      assert Anchor(b, j)[|pb|..] == nb;
    } else {
      assert IsDecimalDigit(na[0]) && IsDecimalDigit(nb[0]);
      if (pa == "suite_" && pb == "sub_") || (pa == "sub_" && pb == "suite_") {
        assert Anchor(a, i)[2] != Anchor(b, j)[2];
      } else {
        assert Anchor(a, i)[0] != Anchor(b, j)[0];
      }
    }
  }

  /** The opening of an entry: `<li class="`, the class, then the closing quote. */
  lemma EntryOpening(node: Node, id: nat)
    ensures var opening := EntryOpen + EntryClass(node);
            |opening| < |MenuEntry(node, id)| && MenuEntry(node, id)[..|opening|] == opening
            && MenuEntry(node, id)[|opening|] == '"'
  {
    var opening := EntryOpen + EntryClass(node);
    var rest := "\"><a href=\"#" + Anchor(node, id) + "\">" + Label(node) + "</a></li>";
    assert MenuEntry(node, id) == opening + rest;
    assert rest[0] == '"';
  }

  /** A test's menu entry carries the class `test error` exactly when the test has an error. */
  lemma CaseEntryMarksError(test: TestCase, id: nat)
    ensures var e := MenuEntry(CaseNode(test), id);
            |e| >= 22 && (e[..22] == "<li class=\"test error\"" <==> test.error.Some?)
  {
    var e := MenuEntry(CaseNode(test), id);
    EntryOpening(CaseNode(test), id);
    if test.error.None? {
      assert e[15] == '"';
      assert "<li class=\"test error\""[15] == ' ';
    } else {
      assert e[..21] == "<li class=\"test error";
      assert e[..22] == e[..21] + [e[21]];
    }
  }

  // ---------------------------------------------------------------------------
  // HTML fragments

  /** The `has_error` title class of a sub-suite: present when `parseInt(errors) > 0`. */
  function ErrorFlag(errors: string): string
  {
    if IsPositiveInt(errors) then "has_error" else ""
  }

  /**
   * A suite whose `errors` attribute is the decimal numeral of a count is
   * flagged exactly when the count is not zero; a negative count never is.
   */
  lemma ErrorFlagOfCount(n: nat)
    ensures ErrorFlag(NatToString(n)) == (if n > 0 then "has_error" else "")
    ensures ErrorFlag("-" + NatToString(n)) == ""
  {
    hide ParseInt, NatToString;
    PositiveNumeral(n);
    ParseIntOfNegativeNumeral(n);
  }

  /** The start of a node's element, up to the opening quote of its `id` attribute. */
  function ElementOpen(node: Node): string
  {
    match node
    case HeadNode(_) => "\n<div class=\"suite-container\" id=\""
    case SubNode(_) => "\n    <div class=\"suite\" id=\""
    case CaseNode(_) => "\n    <div class=\"test\" id=\""
  }

  /** A node's element up to the end of its `id` attribute, which holds the node's anchor. */
  function ElementStart(node: Node, id: nat): string
  {
    ElementOpen(node) + Anchor(node, id) + "\""
  }

  /** Opens the container of one result file, showing `shownPath` as its source file. */
  function HeadHtml(suite: Suite, id: nat, shownPath: string): string
    requires |suite.properties| >= 3
  {
    ElementStart(HeadNode(suite), id) + HeadDetails(suite, shownPath)
  }

  /** The rest of a container's opening: title, duration, source file and spec id. */
  function HeadDetails(suite: Suite, shownPath: string): string
    requires |suite.properties| >= 3
  {
    ">\n    <span class=\"title\"><b>" + suite.properties[1].value
    + "</b></span>\n    <span class=\"suite-duration\"><b>Run Duration: </b>" + suite.time
    + "seconds</span>\n    <span class=\"suite-fromfile\"><b>Source File: </b>" + shownPath
    + "</span>\n    <span class=\"suite-spec\"><b>Spec ID: </b>" + suite.properties[0].value
    + "</span>\n"
  }

  /** Opens the container of one result file (the first suite), its source path cut to the last segments. */
  function HeadFragment(suite: Suite, id: nat): string
    requires |suite.properties| >= 3
  {
    HeadHtml(suite, id, ShownPath(suite.properties[2].value))
  }

  /** Opens one sub-suite; its counters are the suite's attributes as written in the XML. */
  function SubOpening(suite: Suite, id: nat): string
    requires |suite.properties| >= 2
  {
    ElementStart(SubNode(suite), id) + SubDetails(suite)
  }

  /** The rest of a sub-suite's opening: error flag, title, duration and the counts as written. */
  function SubDetails(suite: Suite): string
    requires |suite.properties| >= 2
  {
    ">\n        <span class=\"title " + ErrorFlag(suite.errors)
    + "\"><b>Suite: </b>" + suite.properties[1].value
    + "</span>\n        <span class=\"duration\"><b>Run Duration: </b>" + suite.time + "seconds"
    + "</span>\n        <span class=\"count_tests\"><b>Test Count: </b>" + suite.tests
    + "</span>\n        <span class=\"count_fails\"><b>Failed Test Count: </b>" + suite.failures
    + "</span>\n        <span class=\"count_errors\"><b>Error Count: </b>" + suite.errors
    + "</span>\n        <span class=\"count_skips\"><b>Skipped Test Count: </b>" + suite.skipped
    + "</span>\n        <div class=\"tests\">\n            <span class=\"expand_tests\"></span>"
  }

  /** Closes the test list and the sub-suite. */
  const SubClose: string := "</div></div>"

  /** Closes the container of one result file. */
  const ContainerClose: string := "</div>\n<!--Closes `.suite-container`-->"

  /** `'' + test['system-err']`: absent is `undefined`, an array is joined with commas. */
  function SystemErrText(systemErr: Option<seq<string>>): string
  {
    match systemErr
    case None => "undefined"
    case Some(texts) => Join(texts, ",")
  }

  /** The result shown for a test: its error message in red, or a green PASS. */
  function ResultMarker(test: TestCase): string
  {
    match test.error
    case Some(message) => "<i style=\"color:red;\">" + message + "</i>"
    case None => "<i style=\"color:green;\">PASS</i>"
  }

  /** The `system-err` block, shown for a test with an error only. */
  function ErrorOutput(test: TestCase): string
  {
    if test.error.Some? then "<pre class=\"err_out\">" + SystemErrText(test.systemErr) + "</pre>" else ""
  }

  /** The HTML of one test case rendered when `menuID` was `id`. */
  function CaseFragment(test: TestCase, id: nat): string
  {
    ElementStart(CaseNode(test), id) + CaseDetails(test)
  }

  /** The rest of a test case's element: name, run time, result and, for an error, its output. */
  function CaseDetails(test: TestCase): string
  {
    ">\n        <span class=\"name\"><b>Name: </b>" + test.name
    + "</span>\n        <span class=\"duration\"><b>Run Time: </b>" + test.time
    + "seconds</span>\n        <span class=\"result\"><b>Result: </b>" + ResultMarker(test)
    + "</span>\n        <span>" + ErrorOutput(test)
    + "</span>\n    </div>"
  }

  // ---------------------------------------------------------------------------
  // The walk performed by `parse`

  /** The state after one node's menu entry is pushed and the counter advanced. */
  function Pushed(st: Snapshot, node: Node): Snapshot
  {
    st.(menu := st.menu + [MenuEntry(node, st.menuID)], menuID := st.menuID + 1)
  }

  /** One test case: exactly one of the counters moves, then its entry is pushed. */
  function CaseStep(st: Snapshot, test: TestCase): Snapshot
  {
    var counted := if test.error.Some? then st.(failed := st.failed + 1) else st.(passed := st.passed + 1);
    Pushed(counted, CaseNode(test))
  }

  /** The state after the first `n` test cases of a sub-suite. */
  function CasesState(cases: seq<TestCase>, n: nat, st: Snapshot): Snapshot
    requires n <= |cases|
  {
    if n == 0 then st else CaseStep(CasesState(cases, n - 1, st), cases[n - 1])
  }

  /** The HTML of the first `n` test cases of a sub-suite, the first rendered when `menuID` was `id`. */
  function CasesOutput(cases: seq<TestCase>, n: nat, id: nat): string
    requires n <= |cases|
  {
    if n == 0 then "" else CasesOutput(cases, n - 1, id) + CaseFragment(cases[n - 1], id + n - 1)
  }

  /** The property that suite `s` reads by position and lacks: index 2 of the first suite, index 1 of the others. */
  function Gap(doc: Document, s: nat): Option<RenderError>
    requires s < |doc|
  {
    if s == 0 then (if |doc[0].properties| < 3 then Some(MissingProperty(0, 2)) else None)
    else if |doc[s].properties| < 2 then Some(MissingProperty(s, 1))
    else None
  }

  /** The state after suite `s`: the header's entry when `s` is 0, else the sub-suite's entry and its cases. */
  function SuiteState(doc: Document, s: nat, st: Snapshot): Snapshot
    requires s < |doc|
  {
    if s == 0 then Pushed(st, HeadNode(doc[0]))
    else CasesState(doc[s].cases, |doc[s].cases|, Pushed(st, SubNode(doc[s])))
  }

  /** The HTML of suite `s` when `menuID` was `id` as it began. */
  function SuiteOutput(doc: Document, s: nat, id: nat): string
    requires s < |doc| && Gap(doc, s).None?
  {
    if s == 0 then HeadFragment(doc[0], id)
    else SubOpening(doc[s], id) + CasesOutput(doc[s].cases, |doc[s].cases|, id + 1) + SubClose
  }

  /** The state after the first `n` suites of the document, stopping at the first missing property. */
  function Walk(doc: Document, n: nat, st: Snapshot): Progress
    requires n <= |doc|
  {
    if n == 0 then Running(st)
    else
      match Walk(doc, n - 1, st)
      case Aborted(e, s) => Aborted(e, s)
      case Running(mid) =>
        match Gap(doc, n - 1)
        case Some(e) => Aborted(e, mid)
        case None => Running(SuiteState(doc, n - 1, mid))
  }

  /** The HTML of the first `n` suites, each rendered with the counter value the walk had reached. */
  function WalkOutput(doc: Document, n: nat, st: Snapshot): string
    requires n <= |doc|
  {
    if n == 0 then ""
    else
      hide SubOpening, CaseFragment, HeadHtml, MenuEntry;
      var prefix := WalkOutput(doc, n - 1, st);
      if Gap(doc, n - 1).Some? then prefix
      else prefix + SuiteOutput(doc, n - 1, Walk(doc, n - 1, st).state.menuID)
  }

  /** `parse(data)`: the whole walk, then the container is closed; or the error that stopped it. */
  function Render(doc: Document, st: Snapshot): Rendered
  {
    match Walk(doc, |doc|, st)
    case Aborted(e, s) => Rendered(Err(e), s)
    case Running(s) => Rendered(Ok(WalkOutput(doc, |doc|, st) + ContainerClose), s)
  }

  /** Once the walk has stopped, later suites change nothing. */
  lemma {:induction false} AbortedStays(doc: Document, k: nat, n: nat, st: Snapshot)
    requires k <= n <= |doc|
    requires Walk(doc, k, st).Aborted?
    ensures Walk(doc, n, st) == Walk(doc, k, st)
    decreases n
  {
    hide MenuEntry, HeadHtml, SubOpening, CaseFragment, Summary;
    if n > k {
      AbortedStays(doc, k, n - 1, st);
    }
  }

  /** The walk of the first `n` suites runs to the end exactly when none of them lacks a property. */
  lemma {:induction false} WalkRunsIff(doc: Document, n: nat, st: Snapshot)
    requires n <= |doc|
    ensures Walk(doc, n, st).Running? <==> forall s | 0 <= s < n :: Gap(doc, s).None?
    decreases n
  {
    hide MenuEntry, HeadHtml, SubOpening, CaseFragment, Summary;
    if n > 0 {
      WalkRunsIff(doc, n - 1, st);
    }
  }

  /**
   * A walk that stopped names the first suite lacking a property, and keeps
   * the state the suites before it had reached.
   */
  lemma {:induction false} WalkStopsAtFirstGap(doc: Document, n: nat, st: Snapshot)
    requires n <= |doc| && Walk(doc, n, st).Aborted?
    ensures exists s | 0 <= s < n :: Gap(doc, s) == Some(Walk(doc, n, st).error)
                                     && (forall r | 0 <= r < s :: Gap(doc, r).None?)
                                     && Walk(doc, s, st) == Running(Walk(doc, n, st).state)
    decreases n
  {
    hide MenuEntry, HeadHtml, SubOpening, CaseFragment, Summary;
    if Walk(doc, n - 1, st).Aborted? {
      WalkStopsAtFirstGap(doc, n - 1, st);
    } else {
      WalkRunsIff(doc, n - 1, st);
      assert Gap(doc, n - 1) == Some(Walk(doc, n, st).error);
    }
  }

  /** A document lacks no property the walk reads exactly when it is well formed. */
  lemma NoGapIffWellFormed(doc: Document)
    ensures (forall s | 0 <= s < |doc| :: Gap(doc, s).None?) <==> WellFormed(doc)
  {
    if WellFormed(doc) {
      forall s | 0 <= s < |doc| ensures Gap(doc, s).None? {
      }
    } else {
      assert |doc| > 0;
      if |doc[0].properties| < 3 {
        assert Gap(doc, 0).Some?;
      } else {
        var s :| 1 <= s < |doc| && |doc[s].properties| < 2;
        assert Gap(doc, s).Some?;
      }
    }
  }

  /** `parse` returns exactly when every suite has the properties it reads by position. */
  lemma RenderSucceedsIff(doc: Document, st: Snapshot)
    ensures Render(doc, st).result.Ok? <==> WellFormed(doc)
  {
    hide MenuEntry, HeadHtml, SubOpening, CaseFragment, Summary;
    WalkRunsIff(doc, |doc|, st);
    NoGapIffWellFormed(doc);
  }

  /**
   * When `parse` throws, the error names the first suite lacking a property
   * (index 2 of the first suite, index 1 of a later one), and the state is
   * the one the suites before it left.
   */
  lemma RenderThrowsAtFirstGap(doc: Document, st: Snapshot)
    requires Render(doc, st).result.Err?
    ensures exists s | 0 <= s < |doc| :: Gap(doc, s) == Some(Render(doc, st).result.error)
                                         && (forall r | 0 <= r < s :: Gap(doc, r).None?)
                                         && Walk(doc, s, st) == Running(Render(doc, st).state)
  {
    hide MenuEntry, HeadHtml, SubOpening, CaseFragment, Summary;
    WalkStopsAtFirstGap(doc, |doc|, st);
  }

  // ---------------------------------------------------------------------------
  // What the walk produces, in document order

  /** The menu entries of `nodes`, their anchors numbered from `id` on. */
  function Entries(nodes: seq<Node>, id: nat): seq<string>
    decreases |nodes|
  {
    if |nodes| == 0 then [] else [MenuEntry(nodes[0], id)] + Entries(nodes[1..], id + 1)
  }

  /** One node per test case, in order. */
  function CaseNodes(cases: seq<TestCase>): seq<Node>
  {
    seq(|cases|, k requires 0 <= k < |cases| => CaseNode(cases[k]))
  }

  /** The nodes of one suite: the header for the first, otherwise the sub-suite then its cases. */
  function SuiteNodes(suite: Suite, first: bool): seq<Node>
  {
    if first then [HeadNode(suite)] else [SubNode(suite)] + CaseNodes(suite.cases)
  }

  /** Every node of the document, in document order. */
  function Nodes(doc: Document): seq<Node>
  {
    if |doc| == 0 then [] else Nodes(doc[..|doc| - 1]) + SuiteNodes(doc[|doc| - 1], |doc| == 1)
  }

  /** Test cases with an `<error>` child. */
  function FailingIn(cases: seq<TestCase>): nat
  {
    if |cases| == 0 then 0
    else FailingIn(cases[..|cases| - 1]) + (if cases[|cases| - 1].error.Some? then 1 else 0)
  }

  /** Test cases without an `<error>` child. */
  function PassingIn(cases: seq<TestCase>): nat
  {
    if |cases| == 0 then 0
    else PassingIn(cases[..|cases| - 1]) + (if cases[|cases| - 1].error.None? then 1 else 0)
  }

  /** Failing cases of every suite but the first. */
  function FailingCases(doc: Document): nat
  {
    if |doc| <= 1 then 0 else FailingCases(doc[..|doc| - 1]) + FailingIn(doc[|doc| - 1].cases)
  }

  /** Passing cases of every suite but the first. */
  function PassingCases(doc: Document): nat
  {
    if |doc| <= 1 then 0 else PassingCases(doc[..|doc| - 1]) + PassingIn(doc[|doc| - 1].cases)
  }

  /** Test cases of every suite but the first. */
  function TotalCases(doc: Document): nat
  {
    if |doc| <= 1 then 0 else TotalCases(doc[..|doc| - 1]) + |doc[|doc| - 1].cases|
  }

  /** Every suite has the properties the walk reads by position: three in the first, two in the others. */
  predicate WellFormed(doc: Document)
  {
    |doc| == 0 || (|doc[0].properties| >= 3 && forall s | 1 <= s < |doc| :: |doc[s].properties| >= 2)
  }

  lemma EntriesSingle(node: Node, id: nat)
    ensures Entries([node], id) == [MenuEntry(node, id)]
  {
    assert [node][1..] == [];
  }

  /** The k-th entry links the k-th node under anchor number `id + k`. */
  lemma {:induction false} EntryAt(nodes: seq<Node>, id: nat, k: nat)
    requires k < |nodes|
    ensures |Entries(nodes, id)| == |nodes| && Entries(nodes, id)[k] == MenuEntry(nodes[k], id + k)
    decreases k
  {
    if k > 0 {
      EntryAt(nodes[1..], id + 1, k - 1);
    } else {
      EntriesLength(nodes, id);
    }
  }

  /** One entry per node. */
  lemma {:induction false} EntriesLength(nodes: seq<Node>, id: nat)
    ensures |Entries(nodes, id)| == |nodes|
    decreases |nodes|
  {
    if |nodes| > 0 {
      EntriesLength(nodes[1..], id + 1);
    }
  }

  /** The entries of two runs of nodes: the second numbered on from where the first stopped. */
  lemma {:induction false} EntriesAppend(a: seq<Node>, b: seq<Node>, id: nat)
    ensures Entries(a + b, id) == Entries(a, id) + Entries(b, id + |a|)
    decreases |a|
  {
    hide MenuEntry, HeadHtml, SubOpening, CaseFragment, Summary;
    if |a| > 0 {
      assert (a + b)[1..] == a[1..] + b;
      EntriesAppend(a[1..], b, id + 1);
    } else {
      assert a + b == b;
    }
  }

  lemma CaseNodesAppend(a: seq<TestCase>, b: seq<TestCase>)
    ensures CaseNodes(a + b) == CaseNodes(a) + CaseNodes(b)
  {
    var l, r := CaseNodes(a + b), CaseNodes(a) + CaseNodes(b);
    assert |l| == |r|;
    forall k | 0 <= k < |l| ensures l[k] == r[k] {
      if k < |a| {
        assert (a + b)[k] == a[k];
        assert r[k] == CaseNodes(a)[k];
      } else {
        assert (a + b)[k] == b[k - |a|];
        assert r[k] == CaseNodes(b)[k - |a|];
      }
    }
  }

  /** Every test case is either failing or passing, never both. */
  lemma {:induction false} CasesPartition(cases: seq<TestCase>)
    ensures FailingIn(cases) + PassingIn(cases) == |cases|
    decreases |cases|
  {
    if |cases| > 0 {
      CasesPartition(cases[..|cases| - 1]);
    }
  }

  /** Over the document, failing and passing cases together are all cases after the first suite. */
  lemma {:induction false} DocumentPartition(doc: Document)
    ensures FailingCases(doc) + PassingCases(doc) == TotalCases(doc)
    decreases |doc|
  {
    if |doc| > 1 {
      DocumentPartition(doc[..|doc| - 1]);
      CasesPartition(doc[|doc| - 1].cases);
    }
  }

  /** One node per suite and one per test case after the first suite. */
  lemma {:induction false} NodeCount(doc: Document)
    ensures |Nodes(doc)| == |doc| + TotalCases(doc)
    decreases |doc|
  {
    if |doc| > 0 {
      NodeCount(doc[..|doc| - 1]);
    }
  }

  /** The first `n` test cases move the counter by `n` and the pass/fail counters by their outcomes. */
  lemma {:induction false} CasesCounters(cases: seq<TestCase>, n: nat, st: Snapshot)
    requires n <= |cases|
    ensures var after := CasesState(cases, n, st);
            && after.menuID == st.menuID + n
            && after.failed == st.failed + FailingIn(cases[..n])
            && after.passed == st.passed + PassingIn(cases[..n])
    decreases n
  {
    if n > 0 {
      CasesCounters(cases, n - 1, st);
      assert cases[..n][..n - 1] == cases[..n - 1];
    }
  }

  /** The first `n` test cases push their entries in order, after the entries already there. */
  lemma {:induction false} CasesMenu(cases: seq<TestCase>, n: nat, st: Snapshot)
    requires n <= |cases|
    ensures CasesState(cases, n, st).menu == st.menu + Entries(CaseNodes(cases[..n]), st.menuID)
    decreases n
  {
    hide MenuEntry, HeadHtml, SubOpening, CaseFragment, Summary;
    if n > 0 {
      var test := cases[n - 1];
      var mid := CasesState(cases, n - 1, st);
      var after := CasesState(cases, n, st);
      var before := CaseNodes(cases[..n - 1]);
      assert mid.menu == st.menu + Entries(before, st.menuID) && mid.menuID == st.menuID + |before| by {
        CasesMenu(cases, n - 1, st);
        CasesCounters(cases, n - 1, st);
      }
      assert after.menu == mid.menu + Entries([CaseNode(test)], mid.menuID) by {
        EntriesSingle(CaseNode(test), mid.menuID);
      }
      assert CaseNodes(cases[..n]) == before + [CaseNode(test)] by {
        assert cases[..n] == cases[..n - 1] + [test];
        CaseNodesAppend(cases[..n - 1], [test]);
        assert CaseNodes([test]) == [CaseNode(test)];
      }
      EntriesCompose(st.menu, st.menuID, before, [CaseNode(test)], mid.menu, mid.menuID, after.menu);
    }
  }

  /** The nodes of the first `n` suites extend those of the first `n - 1`. */
  lemma NodesStep(doc: Document, n: nat)
    requires 0 < n <= |doc|
    ensures Nodes(doc[..n]) == Nodes(doc[..n - 1]) + SuiteNodes(doc[n - 1], n == 1)
  {
    assert doc[..n][..n - 1] == doc[..n - 1];
  }

  /** One suite of a well-formed document: what its step adds to the state. */
  lemma SuiteStateLayout(doc: Document, n: nat, mid: Snapshot)
    requires 0 < n <= |doc|
    ensures var after := SuiteState(doc, n - 1, mid);
            var nodes := SuiteNodes(doc[n - 1], n == 1);
            && after.menu == mid.menu + Entries(nodes, mid.menuID)
            && after.menuID == mid.menuID + |nodes|
            && after.failed == mid.failed + (if n == 1 then 0 else FailingIn(doc[n - 1].cases))
            && after.passed == mid.passed + (if n == 1 then 0 else PassingIn(doc[n - 1].cases))
  {
    var suite := doc[n - 1];
    if n == 1 {
      EntriesSingle(HeadNode(suite), mid.menuID);
    } else {
      SubSuiteMenu(suite, mid);
      SubSuiteCounters(suite, mid);
    }
  }

  /** A sub-suite pushes its own entry, then one per test case. */
  lemma SubSuiteMenu(suite: Suite, mid: Snapshot)
    ensures CasesState(suite.cases, |suite.cases|, Pushed(mid, SubNode(suite))).menu
         == mid.menu + Entries(SuiteNodes(suite, false), mid.menuID)
  {
    var cases := suite.cases;
    var entered := Pushed(mid, SubNode(suite));
    assert entered.menu == mid.menu + Entries([SubNode(suite)], mid.menuID) by {
      EntriesSingle(SubNode(suite), mid.menuID);
    }
    var after := CasesState(cases, |cases|, entered);
    assert after.menu == entered.menu + Entries(CaseNodes(cases), entered.menuID) by {
      CasesMenu(cases, |cases|, entered);
      assert cases[..|cases|] == cases;
    }
    EntriesCompose(mid.menu, mid.menuID, [SubNode(suite)], CaseNodes(cases), entered.menu, entered.menuID, after.menu);
  }

  /** A sub-suite moves the counter past itself and its cases, and counts each case once. */
  lemma SubSuiteCounters(suite: Suite, mid: Snapshot)
    ensures var after := CasesState(suite.cases, |suite.cases|, Pushed(mid, SubNode(suite)));
            && after.menuID == mid.menuID + |SuiteNodes(suite, false)|
            && after.failed == mid.failed + FailingIn(suite.cases)
            && after.passed == mid.passed + PassingIn(suite.cases)
  {
    var cases := suite.cases;
    CasesCounters(cases, |cases|, Pushed(mid, SubNode(suite)));
    assert cases[..|cases|] == cases;
  }

  /** Entries pushed for `before` and then for `nodes` are the entries of both, numbered on. */
  lemma EntriesCompose(menu: seq<string>, id: nat, before: seq<Node>, nodes: seq<Node>,
                       midMenu: seq<string>, midId: nat, afterMenu: seq<string>)
    requires midMenu == menu + Entries(before, id) && midId == id + |before|
    requires afterMenu == midMenu + Entries(nodes, midId)
    ensures afterMenu == menu + Entries(before + nodes, id)
  {
    hide MenuEntry, HeadHtml, SubOpening, CaseFragment, Summary;
    EntriesAppend(before, nodes, id);
    AppendAssociates(menu, Entries(before, id), Entries(nodes, midId));
  }

  /** On a well-formed document the walk never stops early: each suite takes its step. */
  lemma {:induction false} WalkRuns(doc: Document, n: nat, st: Snapshot)
    requires n <= |doc| && WellFormed(doc)
    ensures Walk(doc, n, st).Running?
    ensures n > 0 ==> Walk(doc, n, st).state == SuiteState(doc, n - 1, Walk(doc, n - 1, st).state)
    decreases n
  {
    if n > 0 {
      WalkRuns(doc, n - 1, st);
      assert Gap(doc, n - 1).None?;
    }
  }

  /** The walk pushes the entries of the document's nodes in order and advances the counter once per node. */
  lemma {:induction false} WalkMenu(doc: Document, n: nat, st: Snapshot)
    requires n <= |doc| && WellFormed(doc)
    ensures var after := Walk(doc, n, st).state;
            && after.menu == st.menu + Entries(Nodes(doc[..n]), st.menuID)
            && after.menuID == st.menuID + |Nodes(doc[..n])|
    decreases n
  {
    if n > 0 {
      var mid := Walk(doc, n - 1, st).state;
      var after := Walk(doc, n, st).state;
      var before := Nodes(doc[..n - 1]);
      var nodes := SuiteNodes(doc[n - 1], n == 1);
      assert mid.menu == st.menu + Entries(before, st.menuID) && mid.menuID == st.menuID + |before| by {
        WalkMenu(doc, n - 1, st);
      }
      assert after.menu == mid.menu + Entries(nodes, mid.menuID) && after.menuID == mid.menuID + |nodes| by {
        WalkRuns(doc, n, st);
        SuiteStateLayout(doc, n, mid);
      }
      assert Nodes(doc[..n]) == before + nodes by {
        NodesStep(doc, n);
      }
      EntriesCompose(st.menu, st.menuID, before, nodes, mid.menu, mid.menuID, after.menu);
    }
  }

  /** The walk moves `failed` and `passed` by the failing and passing cases of the suites after the first. */
  lemma {:induction false} WalkCounters(doc: Document, n: nat, st: Snapshot)
    requires n <= |doc| && WellFormed(doc)
    ensures var after := Walk(doc, n, st).state;
            && after.failed == st.failed + FailingCases(doc[..n])
            && after.passed == st.passed + PassingCases(doc[..n])
    decreases n
  {
    if n > 0 {
      var mid := Walk(doc, n - 1, st).state;
      var after := Walk(doc, n, st).state;
      assert mid.failed == st.failed + FailingCases(doc[..n - 1])
          && mid.passed == st.passed + PassingCases(doc[..n - 1]) by {
        WalkCounters(doc, n - 1, st);
      }
      assert after == SuiteState(doc, n - 1, mid) by {
        WalkRuns(doc, n, st);
      }
      assert after.failed == mid.failed + (if n == 1 then 0 else FailingIn(doc[n - 1].cases))
          && after.passed == mid.passed + (if n == 1 then 0 else PassingIn(doc[n - 1].cases)) by {
        SuiteStateLayout(doc, n, mid);
      }
      CountsStep(doc, n);
    }
  }

  /** The counts over the first `n` suites extend those over the first `n - 1`. */
  lemma CountsStep(doc: Document, n: nat)
    requires 0 < n <= |doc|
    ensures FailingCases(doc[..n]) == FailingCases(doc[..n - 1]) + (if n == 1 then 0 else FailingIn(doc[n - 1].cases))
    ensures PassingCases(doc[..n]) == PassingCases(doc[..n - 1]) + (if n == 1 then 0 else PassingIn(doc[n - 1].cases))
  {
    assert doc[..n][..n - 1] == doc[..n - 1];
  }

  /** The state `parse` leaves behind, whether it returns or throws. */
  function FinalState(doc: Document, st: Snapshot): Snapshot
  {
    Walk(doc, |doc|, st).state
  }

  /**
   * On a well-formed document the walk appends one menu entry per suite and
   * per test case in document order (the entry of the k-th node carries
   * anchor number `menuID + k`) without touching the entries already there,
   * advances `menuID` by the number of nodes, and moves `failed` and `passed`
   * by the failing and passing cases of the suites after the first.
   */
  lemma FinalStateLayout(doc: Document, st: Snapshot)
    requires WellFormed(doc)
    ensures var after := FinalState(doc, st);
            && after.menu == st.menu + Entries(Nodes(doc), st.menuID)
            && after.menuID == st.menuID + |doc| + TotalCases(doc)
            && after.failed == st.failed + FailingCases(doc)
            && after.passed == st.passed + PassingCases(doc)
  {
    WalkMenu(doc, |doc|, st);
    WalkCounters(doc, |doc|, st);
    assert doc[..|doc|] == doc;
    NodeCount(doc);
  }

  /**
   * The counters part of `FinalStateLayout`, on its own: a cheaper projection
   * for callers that do not need the menu equation in their context.
   */
  lemma FinalCounters(doc: Document, st: Snapshot)
    requires WellFormed(doc)
    ensures var after := FinalState(doc, st);
            && after.menuID == st.menuID + |doc| + TotalCases(doc)
            && after.failed == st.failed + FailingCases(doc)
            && after.passed == st.passed + PassingCases(doc)
  {
    FinalStateLayout(doc, st);
  }

  /**
   * Rendering a well-formed document succeeds, ends by closing the container,
   * and leaves the state `FinalStateLayout` describes.
   */
  lemma RenderWellFormed(doc: Document, st: Snapshot)
    requires WellFormed(doc)
    ensures var r := Render(doc, st);
            && r.result.Ok?
            && |r.result.value| >= |ContainerClose|
            && r.result.value[|r.result.value| - |ContainerClose|..] == ContainerClose
            && r.state == FinalState(doc, st)
  {
    WalkRuns(doc, |doc|, st);
  }

  /**
   * The pass/fail totals grow by exactly the number of test cases in the
   * suites after the first; the first suite contributes nothing.
   */
  lemma RenderCountsEveryCase(doc: Document, st: Snapshot)
    requires WellFormed(doc)
    ensures var after := FinalState(doc, st);
            after.passed + after.failed == st.passed + st.failed + TotalCases(doc)
  {
    FinalStateLayout(doc, st);
    DocumentPartition(doc);
  }

  // ---------------------------------------------------------------------------
  // The HTML and the counter

  /** The HTML `parse` returns for a well-formed document when the anchor counter starts at `id`. */
  function Html(doc: Document, id: nat): string
  {
    WalkOutput(doc, |doc|, Snapshot([], id, 0, 0)) + ContainerClose
  }

  /** Only the anchor counter shapes the HTML: what the menu and the pass/fail counters hold does not. */
  lemma {:induction false} WalkOutputByCounter(doc: Document, n: nat, st: Snapshot, other: Snapshot)
    requires WellFormed(doc) && n <= |doc| && st.menuID == other.menuID
    ensures WalkOutput(doc, n, st) == WalkOutput(doc, n, other)
    decreases n
  {
    hide MenuEntry, HeadHtml, HeadFragment, SubOpening, CaseFragment, Summary, SuiteOutput, Walk, Nodes;
    if n > 0 {
      WalkOutputByCounter(doc, n - 1, st, other);
      WalkOutputStep(doc, n, st);
      WalkOutputStep(doc, n, other);
      WalkMenu(doc, n - 1, st);
      WalkMenu(doc, n - 1, other);
    }
  }

  /** `parse` of a well-formed document returns the HTML `Html` gives for the counter it starts from. */
  lemma RenderedHtml(doc: Document, st: Snapshot)
    requires WellFormed(doc)
    ensures Render(doc, st).result == Ok(Html(doc, st.menuID))
  {
    hide MenuEntry, HeadHtml, HeadFragment, SubOpening, CaseFragment, Summary, SuiteOutput, WalkOutput, Render;
    RenderOutput(doc, st);
    WalkOutputByCounter(doc, |doc|, st, Snapshot([], st.menuID, 0, 0));
  }

  // ---------------------------------------------------------------------------
  // Element ids: every element carries the anchor its menu entry links to

  /** One more suite only adds HTML after what the earlier suites wrote. */
  lemma WalkOutputExtends(doc: Document, n: nat, st: Snapshot)
    requires 0 < n <= |doc|
    ensures WalkOutput(doc, n - 1, st) <= WalkOutput(doc, n, st)
  {
    hide MenuEntry, HeadHtml, HeadFragment, SubOpening, CaseFragment, Summary, SuiteOutput;
  }

  /** The HTML of the first `m` suites begins the HTML of the first `n`. */
  lemma {:induction false} WalkOutputGrows(doc: Document, m: nat, n: nat, st: Snapshot)
    requires m <= n <= |doc|
    ensures WalkOutput(doc, m, st) <= WalkOutput(doc, n, st)
    decreases n
  {
    hide *;
    if n > m {
      var prefix := WalkOutput(doc, n - 1, st);
      assert WalkOutput(doc, m, st) <= prefix by {
        WalkOutputGrows(doc, m, n - 1, st);
      }
      assert prefix <= WalkOutput(doc, n, st) by {
        WalkOutputExtends(doc, n, st);
      }
    }
  }

  /** The nodes of the first `m` suites begin the nodes of the document. */
  lemma {:induction false} NodesGrow(doc: Document, m: nat)
    requires m <= |doc|
    ensures Nodes(doc[..m]) <= Nodes(doc)
    decreases |doc| - m
  {
    if m < |doc| {
      NodesGrow(doc, m + 1);
      NodesStep(doc, m + 1);
    } else {
      assert doc[..m] == doc;
    }
  }

  /** The k-th test case of a sub-suite is rendered with the counter at `id + k`, right after the first k. */
  lemma {:induction false} CaseRenderedAt(cases: seq<TestCase>, n: nat, id: nat, k: nat)
    requires k < n <= |cases|
    ensures CasesOutput(cases, k, id) + CaseFragment(cases[k], id + k) <= CasesOutput(cases, n, id)
    decreases n
  {
    hide MenuEntry, HeadHtml, SubOpening, CaseFragment, Summary;
    if n > k + 1 {
      CaseRenderedAt(cases, n - 1, id, k);
    }
  }

  /** Every fragment opens its element with the node's anchor, rendered from the same counter, as its `id`. */
  lemma FragmentsOpenWithAnchor(suite: Suite, test: TestCase, id: nat, shownPath: string)
    ensures |suite.properties| >= 3 ==> ElementStart(HeadNode(suite), id) <= HeadHtml(suite, id, shownPath)
    ensures |suite.properties| >= 2 ==> ElementStart(SubNode(suite), id) <= SubOpening(suite, id)
    ensures ElementStart(CaseNode(test), id) <= CaseFragment(test, id)
  {
    hide ElementStart, HeadDetails, SubDetails, CaseDetails;
  }

  /**
   * Suite `s` of a well-formed document is rendered, right after the earlier
   * suites, with the counter at `st.menuID + p`, `p` being the number of
   * nodes before it. With `CaseRenderedAt`, the k-th case of a sub-suite is
   * rendered with `st.menuID + p + 1 + k`.
   */
  lemma SuiteHtmlAt(doc: Document, st: Snapshot, s: nat)
    requires WellFormed(doc) && s < |doc|
    ensures var p := |Nodes(doc[..s])|;
            && Render(doc, st).result.Ok?
            && WalkOutput(doc, s, st) + SuiteOutput(doc, s, st.menuID + p) <= Render(doc, st).result.value
  {
    hide MenuEntry, HeadHtml, HeadFragment, SubOpening, CaseFragment, Summary, SuiteOutput, WalkOutput, Render, Walk,
         Nodes, SuiteNodes, CaseNodes, Entries, FinalState;
    var p := |Nodes(doc[..s])|;
    var html := WalkOutput(doc, s, st) + SuiteOutput(doc, s, st.menuID + p);
    assert html == WalkOutput(doc, s + 1, st) by {
      WalkOutputStep(doc, s + 1, st);
      WalkMenu(doc, s, st);
    }
    RenderOutput(doc, st);
    WalkOutputGrows(doc, s + 1, |doc|, st);
  }

  /**
   * The nodes of suite `s` sit at positions `p`, `p + 1`, ... among the
   * document's nodes, and the menu entry at position `p + k` links the anchor
   * numbered `st.menuID + p + k`: the number `SuiteHtmlAt` renders that node
   * with. By `FragmentsOpenWithAnchor` each element's `id` is therefore the
   * target of its own menu entry, and by `AnchorsDistinct` no two elements
   * share one.
   */
  lemma SuiteEntriesAt(doc: Document, st: Snapshot, s: nat)
    requires WellFormed(doc) && s < |doc|
    ensures var p := |Nodes(doc[..s])|;
            var nodes := SuiteNodes(doc[s], s == 0);
            var menu := FinalState(doc, st).menu;
            && p + |nodes| <= |Nodes(doc)| && |menu| == |st.menu| + |Nodes(doc)|
            && (forall k | 0 <= k < |nodes| ::
                  Nodes(doc)[p + k] == nodes[k] && menu[|st.menu| + p + k] == MenuEntry(nodes[k], st.menuID + p + k))
  {
    hide MenuEntry, HeadHtml, HeadFragment, SubOpening, CaseFragment, Summary, SuiteOutput, WalkOutput, Render, Walk,
         Nodes, SuiteNodes, CaseNodes, Entries, FinalState;
    var p := |Nodes(doc[..s])|;
    var nodes := SuiteNodes(doc[s], s == 0);
    var all := Nodes(doc);
    assert Nodes(doc[..s]) + nodes <= all by {
      NodesStep(doc, s + 1);
      NodesGrow(doc, s + 1);
    }
    assert FinalState(doc, st).menu == st.menu + Entries(all, st.menuID) by {
      FinalStateLayout(doc, st);
    }
    EntriesOfRun(Nodes(doc[..s]), nodes, all, st.menu, st.menuID);
  }

  /** A run of nodes inside a longer one: its entries sit at its own positions, numbered from there. */
  lemma EntriesOfRun(before: seq<Node>, nodes: seq<Node>, all: seq<Node>, menu: seq<string>, id: nat)
    requires before + nodes <= all
    ensures |menu + Entries(all, id)| == |menu| + |all|
    ensures forall k | 0 <= k < |nodes| ::
              all[|before| + k] == nodes[k]
              && (menu + Entries(all, id))[|menu| + |before| + k] == MenuEntry(nodes[k], id + |before| + k)
  {
    hide MenuEntry, Entries;
    EntriesLength(all, id);
    forall k | 0 <= k < |nodes|
      ensures all[|before| + k] == nodes[k]
      ensures (menu + Entries(all, id))[|menu| + |before| + k] == MenuEntry(nodes[k], id + |before| + k)
    {
      assert all[|before| + k] == (before + nodes)[|before| + k];
      EntryAt(all, id, |before| + k);
    }
  }

  /** On a well-formed document, suite `n - 1` adds its HTML rendered with the counter the walk had reached. */
  lemma WalkOutputStep(doc: Document, n: nat, st: Snapshot)
    requires WellFormed(doc) && 0 < n <= |doc|
    ensures WalkOutput(doc, n, st) == WalkOutput(doc, n - 1, st) + SuiteOutput(doc, n - 1, Walk(doc, n - 1, st).state.menuID)
  {
    hide MenuEntry, HeadHtml, HeadFragment, SubOpening, CaseFragment, Summary, SuiteOutput;
  }

  /** `parse` of a well-formed document returns the walk's HTML with the container closed. */
  lemma RenderOutput(doc: Document, st: Snapshot)
    requires WellFormed(doc)
    ensures Render(doc, st).result == Ok(WalkOutput(doc, |doc|, st) + ContainerClose)
  {
    hide MenuEntry, HeadHtml, HeadFragment, SubOpening, CaseFragment, Summary, SuiteOutput;
    WalkRuns(doc, |doc|, st);
  }

  // ---------------------------------------------------------------------------
  // `cleanMenu`: the summary entry, the closing entry, the counters reset

  /** The entry that heads the menu: the report date and the failed and passed totals in decimal. */
  function Summary(generationDate: string, failed: nat, passed: nat): string
  {
    "<li id=\"nav_counts\">Report: " + generationDate
    + "<br><span class=\"has_error\">FAILED: " + NatToString(failed)
    + "</span><br><br><span>PASSED: " + NatToString(passed)
    + "</span><br></li>"
  }

  /** The entry that ends the menu and opens the content area. */
  const MenuClose: string :=
    "<li style=\"padding:8px 16px;\">"
    + "<button onclick=\"openall()\">Open/Close all Tests</button></li></ul></nav>\n<div id=\"content\">"

  /**
   * `cleanMenu()`: the entry at index 0 becomes the summary (on an empty menu
   * the assignment creates it), the closing entry is appended, and the
   * pass/fail counters start again from zero. The anchor counter is kept.
   */
  function Cleaned(st: Snapshot, generationDate: string): Snapshot
  {
    var summary := Summary(generationDate, st.failed, st.passed);
    var headed := if |st.menu| == 0 then [summary] else [summary] + st.menu[1..];
    Snapshot(headed + [MenuClose], st.menuID, 0, 0)
  }

  /** `cleanMenu` on a non-empty menu: the summary replaces the first entry, the rest stay in order. */
  lemma CleanedReplacesFirst(st: Snapshot, generationDate: string, rest: seq<string>, failed: nat, passed: nat)
    requires |st.menu| > 0 && st.menu[1..] == rest && st.failed == failed && st.passed == passed
    ensures Cleaned(st, generationDate).menu == [Summary(generationDate, failed, passed)] + rest + [MenuClose]
    ensures Cleaned(st, generationDate).menuID == st.menuID
    ensures Cleaned(st, generationDate).failed == 0 && Cleaned(st, generationDate).passed == 0
  {
  }

  /** Parse from a menu holding one placeholder: after the placeholder come the entries of every node. */
  lemma FinalMenuAfterPlaceholder(doc: Document, st: Snapshot)
    requires WellFormed(doc) && |st.menu| == 1
    ensures |FinalState(doc, st).menu| > 0 && FinalState(doc, st).menu[1..] == Entries(Nodes(doc), st.menuID)
  {
    hide MenuEntry, HeadHtml, SubOpening, CaseFragment, Summary;
    FinalStateLayout(doc, st);
    DropPlaceholder(st.menu, Entries(Nodes(doc), st.menuID));
  }

  /** Parse from an empty menu: the menu is the entries of every node, at least one of them. */
  lemma FinalMenuAfterEmpty(doc: Document, st: Snapshot)
    requires WellFormed(doc) && |doc| > 0 && st.menu == []
    ensures |FinalState(doc, st).menu| > 0 && FinalState(doc, st).menu[1..] == Entries(Nodes(doc)[1..], st.menuID + 1)
  {
    hide *;
    var nodes := Nodes(doc);
    assert FinalState(doc, st).menu == Entries(nodes, st.menuID) by {
      FinalStateLayout(doc, st);
      assert [] + Entries(nodes, st.menuID) == Entries(nodes, st.menuID);
    }
    assert |nodes| > 0 by {
      NodeCount(doc);
    }
    EntriesLength(nodes, st.menuID);
    EntriesTail(nodes, st.menuID);
  }

  lemma EntriesTail(nodes: seq<Node>, id: nat)
    requires |nodes| > 0
    ensures Entries(nodes, id)[1..] == Entries(nodes[1..], id + 1)
  {
    assert Entries(nodes, id) == [MenuEntry(nodes[0], id)] + Entries(nodes[1..], id + 1);
  }

  /**
   * After `parse` from a menu holding one placeholder, `cleanMenu` leaves the
   * summary of this walk's counts, the entry of every node in document order,
   * and the closing entry.
   */
  lemma CleanedAfterPlaceholder(doc: Document, st: Snapshot, generationDate: string)
    requires WellFormed(doc) && |st.menu| == 1
    ensures Cleaned(FinalState(doc, st), generationDate).menu
         == [Summary(generationDate, st.failed + FailingCases(doc), st.passed + PassingCases(doc))]
            + Entries(Nodes(doc), st.menuID) + [MenuClose]
  {
    hide *;
    FinalMenuAfterPlaceholder(doc, st);
    FinalCounters(doc, st);
    CleanedReplacesFirst(FinalState(doc, st), generationDate, Entries(Nodes(doc), st.menuID),
                         st.failed + FailingCases(doc), st.passed + PassingCases(doc));
  }

  /** `cleanMenu` on any state: the summary replaces the first entry (or is created), the closing entry follows. */
  lemma CleanedShape(st: Snapshot, generationDate: string)
    ensures |st.menu| > 0 ==> Cleaned(st, generationDate).menu
                              == [Summary(generationDate, st.failed, st.passed)] + st.menu[1..] + [MenuClose]
    ensures |st.menu| == 0 ==> Cleaned(st, generationDate).menu
                               == [Summary(generationDate, st.failed, st.passed), MenuClose]
  {
  }

  // ---------------------------------------------------------------------------
  // Which menu entries link a suite header

  /** An entry whose class is `head`: the link to a result file's container. */
  predicate IsHeaderEntry(entry: string)
  {
    |entry| >= 16 && entry[..16] == "<li class=\"head\""
  }

  /** A node's entry has the class `head` exactly when the node is a suite header. */
  lemma HeaderEntryIffHead(node: Node, id: nat)
    ensures IsHeaderEntry(MenuEntry(node, id)) <==> node.HeadNode?
  {
    var e := MenuEntry(node, id);
    var cls := EntryClass(node);
    EntryOpening(node, id);
    assert e[11] == (EntryOpen + cls)[11] == cls[0];
    if node.HeadNode? {
      assert e[..16] == e[..15] + [e[15]];
    } else {
      assert "<li class=\"head\""[11] == 'h';
    }
  }

  /** Neither the summary nor the closing entry is a header entry. */
  lemma SummaryAndCloseAreNotHeaders(generationDate: string, failed: nat, passed: nat)
    ensures !IsHeaderEntry(Summary(generationDate, failed, passed))
    ensures !IsHeaderEntry(MenuClose)
  {
    var summary := Summary(generationDate, failed, passed);
    assert summary[4] == 'i';
    assert MenuClose[4] == "<li style=\"padding:8px 16px;\">"[4] == 's';
    assert "<li class=\"head\""[4] == 'c';
  }

  /** The first node of a document is its header; no other node is. */
  lemma {:induction false} OnlyFirstNodeIsHeader(doc: Document)
    requires |doc| > 0
    ensures |Nodes(doc)| > 0 && Nodes(doc)[0] == HeadNode(doc[0])
    ensures forall k | 1 <= k < |Nodes(doc)| :: !Nodes(doc)[k].HeadNode?
    decreases |doc|
  {
    var n := |doc|;
    if n > 1 {
      var front := doc[..n - 1];
      var before, added := Nodes(front), SuiteNodes(doc[n - 1], false);
      assert |before| > 0 && before[0] == HeadNode(doc[0]) && forall k | 1 <= k < |before| :: !before[k].HeadNode? by {
        OnlyFirstNodeIsHeader(front);
        assert front[0] == doc[0];
      }
      assert forall k | 0 <= k < |added| :: !added[k].HeadNode? by {
        SubSuiteHasNoHeader(doc[n - 1]);
      }
      assert Nodes(doc) == before + added;
      HeaderStaysFirst(before, added);
    } else {
      assert Nodes(doc) == Nodes(doc[..0]) + [HeadNode(doc[0])];
    }
  }

  /** A sub-suite contributes no header node. */
  lemma SubSuiteHasNoHeader(suite: Suite)
    ensures forall k | 0 <= k < |SuiteNodes(suite, false)| :: !SuiteNodes(suite, false)[k].HeadNode?
  {
    var cases := CaseNodes(suite.cases);
    assert SuiteNodes(suite, false) == [SubNode(suite)] + cases;
    forall k | 0 <= k < |SuiteNodes(suite, false)| ensures !SuiteNodes(suite, false)[k].HeadNode? {
      if k > 0 {
        assert SuiteNodes(suite, false)[k] == cases[k - 1];
      }
    }
  }

  /** Appending nodes without a header keeps the header first and alone. */
  lemma HeaderStaysFirst(before: seq<Node>, added: seq<Node>)
    requires |before| > 0 && forall k | 1 <= k < |before| :: !before[k].HeadNode?
    requires forall k | 0 <= k < |added| :: !added[k].HeadNode?
    ensures (before + added)[0] == before[0]
    ensures forall k | 1 <= k < |before + added| :: !(before + added)[k].HeadNode?
  {
    forall k | 1 <= k < |before + added| ensures !(before + added)[k].HeadNode? {
      if k >= |before| {
        assert (before + added)[k] == added[k - |before|];
      }
    }
  }

  /** Entries of nodes none of which is a header: none is a header entry. */
  lemma EntriesWithoutHeaders(nodes: seq<Node>, id: nat)
    requires forall k | 0 <= k < |nodes| :: !nodes[k].HeadNode?
    ensures |Entries(nodes, id)| == |nodes|
    ensures forall k | 0 <= k < |nodes| :: !IsHeaderEntry(Entries(nodes, id)[k])
  {
    EntriesLength(nodes, id);
    forall k | 0 <= k < |nodes| ensures !IsHeaderEntry(Entries(nodes, id)[k]) {
      EntryAt(nodes, id, k);
      HeaderEntryIffHead(nodes[k], id + k);
    }
  }

  lemma DropPlaceholder(placeholder: seq<string>, entries: seq<string>)
    requires |placeholder| == 1
    ensures |placeholder + entries| > 0 && (placeholder + entries)[1..] == entries
  {
  }
}
