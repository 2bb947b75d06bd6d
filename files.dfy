/**
 * The string handling around the input and output files: which directory
 * entries are read as result files, what each report is called, and how the
 * single-file mode glues the rendered results together.
 */
module Files {
  import opened Text

  /** `s.substr(-k)`: the last `k` characters, or all of `s` when it is shorter. */
  function LastChars(s: string, k: nat): (r: string)
    ensures |r| == (if |s| <= k then |s| else k)
    ensures r == s[|s| - |r|..]
  {
    if |s| <= k then s else s[|s| - k..]
  }

  /** `s.substr(0, s.length - k)`: a negative length counts as zero, leaving the empty string. */
  function DropLast(s: string, k: nat): (r: string)
    ensures |r| == (if |s| <= k then 0 else |s| - k)
    ensures r == s[..|r|]
  {
    if |s| <= k then "" else s[..|s| - k]
  }

  /**
   * The directory entries that are read as result files: the last four
   * characters are `.xml` (`XmlTestMatchesSubstr` ties this to
   * `file.substr(-4) == '.xml'`).
   */
  predicate IsXml(name: string)
  {
    |name| >= 4 && name[|name| - 4] == '.' && name[|name| - 3] == 'x' && name[|name| - 2] == 'm'
    && name[|name| - 1] == 'l'
  }

  /** The character test is the source's `file.substr(-4) == '.xml'`, a shorter name included. */
  lemma XmlTestMatchesSubstr(name: string)
    ensures IsXml(name) <==> LastChars(name, 4) == ".xml"
  {
    var last := LastChars(name, 4);
    if |name| >= 4 {
      assert last == name[|name| - 4..];
      assert last[0] == name[|name| - 4] && last[1] == name[|name| - 3];
      assert last[2] == name[|name| - 2] && last[3] == name[|name| - 1];
    }
  }

  /** The last `\`-separated segment of a path. */
  function BaseName(file: string): string
  {
    var parts := Split(file, '\\');
    parts[|parts| - 1]
  }

  /** The report written for one result file: its base name without the last four characters, then `.html`. */
  function OutputName(file: string): string
  {
    DropLast(BaseName(file), 4) + ".html"
  }

  /** The name of the report that merges every result file. */
  function MergedName(generationDate: string): string
  {
    "alltests-" + generationDate + ".html"
  }

  /** What stands between two rendered result files in the merged report. */
  const ResultSeparator: string := "\n\n<!--New Result File-->\n"

  /** `allFiles.join(...)`: the rendered result files, the separator between neighbours. */
  function MergeResults(results: seq<string>): string
  {
    Join(results, ResultSeparator)
  }

  /** A name is read as a result file exactly when it is some stem followed by `.xml`. */
  lemma XmlIffStem(name: string)
    ensures IsXml(name) <==> |name| >= 4 && name == name[..|name| - 4] + ".xml"
  {
    if |name| >= 4 && name == name[..|name| - 4] + ".xml" {
      assert name[|name| - 4..] == ".xml";
    }
  }

  /** A result file `stem.xml` is reported as `stem.html`. */
  lemma OutputNameOfXml(stem: string)
    requires '\\' !in stem
    ensures OutputName(stem + ".xml") == stem + ".html"
  {
    var name := stem + ".xml";
    assert '\\' !in ".xml";
    assert '\\' !in name by {
      forall i | 0 <= i < |name| ensures name[i] != '\\' {
        if i < |stem| {
          assert name[i] == stem[i];
        } else {
          assert name[i] == ".xml"[i - |stem|];
        }
      }
    }
    SplitWhole(name, '\\');
    assert name[..|name| - 4] == stem;
  }

  /** Only the last path segment names the report: `dir\stem.xml` is reported as `stem.html`. */
  lemma OutputNameDropsDirectory(dir: string, stem: string)
    requires '\\' !in stem
    ensures OutputName(dir + "\\" + stem + ".xml") == stem + ".html"
  {
    var base := stem + ".xml";
    assert dir + "\\" + stem + ".xml" == dir + ['\\'] + base;
    SplitAround(dir, base, '\\');
    OutputNameOfXml(stem);
    SplitWhole(base, '\\');
  }

  /** Merging one more result appends the separator and that result. */
  lemma MergeAppend(results: seq<string>, result: string)
    requires |results| >= 1
    ensures MergeResults(results + [result]) == MergeResults(results) + ResultSeparator + result
  {
    JoinAppend(results, [result], ResultSeparator);
  }
}
