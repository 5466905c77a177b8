/**
 * What `parse()` and `calculateCoverage` promise, proved of the model in
 * `XmlReportParser`: the shape and order of the result list, the SDK name on
 * every result, when the call throws and with which exception, and which
 * parts of a node its coverage depends on.
 */
module ReportProperties {
  import opened JavaLang
  import opened Dom
  import opened XmlReportParser

  // ---------------------------------------------------------------------------
  // The loop over the sources
  // ---------------------------------------------------------------------------

  /**
   * The loop succeeds exactly when every source's coverage can be computed,
   * and then its i-th result is the i-th source's name and coverage.
   */
  lemma {:induction false} SourceResultsPointwise(sdk: string, sources: seq<Element>)
    ensures SourceResults(sdk, sources).Ok? <==>
      forall i :: 0 <= i < |sources| ==> CalculateCoverage(sources[i]).Ok?
    ensures SourceResults(sdk, sources).Ok? ==>
      forall i :: 0 <= i < |sources| ==>
        SourceResults(sdk, sources).value[i] == SourceResult(sdk, sources[i], CalculateCoverage(sources[i]).value)
  {
    if sources != [] {
      var n := |sources|;
      var init := sources[..n - 1];
      SourceResultsPointwise(sdk, init);
      assert forall i :: 0 <= i < n - 1 ==> init[i] == sources[i];
    }
  }

  /** When the loop throws, it throws what the first failing source threw. */
  lemma SourceResultsFirstException(sdk: string, sources: seq<Element>, k: nat)
    requires k < |sources| && CalculateCoverage(sources[k]).Thrown?
    requires forall j :: 0 <= j < k ==> CalculateCoverage(sources[j]).Ok?
    ensures SourceResults(sdk, sources) == Thrown(CalculateCoverage(sources[k]).error)
  {
    var init := sources[..k];
    assert forall j :: 0 <= j < k ==> init[j] == sources[j];
    SourceResultsPointwise(sdk, init);
    SourceResultsStep(sdk, sources, k, SourceResults(sdk, init).value);
  }

  // ---------------------------------------------------------------------------
  // parse()
  // ---------------------------------------------------------------------------

  /**
   * `parse()` returns a list (rather than throwing) exactly when the root is a
   * `report` and the coverage of the report and of every source file can be
   * computed.
   */
  lemma ParseReportSucceedsIff(sdk: string, d: Document)
    ensures ParseReport(sdk, d).Ok? <==>
      && d.root.tag == "report"
      && CalculateCoverage(d.root).Ok?
      && forall i :: 0 <= i < |Sources(d)| ==> CalculateCoverage(Sources(d)[i]).Ok?
  {
    SourceResultsPointwise(sdk, Sources(d));
  }

  /**
   * A successful `parse()` returns the SDK's result first, with an empty sub
   * path and the report's own coverage, then one result per `sourcefile`
   * element, in document order, carrying its `name` and its coverage.
   */
  lemma ParseReportShape(sdk: string, d: Document)
    requires ParseReport(sdk, d).Ok?
    ensures var rs := ParseReport(sdk, d).value;
      && |rs| == 1 + |Sources(d)|
      && rs[0] == Result(sdk, "", CalculateCoverage(d.root).value)
      && forall i :: 0 <= i < |Sources(d)| ==>
           CalculateCoverage(Sources(d)[i]).Ok? &&
           rs[i + 1] == Result(sdk, ValueOf(Sources(d)[i], "name"), CalculateCoverage(Sources(d)[i]).value)
  {
    var c := CalculateCoverage(d.root).value;
    var loop := SourceResults(sdk, Sources(d));
    ParseReportAfterLoop(sdk, d, c, loop);
    ResultsAfterHead(sdk, Sources(d), Result(sdk, "", c));
  }

  /** The loop's results placed after a head result: one per source, in order. */
  lemma ResultsAfterHead(sdk: string, sources: seq<Element>, head: Result)
    requires SourceResults(sdk, sources).Ok?
    ensures var rs := [head] + SourceResults(sdk, sources).value;
      && |rs| == 1 + |sources|
      && forall i :: 0 <= i < |sources| ==>
           CalculateCoverage(sources[i]).Ok? &&
           rs[i + 1] == Result(sdk, ValueOf(sources[i], "name"), CalculateCoverage(sources[i]).value)
  {
    SourceResultsPointwise(sdk, sources);
  }

  /** The list holds one result more than the document holds `sourcefile` elements. */
  lemma ResultCountIsSourcefileCount(sdk: string, d: Document)
    requires ParseReport(sdk, d).Ok?
    ensures |ParseReport(sdk, d).value| == 1 + CountTag(d.root, "sourcefile")
  {
    ParseReportShape(sdk, d);
    SelectAllCount(d.root, "sourcefile");
  }

  /** Every result carries the SDK name given to the constructor. */
  lemma EveryResultCarriesSdk(sdk: string, d: Document)
    requires ParseReport(sdk, d).Ok?
    ensures forall r :: r in ParseReport(sdk, d).value ==> r.sdk == sdk
  {
    ParseReportShape(sdk, d);
    var rs := ParseReport(sdk, d).value;
    forall i | 0 <= i < |rs| ensures rs[i].sdk == sdk {
      if i > 0 {
        assert CalculateCoverage(Sources(d)[i - 1]).Ok?;
        assert rs[(i - 1) + 1] == rs[i];
      }
    }
  }

  /**
   * Once the report's own coverage is computed, a failing `parse()` throws
   * the exception of the first source file, in document order, whose
   * coverage fails.
   */
  lemma ParseReportThrowsFirst(sdk: string, d: Document, k: nat)
    requires d.root.tag == "report" && CalculateCoverage(d.root).Ok?
    requires k < |Sources(d)| && CalculateCoverage(Sources(d)[k]).Thrown?
    requires forall j :: 0 <= j < k ==> CalculateCoverage(Sources(d)[j]).Ok?
    ensures ParseReport(sdk, d) == Thrown(CalculateCoverage(Sources(d)[k]).error)
  {
    SourceResultsFirstException(sdk, Sources(d), k);
  }

  /** A report whose own coverage throws makes `parse()` throw that exception, before any source file is read. */
  lemma ParseReportRethrowsReportCoverage(sdk: string, d: Document)
    requires d.root.tag == "report" && CalculateCoverage(d.root).Thrown?
    ensures ParseReport(sdk, d) == Thrown(CalculateCoverage(d.root).error)
    ensures ParseReport(sdk, d).error.NumberFormat?
  {
  }

  /** Without a `report` root, `calculateCoverage(null)` throws before anything is collected. */
  lemma ParseReportWithoutReportRoot(sdk: string, d: Document)
    requires d.root.tag != "report"
    ensures ParseReport(sdk, d) == Thrown(NullPointer)
  {
  }

  // ---------------------------------------------------------------------------
  // calculateCoverage
  // ---------------------------------------------------------------------------

  /** A node none of whose children is a LINE counter has coverage exactly 0. */
  lemma CoverageWithoutLineCounter(node: Element)
    requires forall j :: 0 <= j < |node.children| ==> !IsLineCounter(node.children[j])
    ensures CalculateCoverage(node) == Ok(Finite(0.0))
  {
  }

  /**
   * The node's first LINE-counter child decides its coverage: with
   * non-negative counts and at least one line, the coverage is
   * covered / (covered + missed), which lies between 0 and 1.
   */
  lemma CoverageIsLineRatio(node: Element, i: nat, covered: int, missed: int)
    requires i < |node.children| && IsLineCounter(node.children[i])
    requires forall j :: 0 <= j < i ==> !IsLineCounter(node.children[j])
    requires ParseInt(ValueOf(node.children[i], "covered")) == Some(covered)
    requires ParseInt(ValueOf(node.children[i], "missed")) == Some(missed)
    requires covered >= 0 && missed >= 0 && covered + missed > 0
    ensures CalculateCoverage(node).Ok? && CalculateCoverage(node).value.Finite?
    ensures CalculateCoverage(node).value.value == covered as real / (covered + missed) as real
    ensures 0.0 <= CalculateCoverage(node).value.value <= 1.0
  {
    FirstLineCounterIs(node, i);
    RatioInUnitInterval(covered, covered + missed);
  }

  /** A part over a positive whole lies between 0 and 1. */
  lemma RatioInUnitInterval(part: int, whole: int)
    requires 0 <= part <= whole && whole > 0
    ensures 0.0 <= part as real / whole as real <= 1.0
  {
  }

  /** A LINE counter with no lines at all (0 covered, 0 missed) gives NaN, the value of 0.0 / 0 in Java. */
  lemma CoverageOfEmptyCounterIsNaN(node: Element, i: nat)
    requires i < |node.children| && IsLineCounter(node.children[i])
    requires forall j :: 0 <= j < i ==> !IsLineCounter(node.children[j])
    requires ParseInt(ValueOf(node.children[i], "covered")) == Some(0)
    requires ParseInt(ValueOf(node.children[i], "missed")) == Some(0)
    ensures CalculateCoverage(node) == Ok(NaN)
  {
    FirstLineCounterIs(node, i);
  }

  /**
   * A `covered` or `missed` text of the first LINE counter that
   * `Integer.parseInt` rejects makes the coverage throw, `covered` being read first.
   */
  lemma CoverageRejectsNonNumericCounter(node: Element, i: nat)
    requires i < |node.children| && IsLineCounter(node.children[i])
    requires forall j :: 0 <= j < i ==> !IsLineCounter(node.children[j])
    requires ParseInt(ValueOf(node.children[i], "covered")) == None ||
             ParseInt(ValueOf(node.children[i], "missed")) == None
    ensures CalculateCoverage(node).Thrown?
    ensures ParseInt(ValueOf(node.children[i], "covered")) == None ==>
      CalculateCoverage(node) == Thrown(NumberFormat(ValueOf(node.children[i], "covered")))
    ensures ParseInt(ValueOf(node.children[i], "covered")).Some? ==>
      CalculateCoverage(node) == Thrown(NumberFormat(ValueOf(node.children[i], "missed")))
  {
    FirstLineCounterIs(node, i);
  }

  /** The LINE counter `calculateCoverage` reads is the first LINE-counter child. */
  lemma FirstLineCounterIs(node: Element, i: nat)
    requires i < |node.children| && IsLineCounter(node.children[i])
    requires forall j :: 0 <= j < i ==> !IsLineCounter(node.children[j])
    ensures LineCounter(node) == Some(node.children[i])
  {
  }

  /**
   * Coverage is local to the node's own children: adding a child that is not
   * a LINE counter (a `sourcefile` under a `report`, say, whatever counters
   * it holds), or any child after the first LINE counter, leaves it unchanged.
   */
  lemma CoverageIgnoresOtherChildren(node: Element, k: nat, extra: Element)
    requires k <= |node.children|
    requires !IsLineCounter(extra) ||
             exists j :: 0 <= j < k && IsLineCounter(node.children[j])
    ensures var cs := node.children;
      CalculateCoverage(node.(children := cs[..k] + [extra] + cs[k..])) == CalculateCoverage(node)
  {
    var cs := node.children;
    var wider := node.(children := cs[..k] + [extra] + cs[k..]);
    var r := FirstChild(cs, "counter", "type", "LINE");
    if r.Some? && r.value < k {
      var i := r.value;
      forall j | 0 <= j <= i ensures wider.children[j] == cs[j] {
        assert (cs[..k] + [extra] + cs[k..])[j] == cs[..k][j];
      }
      FirstLineCounterIs(node, i);
      FirstLineCounterIs(wider, i);
    } else if r.Some? {
      var i := r.value;
      assert !IsLineCounter(extra);
      forall j | 0 <= j <= i + 1 && j != k
        ensures wider.children[j] == cs[if j < k then j else j - 1]
      {
        if j < k {
          assert (cs[..k] + [extra] + cs[k..])[j] == cs[..k][j];
        } else {
          assert (cs[..k] + [extra] + cs[k..])[j] == cs[k..][j - k - 1];
        }
      }
      assert wider.children[k] == extra;
      FirstLineCounterIs(node, i);
      FirstLineCounterIs(wider, i + 1);
    } else {
      forall j | 0 <= j < |wider.children| ensures !IsLineCounter(wider.children[j]) {
        if j < k {
          assert wider.children[j] == cs[j];
        } else if j > k {
          assert wider.children[j] == cs[j - 1];
        }
      }
      CoverageWithoutLineCounter(wider);
      CoverageWithoutLineCounter(node);
    }
  }

  // ---------------------------------------------------------------------------
  // A worked report
  // ---------------------------------------------------------------------------

  function LineCounterElement(covered: string, missed: string): Element
  {
    Element("counter", map["type" := "LINE", "covered" := covered, "missed" := missed], [])
  }

  function FileA(): Element
  {
    Element("sourcefile", map["name" := "A.java"], [LineCounterElement("10", "0")])
  }

  function FileB(): Element
  {
    Element("sourcefile", map["name" := "B.java"], [])
  }

  /**
   * A report whose own LINE counter (80 covered, 20 missed) follows a package
   * of two source files: A.java (10 covered, 0 missed) and B.java (no LINE
   * counter).
   */
  function TwoFileReport(): Document
  {
    var package := Element("package", map["name" := "com/example"], [FileA(), FileB()]);
    Document(Element("report", map["name" := "sdk1"], [package, LineCounterElement("80", "20")]))
  }

  /** `//sourcefile` finds the two files, below the package, in document order. */
  lemma TwoFileReportSources()
    ensures Sources(TwoFileReport()) == [FileA(), FileB()]
  {
    var report := TwoFileReport().root;
    SourcesOfPackagedPair(report, report.children[0], FileA(), FileB(), FileA().children[0], report.children[1]);
  }

  /** The shape of `TwoFileReport`, with everything but the tags and the children left open. */
  lemma SourcesOfPackagedPair(report: Element, package: Element, a: Element, b: Element, ca: Element, cr: Element)
    requires report.children == [package, cr] && package.children == [a, b]
    requires a.children == [ca] && b.children == [] && ca.children == [] && cr.children == []
    requires a.tag == "sourcefile" && b.tag == "sourcefile"
    requires report.tag != "sourcefile" && package.tag != "sourcefile"
    requires ca.tag != "sourcefile" && cr.tag != "sourcefile"
    ensures Filter(Preorder(report), "sourcefile") == [a, b]
  {
    var t := "sourcefile";
    assert Filter(PreorderForest([]), t) == [];
    assert Filter(Preorder(ca), t) == [] by { SelectSubtree(ca, t); }
    assert Filter(Preorder(cr), t) == [] by { SelectSubtree(cr, t); }
    assert Filter(Preorder(b), t) == [b] by { SelectSubtree(b, t); }
    assert Filter(Preorder(a), t) == [a] by {
      SelectSubtree(a, t);
      SelectForest([ca], t);
      assert [ca][1..] == [];
    }
    assert Filter(PreorderForest([b]), t) == [b] by {
      SelectForest([b], t);
      assert [b][1..] == [];
    }
    assert Filter(Preorder(package), t) == [a, b] by {
      SelectSubtree(package, t);
      SelectForest([a, b], t);
      assert [a, b][1..] == [b];
    }
    assert Filter(PreorderForest([cr]), t) == [] by {
      SelectForest([cr], t);
      assert [cr][1..] == [];
    }
    SelectSubtree(report, t);
    SelectForest([package, cr], t);
    assert [package, cr][1..] == [cr];
  }

  /** The decimal texts of the example's counters parse to their values. */
  lemma ParsesAs(n: int, text: string)
    requires InInt(n) && text == ToString(n)
    ensures ParseInt(text) == Some(n)
  {
    ParseIntOfToString(n);
  }

  /** The report's own counter, not the files' ones, gives it 80 / (80 + 20). */
  lemma TwoFileReportCoverage()
    ensures CalculateCoverage(TwoFileReport().root) == Ok(Finite(0.8))
  {
    var counter := TwoFileReport().root.children[1];
    ParsesAs(80, ValueOf(counter, "covered"));
    ParsesAs(20, ValueOf(counter, "missed"));
    CoverageIsLineRatio(TwoFileReport().root, 1, 80, 20);
  }

  /** A.java's counter gives 10 / (10 + 0). */
  lemma FileACoverage()
    ensures CalculateCoverage(FileA()) == Ok(Finite(1.0))
  {
    var counter := FileA().children[0];
    ParsesAs(10, ValueOf(counter, "covered"));
    ParsesAs(0, ValueOf(counter, "missed"));
    CoverageIsLineRatio(FileA(), 0, 10, 0);
  }

  /** The report gives 0.8, A.java 1.0 and B.java, without a counter, 0. */
  lemma TwoFileReportCoverages()
    ensures CalculateCoverage(TwoFileReport().root) == Ok(Finite(0.8))
    ensures CalculateCoverage(FileA()) == Ok(Finite(1.0))
    ensures CalculateCoverage(FileB()) == Ok(Finite(0.0))
  {
    TwoFileReportCoverage();
    FileACoverage();
    CoverageWithoutLineCounter(FileB());
  }

  /** `parse()` on the two-file report, for the SDK "sdk1". */
  lemma TwoFileReportResults()
    ensures ParseReport("sdk1", TwoFileReport()) == Ok([
      Result("sdk1", "", Finite(0.8)),
      Result("sdk1", "A.java", Finite(1.0)),
      Result("sdk1", "B.java", Finite(0.0))])
  {
    TwoFileReportSources();
    TwoFileReportCoverages();
    ResultsOfTwoSources("sdk1", TwoFileReport(), FileA(), FileB());
  }

  /** `parse()` on a report with two source files, given the three coverages. */
  lemma ResultsOfTwoSources(sdk: string, d: Document, a: Element, b: Element)
    requires d.root.tag == "report" && Sources(d) == [a, b]
    requires CalculateCoverage(d.root).Ok? && CalculateCoverage(a).Ok? && CalculateCoverage(b).Ok?
    ensures ParseReport(sdk, d) == Ok([
      Result(sdk, "", CalculateCoverage(d.root).value),
      Result(sdk, ValueOf(a, "name"), CalculateCoverage(a).value),
      Result(sdk, ValueOf(b, "name"), CalculateCoverage(b).value)])
  {
    assert Sources(d)[0] == a && Sources(d)[1] == b;
    assert forall i :: 0 <= i < |Sources(d)| ==> CalculateCoverage(Sources(d)[i]).Ok?;
    ParseReportSucceedsIff(sdk, d);
    ParseReportShape(sdk, d);
    var rs := ParseReport(sdk, d).value;
    assert |rs| == 3;
    assert rs[0 + 1] == Result(sdk, ValueOf(a, "name"), CalculateCoverage(a).value);
    assert rs[1 + 1] == Result(sdk, ValueOf(b, "name"), CalculateCoverage(b).value);
    assert rs[0] == Result(sdk, "", CalculateCoverage(d.root).value);
    assert rs == [rs[0], rs[1], rs[2]];
  }
}
