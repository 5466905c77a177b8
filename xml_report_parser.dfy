/**
 * The JaCoCo XML report extractor: given an SDK name and a parsed report, it
 * produces the SDK's overall line coverage followed by the line coverage of
 * every source file, in document order.
 */
module XmlReportParser {
  import opened JavaLang
  import opened Dom

  /**
   * The value of the Java `double` expression `(double) covered / (covered + missed)`,
   * kept exact: a finite quotient, or one of the three values that a division
   * by zero yields in IEEE arithmetic.
   */
  datatype Coverage = Finite(value: real) | PositiveInfinity | NegativeInfinity | NaN

  /** One metric: the SDK, the file it is about ("" for the whole SDK) and its line coverage. */
  datatype Result = Result(sdk: string, subPath: string, coverage: Coverage)

  /** Java's `double` division of two `int`s, without rounding. */
  function Divide(numerator: int, denominator: int): (q: Coverage)
    ensures denominator != 0 ==> q.Finite? && q.value * denominator as real == numerator as real
    ensures denominator == 0 ==> (q.NaN? <==> numerator == 0)
    ensures denominator == 0 ==> (q.PositiveInfinity? <==> numerator > 0)
    ensures denominator == 0 ==> (q.NegativeInfinity? <==> numerator < 0)
  {
    if denominator != 0 then Finite(numerator as real / denominator as real)
    else if numerator > 0 then PositiveInfinity
    else if numerator < 0 then NegativeInfinity
    else NaN
  }

  /** Does `e` satisfy the XPath step `counter[@type='LINE']`? */
  predicate IsLineCounter(e: Element)
  {
    Matches(e, "counter", "type", "LINE")
  }

  /** `node.selectSingleNode("counter[@type='LINE']")`. */
  function LineCounter(node: Element): (r: Option<Element>)
    ensures r.Some? ==> r.value in node.children && IsLineCounter(r.value)
    ensures r.None? ==> forall j :: 0 <= j < |node.children| ==> !IsLineCounter(node.children[j])
  {
    match FirstChild(node.children, "counter", "type", "LINE")
    case None => None
    case Some(i) => Some(node.children[i])
  }

  /**
   * `calculateCoverage(node)`: the ratio of the node's own LINE counter, or 0
   * when the node has none.
   */
  function CalculateCoverage(node: Element): (r: Try<Coverage>)
    ensures r.Thrown? ==> LineCounter(node).Some? && r.error.NumberFormat?
    ensures r.Ok? && !r.value.Finite? ==> LineCounter(node).Some?
  {
    match LineCounter(node)
    case None => Ok(Finite(0.0))
    case Some(counter) => CounterCoverage(counter)
  }

  /**
   * The ratio of one counter: `Integer.parseInt` of `covered`, then of
   * `missed` (a missing attribute reads as "" and is rejected too), then
   * `covered / (covered + missed)` in `double` arithmetic.
   */
  function CounterCoverage(counter: Element): (r: Try<Coverage>)
    ensures r.Ok? <==> ParseInt(ValueOf(counter, "covered")).Some? && ParseInt(ValueOf(counter, "missed")).Some?
    ensures r.Thrown? ==> r.error.NumberFormat?
    ensures r.Thrown? ==> r.error.input == ValueOf(counter, "covered") || r.error.input == ValueOf(counter, "missed")
  {
    var coveredText := ValueOf(counter, "covered");
    var missedText := ValueOf(counter, "missed");
    match ParseInt(coveredText)
    case None => Thrown(NumberFormat(coveredText))
    case Some(covered) =>
      match ParseInt(missedText)
      case None => Thrown(NumberFormat(missedText))
      case Some(missed) => Ok(Divide(covered, covered + missed))
  }

  /** `selectSingleNode("/report")`: the root element when it is a `report`, else `null`. */
  function ReportRoot(d: Document): (r: Option<Element>)
    ensures r.Some? <==> d.root.tag == "report"
    ensures r.Some? ==> r.value == d.root
  {
    if d.root.tag == "report" then Some(d.root) else None
  }

  /** `document.selectNodes("//sourcefile")`: the nodes the loop walks over. */
  function Sources(d: Document): seq<Element>
  {
    SelectAll(d, "sourcefile")
  }

  /** The result the loop body adds for one `sourcefile` node whose coverage is `coverage`. */
  function SourceResult(sdk: string, source: Element, coverage: Coverage): (r: Result)
    ensures r.sdk == sdk && r.coverage == coverage
    ensures "name" in source.attributes ==> r.subPath == source.attributes["name"]
    ensures "name" !in source.attributes ==> r.subPath == ""
  {
    Result(sdk, ValueOf(source, "name"), coverage)
  }

  /**
   * The results of the loop over `sources`, taken in order: the first
   * exception thrown, or one result per source.
   */
  function SourceResults(sdk: string, sources: seq<Element>): (r: Try<seq<Result>>)
    ensures r.Ok? ==> |r.value| == |sources|
  {
    if sources == [] then Ok([])
    else
      var last := sources[|sources| - 1];
      match SourceResults(sdk, sources[..|sources| - 1])
      case Thrown(e) => Thrown(e)
      case Ok(rs) =>
        match CalculateCoverage(last)
        case Thrown(e) => Thrown(e)
        case Ok(c) => Ok(rs + [SourceResult(sdk, last, c)])
  }

  /** What `parse()` returns, or the exception it throws. */
  function ParseReport(sdk: string, d: Document): (r: Try<seq<Result>>)
    ensures d.root.tag != "report" ==> r == Thrown(NullPointer)
    ensures r.Ok? ==> d.root.tag == "report" && CalculateCoverage(d.root).Ok?
    ensures r.Ok? ==> |r.value| == 1 + |Sources(d)|
    ensures r.Ok? ==> r.value[0] == Result(sdk, "", CalculateCoverage(d.root).value)
  {
    match ReportRoot(d)
    case None => Thrown(NullPointer)   // calculateCoverage(null)
    case Some(report) =>
      match CalculateCoverage(report)
      case Thrown(e) => Thrown(e)
      case Ok(c) =>
        match SourceResults(sdk, Sources(d))
        case Thrown(e) => Thrown(e)
        case Ok(rs) => Ok([Result(sdk, "", c)] + rs)
  }

  /** Once the loop has thrown on a prefix of the sources, it throws the same exception on all of them. */
  lemma {:induction false} SourceResultsKeepsFirstException(sdk: string, sources: seq<Element>, k: nat)
    requires k <= |sources| && SourceResults(sdk, sources[..k]).Thrown?
    ensures SourceResults(sdk, sources) == SourceResults(sdk, sources[..k])
    decreases |sources| - k
  {
    if k < |sources| {
      var n := |sources|;
      assert sources[..n][..n - 1] == sources[..n - 1];
      if k < n - 1 {
        assert sources[..n - 1][..k] == sources[..k];
        SourceResultsKeepsFirstException(sdk, sources[..n - 1], k);
      }
      assert sources[..n] == sources;
    } else {
      assert sources[..k] == sources;
    }
  }

  /** One turn of the loop: it either throws for the whole call or extends the results by one. */
  lemma SourceResultsStep(sdk: string, sources: seq<Element>, i: nat, rs: seq<Result>)
    requires i < |sources| && SourceResults(sdk, sources[..i]) == Ok(rs)
    ensures CalculateCoverage(sources[i]).Thrown? ==>
      SourceResults(sdk, sources) == Thrown(CalculateCoverage(sources[i]).error)
    ensures CalculateCoverage(sources[i]).Ok? ==>
      SourceResults(sdk, sources[..i + 1]) == Ok(rs + [SourceResult(sdk, sources[i], CalculateCoverage(sources[i]).value)])
  {
    assert sources[..i + 1][..i] == sources[..i];
    if CalculateCoverage(sources[i]).Thrown? {
      SourceResultsKeepsFirstException(sdk, sources, i + 1);
    }
  }

  /** `parse()` after the SDK's coverage is known: the loop's outcome decides the call's. */
  lemma ParseReportAfterLoop(sdk: string, d: Document, c: Coverage, loop: Try<seq<Result>>)
    requires ReportRoot(d).Some? && CalculateCoverage(d.root) == Ok(c)
    requires SourceResults(sdk, Sources(d)) == loop
    ensures loop.Thrown? ==> ParseReport(sdk, d) == Thrown(loop.error)
    ensures loop.Ok? ==> ParseReport(sdk, d) == Ok([Result(sdk, "", c)] + loop.value)
  {
  }

  /** Holds the SDK name and the report document, as the Java class does after reading its file. */
  class XmlReportParser {
    const sdk: string
    const document: Document

    constructor (sdk: string, document: Document)
      ensures this.sdk == sdk && this.document == document
    {
      this.sdk := sdk;
      this.document := document;
    }

    /**
     * `parse()`: the SDK's result first, then one result per `sourcefile`
     * element in document order, each carrying the SDK name; any exception
     * aborts the whole call.
     */
    method Parse() returns (r: Try<seq<Result>>)
      ensures r == ParseReport(sdk, document)
      ensures r.Ok? ==> |r.value| == 1 + |Sources(document)|
      ensures r.Ok? ==> r.value[0] == Result(sdk, "", CalculateCoverage(document.root).value)
    {
      var results: seq<Result> := [];

      var report := ReportRoot(document);
      if report.None? {
        return Thrown(NullPointer);
      }
      var sdkCoverage := CalculateCoverage(report.value);
      if sdkCoverage.Thrown? {
        return Thrown(sdkCoverage.error);
      }
      results := results + [Result(sdk, "", sdkCoverage.value)];

      var sources := Sources(document);
      assert sources[..0] == [] && results[1..] == [];
      for i := 0 to |sources|
        invariant |results| == i + 1 && results[0] == Result(sdk, "", sdkCoverage.value)
        invariant SourceResults(sdk, sources[..i]) == Ok(results[1..])
      {
        var source := sources[i];
        var filename := ValueOf(source, "name");
        var fileCoverage := CalculateCoverage(source);
        SourceResultsStep(sdk, sources, i, results[1..]);
        if fileCoverage.Thrown? {
          ParseReportAfterLoop(sdk, document, sdkCoverage.value, SourceResults(sdk, sources));
          return Thrown(fileCoverage.error);
        }
        ghost var done := results[1..];
        results := results + [Result(sdk, filename, fileCoverage.value)];
        assert results[1..] == done + [SourceResult(sdk, source, fileCoverage.value)];
      }
      assert sources[..|sources|] == sources;
      ParseReportAfterLoop(sdk, document, sdkCoverage.value, SourceResults(sdk, sources));
      assert results == [results[0]] + results[1..];
      return Ok(results);
    }
  }

  /** `parse()` reads only final fields, so calling it twice gives equal outcomes. */
  method ParseTwice(parser: XmlReportParser) returns (first: Try<seq<Result>>, second: Try<seq<Result>>)
    ensures first == second
  {
    first := parser.Parse();
    second := parser.Parse();
  }
}
