# JaCoCo coverage extractor, modelled in Dafny

The build tooling turns a JaCoCo XML coverage report into line-coverage
metrics for one SDK. `XmlReportParser` holds the SDK name and the parsed
report. Its `parse()` returns a list of `(sdk, subPath, coverage)` results:

- first the SDK as a whole (`subPath` is `""`), from the `report` root;
- then one result per `sourcefile` element, in document order, named by the
  element's `name` attribute.

A node's coverage comes from its first direct `counter` child whose `type` is
`LINE`. It is `covered / (covered + missed)`, or 0 when there is no such
counter.

The model has four modules:

- `JavaLang` (`java_lang.dfy`): `Option`, the exceptions the parser can raise
  (`Try`), and `Integer.parseInt`, which is a left inverse of
  `Integer.toString`.
- `Dom` (`dom.dfy`): an element tree standing in for the dom4j document. The
  XPath queries the parser uses become tree functions:
  - `@name`, `@covered` and `@missed` are `ValueOf`;
  - `counter[@type='LINE']` (the first matching child) is `FirstChild`;
  - `//sourcefile` (every match, in preorder) is `SelectAll`.
  - `/report` (the root, when it is a `report`) is `ReportRoot`, in
    `xml_report_parser.dfy`.
- `XmlReportParser` (`xml_report_parser.dfy`): the coverage rule
  (`CalculateCoverage`, `CounterCoverage`, `Divide`), the specification of
  `parse()` (`ParseReport`), and the class `XmlReportParser`. Its
  `Parse` method builds the list with a loop, as the Java code does, and is
  proved equal to `ParseReport`.
- `ReportProperties` (`report_properties.dfy`): what `parse()` and
  `calculateCoverage` promise, proved of `ParseReport` and
  `CalculateCoverage`. It ends with a worked report of two files.

Exceptions are values. `Try<T>` is either `Ok(value)` or `Thrown(exception)`,
and any exception ends `parse()` with no list. Java's `double` quotient is
kept exact: `Coverage` is `Finite(real)`, or one of `PositiveInfinity`,
`NegativeInfinity` and `NaN`, the values Java gives for a division by zero.

Three consequences of the code that a reader might not expect:

- A LINE counter with `covered = missed = 0` gives `0.0 / 0`, which is NaN,
  not 0.
- A `sourcefile` without a `name` gets the sub-path `""`, not an error,
  because `valueOf("@name")` of a missing attribute is the empty string.
- A root that is not `report` makes `selectSingleNode("/report")` return
  `null`, so `calculateCoverage(null)` throws `NullPointerException`.

## Model

All source paths are in
`buildSrc/src/main/groovy/com/google/firebase/gradle/plugins/measurement/coverage/`.

| member | source | states |
|---|---|---|
| XmlReportParser.XmlReportParser.constructor | buildSrc/src/main/groovy/com/google/firebase/gradle/plugins/measurement/coverage/XmlReportParser.java:33-40 | the parser holds the SDK name and the report document it was given (the file reading is left out) |
| XmlReportParser.ParseReport | buildSrc/src/main/groovy/com/google/firebase/gradle/plugins/measurement/coverage/XmlReportParser.java:46-61 | what `parse()` returns: `NullPointerException` when the root is not `report`; on success the root is a `report` with a computable coverage, and the list holds 1 + (number of `//sourcefile` matches) results, the first being `(sdk, "", coverage of the root)` |
| XmlReportParser.ReportRoot | buildSrc/src/main/groovy/com/google/firebase/gradle/plugins/measurement/coverage/XmlReportParser.java:49 | `selectSingleNode("/report")` finds a node exactly when the root is tagged `report`, and that node is the root |
| XmlReportParser.SourceResults | buildSrc/src/main/groovy/com/google/firebase/gradle/plugins/measurement/coverage/XmlReportParser.java:53-58 | the loop over the source files: when it completes, it has produced exactly one result per source file |
| XmlReportParser.SourceResult | buildSrc/src/main/groovy/com/google/firebase/gradle/plugins/measurement/coverage/XmlReportParser.java:55-57 | the result added for one source file carries the SDK name, that file's coverage, and as sub-path the file's `name` attribute, or `""` when it has none |
| XmlReportParser.CalculateCoverage | buildSrc/src/main/groovy/com/google/firebase/gradle/plugins/measurement/coverage/XmlReportParser.java:63-71 | `calculateCoverage` of a present node throws only `NumberFormatException`, and only when the node has a LINE counter; a non-finite coverage also needs a LINE counter |
| XmlReportParser.LineCounter | buildSrc/src/main/groovy/com/google/firebase/gradle/plugins/measurement/coverage/XmlReportParser.java:64 | `selectSingleNode("counter[@type='LINE']")` returns one of the node's own children that is a `counter` with `type` `LINE`, and returns none only when no child is one |
| XmlReportParser.CounterCoverage | buildSrc/src/main/groovy/com/google/firebase/gradle/plugins/measurement/coverage/XmlReportParser.java:66-68 | a counter gives a coverage exactly when both `covered` and `missed` parse as `int`s; otherwise it throws `NumberFormatException` carrying one of the two texts |
| XmlReportParser.XmlReportParser.Parse | buildSrc/src/main/groovy/com/google/firebase/gradle/plugins/measurement/coverage/XmlReportParser.java:46-61 | the loop that appends to the result list returns exactly `ParseReport(sdk, document)`; on success the list holds 1 + (number of `//sourcefile` matches) results, and the first is `(sdk, "", coverage of the report root)` |
| XmlReportParser.ParseTwice | buildSrc/src/main/groovy/com/google/firebase/gradle/plugins/measurement/coverage/XmlReportParser.java:46-61 | `parse()` only reads the final `sdk` and `document`, so two calls on one parser give equal outcomes |
| XmlReportParser.Divide | buildSrc/src/main/groovy/com/google/firebase/gradle/plugins/measurement/coverage/XmlReportParser.java:68 | Java's `double` division of two ints: with a non-zero divisor, a finite quotient q with q * divisor = dividend; with a zero divisor, NaN exactly when the dividend is 0, +infinity when it is positive, -infinity when it is negative |
| XmlReportParser.SourceResultsKeepsFirstException | buildSrc/src/main/groovy/com/google/firebase/gradle/plugins/measurement/coverage/XmlReportParser.java:54-58 | once the loop over the source files has thrown on a prefix, the whole loop throws that same exception: no later file is reached |
| XmlReportParser.SourceResultsStep | buildSrc/src/main/groovy/com/google/firebase/gradle/plugins/measurement/coverage/XmlReportParser.java:54-58 | one turn of the loop: a throwing file aborts the whole loop with its exception, and otherwise the results grow by exactly `(sdk, name, coverage)` of that file |
| Dom.ValueOf | buildSrc/src/main/groovy/com/google/firebase/gradle/plugins/measurement/coverage/XmlReportParser.java:55 | `valueOf("@attr")` is the attribute's text when the element has it, and a non-empty text only comes from an attribute that is present |
| Dom.Preorder | buildSrc/src/main/groovy/com/google/firebase/gradle/plugins/measurement/coverage/XmlReportParser.java:53 | document order over a subtree starts with the subtree's root |
| Dom.Filter | buildSrc/src/main/groovy/com/google/firebase/gradle/plugins/measurement/coverage/XmlReportParser.java:53 | selecting by tag keeps only elements with that tag and never adds elements |
| Dom.SelectAll | buildSrc/src/main/groovy/com/google/firebase/gradle/plugins/measurement/coverage/XmlReportParser.java:53 | `//tag` returns only elements with that tag, and starts with the root when the root carries it |
| Dom.SelectAllMembers | buildSrc/src/main/groovy/com/google/firebase/gradle/plugins/measurement/coverage/XmlReportParser.java:53 | an element is returned by `//tag` exactly when it is in the document and carries the tag (both directions) |
| Dom.SelectAllReachesChildren | buildSrc/src/main/groovy/com/google/firebase/gradle/plugins/measurement/coverage/XmlReportParser.java:53 | `//tag` finds every element with the tag anywhere below the root, however deep |
| Dom.FirstChild | buildSrc/src/main/groovy/com/google/firebase/gradle/plugins/measurement/coverage/XmlReportParser.java:64 | `selectSingleNode` of a child step finds the first matching child: the index it returns matches, no earlier child matches, and "none" means no child matches |
| Dom.FilterMembers | buildSrc/src/main/groovy/com/google/firebase/gradle/plugins/measurement/coverage/XmlReportParser.java:53 | an element is selected by a tag exactly when it is in the searched sequence and carries that tag |
| Dom.FilterAppend | buildSrc/src/main/groovy/com/google/firebase/gradle/plugins/measurement/coverage/XmlReportParser.java:53 | selection keeps document order: selecting from a concatenation is the concatenation of the selections |
| Dom.SelectAllCount | buildSrc/src/main/groovy/com/google/firebase/gradle/plugins/measurement/coverage/XmlReportParser.java:53 | `//tag` returns exactly as many elements as the tree holds with that tag, counted over the tree itself |
| Dom.SelectForest | buildSrc/src/main/groovy/com/google/firebase/gradle/plugins/measurement/coverage/XmlReportParser.java:53 | over a list of sibling subtrees, `//tag` yields the first subtree's matches before the others' |
| Dom.PreorderForestAppend | buildSrc/src/main/groovy/com/google/firebase/gradle/plugins/measurement/coverage/XmlReportParser.java:53 | document order: the subtrees of siblings follow one another in the siblings' order |
| Dom.PreorderContainsChildren | buildSrc/src/main/groovy/com/google/firebase/gradle/plugins/measurement/coverage/XmlReportParser.java:53 | the descendant search reaches every element in every child's subtree, however deep |
| JavaLang.ParseInt | buildSrc/src/main/groovy/com/google/firebase/gradle/plugins/measurement/coverage/XmlReportParser.java:66-67 | `Integer.parseInt` accepts only a non-empty text, and every value it yields fits in a 32-bit int; its values are fixed by the lemmas below |
| JavaLang.ParseIntOfToString | buildSrc/src/main/groovy/com/google/firebase/gradle/plugins/measurement/coverage/XmlReportParser.java:66-67 | round trip: parsing the decimal text of any 32-bit value gives that value back |
| JavaLang.ParseIntRejectsNonDigit | buildSrc/src/main/groovy/com/google/firebase/gradle/plugins/measurement/coverage/XmlReportParser.java:66-67 | a counter text holding a character that is neither a digit nor a leading sign is rejected |
| JavaLang.ParseIntUnsigned | buildSrc/src/main/groovy/com/google/firebase/gradle/plugins/measurement/coverage/XmlReportParser.java:66-67 | a numeral without a sign gives its value when that is at most 2^31 - 1, and throws above |
| JavaLang.ParseIntMinusSign | buildSrc/src/main/groovy/com/google/firebase/gradle/plugins/measurement/coverage/XmlReportParser.java:66-67 | a `-` followed by digits gives the negated value when the magnitude is at most 2^31, and throws above |
| JavaLang.ParseIntPlusSign | buildSrc/src/main/groovy/com/google/firebase/gradle/plugins/measurement/coverage/XmlReportParser.java:66-67 | a `+` before digits is accepted and does not change the value |
| JavaLang.ParseIntLeadingZero | buildSrc/src/main/groovy/com/google/firebase/gradle/plugins/measurement/coverage/XmlReportParser.java:66-67 | leading zeros are accepted and do not change the value, with or without a sign |
| JavaLang.ParseIntSignsAndZeros | buildSrc/src/main/groovy/com/google/firebase/gradle/plugins/measurement/coverage/XmlReportParser.java:66-67 | `"+5"` gives 5, `"007"` gives 7, `"-0"` gives 0, and `""`, `"-"` and `"+"` throw |
| JavaLang.ParseIntRangeEnds | buildSrc/src/main/groovy/com/google/firebase/gradle/plugins/measurement/coverage/XmlReportParser.java:66-67 | `"2147483647"` and `"-2147483648"` are accepted as the `int` extremes, and `"2147483648"` and `"-2147483649"` throw |
| ReportProperties.SourceResultsPointwise | buildSrc/src/main/groovy/com/google/firebase/gradle/plugins/measurement/coverage/XmlReportParser.java:53-58 | the loop over the source files succeeds exactly when every file's coverage can be computed, and then its i-th result is the i-th file's name and coverage |
| ReportProperties.SourceResultsFirstException | buildSrc/src/main/groovy/com/google/firebase/gradle/plugins/measurement/coverage/XmlReportParser.java:54-58 | when the loop throws, it throws what the first failing file threw |
| ReportProperties.ParseReportSucceedsIff | buildSrc/src/main/groovy/com/google/firebase/gradle/plugins/measurement/coverage/XmlReportParser.java:46-61 | `parse()` returns a list exactly when the root is `report` and the coverage of the report and of every source file can be computed (both directions) |
| ReportProperties.ParseReportShape | buildSrc/src/main/groovy/com/google/firebase/gradle/plugins/measurement/coverage/XmlReportParser.java:49-58 | a returned list is the SDK's result `(sdk, "", report coverage)` followed by the source files one-to-one, in document order, each as `(sdk, its name, its coverage)` |
| ReportProperties.ResultCountIsSourcefileCount | buildSrc/src/main/groovy/com/google/firebase/gradle/plugins/measurement/coverage/XmlReportParser.java:53-58 | a returned list has one more result than the document has `sourcefile` elements |
| ReportProperties.EveryResultCarriesSdk | buildSrc/src/main/groovy/com/google/firebase/gradle/plugins/measurement/coverage/XmlReportParser.java:51-57 | every returned result carries the SDK name the parser was constructed with |
| ReportProperties.ParseReportThrowsFirst | buildSrc/src/main/groovy/com/google/firebase/gradle/plugins/measurement/coverage/XmlReportParser.java:49-58 | with a computable report coverage, `parse()` throws the exception of the first source file, in document order, whose coverage throws, and returns no list |
| ReportProperties.ParseReportRethrowsReportCoverage | buildSrc/src/main/groovy/com/google/firebase/gradle/plugins/measurement/coverage/XmlReportParser.java:49-50 | a report whose own coverage throws makes `parse()` throw that same `NumberFormatException`, before any source file is read |
| ReportProperties.ParseReportWithoutReportRoot | buildSrc/src/main/groovy/com/google/firebase/gradle/plugins/measurement/coverage/XmlReportParser.java:49-50 | a document whose root is not `report` makes `parse()` throw `NullPointerException` |
| ReportProperties.FirstLineCounterIs | buildSrc/src/main/groovy/com/google/firebase/gradle/plugins/measurement/coverage/XmlReportParser.java:64 | the counter read is the first direct child that is a `counter` with `type` `LINE` |
| ReportProperties.CoverageWithoutLineCounter | buildSrc/src/main/groovy/com/google/firebase/gradle/plugins/measurement/coverage/XmlReportParser.java:63-71 | a node with no LINE-counter child has coverage exactly 0, whatever its descendants hold |
| ReportProperties.CoverageIsLineRatio | buildSrc/src/main/groovy/com/google/firebase/gradle/plugins/measurement/coverage/XmlReportParser.java:63-69 | with non-negative counts and at least one line, coverage is covered / (covered + missed) and lies in [0, 1] |
| ReportProperties.CoverageOfEmptyCounterIsNaN | buildSrc/src/main/groovy/com/google/firebase/gradle/plugins/measurement/coverage/XmlReportParser.java:66-68 | a LINE counter with 0 covered and 0 missed gives NaN, not 0 |
| ReportProperties.CoverageRejectsNonNumericCounter | buildSrc/src/main/groovy/com/google/firebase/gradle/plugins/measurement/coverage/XmlReportParser.java:66-67 | a `covered` or `missed` text that `Integer.parseInt` rejects makes the coverage throw `NumberFormatException`: with the `covered` text when that one is rejected (it is read first), else with the `missed` text |
| ReportProperties.CoverageIgnoresOtherChildren | buildSrc/src/main/groovy/com/google/firebase/gradle/plugins/measurement/coverage/XmlReportParser.java:64 | coverage is local to a node's own first LINE counter: adding a child that is not a LINE counter (such as a source file with its own counters), or any child after the first LINE counter, leaves it unchanged |
| ReportProperties.TwoFileReportSources | buildSrc/src/main/groovy/com/google/firebase/gradle/plugins/measurement/coverage/XmlReportParser.java:53 | in a report whose package holds A.java and B.java, `//sourcefile` finds the two files in document order |
| ReportProperties.TwoFileReportCoverages | buildSrc/src/main/groovy/com/google/firebase/gradle/plugins/measurement/coverage/XmlReportParser.java:63-71 | in that report the report counter 80/20 gives 0.8, A.java's 10/0 gives 1.0, and B.java has no counter, so it gives 0 |
| ReportProperties.TwoFileReportResults | buildSrc/src/main/groovy/com/google/firebase/gradle/plugins/measurement/coverage/XmlReportParser.java:46-61 | `parse()` on that report for "sdk1" returns `[("sdk1", "", 0.8), ("sdk1", "A.java", 1.0), ("sdk1", "B.java", 0.0)]` |

## Left out

- Reading the report file with `SAXReader` and wrapping `DocumentException` in the constructor. The model takes the document already parsed, because this is file I/O in a foreign library.
- The dom4j XPath engine. The four queries are written out as tree functions. The tree holds only elements: text, comments and processing instructions are not modelled, since none of the queries reads them.
- Namespaces. The tree models elements in no namespace, which is what JaCoCo writes, and tags are compared as bare names. A report with a default `xmlns` would make `/report` match nothing (so `NullPointerException`) and `//sourcefile` empty; such documents are out of scope.
- `MetricsServiceApi.Result`: its definition is not available here. A three-field record `Result(sdk, subPath, coverage)` stands in for it, holding the values the parser passes to its constructor.
- JavaLang.ParseInt: accepts only ASCII digits. Java's `Integer.parseInt` also accepts the decimal digits of other Unicode scripts.
- XmlReportParser.CounterCoverage: adds `covered + missed` exactly. Java's `int` addition wraps for sums above 2^31 - 1, which a real report does not reach.
- XmlReportParser.Divide: keeps the quotient exact. `double` rounding and the sign of a zero quotient (`0 / -n` is `-0.0`) are floating-point details left out.
- SegmentationServiceClient.java (an HTTP client) and BytesBackedNativeSessionFile.java (a byte-array file wrapper) are not part of this model. Neither is used by the parser.
