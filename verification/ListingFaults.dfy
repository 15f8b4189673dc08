/**
 What the parser reports at the first line that does not continue a complete listing: a
 table by how far the listing has got, without the parser's variables.
 */
module ListingFaults {
  import opened Core
  import opened Building
  import opened Diagnostics
  import opened WindowsDirParser
  import opened ListingGrammar

  function At(line: nat, codes: seq<Code>): seq<Diagnostic> {
    seq(|codes|, k requires 0 <= k < |codes| => Diagnostic(Error, codes[k], Some(line)))
  }

  function When(condition: bool, code: Code): seq<Code> {
    if condition then [code] else []
  }

  predicate InFooter(p: Partial) {
    p.Totaled? || p.TotalFiled? || p.Finished?
  }

  /** Do the numbers of a section's summary differ from what its body holds? */
  predicate Miscounted(p: Partial)
    requires p.Filed? || p.Dired?
  {
    p.files != FilesIn(p.doc.body) || p.bytes != BytesIn(p.doc.body)
  }

  /** What a section lacks when the next header, the footer or the end closes it. */
  function ClosingFaults(p: Partial): seq<Code> {
    match p
    case InBody(_, _) => [MissingSectionFileSummary, MissingSectionDirSummary]
    case Filed(_, _, _, _) => [MissingSectionDirSummary] + When(Miscounted(p), SectionFileTotalMismatch)
    case Dired(_, _, _, _) => When(Miscounted(p), SectionFileTotalMismatch)
    case _ => []
  }

  function FileSummaryFaults(p: Partial, count: nat, size: nat): seq<Code> {
    var wrong := When(count != AllFiles(p.done) || size != AllBytes(p.done), AggregateFileTotalMismatch);
    match p
    case InSections(_) => [SummaryOutsideSection]
    case InBody(_, _) => []
    case Filed(_, _, _, _) => [DuplicateSectionFileSummary]
    case Dired(_, _, _, _) => [DuplicateSectionFileSummary]
    case Totaled(_) => wrong
    case TotalFiled(_) => [DuplicateAggregateFileSummary] + wrong
    case Finished(_) => [DuplicateAggregateFileSummary, AggregateFileSummaryAfterDirSummary] + wrong
  }

  function DirSummaryFaults(p: Partial): seq<Code> {
    match p
    case InSections(_) => [SummaryOutsideSection]
    case InBody(_, _) => [SectionDirSummaryBeforeFileSummary]
    case Filed(_, _, _, _) => []
    case Dired(_, _, _, _) => [DuplicateSectionDirSummary]
    case Totaled(_) => [AggregateDirSummaryBeforeFileSummary]
    case TotalFiled(_) => []
    case Finished(_) => [DuplicateAggregateDirSummary]
  }

  function NoFilesFaults(p: Partial): seq<Code> {
    match p
    case InBody(_, doc) =>
      if doc.body == [] then []
      else if doc.body == [NoFiles] then [DuplicateFileNotFound]
      else [FileNotFoundWithEntries]
    case Filed(_, _, _, _) => [FileNotFoundAfterSummary]
    case Dired(_, _, _, _) => [FileNotFoundAfterSummary]
    case _ => [FileNotFoundOutsideSection]
  }

  /** A fault of the entry itself is reported before one of its place. */
  function EntryFaults(p: Partial, r: EntryResult): seq<Code> {
    var own := if r.Bad? then [r.code] else [];
    match p
    case InBody(_, doc) =>
      if doc.body == [NoFiles] then own + [EntryWithFileNotFound]
      else own + When(r.Named? && !r.zoned, InvalidLocalTime)
    case Filed(_, _, _, _) => own + [EntryAfterSectionSummary]
    case Dired(_, _, _, _) => own + [EntryAfterSectionSummary]
    case _ => [MalformedEntry]
  }

  /** The faults of a line that comes after a listing has got as far as `p`; `header` is the
      line of the section's header. */
  function Faults(p: Partial, header: nat, number: LineNumber, line: Line): seq<Diagnostic> {
    match line
    case Ignored => []
    case Header(_, mountable) =>
      if InFooter(p) then At(number, [SectionAfterAggregate])
      else At(header, ClosingFaults(p)) + At(number, When(!mountable, InvalidSectionPath))
    case Total =>
      if InFooter(p) then At(number, [DuplicateAggregateFooter]) else At(header, ClosingFaults(p))
    case FileSummary(None) => At(number, [InvalidSummaryNumber])
    case FileSummary(Some((count, size))) => At(number, FileSummaryFaults(p, count, size))
    case DirSummary(numeric) => At(number, if numeric then DirSummaryFaults(p) else [InvalidSummaryNumber])
    case NoFiles => At(number, NoFilesFaults(p))
    case Entry(r) => At(number, EntryFaults(p, r))
    case Unknown(resembles) => At(number, [if resembles then MalformedEntry else UnknownLine])
  }

  function Missing(code: Code): Diagnostic {
    Diagnostic(Error, code, None)
  }

  /** The faults of an input that ends there. */
  function EndFaults(p: Partial, header: nat): seq<Diagnostic> {
    At(header, ClosingFaults(p))
    + (if p.done == [] && !InDoc(p) then [Missing(MissingSection)] else [])
    + match p
      case Totaled(_) => [Missing(MissingAggregateFileSummary), Missing(MissingAggregateDirSummary)]
      case TotalFiled(_) => [Missing(MissingAggregateDirSummary)]
      case Finished(_) => []
      case _ => [Missing(MissingAggregateFooter)]
  }

  lemma AtOne(line: nat, code: Code)
    ensures At(line, [code]) == Error1(code, line) && At(line, []) == []
  {
  }

  lemma ClosingReported(st: State, p: Partial)
    requires Matches(st, p)
    ensures CloseReports(st.section) == At(st.section.line, ClosingFaults(p))
  {
    hide FilesIn, BytesIn, AllFiles, AllBytes, GoodDocs, GoodBody;
  }

  lemma HeaderReported(st: State, p: Partial, number: LineNumber, path: seq<Text>, mountable: bool)
    requires Matches(st, p)
    ensures Step(st, number, Header(path, mountable)).reports ==
      Faults(p, st.section.line, number, Header(path, mountable))
    ensures Step(st, number, Total).reports == Faults(p, st.section.line, number, Total)
  {
    ClosingReported(st, p);
    AtOne(number, SectionAfterAggregate);
    AtOne(number, InvalidSectionPath);
    AtOne(number, DuplicateAggregateFooter);
    AtOne(st.section.line, MissingSection);
    hide CloseReports, ClosingFaults, At, FilesIn, BytesIn, AllFiles, AllBytes, GoodDocs, GoodBody;
    assert InFooter(p) <==> st.active;
    if InFooter(p) {
      NoClosing(p);
    } else {
      var faults := At(st.section.line, ClosingFaults(p));
      assert faults + [] == faults;
    }
  }

  lemma NoClosing(p: Partial)
    requires InFooter(p)
    ensures ClosingFaults(p) == []
  {
  }

  lemma SummaryReported(st: State, p: Partial, number: LineNumber, line: Line)
    requires Matches(st, p) && (line.FileSummary? || line.DirSummary?)
    ensures Step(st, number, line).reports == Faults(p, st.section.line, number, line)
  {
    hide FilesIn, BytesIn, AllFiles, AllBytes, GoodDocs, GoodBody;
  }

  lemma BodyReported(st: State, p: Partial, number: LineNumber, line: Line)
    requires Matches(st, p) && (line.NoFiles? || line.Entry?)
    ensures Step(st, number, line).reports == Faults(p, st.section.line, number, line)
  {
    hide FilesIn, BytesIn, AllFiles, AllBytes, GoodDocs, GoodBody;
  }

  /** As long as nothing has been reported, the next line is reported as the table says. */
  lemma FaultsAreReported(st: State, p: Partial, number: LineNumber, line: Line)
    requires Matches(st, p)
    ensures Step(st, number, line).reports == Faults(p, st.section.line, number, line)
  {
    hide Matches;
    match line {
      case Header(path, mountable) => HeaderReported(st, p, number, path, mountable);
      case Total => HeaderReported(st, p, number, [], true);
      case FileSummary(_) => SummaryReported(st, p, number, line);
      case DirSummary(_) => SummaryReported(st, p, number, line);
      case NoFiles => BodyReported(st, p, number, line);
      case Entry(_) => BodyReported(st, p, number, line);
      case _ =>
    }
  }

  lemma EndIsReported(st: State, p: Partial)
    requires Matches(st, p)
    ensures EndReports(st) == EndFaults(p, st.section.line)
  {
    ClosingReported(st, p);
    hide CloseReports, ClosingFaults, At, FilesIn, BytesIn, AllFiles, AllBytes, GoodDocs, GoodBody;
  }

  /** The number of the last header line. */
  function HeaderNumber(numbered: seq<Numbered>): nat {
    if numbered == [] then 0
    else
      var last := numbered[|numbered| - 1];
      if last.line.Header? then last.number else HeaderNumber(numbered[..|numbered| - 1])
  }

  lemma StepSectionLine(st: State, number: LineNumber, line: Line)
    ensures Step(st, number, line).state.section.line == if line.Header? && !st.active then number else st.section.line
  {
    hide CloseReports;
  }

  lemma {:induction false} SectionLineIsHeader(numbered: seq<Numbered>)
    requires WellformedLines(numbered) && Advance(NO_LINES, LinesOf(numbered)).Some?
    ensures After(numbered).state.section.line == HeaderNumber(numbered)
  {
    hide Step, Matches, LinesTo, YieldsAs;
    if numbered != [] {
      var front, last := numbered[..|numbered| - 1], numbered[|numbered| - 1];
      assert LinesOf(numbered)[..|numbered| - 1] == LinesOf(front);
      assert LinesOf(numbered)[|numbered| - 1] == last.line;
      SectionLineIsHeader(front);
      RunFollows(front);
      var p := Advance(NO_LINES, LinesOf(front)).value;
      StepSectionLine(After(front).state, last.number, last.line);
      if last.line.Header? {
        OpenIfClosing(After(front).state, p);
      }
    }
  }

  lemma OpenIfClosing(st: State, p: Partial)
    requires Matches(st, p) && Closing(p).Some?
    ensures !st.active
  {
  }

  /** The first report of a run: after lines that begin a complete listing, the next line
      adds exactly its faults, with their lines ... */
  lemma FirstFaultIsReported(numbered: seq<Numbered>, k: nat)
    requires WellformedLines(numbered) && k < |numbered|
    requires Advance(NO_LINES, LinesOf(numbered[..k])).Some?
    ensures var p := Advance(NO_LINES, LinesOf(numbered[..k])).value;
      After(numbered[..k + 1]).reports == Faults(p, HeaderNumber(numbered[..k]), numbered[k].number, numbered[k].line)
  {
    hide Step, Matches, LinesTo, YieldsAs, Faults;
    var front, next := numbered[..k], numbered[k];
    RunFollows(front);
    SectionLineIsHeader(front);
    AfterOneMore(numbered, k);
    FaultsAreReported(After(front).state, Advance(NO_LINES, LinesOf(front)).value, next.number, next.line);
  }

  /** ... and if there is no next line, the end of the input adds what is missing. */
  lemma EndFaultsAreReported(numbered: seq<Numbered>)
    requires WellformedLines(numbered) && Advance(NO_LINES, LinesOf(numbered)).Some?
    ensures var p := Advance(NO_LINES, LinesOf(numbered)).value;
      Reports(numbered, None) == EndFaults(p, HeaderNumber(numbered))
  {
    hide Matches, LinesTo, YieldsAs, EndFaults, EndReports;
    RunFollows(numbered);
    SectionLineIsHeader(numbered);
    EndIsReported(After(numbered).state, Advance(NO_LINES, LinesOf(numbered)).value);
  }
}
