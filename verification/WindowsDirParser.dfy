/**
 The `dir /s` state machine: one loop over classified lines that tracks a section, the
 aggregate footer and running totals, reports what does not fit, and emits entries.
 */
module WindowsDirParser {
  import opened Core
  import opened Building
  import opened Diagnostics

  // -------------------------------------------------------------- lines

  /** What the entry pattern made of a line it matched. */
  datatype EntryResult =
    | Bad(code: Code)                       // one error was reported, nothing is yielded
    | Dot                                   // "." or "..": nothing is yielded
    | Named(name: Text, kind: NodeKind, size: Option<nat>, modified: Timestamp, zoned: bool)
  {
    predicate Wellformed() {
      Named? ==> (kind.File? <==> size.Some?)
    }
  }

  /** A line, classified by the patterns that are tried in turn. */
  datatype Line =
    | Ignored                               // blank or volume banner
    | Header(path: seq<Text>, mountable: bool)
    | Total
    | FileSummary(numbers: Option<(nat, nat)>)
    | DirSummary(numeric: bool)
    | NoFiles                               // "File Not Found"
    | Entry(result: EntryResult)
    | Unknown(resembles: bool)

  datatype Numbered = Numbered(number: LineNumber, line: Line)

  // -------------------------------------------------------------- state

  datatype Section = Section(
    path: Option<seq<Text>>,
    line: nat,
    files: nat,
    size: nat,
    fileSummary: bool,
    dirSummary: bool,
    reportedFiles: nat,
    reportedSize: nat,
    hadEntries: bool,
    fileNotFound: bool,
    mountable: bool)

  datatype State = State(
    section: Section,
    active: bool,
    aggregateFile: bool,
    aggregateDir: bool,
    totalFiles: nat,
    totalSize: nat,
    sawSection: bool)

  const NO_SECTION: Section := Section(None, 0, 0, 0, false, false, 0, 0, false, false, false)

  const START: State := State(NO_SECTION, false, false, false, 0, 0, false)

  function Error1(code: Code, line: nat): seq<Diagnostic> {
    [Diagnostic(Error, code, Some(line))]
  }

  function If(condition: bool, ds: seq<Diagnostic>): seq<Diagnostic> {
    if condition then ds else []
  }

  /** `SectionState.start` */
  function Started(path: seq<Text>, line: nat, mountable: bool): Section {
    Section(Some(path), line, 0, 0, false, false, 0, 0, false, false, mountable)
  }

  /** What `SectionState.close` reports. */
  function CloseReports(s: Section): seq<Diagnostic> {
    if s.path.None? then []
    else
      If(!s.fileSummary, Error1(MissingSectionFileSummary, s.line))
      + If(!s.dirSummary, Error1(MissingSectionDirSummary, s.line))
      + If(s.fileSummary && (s.reportedFiles != s.files || s.reportedSize != s.size),
           Error1(SectionFileTotalMismatch, s.line))
  }

  function Closed(s: Section): Section {
    s.(path := None)
  }

  // --------------------------------------------------------------- steps

  /** What one line does: the new state, what is reported, what is yielded. */
  datatype Effect = Effect(state: State, reports: seq<Diagnostic>, emits: seq<ParsedEntry>)

  function HeaderEntry(path: seq<Text>, number: LineNumber): ParsedEntry {
    ParsedEntry(path, Directory, SectionHeader, None, None, Some(number), None, NoMetadata)
  }

  function OnHeader(st: State, number: LineNumber, path: seq<Text>, mountable: bool): Effect {
    if st.active then Effect(st, Error1(SectionAfterAggregate, number), [])
    else
      Effect(st.(section := Started(path, number, mountable), sawSection := true),
             CloseReports(st.section) + If(!mountable, Error1(InvalidSectionPath, number)),
             if mountable then [HeaderEntry(path, number)] else [])
  }

  function OnTotal(st: State, number: LineNumber): Effect {
    Effect(st.(section := Closed(st.section), active := true),
           CloseReports(st.section) + If(st.active, Error1(DuplicateAggregateFooter, number)),
           [])
  }

  function OnAggregateFile(st: State, number: LineNumber, count: nat, size: nat): Effect {
    Effect(st.(aggregateFile := true),
           If(st.aggregateFile, Error1(DuplicateAggregateFileSummary, number))
           + If(st.aggregateDir, Error1(AggregateFileSummaryAfterDirSummary, number))
           + If(count != st.totalFiles || size != st.totalSize, Error1(AggregateFileTotalMismatch, number)),
           [])
  }

  function OnFileSummary(st: State, number: LineNumber, numbers: Option<(nat, nat)>): Effect {
    if numbers.None? then Effect(st, Error1(InvalidSummaryNumber, number), [])
    else
      var (count, size) := numbers.value;
      if st.active then OnAggregateFile(st, number, count, size)
      else if st.section.path.None? then Effect(st, Error1(SummaryOutsideSection, number), [])
      else
        Effect(st.(section := st.section.(fileSummary := true, reportedFiles := count, reportedSize := size)),
               If(st.section.fileSummary, Error1(DuplicateSectionFileSummary, number)),
               [])
  }

  function OnDirSummary(st: State, number: LineNumber, numeric: bool): Effect {
    if !numeric then Effect(st, Error1(InvalidSummaryNumber, number), [])
    else if st.active then
      Effect(st.(aggregateDir := true),
             If(st.aggregateDir, Error1(DuplicateAggregateDirSummary, number))
             + If(!st.aggregateFile, Error1(AggregateDirSummaryBeforeFileSummary, number)),
             [])
    else if st.section.path.None? then Effect(st, Error1(SummaryOutsideSection, number), [])
    else
      Effect(st.(section := st.section.(dirSummary := true)),
             If(st.section.dirSummary, Error1(DuplicateSectionDirSummary, number))
             + If(!st.section.fileSummary, Error1(SectionDirSummaryBeforeFileSummary, number)),
             [])
  }

  function OnNoFiles(st: State, number: LineNumber): Effect {
    if st.section.path.None? || st.active then Effect(st, Error1(FileNotFoundOutsideSection, number), [])
    else if st.section.fileSummary || st.section.dirSummary then
      Effect(st, Error1(FileNotFoundAfterSummary, number), [])
    else if st.section.hadEntries then Effect(st, Error1(FileNotFoundWithEntries, number), [])
    else if st.section.fileNotFound then Effect(st, Error1(DuplicateFileNotFound, number), [])
    else Effect(st.(section := st.section.(fileNotFound := true)), [], [])
  }

  function EntryFor(path: seq<Text>, r: EntryResult, number: LineNumber): ParsedEntry
    requires r.Named?
  {
    ParsedEntry(path + [r.name], r.kind, if r.kind.Directory? then DirectoryEntry else FileEntry,
                r.size, Some(r.modified), Some(number), None, NoMetadata)
  }

  predicate TakesEntries(st: State) {
    st.section.path.Some? && st.section.mountable && !st.active
  }

  /** An entry that is yielded; only files are counted. */
  function OnNamed(st: State, number: LineNumber, r: EntryResult): Effect
    requires st.section.path.Some? && r.Named?
  {
    var bytes := if r.size.Some? then r.size.value else 0;
    var section := st.section;
    Effect(
      if r.kind.File? then
        st.(section := section.(files := section.files + 1, size := section.size + bytes),
            totalFiles := st.totalFiles + 1, totalSize := st.totalSize + bytes)
      else st,
      If(!r.zoned, Error1(InvalidLocalTime, number)),
      [EntryFor(section.path.value, r, number)])
  }

  function OnEntry(st: State, number: LineNumber, r: EntryResult): Effect
    requires TakesEntries(st)
  {
    var parsing := if r.Bad? then Error1(r.code, number) else [];
    if st.section.fileSummary || st.section.dirSummary then
      Effect(st, parsing + Error1(EntryAfterSectionSummary, number), [])
    else if st.section.fileNotFound then
      Effect(st, parsing + Error1(EntryWithFileNotFound, number), [])
    else
      var section := st.section.(hadEntries := true);
      if r.Named? then OnNamed(st.(section := section), number, r)
      else Effect(st.(section := section), parsing, [])
  }

  function OnUnknown(st: State, number: LineNumber, resembles: bool): Effect {
    Effect(st, Error1(if resembles then MalformedEntry else UnknownLine, number), [])
  }

  function Step(st: State, number: LineNumber, line: Line): Effect {
    match line
    case Ignored => Effect(st, [], [])
    case Header(path, mountable) => OnHeader(st, number, path, mountable)
    case Total => OnTotal(st, number)
    case FileSummary(numbers) => OnFileSummary(st, number, numbers)
    case DirSummary(numeric) => OnDirSummary(st, number, numeric)
    case NoFiles => OnNoFiles(st, number)
    case Entry(r) => if TakesEntries(st) then OnEntry(st, number, r) else OnUnknown(st, number, true)
    case Unknown(resembles) => OnUnknown(st, number, resembles)
  }

  /** What is reported at the end of the input. */
  function EndReports(st: State): seq<Diagnostic> {
    CloseReports(st.section) + MissingReports(st)
  }

  function MissingReports(st: State): seq<Diagnostic> {
    If(!st.sawSection, [Diagnostic(Error, MissingSection, None)])
    + if !st.active then [Diagnostic(Error, MissingAggregateFooter, None)]
      else
        If(!st.aggregateFile, [Diagnostic(Error, MissingAggregateFileSummary, None)])
        + If(!st.aggregateDir, [Diagnostic(Error, MissingAggregateDirSummary, None)])
  }

  lemma MissingIgnoresSection(st: State, section: Section)
    ensures MissingReports(st.(section := section)) == MissingReports(st)
  {
  }

  /** All lines so far. */
  function After(lines: seq<Numbered>): Effect {
    if lines == [] then Effect(START, [], [])
    else
      var before := After(lines[..|lines| - 1]);
      var last := lines[|lines| - 1];
      var now := Step(before.state, last.number, last.line);
      Effect(now.state, before.reports + now.reports, before.emits + now.emits)
  }

  lemma AfterOneMore(lines: seq<Numbered>, k: nat)
    requires k < |lines|
    ensures var before := After(lines[..k]);
      var now := Step(before.state, lines[k].number, lines[k].line);
      After(lines[..k + 1]) == Effect(now.state, before.reports + now.reports, before.emits + now.emits)
  {
    assert lines[..k + 1][..k] == lines[..k];
  }

  /** A whole run: the lines, possibly a decode error, then the end of input. */
  function Reports(lines: seq<Numbered>, decodeError: Option<nat>): seq<Diagnostic> {
    After(lines).reports
    + (if decodeError.Some? then Error1(DecodeFailure, decodeError.value) else [])
    + EndReports(After(lines).state)
  }

  // ------------------------------------------------------ the loop as code

  class SectionState {
    var path: Option<seq<Text>>
    var line: nat
    var files: nat
    var size: nat
    var fileSummary: bool
    var dirSummary: bool
    var reportedFiles: nat
    var reportedSize: nat
    var hadEntries: bool
    var fileNotFound: bool
    var mountable: bool

    function Value(): Section
      reads this
    {
      Section(path, line, files, size, fileSummary, dirSummary, reportedFiles, reportedSize, hadEntries,
              fileNotFound, mountable)
    }

    constructor ()
      ensures Value() == NO_SECTION
    {
      path := None;
      line, files, size, reportedFiles, reportedSize := 0, 0, 0, 0, 0;
      fileSummary, dirSummary, hadEntries, fileNotFound, mountable := false, false, false, false, false;
    }

    method Begin(path: seq<Text>, line: nat, mountable: bool)
      modifies this
      ensures Value() == Started(path, line, mountable)
    {
      this.path := Some(path);
      this.line := line;
      files, size := 0, 0;
      fileSummary, dirSummary := false, false;
      reportedFiles, reportedSize := 0, 0;
      hadEntries, fileNotFound := false, false;
      this.mountable := mountable;
    }

    method Close(diagnostics: DiagnosticCollector)
      requires diagnostics.Valid()
      modifies this`path, diagnostics
      ensures diagnostics.Valid() && diagnostics.all == old(diagnostics.all) + CloseReports(old(Value()))
      ensures Value() == Closed(old(Value()))
    {
      if path.None? {
        return;
      }
      if !fileSummary {
        diagnostics.ReportError(MissingSectionFileSummary, Some(line));
      }
      if !dirSummary {
        diagnostics.ReportError(MissingSectionDirSummary, Some(line));
      }
      if fileSummary && (reportedFiles != files || reportedSize != size) {
        diagnostics.ReportError(SectionFileTotalMismatch, Some(line));
      }
      path := None;
    }
  }

  /** The variables of the loop in `_parse`. */
  class ParserRun {
    const section: SectionState
    const diagnostics: DiagnosticCollector
    var active: bool
    var aggregateFile: bool
    var aggregateDir: bool
    var totalFiles: nat
    var totalSize: nat
    var sawSection: bool
    var entries: seq<ParsedEntry>

    function Value(): State
      reads this, section
    {
      State(section.Value(), active, aggregateFile, aggregateDir, totalFiles, totalSize, sawSection)
    }

    ghost predicate Valid()
      reads this, section, diagnostics
    {
      diagnostics.Valid()
    }

    /** What one call adds to what has been reported and yielded so far. */
    twostate predicate Did(effect: Effect)
      reads this, section, diagnostics
    {
      && Value() == effect.state
      && diagnostics.all == old(diagnostics.all) + effect.reports
      && entries == old(entries) + effect.emits
    }

    constructor (diagnostics: DiagnosticCollector)
      requires diagnostics.Valid()
      ensures Valid() && Value() == START && entries == [] && this.diagnostics == diagnostics
      ensures fresh(section) && diagnostics.all == old(diagnostics.all)
    {
      section := new SectionState();
      this.diagnostics := diagnostics;
      active, aggregateFile, aggregateDir := false, false, false;
      totalFiles, totalSize, sawSection := 0, 0, false;
      entries := [];
    }

    method TakeHeader(number: LineNumber, path: seq<Text>, mountable: bool)
      requires Valid()
      modifies this, section, diagnostics
      ensures Valid() && Did(OnHeader(old(Value()), number, path, mountable))
    {
      if active {
        diagnostics.ReportError(SectionAfterAggregate, Some(number));
        return;
      }
      section.Close(diagnostics);
      if !mountable {
        diagnostics.ReportError(InvalidSectionPath, Some(number));
      }
      section.Begin(path, number, mountable);
      sawSection := true;
      if mountable {
        entries := entries + [HeaderEntry(path, number)];
      }
    }

    method TakeTotal(number: LineNumber)
      requires Valid()
      modifies this, section, diagnostics
      ensures Valid() && Did(OnTotal(old(Value()), number))
    {
      section.Close(diagnostics);
      if active {
        diagnostics.ReportError(DuplicateAggregateFooter, Some(number));
      }
      active := true;
    }

    method TakeFileSummary(number: LineNumber, numbers: Option<(nat, nat)>)
      requires Valid()
      modifies this, section, diagnostics
      ensures Valid() && Did(OnFileSummary(old(Value()), number, numbers))
    {
      if numbers.None? {
        diagnostics.ReportError(InvalidSummaryNumber, Some(number));
        return;
      }
      var (count, size) := numbers.value;
      if active {
        TakeAggregateFile(number, count, size);
      } else if section.path.None? {
        diagnostics.ReportError(SummaryOutsideSection, Some(number));
      } else {
        if section.fileSummary {
          diagnostics.ReportError(DuplicateSectionFileSummary, Some(number));
        }
        section.fileSummary := true;
        section.reportedFiles := count;
        section.reportedSize := size;
      }
    }

    method TakeAggregateFile(number: LineNumber, count: nat, size: nat)
      requires Valid()
      modifies this, diagnostics
      ensures Valid() && Did(OnAggregateFile(old(Value()), number, count, size))
    {
      if aggregateFile {
        diagnostics.ReportError(DuplicateAggregateFileSummary, Some(number));
      }
      aggregateFile := true;
      if aggregateDir {
        diagnostics.ReportError(AggregateFileSummaryAfterDirSummary, Some(number));
      }
      if count != totalFiles || size != totalSize {
        diagnostics.ReportError(AggregateFileTotalMismatch, Some(number));
      }
    }

    method TakeDirSummary(number: LineNumber, numeric: bool)
      requires Valid()
      modifies this, section, diagnostics
      ensures Valid() && Did(OnDirSummary(old(Value()), number, numeric))
    {
      if !numeric {
        diagnostics.ReportError(InvalidSummaryNumber, Some(number));
      } else if active {
        if aggregateDir {
          diagnostics.ReportError(DuplicateAggregateDirSummary, Some(number));
        }
        aggregateDir := true;
        if !aggregateFile {
          diagnostics.ReportError(AggregateDirSummaryBeforeFileSummary, Some(number));
        }
      } else if section.path.None? {
        diagnostics.ReportError(SummaryOutsideSection, Some(number));
      } else {
        if section.dirSummary {
          diagnostics.ReportError(DuplicateSectionDirSummary, Some(number));
        }
        if !section.fileSummary {
          diagnostics.ReportError(SectionDirSummaryBeforeFileSummary, Some(number));
        }
        section.dirSummary := true;
      }
    }

    /** `_file_not_found` */
    method TakeNoFiles(number: LineNumber)
      requires Valid()
      modifies this, section, diagnostics
      ensures Valid() && Did(OnNoFiles(old(Value()), number))
    {
      if section.path.None? || active {
        diagnostics.ReportError(FileNotFoundOutsideSection, Some(number));
      } else if section.fileSummary || section.dirSummary {
        diagnostics.ReportError(FileNotFoundAfterSummary, Some(number));
      } else if section.hadEntries {
        diagnostics.ReportError(FileNotFoundWithEntries, Some(number));
      } else if section.fileNotFound {
        diagnostics.ReportError(DuplicateFileNotFound, Some(number));
      } else {
        section.fileNotFound := true;
      }
    }

    method TakeEntry(number: LineNumber, r: EntryResult)
      requires Valid() && TakesEntries(Value())
      modifies this, section, diagnostics
      ensures Valid() && Did(OnEntry(old(Value()), number, r))
    {
      if r.Bad? {
        diagnostics.ReportError(r.code, Some(number));
      }
      if section.fileSummary || section.dirSummary {
        diagnostics.ReportError(EntryAfterSectionSummary, Some(number));
        return;
      }
      if section.fileNotFound {
        diagnostics.ReportError(EntryWithFileNotFound, Some(number));
        return;
      }
      section.hadEntries := true;
      if r.Named? {
        YieldEntry(number, r);
      }
    }

    method YieldEntry(number: LineNumber, r: EntryResult)
      requires Valid() && section.path.Some? && r.Named?
      modifies this, section, diagnostics
      ensures Valid() && Did(OnNamed(old(Value()), number, r))
    {
      if !r.zoned {
        diagnostics.ReportError(InvalidLocalTime, Some(number));
      }
      entries := entries + [EntryFor(section.path.value, r, number)];
      if r.kind.File? {
        var bytes := if r.size.Some? then r.size.value else 0;
        section.files := section.files + 1;
        section.size := section.size + bytes;
        totalFiles := totalFiles + 1;
        totalSize := totalSize + bytes;
      }
    }

    method TakeLine(number: LineNumber, line: Line)
      requires Valid()
      modifies this, section, diagnostics
      ensures Valid() && Did(Step(old(Value()), number, line))
    {
      match line {
        case Ignored =>
        case Header(path, mountable) => TakeHeader(number, path, mountable);
        case Total => TakeTotal(number);
        case FileSummary(numbers) => TakeFileSummary(number, numbers);
        case DirSummary(numeric) => TakeDirSummary(number, numeric);
        case NoFiles => TakeNoFiles(number);
        case Entry(r) =>
          if section.path.Some? && section.mountable && !active {
            TakeEntry(number, r);
          } else {
            diagnostics.ReportError(MalformedEntry, Some(number));
          }
        case Unknown(resembles) =>
          diagnostics.ReportError(if resembles then MalformedEntry else UnknownLine, Some(number));
      }
    }

    /** After the loop. */
    method AtEnd()
      requires Valid()
      modifies this, section, diagnostics
      ensures Valid() && entries == old(entries)
      ensures diagnostics.all == old(diagnostics.all) + EndReports(old(Value()))
    {
      hide CloseReports, MissingReports;
      MissingIgnoresSection(Value(), Closed(section.Value()));
      section.Close(diagnostics);
      CheckMissing();
    }

    method CheckMissing()
      requires Valid()
      modifies diagnostics
      ensures Valid() && diagnostics.all == old(diagnostics.all) + MissingReports(Value())
    {
      if !sawSection {
        diagnostics.ReportError(MissingSection, None);
      }
      if !active {
        diagnostics.ReportError(MissingAggregateFooter, None);
      } else {
        if !aggregateFile {
          diagnostics.ReportError(MissingAggregateFileSummary, None);
        }
        if !aggregateDir {
          diagnostics.ReportError(MissingAggregateDirSummary, None);
        }
      }
    }
  }

  /** `_parse`: the loop over decoded lines, ended by the input or by a decode error. */
  method Parse(lines: seq<Numbered>, decodeError: Option<nat>, diagnostics: DiagnosticCollector)
    returns (entries: seq<ParsedEntry>)
    requires diagnostics.Valid()
    modifies diagnostics
    ensures diagnostics.Valid()
    ensures diagnostics.all == old(diagnostics.all) + Reports(lines, decodeError)
    ensures entries == After(lines).emits
  {
    hide Step;
    hide EndReports;
    var run := new ParserRun(diagnostics);
    var k := 0;
    while k < |lines|
      invariant 0 <= k <= |lines|
      invariant run.Valid() && run.diagnostics == diagnostics && fresh(run) && fresh(run.section)
      invariant run.Value() == After(lines[..k]).state
      invariant diagnostics.all == old(diagnostics.all) + After(lines[..k]).reports
      invariant run.entries == After(lines[..k]).emits
    {
      AfterOneMore(lines, k);
      run.TakeLine(lines[k].number, lines[k].line);
      k := k + 1;
    }
    assert lines[..k] == lines;
    if decodeError.Some? {
      diagnostics.ReportError(DecodeFailure, decodeError);
    }
    run.AtEnd();
    entries := run.entries;
  }
}
