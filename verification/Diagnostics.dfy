/** Structured diagnostics: every one is counted, a bounded prefix is kept. */
module Diagnostics {
  import opened Core

  const MAX_DIAGNOSTICS := 1000

  datatype Severity = Warning | Error

  datatype Code =
    | SectionAfterAggregate | InvalidSectionPath | DuplicateAggregateFooter | InvalidSummaryNumber
    | DuplicateAggregateFileSummary | AggregateFileSummaryAfterDirSummary | AggregateFileTotalMismatch
    | SummaryOutsideSection | DuplicateSectionFileSummary
    | DuplicateAggregateDirSummary | AggregateDirSummaryBeforeFileSummary
    | DuplicateSectionDirSummary | SectionDirSummaryBeforeFileSummary
    | FileNotFoundOutsideSection | FileNotFoundAfterSummary | FileNotFoundWithEntries | DuplicateFileNotFound
    | EntryAfterSectionSummary | EntryWithFileNotFound | InvalidLocalTime
    | TwoDigitYear | InvalidTime | InvalidDatetime | InvalidEntryName | InvalidSize
    | MalformedEntry | UnknownLine | DecodeFailure
    | MissingSectionFileSummary | MissingSectionDirSummary | SectionFileTotalMismatch
    | MissingSection | MissingAggregateFooter | MissingAggregateFileSummary | MissingAggregateDirSummary
    | EntryConflict | InvalidPath

  /** Message texts are left out; codes and line numbers identify a diagnostic. */
  datatype Diagnostic = Diagnostic(severity: Severity, code: Code, line: Option<nat>)

  predicate HasError(ds: seq<Diagnostic>) {
    exists k :: 0 <= k < |ds| && ds[k].severity.Error?
  }

  function Take<T>(s: seq<T>, n: nat): seq<T> {
    if n < |s| then s[..n] else s
  }

  class DiagnosticCollector {
    const limit: nat
    var items: seq<Diagnostic>
    var total: nat
    var hasErrors: bool
    /** Everything ever added. */
    ghost var all: seq<Diagnostic>

    ghost predicate Valid()
      reads this
    {
      items == Take(all, limit) && total == |all| && (hasErrors <==> HasError(all))
    }

    constructor (limit: nat)
      ensures Valid() && all == [] && this.limit == limit
    {
      this.limit := limit;
      items, total, hasErrors := [], 0, false;
      all := [];
    }

    /** Counts always; keeps while there is room. */
    method Add(d: Diagnostic)
      requires Valid()
      modifies this
      ensures Valid() && all == old(all) + [d]
    {
      HasErrorAppend(all, d);
      total := total + 1;
      if d.severity.Error? {
        hasErrors := true;
      }
      if |items| < limit {
        items := items + [d];
      }
      all := all + [d];
    }

    method ReportError(code: Code, line: Option<nat>)
      requires Valid()
      modifies this
      ensures Valid() && all == old(all) + [Diagnostic(Error, code, line)]
    {
      Add(Diagnostic(Error, code, line));
    }
  }

  lemma HasErrorAppend(ds: seq<Diagnostic>, d: Diagnostic)
    ensures HasError(ds + [d]) <==> HasError(ds) || d.severity.Error?
  {
    var all := ds + [d];
    if HasError(ds) {
      var k :| 0 <= k < |ds| && ds[k].severity.Error?;
      assert all[k].severity.Error?;
    }
    if d.severity.Error? {
      assert all[|ds|].severity.Error?;
    }
  }
}
