/**
 From a stream of bytes to a published store: decoding, classification, the state machine
 and the builder, put together.
 */
module Pipeline {
  import opened Core
  import opened Unicode
  import opened Building
  import opened Tree
  import Stores
  import opened Compatibility
  import opened Diagnostics
  import opened ImportService
  import D = Decoding
  import B = LineByLine
  import G = Grammar
  import C = Classification
  import P = WindowsDirParser
  import L = ListingGrammar
  import R = RunningTotals

  // ------------------------------------------------ every report is an error

  predicate AllErrors(ds: seq<Diagnostic>) {
    forall k :: 0 <= k < |ds| ==> ds[k].severity.Error?
  }

  lemma {:induction false} ReportsAreErrors(lines: seq<P.Numbered>)
    ensures AllErrors(P.After(lines).reports)
  {
    if lines != [] {
      var front, last := lines[..|lines| - 1], lines[|lines| - 1];
      ReportsAreErrors(front);
      StepReportsErrors(P.After(front).state, last.number, last.line);
      hide P.Step;
    }
  }

  lemma ErrorsOnly(code: Code, line: nat, condition: bool)
    ensures AllErrors(P.Error1(code, line)) && AllErrors(P.If(condition, P.Error1(code, line)))
  {
  }

  lemma AllErrorsConcat(a: seq<Diagnostic>, b: seq<Diagnostic>)
    requires AllErrors(a) && AllErrors(b)
    ensures AllErrors(a + b)
  {
  }

  lemma CloseErrors(section: P.Section)
    ensures AllErrors(P.CloseReports(section))
  {
  }

  lemma StepReportsErrors(st: P.State, number: LineNumber, line: P.Line)
    ensures AllErrors(P.Step(st, number, line).reports)
  {
    hide P.CloseReports;
    CloseErrors(st.section);
    match line {
      case Header(path, mountable) =>
        ErrorsOnly(InvalidSectionPath, number, !mountable);
        AllErrorsConcat(P.CloseReports(st.section), P.If(!mountable, P.Error1(InvalidSectionPath, number)));
      case Total =>
        ErrorsOnly(DuplicateAggregateFooter, number, st.active);
        AllErrorsConcat(P.CloseReports(st.section), P.If(st.active, P.Error1(DuplicateAggregateFooter, number)));
      case Entry(r) => EntryReportsErrors(st, number, r);
      case _ =>
    }
  }

  lemma EntryReportsErrors(st: P.State, number: LineNumber, r: P.EntryResult)
    ensures AllErrors(P.Step(st, number, P.Entry(r)).reports)
  {
  }

  lemma HasErrorIfAny(lines: seq<P.Numbered>, decodeError: Option<nat>)
    ensures HasError(P.Reports(lines, decodeError)) <==> P.Reports(lines, decodeError) != []
  {
    var all := P.Reports(lines, decodeError);
    ReportsAreErrors(lines);
    assert AllErrors(P.EndReports(P.After(lines).state)) by {
      hide P.After;
    }
    hide P.After, P.EndReports;
    assert AllErrors(all);
    if all != [] {
      assert all[0].severity.Error?;
    }
  }

  // -------------------------------------------------- paths that are yielded

  /** A component free of what the grammar keeps out. */
  predicate Clean(c: Text) {
    c != [] && !C.DotName(c) && 0 !in c && SLASH !in c
  }

  predicate CleanPath(path: seq<Text>) {
    path != [] && forall k :: 0 <= k < |path| ==> Clean(path[k])
  }

  /** What classification guarantees of the lines it makes. */
  predicate CleanLine(line: P.Line) {
    match line
    case Header(path, mountable) => mountable ==> CleanPath(path)
    case Entry(r) => r.Wellformed() && (r.Named? ==> Clean(r.name))
    case _ => true
  }

  lemma MountedPathIsClean(raw: Text)
    requires C.Mountable(raw)
    ensures CleanPath(C.MountedPath(raw))
  {
    C.MountableIsWritten(raw);
    var path := C.MountedPath(raw);
    hide C.MountedPath, C.WriteSectionPath;
    assert path == [[C.Upper(raw[0])]] + path[1..] && C.Letter(raw[0]) by {
      DriveFirst(raw);
    }
    forall k | 0 <= k < |path| ensures Clean(path[k]) {
      if k > 0 {
        assert path[k] == path[1..][k - 1];
      }
    }
  }

  lemma DriveFirst(raw: Text)
    requires C.Mountable(raw)
    ensures C.Letter(raw[0]) && C.MountedPath(raw) == [[C.Upper(raw[0])]] + C.MountedPath(raw)[1..]
  {
    hide C.Split;
  }

  lemma NamedIsClean(source: C.Source, e: G.EntryText)
    requires G.EntryOk(e)
    ensures CleanLine(P.Entry(C.EntryResult(source, e)))
  {
    hide C.ParseTime;
  }

  lemma ClassifiedIsClean(source: C.Source, text: Text)
    ensures CleanLine(C.Classify(source, text))
  {
    hide G.IsBlank, G.IsVolume, G.ScanSummary, G.HeaderPath, G.ScanEntry, G.WriteEntry, C.EntryResult, C.MountedPath;
    hide C.Mountable, CleanPath, Clean, G.EntryOk;
    var line := C.Classify(source, text);
    if line.Header? && line.mountable {
      MountedPathIsClean(G.HeaderPath(text).value);
    } else if line.Entry? {
      C.ClassifyEntry(source, text);
      NamedIsClean(source, G.ScanEntry(text).value);
    }
  }

  predicate CleanLines(lines: seq<P.Numbered>) {
    forall k :: 0 <= k < |lines| ==> CleanLine(lines[k].line)
  }

  predicate CleanState(st: P.State) {
    st.section.path.Some? && st.section.mountable ==> CleanPath(st.section.path.value)
  }

  predicate CleanEntries(es: seq<ParsedEntry>) {
    forall k :: 0 <= k < |es| ==> CleanPath(es[k].path)
  }

  lemma StepIsClean(st: P.State, number: LineNumber, line: P.Line)
    requires CleanState(st) && CleanLine(line)
    ensures CleanState(P.Step(st, number, line).state) && CleanEntries(P.Step(st, number, line).emits)
  {
    hide P.CloseReports, Clean;
  }

  lemma {:induction false} YieldsAreClean(lines: seq<P.Numbered>)
    requires CleanLines(lines)
    ensures CleanState(P.After(lines).state) && CleanEntries(P.After(lines).emits)
  {
    if lines != [] {
      var front, last := lines[..|lines| - 1], lines[|lines| - 1];
      YieldsAreClean(front);
      StepIsClean(P.After(front).state, last.number, last.line);
      hide P.Step, CleanPath, CleanState;
    }
  }

  /** A name that can be encoded, in few enough bytes. */
  predicate Fitting(c: Text) {
    Encodable(c) && |Utf8Encode(c)| <= MAX_MOUNTED_NAME_BYTES
  }

  /** The one thing left for the builder to reject in a path: a name too long, or with no
      UTF-8 form. */
  lemma CleanPathIsValid(path: seq<Text>)
    requires CleanPath(path)
    ensures ValidPath(path) <==> forall k :: 0 <= k < |path| ==> Fitting(path[k])
  {
    forall k | 0 <= k < |path| ensures ComponentFault(path[k]).None? <==> Fitting(path[k]) {
    }
  }

  // ----------------------------------------------------------- from text

  /** The decoded lines of a run, classified. */
  function Classified(source: C.Source, decoded: seq<D.DecodedLine>): seq<P.Numbered> {
    seq(|decoded|, k requires 0 <= k < |decoded| =>
      P.Numbered(decoded[k].number, C.Classify(source, decoded[k].text)))
  }

  lemma ClassifiedAreClean(source: C.Source, decoded: seq<D.DecodedLine>)
    ensures CleanLines(Classified(source, decoded)) && L.WellformedLines(Classified(source, decoded))
  {
    forall k | 0 <= k < |decoded| ensures CleanLine(Classified(source, decoded)[k].line) {
      ClassifiedIsClean(source, decoded[k].text);
    }
    hide C.Classify;
  }

  function ErrorLine(error: Option<D.DecodeError>): Option<nat> {
    if error.Some? then Some(error.value.lineNumber) else None
  }

  /** The entries of a run. */
  function EntriesOf(source: C.Source, run: D.Run): seq<ParsedEntry> {
    P.After(Classified(source, run.lines)).emits
  }

  ghost predicate PairwiseCompatible(es: seq<ParsedEntry>) {
    forall x, y :: x in es && y in es ==> Compatible(x, y)
  }

  predicate FittingPaths(es: seq<ParsedEntry>) {
    forall e :: e in es ==> forall k :: 0 <= k < |e.path| ==> Fitting(e.path[k])
  }

  /** An import succeeds exactly when the stream decodes, its lines form a complete listing,
      every name fits, and no two entries contradict each other. */
  ghost predicate Importable(source: C.Source, run: D.Run) {
    && run.error.None?
    && L.Complete(L.LinesOf(Classified(source, run.lines)))
    && FittingPaths(EntriesOf(source, run))
    && PairwiseCompatible(EntriesOf(source, run))
  }

  lemma EntriesAreShaped(source: C.Source, run: D.Run)
    ensures AllShaped(EntriesOf(source, run))
    ensures forall e :: e in EntriesOf(source, run) ==> e.Wellformed() && CleanPath(e.path)
  {
    var lines := Classified(source, run.lines);
    ClassifiedAreClean(source, run.lines);
    R.YieldsAreShaped(lines);
    YieldsAreClean(lines);
    hide P.After, Classified, L.WellformedLines, CleanLines, CleanPath;
  }

  lemma PublishesExactlyImportable(source: C.Source, run: D.Run, outcome: Outcome)
    requires IndexOk(EMPTY_TREE)
    requires Imports(outcome, P.Reports(Classified(source, run.lines), ErrorLine(run.error)), EntriesOf(source, run))
    ensures outcome.Published? <==> Importable(source, run)
  {
    var lines, es := Classified(source, run.lines), EntriesOf(source, run);
    hide Classified, P.Reports, P.After, L.Complete, CleanPath, Fitting, ValidPath, Compatible, TreeOk, Describes;
    hide Joins, L.LinesOf, AddAll, CleanLines, L.WellformedLines, HasError;
    ClassifiedAreClean(source, run.lines);
    HasErrorIfAny(lines, ErrorLine(run.error));
    L.AcceptsExactlyCompleteListings(lines, ErrorLine(run.error));
    EntriesAreShaped(source, run);
    BuildsIffCompatible(es);
    forall e | e in es ensures ValidPath(e.path) <==> forall k :: 0 <= k < |e.path| ==> Fitting(e.path[k]) {
      CleanPathIsValid(e.path);
    }
  }

  // ----------------------------------------------------------- from bytes

  /** The two families of encodings. */
  datatype Charset =
    | Bytewise(byteCodec: D.Codec)
    | Unitwise(encoding: D.Utf16, unitCodec: ByteOrder -> D.Codec)

  /** What decoding the whole stream must yield. */
  function WholeRun(charset: Charset, stream: Bytes, limit: nat): D.Run {
    match charset
    case Bytewise(codec) => D.LineRun(D.Narrow, codec, stream, 0, 1, limit)
    case Unitwise(encoding, codec) => D.Utf16Run(encoding, codec, stream, limit)
  }

  /** The charset of a Unicode codec. */
  function CharsetOf(codec: B.UtfCodec): Charset {
    match codec
    case Utf8Codec => Bytewise(B.StrictCodec(B.Utf8))
    case Utf16Codec(encoding) => Unitwise(encoding, B.OrderCodec(encoding))
  }

  /** The run over a decoded text: its numbered lines, and no error. */
  function TextRun(s: Bytes, text: Text): D.Run {
    D.Run(B.Numbered(B.LinesOf(s, text), 1), None)
  }

  /** For a Unicode codec, a stream is importable exactly when its byte order is known, no
      line is too long, the stream decodes as a whole, and the lines of its text are
      importable. */
  lemma ImportableAsText(source: C.Source, codec: B.UtfCodec, s: Bytes, limit: nat)
    ensures Importable(source, WholeRun(CharsetOf(codec), s, limit)) <==>
      && B.OrderKnown(codec, s) && B.LinesFit(codec, s, limit) && B.WholeDecode(codec, s).Decoded?
      && Importable(source, TextRun(s, B.WholeDecode(codec, s).text))
  {
    hide D.LineRun, D.Utf16Run, B.Strict, B.WithinLimit, Classified, EntriesOf, L.Complete, FittingPaths;
    B.LineByLineAgrees(codec, s, limit);
    assert WholeRun(CharsetOf(codec), s, limit) == B.StreamRun(codec, s, limit);
  }

  /** Import of a stream, however its bytes arrive. */
  method ImportStream(chunks: seq<Bytes>, charset: Charset, limit: nat, source: C.Source) returns (outcome: Outcome)
    ensures outcome.Published? <==> Importable(source, WholeRun(charset, D.Stream(chunks), limit))
    ensures outcome.Published? || outcome.ImportFailure?
    ensures outcome.Published? ==>
      var es := EntriesOf(source, WholeRun(charset, D.Stream(chunks), limit));
      && IndexOk(EMPTY_TREE)
      && outcome.store == Stores.FinishedMemory(AddAll(EMPTY_TREE, es).0)
      && outcome.diagnostics == [] && outcome.count == 0
  {
    hide D.LineRun, D.Utf16Run, P.After, P.Reports, Importable, Joins, Stores.FinishedMemory, AddAll, C.Classify;
    var run: D.Run;
    ghost var kept: seq<nat>;
    match charset {
      case Bytewise(codec) => run, kept := D.IterByteLines(chunks, codec, limit);
      case Unitwise(encoding, codec) => run, kept := D.IterUtf16Lines(chunks, encoding, codec, limit);
    }
    var lines: seq<P.Numbered> := [];
    var k := 0;
    while k < |run.lines|
      invariant 0 <= k <= |run.lines|
      invariant lines == Classified(source, run.lines[..k])
    {
      lines := lines + [P.Numbered(run.lines[k].number, C.Classify(source, run.lines[k].text))];
      k := k + 1;
    }
    assert run.lines[..k] == run.lines;
    EntriesAreShaped(source, run);
    outcome := CreateStore(lines, ErrorLine(run.error));
    PublishesExactlyImportable(source, run, outcome);
    HasErrorIfAny(lines, ErrorLine(run.error));
  }
}
