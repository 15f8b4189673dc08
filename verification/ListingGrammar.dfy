/**
 The language of complete listings, written down without a state machine, and the proof
 that the parser reports nothing exactly on it.
 */
module ListingGrammar {
  import opened Core
  import opened Building
  import opened WindowsDirParser

  // -------------------------------------------------------- the language

  /** A directory section: its path and what stands between header and summaries. */
  datatype Doc = Doc(path: seq<Text>, body: seq<Line>)

  /** An entry without fault: a dot entry, or a named one with a local time that exists. */
  predicate GoodEntry(line: Line) {
    line.Entry? && (line.result.Dot? || (line.result.Named? && line.result.zoned))
  }

  /** Entries, possibly none, or a single "File Not Found". */
  predicate GoodBody(body: seq<Line>) {
    body == [NoFiles] || forall k :: 0 <= k < |body| ==> GoodEntry(body[k])
  }

  function FilesIn(body: seq<Line>): nat {
    if body == [] then 0 else FilesIn(body[..|body| - 1]) + FileOf(body[|body| - 1])
  }

  function BytesIn(body: seq<Line>): nat {
    if body == [] then 0 else BytesIn(body[..|body| - 1]) + BytesOf(body[|body| - 1])
  }

  predicate IsFile(line: Line) {
    line.Entry? && line.result.Named? && line.result.kind.File?
  }

  function FileOf(line: Line): nat {
    if IsFile(line) then 1 else 0
  }

  function BytesOf(line: Line): nat {
    if IsFile(line) && line.result.size.Some? then line.result.size.value else 0
  }

  /** Header, body, a File(s) summary that counts the body, a Dir(s) summary. */
  function SectionLines(d: Doc): seq<Line> {
    [Header(d.path, true)] + d.body + [FileSummary(Some((FilesIn(d.body), BytesIn(d.body)))), DirSummary(true)]
  }

  function SectionsLines(docs: seq<Doc>): seq<Line> {
    if docs == [] then [] else SectionsLines(docs[..|docs| - 1]) + SectionLines(docs[|docs| - 1])
  }

  function AllFiles(docs: seq<Doc>): nat {
    if docs == [] then 0 else AllFiles(docs[..|docs| - 1]) + FilesIn(docs[|docs| - 1].body)
  }

  function AllBytes(docs: seq<Doc>): nat {
    if docs == [] then 0 else AllBytes(docs[..|docs| - 1]) + BytesIn(docs[|docs| - 1].body)
  }

  /** Sections, then one footer whose File(s) summary is the sum of the sections'. */
  function ListingLines(docs: seq<Doc>): seq<Line> {
    SectionsLines(docs) + [Total, FileSummary(Some((AllFiles(docs), AllBytes(docs)))), DirSummary(true)]
  }

  predicate GoodDocs(docs: seq<Doc>) {
    forall k :: 0 <= k < |docs| ==> GoodBody(docs[k].body)
  }

  /** A complete listing: one or more sections and the footer, nothing else but ignored lines. */
  ghost predicate Complete(lines: seq<Line>) {
    exists docs :: docs != [] && GoodDocs(docs) && Meaningful(lines) == ListingLines(docs)
  }

  function Meaningful(lines: seq<Line>): seq<Line> {
    if lines == [] then []
    else Meaningful(lines[..|lines| - 1]) + if lines[|lines| - 1].Ignored? then [] else [lines[|lines| - 1]]
  }

  function LinesOf(numbered: seq<Numbered>): seq<Line> {
    seq(|numbered|, k requires 0 <= k < |numbered| => numbered[k].line)
  }

  // ------------------------------------------- unfinished listings

  /** How far an error-free listing has got. */
  datatype Partial =
    | InSections(done: seq<Doc>)
    | InBody(done: seq<Doc>, doc: Doc)
    | Filed(done: seq<Doc>, doc: Doc, files: nat, bytes: nat)
    | Dired(done: seq<Doc>, doc: Doc, files: nat, bytes: nat)
    | Totaled(done: seq<Doc>)
    | TotalFiled(done: seq<Doc>)
    | Finished(done: seq<Doc>)

  /** The lines that lead there. */
  function LinesTo(p: Partial): seq<Line> {
    SectionsLines(p.done) +
    match p
    case InSections(_) => []
    case InBody(_, doc) => [Header(doc.path, true)] + doc.body
    case Filed(_, doc, files, bytes) => [Header(doc.path, true)] + doc.body + [FileSummary(Some((files, bytes)))]
    case Dired(_, doc, files, bytes) =>
      [Header(doc.path, true)] + doc.body + [FileSummary(Some((files, bytes))), DirSummary(true)]
    case Totaled(_) => [Total]
    case TotalFiled(done) => [Total, FileSummary(Some((AllFiles(done), AllBytes(done))))]
    case Finished(done) => [Total, FileSummary(Some((AllFiles(done), AllBytes(done)))), DirSummary(true)]
  }

  predicate PartialOk(p: Partial) {
    && GoodDocs(p.done)
    && (p.InBody? || p.Filed? || p.Dired? ==> GoodBody(p.doc.body))
    && (p.InSections? ==> p.done == [])
  }

  /** The parser's variables, after an error-free listing has got that far. */
  predicate Matches(st: State, p: Partial) {
    && PartialOk(p)
    && st.active == (p.Totaled? || p.TotalFiled? || p.Finished?)
    && st.aggregateFile == (p.TotalFiled? || p.Finished?)
    && st.aggregateDir == p.Finished?
    && st.sawSection == (p.InBody? || p.Filed? || p.Dired? || p.done != [])
    && (if p.InBody? || p.Filed? || p.Dired? then
          && st.section.path == Some(p.doc.path) && st.section.mountable
          && st.section.files == FilesIn(p.doc.body) && st.section.size == BytesIn(p.doc.body)
          && st.section.fileNotFound == (p.doc.body == [NoFiles])
          && st.section.hadEntries == (p.doc.body != [] && p.doc.body != [NoFiles])
          && st.section.fileSummary == !p.InBody? && st.section.dirSummary == p.Dired?
          && (!p.InBody? ==> st.section.reportedFiles == p.files && st.section.reportedSize == p.bytes)
          && st.totalFiles == AllFiles(p.done) + FilesIn(p.doc.body)
          && st.totalSize == AllBytes(p.done) + BytesIn(p.doc.body)
        else
          st.section.path.None? && st.totalFiles == AllFiles(p.done) && st.totalSize == AllBytes(p.done))
  }

  /** The section before, closed: its summary must have counted its files and bytes. */
  function Closing(p: Partial): Option<seq<Doc>> {
    match p
    case InSections(done) => Some(done)
    case Dired(done, doc, files, bytes) =>
      if files == FilesIn(doc.body) && bytes == BytesIn(doc.body) then Some(done + [doc]) else None
    case _ => None
  }

  /** The one way on, if the next line leaves the listing free of errors. */
  function Next(p: Partial, line: Line): Option<Partial> {
    match line
    case Ignored => Some(p)
    case Header(path, mountable) =>
      if Closing(p).Some? && mountable then Some(InBody(Closing(p).value, Doc(path, []))) else None
    case Total => if Closing(p).Some? then Some(Totaled(Closing(p).value)) else None
    case FileSummary(Some((files, bytes))) =>
      if p.InBody? then Some(Filed(p.done, p.doc, files, bytes))
      else if p.Totaled? && files == AllFiles(p.done) && bytes == AllBytes(p.done) then Some(TotalFiled(p.done))
      else None
    case FileSummary(None) => None
    case DirSummary(numeric) =>
      if !numeric then None
      else if p.Filed? then Some(Dired(p.done, p.doc, p.files, p.bytes))
      else if p.TotalFiled? then Some(Finished(p.done))
      else None
    case NoFiles => if p.InBody? && p.doc.body == [] then Some(InBody(p.done, p.doc.(body := [NoFiles]))) else None
    case Entry(_) =>
      if p.InBody? && p.doc.body != [NoFiles] && GoodEntry(line)
      then Some(InBody(p.done, p.doc.(body := p.doc.body + [line])))
      else None
    case Unknown(_) => None
  }

  lemma BodyGrows(body: seq<Line>, line: Line)
    requires GoodBody(body) && body != [NoFiles] && GoodEntry(line)
    ensures GoodBody(body + [line]) && body + [line] != [NoFiles]
    ensures FilesIn(body + [line]) == FilesIn(body) + FileOf(line)
    ensures BytesIn(body + [line]) == BytesIn(body) + BytesOf(line)
  {
    assert (body + [line])[..|body|] == body;
    assert (body + [line])[|body|] == line;
  }

  lemma DocsGrow(done: seq<Doc>, doc: Doc)
    ensures SectionsLines(done + [doc]) == SectionsLines(done) + SectionLines(doc)
    ensures AllFiles(done + [doc]) == AllFiles(done) + FilesIn(doc.body)
    ensures AllBytes(done + [doc]) == AllBytes(done) + BytesIn(doc.body)
    ensures GoodDocs(done + [doc]) <==> GoodDocs(done) && GoodBody(doc.body)
  {
    assert (done + [doc])[..|done|] == done;
    if GoodDocs(done + [doc]) {
      assert (done + [doc])[|done|] == doc;
      forall k | 0 <= k < |done| ensures GoodBody(done[k].body) {
        assert (done + [doc])[k] == done[k];
      }
    }
  }

  lemma ClosingReports(st: State, p: Partial)
    requires Matches(st, p) && !st.active
    ensures CloseReports(st.section) == [] <==> Closing(p).Some?
    ensures Closing(p).Some? ==>
      && GoodDocs(Closing(p).value)
      && st.totalFiles == AllFiles(Closing(p).value) && st.totalSize == AllBytes(Closing(p).value)
      && LinesTo(p) == SectionsLines(Closing(p).value)
      && (Closing(p).value == [] <==> !st.sawSection)
  {
    if p.Dired? {
      DocsGrow(p.done, p.doc);
      if Closing(p).Some? {
        assert LinesTo(p) == SectionsLines(p.done) + SectionLines(p.doc);
      }
    }
  }

  lemma NoFilesCounts()
    ensures FilesIn([NoFiles]) == 0 && BytesIn([NoFiles]) == 0
  {
    assert [NoFiles][..0] == [];
  }

  /** The line leaves no report exactly when the listing can go on with it. */
  ghost predicate Follows(st: State, p: Partial, number: LineNumber, line: Line) {
    var effect := Step(st, number, line);
    && (effect.reports == [] <==> Next(p, line).Some?)
    && (Next(p, line).Some? ==> Matches(effect.state, Next(p, line).value))
  }

  lemma EmptyBodyCounts()
    ensures FilesIn([]) == 0 && BytesIn([]) == 0 && GoodBody([])
  {
  }

  lemma HeaderFollows(st: State, p: Partial, number: LineNumber, path: seq<Text>, mountable: bool)
    requires Matches(st, p)
    ensures Follows(st, p, number, Header(path, mountable))
  {
    EmptyBodyCounts();
    hide CloseReports, FilesIn, BytesIn, AllFiles, AllBytes, GoodDocs, GoodBody, LinesTo, SectionsLines;
    if st.active {
      assert Closing(p).None?;
    } else {
      ClosingReports(st, p);
      hide Closing;
    }
  }

  lemma TotalFollows(st: State, p: Partial, number: LineNumber)
    requires Matches(st, p)
    ensures Follows(st, p, number, Total)
  {
    hide CloseReports, FilesIn, BytesIn, AllFiles, AllBytes, GoodDocs, GoodBody, LinesTo, SectionsLines;
    if st.active {
      assert Closing(p).None?;
    } else {
      ClosingReports(st, p);
      hide Closing;
    }
  }

  lemma NoFilesFollows(st: State, p: Partial, number: LineNumber)
    requires Matches(st, p)
    ensures Follows(st, p, number, NoFiles)
  {
    NoFilesCounts();
  }

  /** An entry with a fault, or in the wrong place, is reported. */
  lemma EntryRefused(st: State, p: Partial, number: LineNumber, r: EntryResult)
    requires Matches(st, p)
    requires !(p.InBody? && p.doc.body != [NoFiles] && GoodEntry(Entry(r)))
    ensures Step(st, number, Entry(r)).reports != []
  {
    hide FilesIn, BytesIn, AllFiles, AllBytes, GoodDocs, GoodBody;
  }

  /** The state after an entry that is taken: one more file, if it is one. */
  function Taken(st: State, line: Line): State {
    var section := st.section;
    st.(section := section.(hadEntries := true, files := section.files + FileOf(line),
                            size := section.size + BytesOf(line)),
        totalFiles := st.totalFiles + FileOf(line), totalSize := st.totalSize + BytesOf(line))
  }

  lemma EntryTakes(st: State, number: LineNumber, r: EntryResult)
    requires TakesEntries(st) && !st.section.fileSummary && !st.section.dirSummary && !st.section.fileNotFound
    requires r.Wellformed() && GoodEntry(Entry(r))
    ensures Step(st, number, Entry(r)).reports == []
    ensures Step(st, number, Entry(r)).state == Taken(st, Entry(r))
  {
  }

  lemma TakenMatches(st: State, p: Partial, body: seq<Line>, line: Line)
    requires Matches(st, p) && p.InBody? && p.doc.body != [NoFiles]
    requires GoodBody(body) && body != [] && body != [NoFiles]
    requires FilesIn(body) == FilesIn(p.doc.body) + FileOf(line)
    requires BytesIn(body) == BytesIn(p.doc.body) + BytesOf(line)
    ensures Matches(Taken(st, line), InBody(p.done, Doc(p.doc.path, body)))
  {
    hide FilesIn, BytesIn, AllFiles, AllBytes, GoodDocs, GoodBody, FileOf, BytesOf;
  }

  lemma BodyIsOpen(st: State, p: Partial)
    requires Matches(st, p) && p.InBody? && p.doc.body != [NoFiles]
    ensures TakesEntries(st) && !st.section.fileSummary && !st.section.dirSummary && !st.section.fileNotFound
  {
    hide FilesIn, BytesIn, AllFiles, AllBytes, GoodDocs, GoodBody;
  }

  lemma MatchesGoodBody(st: State, p: Partial)
    requires Matches(st, p) && p.InBody?
    ensures GoodBody(p.doc.body)
  {
  }

  lemma StepFollows(st: State, p: Partial, number: LineNumber, line: Line)
    requires Matches(st, p) && !line.Entry?
    ensures Follows(st, p, number, line)
  {
    hide FilesIn, BytesIn, AllFiles, AllBytes, GoodDocs, GoodBody, CloseReports;
    match line {
      case Header(path, mountable) => HeaderFollows(st, p, number, path, mountable);
      case Total => TotalFollows(st, p, number);
      case NoFiles => NoFilesFollows(st, p, number);
      case FileSummary(_) =>
      case DirSummary(_) =>
      case Ignored =>
      case Unknown(_) =>
    }
  }

  /** ... and then the lines that lead on are the lines before and this one. */
  lemma NextLines(p: Partial, line: Line)
    requires PartialOk(p) && Next(p, line).Some?
    ensures LinesTo(Next(p, line).value) == LinesTo(p) + if line.Ignored? then [] else [line]
  {
    hide FilesIn, BytesIn, AllFiles, AllBytes, GoodDocs, GoodBody, GoodEntry;
    match line {
      case Header(path, _) => CloseLines(p);
      case Total => CloseLines(p);
      case NoFiles => NextBodyLines(p.done, p.doc.path, [], line);
      case Entry(_) => NextBodyLines(p.done, p.doc.path, p.doc.body, line);
      case FileSummary(_) => NextSummaryLines(p, line);
      case _ =>
    }
  }

  lemma NextBodyLines(done: seq<Doc>, path: seq<Text>, body: seq<Line>, line: Line)
    ensures LinesTo(InBody(done, Doc(path, body + [line]))) == LinesTo(InBody(done, Doc(path, body))) + [line]
  {
    hide SectionsLines;
    var sections, header := SectionsLines(done), [Header(path, true)];
    assert sections + (header + (body + [line])) == sections + (header + body) + [line];
  }

  lemma NextSummaryLines(p: Partial, line: Line)
    requires line.FileSummary? && Next(p, line).Some?
    ensures LinesTo(Next(p, line).value) == LinesTo(p) + [line]
  {
    hide SectionsLines, AllFiles, AllBytes;
  }

  lemma CloseLines(p: Partial)
    requires Closing(p).Some?
    ensures LinesTo(p) == SectionsLines(Closing(p).value)
  {
    if p.Dired? {
      DocsGrow(p.done, p.doc);
      assert LinesTo(p) == SectionsLines(p.done) + SectionLines(p.doc);
    }
  }

  // ----------------------------------------------- what a listing yields

  /** The entry of a section's own directory. */
  predicate CarriesHeader(e: ParsedEntry, path: seq<Text>, number: LineNumber) {
    && e.path == path && e.kind.Directory? && e.observation.SectionHeader?
    && e.size.None? && e.modified.None? && e.content.None? && e.metadata.NoMetadata?
    && e.line == Some(number)
  }

  /** The entry of a named line in a section: its name below the section's path, and its
      kind, size, time and line. */
  predicate CarriesEntry(e: ParsedEntry, section: seq<Text>, r: EntryResult, number: LineNumber)
    requires r.Named?
  {
    && |e.path| == |section| + 1 && e.path[..|section|] == section && e.path[|section|] == r.name
    && e.kind == r.kind && (if r.kind.File? then e.observation.FileEntry? else e.observation.DirectoryEntry?)
    && e.size == r.size && e.modified == Some(r.modified) && e.content.None? && e.metadata.NoMetadata?
    && e.line == Some(number)
  }

  /** The path in the last header line. */
  function HeaderAbove(numbered: seq<Numbered>): Option<seq<Text>> {
    if numbered == [] then None
    else
      var last := numbered[|numbered| - 1].line;
      if last.Header? then Some(last.path) else HeaderAbove(numbered[..|numbered| - 1])
  }

  /** Line after line: a header yields its directory, a named entry its entry below the
      header above it, and no other line anything. */
  ghost predicate YieldsAs(es: seq<ParsedEntry>, numbered: seq<Numbered>)
    decreases |numbered|
  {
    if numbered == [] then es == []
    else
      var front, last := numbered[..|numbered| - 1], numbered[|numbered| - 1];
      match last.line
      case Header(path, _) =>
        es != [] && CarriesHeader(es[|es| - 1], path, last.number) && YieldsAs(es[..|es| - 1], front)
      case Entry(Named(name, kind, size, modified, zoned)) =>
        && es != [] && HeaderAbove(front).Some?
        && CarriesEntry(es[|es| - 1], HeaderAbove(front).value, last.line.result, last.number)
        && YieldsAs(es[..|es| - 1], front)
      case _ => YieldsAs(es, front)
  }

  /** In any state at all, a line yields nothing or the one entry that it denotes. */
  lemma StepYields(st: State, number: LineNumber, line: Line)
    ensures var emits := Step(st, number, line).emits;
      emits != [] ==>
        && |emits| == 1
        && (line.Header? || (line.Entry? && line.result.Named? && st.section.path.Some?))
        && (line.Header? ==> CarriesHeader(emits[0], line.path, number))
        && (line.Entry? ==> CarriesEntry(emits[0], st.section.path.value, line.result, number))
  {
    hide CloseReports;
  }

  lemma AcceptedYields(st: State, p: Partial, number: LineNumber, line: Line)
    requires Matches(st, p) && Next(p, line).Some?
    ensures Step(st, number, line).emits != [] <==> line.Header? || (line.Entry? && line.result.Named?)
    ensures line.Entry? ==> p.InBody? && st.section.path == Some(p.doc.path)
  {
    hide FilesIn, BytesIn, AllFiles, AllBytes, GoodDocs, GoodBody, CloseReports;
  }

  predicate InDoc(p: Partial) {
    p.InBody? || p.Filed? || p.Dired?
  }

  lemma NextDoc(p: Partial, line: Line)
    requires Next(p, line).Some? && InDoc(Next(p, line).value)
    ensures if line.Header? then Next(p, line).value.doc.path == line.path
      else InDoc(p) && Next(p, line).value.doc.path == p.doc.path
  {
    hide FilesIn, BytesIn, AllFiles, AllBytes;
  }

  // ----------------------------------------------------------- whole runs

  /** The automaton over a series of lines. */
  function Advance(p: Partial, lines: seq<Line>): Option<Partial> {
    if lines == [] then Some(p)
    else
      match Advance(p, lines[..|lines| - 1])
      case None => None
      case Some(q) => Next(q, lines[|lines| - 1])
  }

  lemma {:induction false} AdvanceConcat(p: Partial, a: seq<Line>, b: seq<Line>)
    ensures Advance(p, a + b) == if Advance(p, a).Some? then Advance(Advance(p, a).value, b) else None
  {
    if b == [] {
      assert a + b == a;
    } else {
      AdvanceConcat(p, a, b[..|b| - 1]);
      assert (a + b)[..|a + b| - 1] == a + b[..|b| - 1];
    }
  }

  predicate WellformedLines(numbered: seq<Numbered>) {
    forall k :: 0 <= k < |numbered| && numbered[k].line.Entry? ==> numbered[k].line.result.Wellformed()
  }

  const NO_LINES: Partial := InSections([])

  /** The parser has reported nothing exactly when the lines so far begin a complete listing;
      and then its variables and its output say how far. */
  lemma {:induction false} RunFollows(numbered: seq<Numbered>)
    requires WellformedLines(numbered)
    ensures After(numbered).reports == [] <==> Advance(NO_LINES, LinesOf(numbered)).Some?
    ensures Advance(NO_LINES, LinesOf(numbered)).Some? ==>
      var p := Advance(NO_LINES, LinesOf(numbered)).value;
      && Matches(After(numbered).state, p)
      && LinesTo(p) == Meaningful(LinesOf(numbered))
      && YieldsAs(After(numbered).emits, numbered)
      && (InDoc(p) ==> HeaderAbove(numbered) == Some(p.doc.path))
  {
    hide Step, Matches, LinesTo, GoodEntry, GoodBody, FilesIn, BytesIn;
    if numbered == [] {
      RunStarts();
    } else {
      var front, last := numbered[..|numbered| - 1], numbered[|numbered| - 1];
      RunFollows(front);
      assert LinesOf(numbered)[..|numbered| - 1] == LinesOf(front);
      assert LinesOf(numbered)[|numbered| - 1] == last.line;
      if Advance(NO_LINES, LinesOf(front)).Some? {
        var p := Advance(NO_LINES, LinesOf(front)).value;
        var before := After(front);
        if last.line.Entry? {
          if p.InBody? && p.doc.body != [NoFiles] && GoodEntry(last.line) {
            BodyIsOpen(before.state, p);
            EntryTakes(before.state, last.number, last.line.result);
            MatchesGoodBody(before.state, p);
            BodyGrows(p.doc.body, last.line);
            TakenMatches(before.state, p, p.doc.body + [last.line], last.line);
          } else {
            EntryRefused(before.state, p, last.number, last.line.result);
          }
        } else {
          StepFollows(before.state, p, last.number, last.line);
        }
        if Next(p, last.line).Some? {
          MatchesOk(before.state, p);
          NextLines(p, last.line);
          StepYields(before.state, last.number, last.line);
          AcceptedYields(before.state, p, last.number, last.line);
          if InDoc(Next(p, last.line).value) {
            NextDoc(p, last.line);
          }
          hide Next, InDoc, CarriesHeader, CarriesEntry;
          YieldsMore(before.emits, Step(before.state, last.number, last.line).emits, front, last);
        }
      }
    }
  }

  lemma MatchesOk(st: State, p: Partial)
    requires Matches(st, p)
    ensures PartialOk(p) && GoodDocs(p.done)
  {
  }

  lemma YieldsMore(es: seq<ParsedEntry>, more: seq<ParsedEntry>, front: seq<Numbered>, last: Numbered)
    requires YieldsAs(es, front)
    requires more != [] <==> last.line.Header? || (last.line.Entry? && last.line.result.Named?)
    requires more != [] ==> |more| == 1
    requires last.line.Header? ==> CarriesHeader(more[0], last.line.path, last.number)
    requires last.line.Entry? && last.line.result.Named? ==>
      HeaderAbove(front).Some? && CarriesEntry(more[0], HeaderAbove(front).value, last.line.result, last.number)
    ensures YieldsAs(es + more, front + [last])
  {
    hide CarriesHeader, CarriesEntry;
    assert (front + [last])[..|front|] == front;
    assert es + [] == es;
    if more != [] {
      assert (es + more)[..|es|] == es;
    }
  }

  lemma RunStarts()
    ensures Matches(START, NO_LINES) && LinesTo(NO_LINES) == []
  {
  }

  lemma EndFollows(st: State, p: Partial)
    requires Matches(st, p)
    ensures EndReports(st) == [] <==> p.Finished? && p.done != []
  {
    hide FilesIn, BytesIn, AllFiles, AllBytes, GoodDocs, GoodBody;
  }

  // --------------------------------------------------------- completeness

  /** Ignored lines change nothing. */
  lemma {:induction false} AdvanceMeaningful(p: Partial, lines: seq<Line>)
    ensures Advance(p, Meaningful(lines)) == Advance(p, lines)
  {
    if lines != [] {
      var front, last := lines[..|lines| - 1], lines[|lines| - 1];
      AdvanceMeaningful(p, front);
      if last.Ignored? {
        assert Meaningful(lines) == Meaningful(front);
      } else {
        assert Meaningful(lines)[..|Meaningful(front)|] == Meaningful(front);
      }
    }
  }

  /** Without its last entry a body is a body still, with room for the entry. */
  lemma BodyShrinks(body: seq<Line>)
    requires GoodBody(body) && body != [] && body != [NoFiles]
    ensures GoodBody(body[..|body| - 1]) && body[..|body| - 1] != [NoFiles]
    ensures GoodEntry(body[|body| - 1]) && body[|body| - 1].Entry?
  {
    assert GoodEntry(body[0]);
  }

  lemma {:induction false} AdvanceBody(done: seq<Doc>, path: seq<Text>, body: seq<Line>)
    requires GoodBody(body)
    ensures Advance(InBody(done, Doc(path, [])), body) == Some(InBody(done, Doc(path, body)))
  {
    if body == [NoFiles] {
      AdvanceOne(InBody(done, Doc(path, [])), NoFiles);
    } else if body != [] {
      var front, last := body[..|body| - 1], body[|body| - 1];
      BodyShrinks(body);
      hide GoodBody, GoodEntry;
      AdvanceBody(done, path, front);
      assert front + [last] == body;
    }
  }

  lemma AdvanceSection(p: Partial, d: Doc)
    requires Closing(p).Some? && GoodBody(d.body)
    ensures Advance(p, SectionLines(d)) == Some(Dired(Closing(p).value, d, FilesIn(d.body), BytesIn(d.body)))
  {
    var header, dir := Header(d.path, true), DirSummary(true);
    var file := FileSummary(Some((FilesIn(d.body), BytesIn(d.body))));
    AdvanceOne(p, header);
    AdvanceConcat(p, [header], d.body);
    AdvanceBody(Closing(p).value, d.path, d.body);
    AdvanceConcat(p, [header] + d.body, [file]);
    AdvanceOne(InBody(Closing(p).value, d), file);
    AdvanceConcat(p, [header] + d.body + [file], [dir]);
    AdvanceOne(Filed(Closing(p).value, d, FilesIn(d.body), BytesIn(d.body)), dir);
    assert SectionLines(d) == [header] + d.body + [file] + [dir];
  }

  lemma AdvanceOne(p: Partial, line: Line)
    ensures Advance(p, [line]) == Next(p, line)
  {
    assert [line][..0] == [];
  }

  lemma {:induction false} AdvanceSections(docs: seq<Doc>)
    requires GoodDocs(docs)
    ensures Advance(NO_LINES, SectionsLines(docs)).Some?
    ensures Closing(Advance(NO_LINES, SectionsLines(docs)).value) == Some(docs)
  {
    if docs != [] {
      var front, last := docs[..|docs| - 1], docs[|docs| - 1];
      AdvanceSections(front);
      AdvanceConcat(NO_LINES, SectionsLines(front), SectionLines(last));
      AdvanceSection(Advance(NO_LINES, SectionsLines(front)).value, last);
      assert front + [last] == docs;
    }
  }

  lemma AdvanceListing(docs: seq<Doc>)
    requires GoodDocs(docs)
    ensures Advance(NO_LINES, ListingLines(docs)) == Some(Finished(docs))
  {
    var file := FileSummary(Some((AllFiles(docs), AllBytes(docs))));
    var sections := SectionsLines(docs);
    AdvanceSections(docs);
    AdvanceConcat(NO_LINES, sections, [Total]);
    AdvanceOne(Advance(NO_LINES, sections).value, Total);
    AdvanceConcat(NO_LINES, sections + [Total], [file]);
    AdvanceOne(Totaled(docs), file);
    AdvanceConcat(NO_LINES, sections + [Total] + [file], [DirSummary(true)]);
    AdvanceOne(TotalFiled(docs), DirSummary(true));
    assert ListingLines(docs) == sections + [Total] + [file] + [DirSummary(true)];
  }

  /** The sections that make up a complete listing are determined by its lines. */
  lemma ListingUnique(docs: seq<Doc>, others: seq<Doc>)
    requires GoodDocs(docs) && GoodDocs(others) && ListingLines(docs) == ListingLines(others)
    ensures docs == others
  {
    AdvanceListing(docs);
    AdvanceListing(others);
  }

  // ------------------------------------------------------------- theorem

  /** The parser records no diagnostic exactly when the input decodes and its lines, blanks
      and banners aside, form a complete listing. */
  lemma AcceptsExactlyCompleteListings(numbered: seq<Numbered>, decodeError: Option<nat>)
    requires WellformedLines(numbered)
    ensures Reports(numbered, decodeError) == [] <==> decodeError.None? && Complete(LinesOf(numbered))
  {
    hide Matches, LinesTo, EndReports, GoodDocs, ListingLines;
    var lines := LinesOf(numbered);
    RunFollows(numbered);
    if Advance(NO_LINES, lines).Some? {
      var p := Advance(NO_LINES, lines).value;
      EndFollows(After(numbered).state, p);
      if p.Finished? && p.done != [] {
        FinishedLines(p);
        MatchesOk(After(numbered).state, p);
      }
    }
    if Complete(lines) {
      var docs :| docs != [] && GoodDocs(docs) && Meaningful(lines) == ListingLines(docs);
      AdvanceListing(docs);
      AdvanceMeaningful(NO_LINES, lines);
    }
  }

  lemma FinishedLines(p: Partial)
    requires p.Finished?
    ensures LinesTo(p) == ListingLines(p.done)
  {
  }

  /** ... and then it yields each section's directory and named entries, in order, each with
      what its own line says. */
  lemma CompleteListingYields(numbered: seq<Numbered>)
    requires WellformedLines(numbered) && Complete(LinesOf(numbered))
    ensures YieldsAs(After(numbered).emits, numbered)
  {
    hide Matches, LinesTo, Complete, YieldsAs;
    RunFollows(numbered);
    AcceptsExactlyCompleteListings(numbered, None);
  }
}
