/**
 What the parser's counters mean at every line boundary of every run, with or without
 faults, told from the entries that have been yielded.
 */
module RunningTotals {
  import opened Core
  import opened Building
  import opened WindowsDirParser
  import opened ListingGrammar

  function FilesAmong(es: seq<ParsedEntry>): nat {
    if es == [] then 0
    else FilesAmong(es[..|es| - 1]) + if es[|es| - 1].kind.File? then 1 else 0
  }

  function BytesAmong(es: seq<ParsedEntry>): nat {
    if es == [] then 0
    else BytesAmong(es[..|es| - 1]) + if es[|es| - 1].size.Some? then es[|es| - 1].size.value else 0
  }

  lemma {:induction false} AmongConcat(a: seq<ParsedEntry>, b: seq<ParsedEntry>)
    ensures FilesAmong(a + b) == FilesAmong(a) + FilesAmong(b)
    ensures BytesAmong(a + b) == BytesAmong(a) + BytesAmong(b)
  {
    if b == [] {
      assert a + b == a;
    } else {
      AmongConcat(a, b[..|b| - 1]);
      assert (a + b)[..|a + b| - 1] == a + b[..|b| - 1];
    }
  }

  /** A header that opens a section: one before the footer. */
  predicate Opens(st: State, line: Line) {
    line.Header? && !st.active
  }

  /** The path of the last header that opened a section. */
  function LastHeader(lines: seq<Numbered>): Option<seq<Text>> {
    if lines == [] then None
    else
      var front, last := lines[..|lines| - 1], lines[|lines| - 1].line;
      if Opens(After(front).state, last) then Some(last.path) else LastHeader(front)
  }

  /** What has been yielded since that header, its own entry included. */
  function SinceHeader(lines: seq<Numbered>): seq<ParsedEntry> {
    if lines == [] then []
    else
      var front, last := lines[..|lines| - 1], lines[|lines| - 1];
      var st := After(front).state;
      (if Opens(st, last.line) then [] else SinceHeader(front)) + Step(st, last.number, last.line).emits
  }

  lemma OneAmong(e: ParsedEntry)
    ensures FilesAmong([e]) == if e.kind.File? then 1 else 0
    ensures BytesAmong([e]) == if e.size.Some? then e.size.value else 0
  {
    assert [e][..0] == [];
  }

  /** One line moves the totals by exactly what it yields. */
  lemma StepCounts(st: State, number: LineNumber, line: Line)
    requires line.Entry? ==> line.result.Wellformed()
    ensures var effect := Step(st, number, line);
      var base := if Opens(st, line) then NO_SECTION else st.section;
      && effect.state.totalFiles == st.totalFiles + FilesAmong(effect.emits)
      && effect.state.totalSize == st.totalSize + BytesAmong(effect.emits)
      && effect.state.section.files == base.files + FilesAmong(effect.emits)
      && effect.state.section.size == base.size + BytesAmong(effect.emits)
  {
    hide FilesAmong, BytesAmong, CloseReports;
    assert FilesAmong([]) == 0 && BytesAmong([]) == 0 by {
      NoneAmong();
    }
    var emits := Step(st, number, line).emits;
    if emits != [] {
      assert emits == [emits[0]];
      OneAmong(emits[0]);
    }
  }

  lemma NoneAmong()
    ensures FilesAmong([]) == 0 && BytesAmong([]) == 0
  {
  }

  /** At every line boundary: the totals count the files yielded so far, the section's
      counters those yielded since its header. */
  lemma {:induction false} TotalsCountWhatWasYielded(lines: seq<Numbered>)
    requires WellformedLines(lines)
    ensures var after := After(lines);
      && after.state.totalFiles == FilesAmong(after.emits)
      && after.state.totalSize == BytesAmong(after.emits)
      && after.state.section.files == FilesAmong(SinceHeader(lines))
      && after.state.section.size == BytesAmong(SinceHeader(lines))
  {
    hide Step;
    if lines != [] {
      var front, last := lines[..|lines| - 1], lines[|lines| - 1];
      TotalsCountWhatWasYielded(front);
      var before := After(front);
      var emits := Step(before.state, last.number, last.line).emits;
      StepCounts(before.state, last.number, last.line);
      AmongConcat(before.emits, emits);
      AmongConcat(if Opens(before.state, last.line) then [] else SinceHeader(front), emits);
    }
  }

  lemma StepSection(st: State, number: LineNumber, line: Line)
    ensures Step(st, number, line).state.section.path.Some? ==>
      Step(st, number, line).state.section.path == if Opens(st, line) then Some(line.path) else st.section.path
  {
    hide CloseReports;
  }

  /** An open section is that of the last header. */
  lemma {:induction false} SectionIsLastHeader(lines: seq<Numbered>)
    ensures After(lines).state.section.path.Some? ==> After(lines).state.section.path == LastHeader(lines)
  {
    hide Step;
    if lines != [] {
      var front, last := lines[..|lines| - 1], lines[|lines| - 1];
      SectionIsLastHeader(front);
      StepSection(After(front).state, last.number, last.line);
    }
  }

  /** A line that gives an entry of a section: its header its own directory, a named line the
      entry below the section's path. */
  predicate Gives(line: Numbered, section: seq<Text>, e: ParsedEntry) {
    || (line.line.Header? && line.line.path == section && CarriesHeader(e, section, line.number))
    || (line.line.Entry? && line.line.result.Named? && CarriesEntry(e, section, line.line.result, line.number))
  }

  ghost predicate Placed(e: ParsedEntry, section: Option<seq<Text>>, lines: seq<Numbered>) {
    section.Some? && exists line :: line in lines && Gives(line, section.value, e)
  }

  /** In any run, faulty or not, whatever has been yielded since a header is what one of the
      lines says, in that header's section. */
  lemma {:induction false} YieldedInSection(lines: seq<Numbered>)
    ensures forall k :: 0 <= k < |SinceHeader(lines)| ==> Placed(SinceHeader(lines)[k], LastHeader(lines), lines)
  {
    hide Step, CarriesHeader, CarriesEntry;
    if lines != [] {
      var front, last := lines[..|lines| - 1], lines[|lines| - 1];
      YieldedInSection(front);
      SectionIsLastHeader(front);
      var st := After(front).state;
      StepYields(st, last.number, last.line);
      AcceptedHeader(st, last.number, last.line);
      assert last in lines;
      forall e, s | Placed(e, s, front) ensures Placed(e, s, lines) {
        var line :| line in front && Gives(line, s.value, e);
        assert line in lines;
      }
    }
  }

  lemma AcceptedHeader(st: State, number: LineNumber, line: Line)
    ensures line.Header? && Step(st, number, line).emits != [] ==> Opens(st, line)
  {
    hide CloseReports;
  }

  /** Everything a run yields since a header is in the form that builders take. */
  lemma {:induction false} YieldsAreShaped(lines: seq<Numbered>)
    requires WellformedLines(lines)
    ensures forall k :: 0 <= k < |After(lines).emits| ==> After(lines).emits[k].ParserShaped()
  {
    hide CloseReports;
    if lines != [] {
      YieldsAreShaped(lines[..|lines| - 1]);
    }
  }
}
