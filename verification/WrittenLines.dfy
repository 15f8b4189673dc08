/**
 Lines read back: a summary, a section header or a marker, written out with its own words,
 classifies with the numbers or the path that were written, and whatever classifies so was
 written so.
 */
module WrittenLines {
  import opened Core
  import opened Lexing
  import opened Building
  import opened Diagnostics
  import opened Classification
  import G = Grammar
  import P = WindowsDirParser

  // -------------------------------------------------------------- summaries

  /** A `File(s)` line around its two numbers. */
  function FileLine(t: G.SummaryText): Text {
    t.lead + t.first + Lit(" File(s)") + t.gap + t.second + Lit(" bytes") + t.tail
  }

  /** A `Dir(s)` line around its two numbers. */
  function DirLine(t: G.SummaryText): Text {
    t.lead + t.first + Lit(" Dir(s)") + t.gap + t.second + Lit(" bytes free") + t.tail
  }

  predicate Numbers(t: G.SummaryText, first: nat, second: nat) {
    G.SummaryOk(t) && ParseInteger(t.first) == Some(first) && ParseInteger(t.second) == Some(second)
  }

  /** A line reports so many files of so many bytes exactly when it is a `File(s)` line whose
      first number is the count and whose second is the size. */
  lemma FileLineReads(source: Source, line: Text, count: nat, size: nat)
    ensures Classify(source, line) == P.FileSummary(Some((count, size))) <==>
      exists t :: Numbers(t, count, size) && line == FileLine(t)
  {
    hide Classify, G.ScanSummary, G.SummaryOk, ParseInteger;
    ClassifySummary(source, line);
    if Classify(source, line) == P.FileSummary(Some((count, size))) {
      var t := G.ScanSummary(G.FileWords(), line).value;
      G.SummaryHasOneReading(G.FileWords(), line, t);
      FileLineIs(t);
      assert Numbers(t, count, size) && line == FileLine(t);
    }
    if t :| Numbers(t, count, size) && line == FileLine(t) {
      FileLineIs(t);
      G.SummaryHasOneReading(G.FileWords(), line, t);
      ClassifiedByOwnPattern(source, line, G.FileSummaryLine);
    }
  }

  lemma FileLineIs(t: G.SummaryText)
    ensures FileLine(t) == G.WriteSummary(G.FileWords(), t)
  {
    hide Lit;
  }

  lemma DirLineIs(t: G.SummaryText)
    ensures DirLine(t) == G.WriteSummary(G.DirWords(), t)
  {
    hide Lit;
  }

  /** ... and likewise for a `Dir(s)` line, of which only that its numbers read is kept. */
  lemma DirLineReads(source: Source, line: Text)
    ensures Classify(source, line) == P.DirSummary(true) <==>
      exists t, first, second :: Numbers(t, first, second) && line == DirLine(t)
  {
    hide Classify, G.ScanSummary, G.SummaryOk, ParseInteger;
    ClassifySummary(source, line);
    if Classify(source, line) == P.DirSummary(true) {
      var t := G.ScanSummary(G.DirWords(), line).value;
      G.SummaryHasOneReading(G.DirWords(), line, t);
      DirLineIs(t);
      assert Numbers(t, ParseInteger(t.first).value, ParseInteger(t.second).value) && line == DirLine(t);
    }
    if t, first, second :| Numbers(t, first, second) && line == DirLine(t) {
      DirLineIs(t);
      G.SummaryHasOneReading(G.DirWords(), line, t);
      ClassifiedByOwnPattern(source, line, G.DirSummaryLine);
    }
  }

  lemma ClassifySummary(source: Source, line: Text)
    ensures var l, scan := Classify(source, line), G.ScanSummary(G.FileWords(), line);
      l.FileSummary? ==>
        && scan.Some?
        && var count, size := ParseInteger(scan.value.first), ParseInteger(scan.value.second);
        && l.numbers == if count.None? || size.None? then None else Some((count.value, size.value))
    ensures var l, scan := Classify(source, line), G.ScanSummary(G.DirWords(), line);
      l.DirSummary? ==>
        && scan.Some?
        && (l.numeric <==> ParseInteger(scan.value.first).Some? && ParseInteger(scan.value.second).Some?)
  {
    hide G.IsBlank, G.IsVolume, G.HeaderPath, G.ScanSummary, G.ScanEntry, Strip, Mountable, MountedPath, EntryResult;
    hide G.FileWords, G.DirWords, ParseInteger;
  }

  /** A number, with or without thousands separators. */
  function WriteNumber(n: nat, grouped: bool): Text {
    if grouped then Thousands(n) else Decimal(n)
  }

  predicate Readable(n: nat) {
    |Decimal(n)| <= MAX_INTEGER_DIGITS
  }

  lemma NumberReads(n: nat, grouped: bool)
    requires Readable(n)
    ensures G.NumberText(WriteNumber(n, grouped)) && ParseInteger(WriteNumber(n, grouped)) == Some(n)
  {
    SizeRoundTrip(Some(n), grouped);
  }

  /** Every count and size reads back from a summary, in either style of number and with any
      spacing. */
  lemma SummaryRoundTrip(source: Source, first: nat, second: nat, grouped: bool, grouped2: bool,
                         lead: Text, gap: Text, tail: Text)
    requires Readable(first) && Readable(second)
    requires All(Space, lead) && G.Gap(gap) && All(Space, tail)
    ensures Classify(source, lead + WriteNumber(first, grouped) + Lit(" File(s)") + gap
                             + WriteNumber(second, grouped2) + Lit(" bytes") + tail)
      == P.FileSummary(Some((first, second)))
    ensures Classify(source, lead + WriteNumber(first, grouped) + Lit(" Dir(s)") + gap
                             + WriteNumber(second, grouped2) + Lit(" bytes free") + tail)
      == P.DirSummary(true)
  {
    hide Classify, Lit, WriteNumber, ParseInteger, Readable, G.NumberText;
    var t := G.SummaryText(lead, WriteNumber(first, grouped), gap, WriteNumber(second, grouped2), tail);
    NumberReads(first, grouped);
    NumberReads(second, grouped2);
    assert Numbers(t, first, second);
    FileLineReads(source, FileLine(t), first, second);
    DirLineReads(source, DirLine(t));
  }

  // ---------------------------------------------------------------- headers

  /** A header of a drive and the names below it. */
  function HeaderOf(lead: Text, gap: Text, drive: CodePoint, names: seq<Text>, tail: Text): Text {
    lead + Lit("Directory of") + gap + WriteSectionPath(drive, names) + tail
  }

  /** Names that a header can carry: the last one does not end in space, which would be taken
      for the end of the line. */
  predicate HeaderNames(names: seq<Text>) {
    && (forall k :: 0 <= k < |names| ==> SectionName(names[k]))
    && (names != [] ==> var last := names[|names| - 1]; !Space(last[|last| - 1]))
  }

  predicate WrittenHeader(line: Text, path: seq<Text>, lead: Text, gap: Text, drive: CodePoint, names: seq<Text>,
                          tail: Text) {
    && All(Space, lead) && G.Gap(gap) && All(Space, tail) && Letter(drive) && HeaderNames(names)
    && line == HeaderOf(lead, gap, drive, names, tail)
    && path == [[if drive <= 0x5A then drive else drive - 0x20]] + names
  }

  /** A line opens a section at a path exactly when it writes the path's drive, in either case,
      and the path's names. */
  lemma HeaderReads(source: Source, line: Text, path: seq<Text>)
    ensures Classify(source, line) == P.Header(path, true) <==>
      exists lead, gap, drive, names, tail :: WrittenHeader(line, path, lead, gap, drive, names, tail)
  {
    hide Classify, HeaderOf, HeaderNames, G.HeaderPath, Mountable, MountedPath;
    ClassifyHeader(source, line);
    if Classify(source, line) == P.Header(path, true) {
      HeaderWasWritten(line, G.HeaderPath(line).value);
    }
    if lead, gap, drive, names, tail :| WrittenHeader(line, path, lead, gap, drive, names, tail) {
      HeaderPathRoundTrip(lead, gap, drive, names, tail);
      ClassifiedByOwnPattern(source, line, G.HeaderLine);
    }
  }

  lemma ClassifyHeader(source: Source, line: Text)
    ensures Classify(source, line).Header? ==>
      && G.HeaderPath(line).Some?
      && var raw := G.HeaderPath(line).value;
      && Classify(source, line).mountable == Mountable(raw)
      && (Mountable(raw) ==> Classify(source, line).path == MountedPath(raw))
  {
    hide G.IsBlank, G.IsVolume, G.HeaderPath, G.ScanSummary, G.ScanEntry, Strip, Mountable, MountedPath, EntryResult;
  }

  /** The last character of a written path. */
  lemma {:induction false} PathEnds(parts: seq<Text>)
    requires parts != [] && forall k :: 0 <= k < |parts| ==> SectionName(parts[k])
    ensures JoinParts(parts) != [] && parts[|parts| - 1] != []
    ensures var joined, last := JoinParts(parts), parts[|parts| - 1]; joined[|joined| - 1] == last[|last| - 1]
  {
    assert SectionName(parts[|parts| - 1]);
    if |parts| > 1 {
      PathEnds(parts[1..]);
    }
  }

  lemma WrittenPathEnds(drive: CodePoint, names: seq<Text>)
    requires Letter(drive) && forall k :: 0 <= k < |names| ==> SectionName(names[k])
    ensures var raw := WriteSectionPath(drive, names);
      raw != [] && raw[0] == drive && (HeaderNames(names) <==> !Space(raw[|raw| - 1]))
  {
    if names != [] {
      PathEnds(names);
    }
  }

  lemma HeaderPathRoundTrip(lead: Text, gap: Text, drive: CodePoint, names: seq<Text>, tail: Text)
    requires All(Space, lead) && G.Gap(gap) && All(Space, tail) && Letter(drive) && HeaderNames(names)
    ensures var raw := WriteSectionPath(drive, names);
      && G.HeaderPath(HeaderOf(lead, gap, drive, names, tail)) == Some(raw)
      && Mountable(raw)
      && MountedPath(raw) == [[if drive <= 0x5A then drive else drive - 0x20]] + names
  {
    var raw := WriteSectionPath(drive, names);
    SectionPathRoundTrip(drive, names);
    WrittenPathEnds(drive, names);
    assert !Space(drive);
    hide Mountable, MountedPath, WriteSectionPath, G.HeaderPath, Space;
    HeaderPathIs(lead, gap, raw, tail);
  }

  lemma NoOuterSpace(raw: Text)
    requires raw != [] && !Space(raw[|raw| - 1])
    ensures RStrip(raw) == raw
  {
  }

  lemma HeaderPathIs(lead: Text, gap: Text, raw: Text, tail: Text)
    requires All(Space, lead) && G.Gap(gap) && All(Space, tail)
    requires raw != [] && !Space(raw[0]) && !Space(raw[|raw| - 1])
    ensures G.HeaderPath(lead + Lit("Directory of") + gap + raw + tail) == Some(raw)
  {
    var words := G.DirectoryOf();
    var rest := raw + tail;
    var s := words + (gap + rest);
    assert words[0] == 0x44 && !Space(0x44);
    hide Span, Space, RStrip, Lit;
    assert lead + words + gap + raw + tail == lead + s;
    G.ScanIs(Space, lead, s);
    G.LStripIsRest(lead + s);
    assert s[|words|..] == gap + rest && words <= s;
    G.ScanIs(Space, gap, rest);
    RStripConcat(raw, tail);
    NoOuterSpace(raw);
  }

  lemma HeaderPathEnds(line: Text, raw: Text)
    requires G.HeaderPath(line) == Some(raw) && |raw| > 1
    ensures !Space(raw[|raw| - 1])
  {
    hide Lit, Span, Space;
  }

  lemma ReadingIs(line: Text, h: G.HeaderText)
    requires G.Reads(line, h)
    ensures All(Space, h.lead) && G.Gap(h.gap) && All(Space, h.tail)
    ensures line == h.lead + Lit("Directory of") + h.gap + h.path + h.tail
  {
    hide Lit, Space;
  }

  lemma HeaderWasWritten(line: Text, raw: Text)
    requires G.HeaderPath(line) == Some(raw) && Mountable(raw)
    ensures exists lead, gap, drive, names, tail :: WrittenHeader(line, MountedPath(raw), lead, gap, drive, names, tail)
  {
    hide *;
    MountedHead(raw);
    var h := G.PreferredReading(line);
    ReadingIs(line, h);
    PathWasWritten(line, raw);
    var names := MountedPath(raw)[1..];
    assert WrittenHeader(line, MountedPath(raw), h.lead, h.gap, raw[0], names, h.tail) by {
      WrittenAs(line, raw, h, names);
    }
  }

  lemma PathWasWritten(line: Text, raw: Text)
    requires G.HeaderPath(line) == Some(raw) && Mountable(raw)
    ensures |raw| >= 3 && Letter(raw[0]) && MountedPath(raw) != []
    ensures var names := MountedPath(raw)[1..]; raw == WriteSectionPath(raw[0], names) && HeaderNames(names)
  {
    hide G.HeaderPath, WriteSectionPath, HeaderNames, SectionName, Lit, Space, Split;
    MountableIsWritten(raw);
    HeaderPathEnds(line, raw);
    WrittenPathEnds(raw[0], MountedPath(raw)[1..]);
  }

  lemma WrittenAs(line: Text, raw: Text, h: G.HeaderText, names: seq<Text>)
    requires All(Space, h.lead) && G.Gap(h.gap) && All(Space, h.tail)
    requires |raw| >= 3 && Letter(raw[0]) && HeaderNames(names) && raw == WriteSectionPath(raw[0], names)
    requires MountedPath(raw) == [[if raw[0] <= 0x5A then raw[0] else raw[0] - 0x20]] + names
    requires line == h.lead + Lit("Directory of") + h.gap + raw + h.tail
    ensures WrittenHeader(line, MountedPath(raw), h.lead, h.gap, raw[0], names, h.tail)
  {
    hide HeaderNames, MountedPath, WriteSectionPath, Lit, All, G.Gap;
  }

  lemma MountedHead(raw: Text)
    requires Mountable(raw)
    ensures |raw| >= 3
    ensures MountedPath(raw) != []
    ensures MountedPath(raw) == [[if raw[0] <= 0x5A then raw[0] else raw[0] - 0x20]] + MountedPath(raw)[1..]
  {
    hide Split;
  }

  // ---------------------------------------------------------------- markers

  predicate Between(line: Text, core: Text, lead: Text, tail: Text) {
    All(Space, lead) && All(Space, tail) && line == lead + core + tail
  }

  /** The two markers stand alone on their line, between spaces. */
  lemma MarkersRead(source: Source, line: Text)
    ensures Classify(source, line) == P.Total <==>
      exists lead, tail :: Between(line, Lit("Total Files Listed:"), lead, tail)
    ensures Classify(source, line) == P.NoFiles <==>
      exists lead, tail :: Between(line, Lit("File Not Found"), lead, tail)
  {
    hide Classify, Space, Strip, Lit;
    MarkerEnds();
    MarkerIs(line, Lit("Total Files Listed:"));
    MarkerIs(line, Lit("File Not Found"));
    ClassifiedByOwnPattern(source, line, G.TotalLine);
    ClassifiedByOwnPattern(source, line, G.NoFilesLine);
  }

  lemma MarkerEnds()
    ensures var m := Lit("Total Files Listed:"); m != [] && !Space(m[0]) && !Space(m[|m| - 1])
    ensures var m := Lit("File Not Found"); m != [] && !Space(m[0]) && !Space(m[|m| - 1])
  {
  }

  lemma MarkerIs(line: Text, core: Text)
    requires core != [] && !Space(core[0]) && !Space(core[|core| - 1])
    ensures Strip(line) == core <==> exists lead, tail :: Between(line, core, lead, tail)
  {
    hide Strip, Space;
    StripIs(line, core);
    if lead: Text, tail: Text :| All(Space, lead) && All(Space, tail) && line == lead + core + tail {
      assert Between(line, core, lead, tail);
    }
  }

  /** A volume banner: its two forms, of which the first may hold any text. */
  predicate Banner(line: Text, lead: Text, text: Text, tail: Text) {
    && All(Space, lead) && text != []
    && (|| line == lead + (Lit("Volume in drive ") + text)
        || (All(G.HexOrDash, text) && All(Space, tail)
            && line == lead + (Lit("Volume Serial Number is ") + (text + tail))))
  }

  /** Only blank lines and volume banners are passed over. */
  lemma IgnoredReads(source: Source, line: Text)
    ensures Classify(source, line) == P.Ignored <==>
      All(Space, line) || exists lead, text, tail :: Banner(line, lead, text, tail)
  {
    hide Classify, G.IsBlank, G.IsVolume, Banner;
    ClassifiedByOwnPattern(source, line, G.Skipped);
    BlankIs(line);
    if G.IsVolume(line) {
      BannerWasWritten(line);
    }
    if lead, text, tail :| Banner(line, lead, text, tail) {
      BannerIsVolume(line, lead, text, tail);
    }
  }

  lemma BlankIs(line: Text)
    ensures G.IsBlank(line) <==> All(Space, line)
  {
    if All(Space, line) {
      SpanIs(Space, line, []);
      assert line + [] == line;
    }
    if G.IsBlank(line) {
      if LStrip(line) != [] {
        G.StripKeepsHead(LStrip(line));
      }
      assert line == line[..|line|];
    }
  }

  lemma BannerWasWritten(line: Text)
    requires G.IsVolume(line)
    ensures exists lead, text, tail :: Banner(line, lead, text, tail)
  {
    hide Span, Space, Lit, G.HexOrDash;
    var lead, s := line[..Span(Space, line)], LStrip(line);
    assert line == lead + s;
    if G.VolumeIn() < s {
      G.PrefixAndRest(G.VolumeIn(), s);
      assert Banner(line, lead, s[|G.VolumeIn()|..], []);
    } else {
      var (number, tail) := G.Scan(G.HexOrDash, s[|G.SerialNumber()|..]);
      G.PrefixAndRest(G.SerialNumber(), s);
      assert Banner(line, lead, number, tail);
    }
  }

  lemma BannerIsVolume(line: Text, lead: Text, text: Text, tail: Text)
    requires Banner(line, lead, text, tail)
    ensures G.IsVolume(line)
  {
    assert G.VolumeIn()[0] == 0x56 && G.SerialNumber()[0] == 0x56 && !Space(0x56);
    assert Space(0x20) && forall c :: Space(c) ==> !G.HexOrDash(c);
    hide Span, Space, Lit, G.HexOrDash;
    var s := line[|lead|..];
    if line == lead + (G.VolumeIn() + text) {
      assert s == G.VolumeIn() + text;
      SpanIs(Space, lead, s);
    } else {
      assert s == G.SerialNumber() + (text + tail);
      SpanIs(Space, lead, s);
      SpanIs(G.HexOrDash, text, tail);
      assert s[|G.SerialNumber()|..] == text + tail;
    }
  }

  // ---------------------------------------------------------------- entries

  function DateLine(d: G.DateText): Text {
    d.first + [d.separator] + d.second + [d.separator] + d.third
  }

  function ClockLine(c: G.ClockText): Text {
    c.hour + Lit(":") + c.minute
    + if c.meridiem.None? then [] else c.meridiem.value.0 + Lit(if c.meridiem.value.1 then "PM" else "AM")
  }

  /** An entry line around its pieces; the size is followed by one space, `<DIR>` by ten. */
  function EntryLine(e: G.EntryText): Text {
    e.lead + DateLine(e.date) + e.gap + ClockLine(e.clock) + e.gap2
    + (if e.size.None? then Lit("<DIR>") + seq(10, _ => SPACE) else e.size.value + [SPACE])
    + e.name
  }

  lemma DateLineIs(d: G.DateText, rest: Text)
    ensures G.WriteDate(d, rest) == DateLine(d) + rest
  {
  }

  lemma ClockLineIs(c: G.ClockText, rest: Text)
    ensures G.WriteClock(c, rest) == ClockLine(c) + rest
  {
    assert Lit(":") == [G.COLON];
    hide Lit;
    if c.meridiem.Some? {
      var m := G.MeridiemText(c.meridiem.value.1);
      assert c.meridiem.value.0 + (m + rest) == c.meridiem.value.0 + m + rest;
    }
  }

  lemma DirectoryIs()
    ensures G.Directory() == Lit("<DIR>") + seq(10, _ => SPACE)
  {
  }

  lemma WhatIs(size: Option<Text>, name: Text)
    ensures G.WriteWhat(size, name)
      == (if size.None? then Lit("<DIR>") + seq(10, _ => SPACE) else size.value + [SPACE]) + name
  {
    DirectoryIs();
    hide Lit;
  }

  lemma EntryLineIs(e: G.EntryText)
    ensures EntryLine(e) == G.WriteEntry(e)
  {
    hide Lit, DateLine, ClockLine, G.WriteDate, G.WriteClock, G.WriteWhat;
    var what := G.WriteWhat(e.size, e.name);
    WhatIs(e.size, e.name);
    ClockLineIs(e.clock, e.gap2 + what);
    DateLineIs(e.date, e.gap + G.WriteClock(e.clock, e.gap2 + what));
    var d, c := DateLine(e.date), ClockLine(e.clock);
    assert e.lead + (d + (e.gap + (c + (e.gap2 + what)))) == e.lead + d + e.gap + c + e.gap2 + what;
  }

  /** The hour that an hour text stands for: on a 12-hour clock midnight and noon are 12. */
  predicate HourDenoted(c: G.ClockText, hour: nat)
    requires G.ClockOk(c)
  {
    && hour < 24
    && if c.meridiem.None? then Value(c.hour) == hour
       else Value(c.hour) == (if hour % 12 == 0 then 12 else hour % 12) && (c.meridiem.value.1 <==> hour >= 12)
  }

  predicate FourDigitYear(format: DateFormat, d: G.DateText) {
    |if format.YMD? then d.first else d.third| == 4
  }

  /** The time that a date and a clock stand for. */
  predicate TimeDenoted(format: DateFormat, d: G.DateText, c: G.ClockText, t: LocalTime)
    requires G.DateOk(d) && G.ClockOk(c)
  {
    && FourDigitYear(format, d)
    && ValidTime(t)
    && HourDenoted(c, t.hour)
    && Value(c.minute) == t.minute
    && match format
       case MDY => Value(d.first) == t.month && Value(d.second) == t.day && Value(d.third) == t.year
       case DMY => Value(d.first) == t.day && Value(d.second) == t.month && Value(d.third) == t.year
       case YMD => Value(d.first) == t.year && Value(d.second) == t.month && Value(d.third) == t.day
  }

  lemma HourReads(c: G.ClockText, hour: nat)
    requires G.ClockOk(c)
    ensures Hour(Value(c.hour), if c.meridiem.Some? then Some(c.meridiem.value.1) else None) == Some(hour)
      <==> HourDenoted(c, hour)
  {
  }

  /** What is read is the time denoted, and the one fault that is reported is the first of: a
      year without four digits, an hour off its clock, a time that is not in the calendar. */
  lemma TimeReads(format: DateFormat, d: G.DateText, c: G.ClockText, t: LocalTime)
    requires G.DateOk(d) && G.ClockOk(c)
    ensures ParseTime(format, d, c) == Success(t) <==> TimeDenoted(format, d, c, t)
  {
    hide Value, ValidTime, HourDenoted;
    HourReads(c, t.hour);
  }

  ghost predicate HourFits(c: G.ClockText)
    requires G.ClockOk(c)
  {
    exists hour :: HourDenoted(c, hour)
  }

  ghost predicate TimeFits(format: DateFormat, d: G.DateText, c: G.ClockText)
    requires G.DateOk(d) && G.ClockOk(c)
  {
    exists t :: TimeDenoted(format, d, c, t)
  }

  lemma TimeFaults(format: DateFormat, d: G.DateText, c: G.ClockText)
    requires G.DateOk(d) && G.ClockOk(c)
    ensures ParseTime(format, d, c).Success? <==> TimeFits(format, d, c)
    ensures ParseTime(format, d, c) == Failure(TwoDigitYear) <==> !FourDigitYear(format, d)
    ensures ParseTime(format, d, c) == Failure(InvalidTime) <==> FourDigitYear(format, d) && !HourFits(c)
    ensures ParseTime(format, d, c) == Failure(InvalidDatetime) <==>
      FourDigitYear(format, d) && HourFits(c) && !TimeFits(format, d, c)
  {
    var hour := Hour(Value(c.hour), if c.meridiem.Some? then Some(c.meridiem.value.1) else None);
    hide Value, ValidTime, HourDenoted, Hour, TimeDenoted;
    if hour.Some? {
      HourReads(c, hour.value);
    } else if HourFits(c) {
      var h :| HourDenoted(c, h);
      HourReads(c, h);
    }
    var r := ParseTime(format, d, c);
    if r.Success? {
      TimeReads(format, d, c, r.value);
    } else if TimeFits(format, d, c) {
      var t :| TimeDenoted(format, d, c, t);
      TimeReads(format, d, c, t);
    }
  }

  /** The one fault of an entry that is reported: the first in the order of the clauses. */
  ghost predicate Faulty(format: DateFormat, e: G.EntryText, code: Code)
    requires G.EntryOk(e)
  {
    match code
    case TwoDigitYear => !FourDigitYear(format, e.date)
    case InvalidTime => FourDigitYear(format, e.date) && !HourFits(e.clock)
    case InvalidDatetime =>
      FourDigitYear(format, e.date) && HourFits(e.clock) && !TimeFits(format, e.date, e.clock)
    case InvalidEntryName => TimeFits(format, e.date, e.clock) && !DotName(e.name) && ForbiddenInName(e.name)
    case InvalidSize =>
      && TimeFits(format, e.date, e.clock) && !DotName(e.name) && !ForbiddenInName(e.name)
      && e.size.Some? && ParseInteger(e.size.value).None?
    case _ => false
  }

  ghost predicate RefusedAs(format: DateFormat, line: Text, e: G.EntryText, code: Code) {
    G.EntryOk(e) && line == EntryLine(e) && Faulty(format, e, code)
  }

  /** An entry line is refused with a code exactly when it has that fault. */
  lemma RefusedEntryReads(source: Source, line: Text, code: Code)
    ensures Classify(source, line) == P.Entry(P.Bad(code)) <==> exists e :: RefusedAs(source.format, line, e, code)
  {
    hide Classify, G.EntryOk, EntryLine, EntryResult, Faulty, G.ScanEntry;
    if Classify(source, line) == P.Entry(P.Bad(code)) {
      ClassifyEntry(source, line);
      var e := G.ScanEntry(line).value;
      G.EntryHasOneReading(line, e);
      EntryLineIs(e);
      EntryFaults(source, e, code);
      assert RefusedAs(source.format, line, e, code);
    }
    if e :| RefusedAs(source.format, line, e, code) {
      EntryLineIs(e);
      EntryFaults(source, e, code);
      ClassifyWritten(source, e);
    }
  }

  lemma EntryFaults(source: Source, e: G.EntryText, code: Code)
    requires G.EntryOk(e)
    ensures EntryResult(source, e) == P.Bad(code) <==> Faulty(source.format, e, code)
  {
    hide ParseTime, DotName, ForbiddenInName, ParseInteger, FourDigitYear, HourFits, TimeFits;
    TimeFaults(source.format, e.date, e.clock);
  }

  predicate NamedAs(source: Source, line: Text, e: G.EntryText, t: LocalTime, result: P.EntryResult)
    requires result.Named?
  {
    && G.EntryOk(e) && line == EntryLine(e)
    && TimeDenoted(source.format, e.date, e.clock, t)
    && (result.zoned <==> source.zone(t).Some?)
    && result.modified == (if result.zoned then source.zone(t).value else source.naive(t))
    && result.name == e.name
    && e.name !in {[DOT], [DOT, DOT]}
    && (forall c <- e.name :: c != 0 && c !in {SLASH, G.BACKSLASH, G.COLON})
    && if e.size.None? then result.kind == Directory && result.size == None
       else result.kind == File && result.size.Some? && ParseInteger(e.size.value) == result.size
  }

  /** An entry line reads as a name, a kind, a size and a time exactly when it writes them, and
      the name can be mounted. */
  lemma EntryReads(source: Source, line: Text, result: P.EntryResult)
    requires result.Named?
    ensures Classify(source, line) == P.Entry(result) <==> exists e, t :: NamedAs(source, line, e, t, result)
  {
    hide Classify, G.EntryOk, EntryLine, EntryResult, TimeDenoted, G.ScanEntry, NamedAs;
    if Classify(source, line) == P.Entry(result) {
      ClassifyEntry(source, line);
      var e := G.ScanEntry(line).value;
      G.EntryHasOneReading(line, e);
      EntryLineIs(e);
      NamedHasTime(source, line, e, result);
    }
    if e, t :| NamedAs(source, line, e, t, result) {
      NamedIs(source, line, e, t, result);
      EntryLineIs(e);
      ClassifyWritten(source, e);
    }
  }

  lemma NamedHasTime(source: Source, line: Text, e: G.EntryText, result: P.EntryResult)
    requires result.Named? && G.EntryOk(e) && line == EntryLine(e) && EntryResult(source, e) == result
    ensures exists t :: NamedAs(source, line, e, t, result)
  {
    var t := ParseTime(source.format, e.date, e.clock).value;
    TimeReads(source.format, e.date, e.clock, t);
    hide ParseTime, TimeDenoted, ParseInteger, EntryLine, G.EntryOk;
    assert NamedAs(source, line, e, t, result);
  }

  lemma NamedIs(source: Source, line: Text, e: G.EntryText, t: LocalTime, result: P.EntryResult)
    requires result.Named? && NamedAs(source, line, e, t, result)
    ensures G.EntryOk(e) && line == EntryLine(e) && EntryResult(source, e) == result
  {
    hide ParseTime, TimeDenoted, ParseInteger, EntryLine, G.DateOk, G.ClockOk;
    TimeReads(source.format, e.date, e.clock, t);
  }
}
