/**
 The line patterns of a `dir /s` listing.  Each pattern is matched by a short scanner and,
 separately, stated as a way of writing the line; the two are proved to agree.
 */
module Grammar {
  import opened Core
  import opened Lexing

  const COLON: CodePoint := 0x3A
  const BACKSLASH: CodePoint := 0x5C

  // -------------------------------------------------------------- entries

  datatype DateText = DateText(first: Text, separator: CodePoint, second: Text, third: Text)

  /** A meridiem is the space before it and whether it is PM. */
  datatype ClockText = ClockText(hour: Text, minute: Text, meridiem: Option<(Text, bool)>)

  /** The pieces of an entry line; no size text means `<DIR>`. */
  datatype EntryText = EntryText(
    lead: Text, date: DateText, gap: Text, clock: ClockText, gap2: Text, size: Option<Text>, name: Text)

  predicate Separator(c: CodePoint) {
    c == 0x2F || c == 0x2E || c == 0x2D
  }

  predicate DigitsBetween(s: Text, low: nat, high: nat) {
    low <= |s| <= high && All(Digit, s)
  }

  predicate Gap(s: Text) {
    s != [] && All(Space, s)
  }

  predicate DateOk(d: DateText) {
    && DigitsBetween(d.first, 1, 4) && Separator(d.separator)
    && DigitsBetween(d.second, 1, 2) && DigitsBetween(d.third, 1, 4)
  }

  predicate ClockOk(c: ClockText) {
    && DigitsBetween(c.hour, 1, 2) && DigitsBetween(c.minute, 2, 2)
    && (c.meridiem.Some? ==> Gap(c.meridiem.value.0))
  }

  predicate EntryOk(e: EntryText) {
    && All(Space, e.lead) && DateOk(e.date) && Gap(e.gap) && ClockOk(e.clock) && Gap(e.gap2)
    && (e.size.Some? ==> e.size.value != [] && All(NumberChar, e.size.value))
    && e.name != []
  }

  function Directory(): Text {
    Lit("<DIR>          ")
  }

  function MeridiemText(pm: bool): Text {
    if pm then Lit("PM") else Lit("AM")
  }

  // An entry line, written piece by piece in front of what follows.

  function WriteWhat(size: Option<Text>, name: Text): Text {
    if size.None? then Directory() + name else size.value + ([SPACE] + name)
  }

  function WriteMeridiem(m: Option<(Text, bool)>, rest: Text): Text {
    if m.None? then rest else m.value.0 + (MeridiemText(m.value.1) + rest)
  }

  function WriteClock(c: ClockText, rest: Text): Text {
    c.hour + ([COLON] + (c.minute + WriteMeridiem(c.meridiem, rest)))
  }

  function WriteDate(d: DateText, rest: Text): Text {
    d.first + ([d.separator] + (d.second + ([d.separator] + (d.third + rest))))
  }

  function WriteEntry(e: EntryText): Text {
    e.lead + WriteDate(e.date, e.gap + WriteClock(e.clock, e.gap2 + WriteWhat(e.size, e.name)))
  }

  // The scanner.

  predicate Outside(p: CodePoint -> bool, s: Text) {
    s != [] ==> !p(s[0])
  }

  function Scan(p: CodePoint -> bool, s: Text): (r: (Text, Text))
    ensures s == r.0 + r.1 && All(p, r.0) && Outside(p, r.1)
  {
    (s[..Span(p, s)], s[Span(p, s)..])
  }

  function ScanDate(s: Text): Option<(DateText, Text)> {
    var (first, s1) := Scan(Digit, s);
    if s1 == [] || !Separator(s1[0]) then None
    else
      var (second, s2) := Scan(Digit, s1[1..]);
      if s2 == [] || s2[0] != s1[0] then None
      else
        var (third, rest) := Scan(Digit, s2[1..]);
        Some((DateText(first, s1[0], second, third), rest))
  }

  /** The space after the minutes, with the meridiem if there is one. */
  function ScanMeridiem(s: Text): (Option<(Text, bool)>, Text) {
    var (gap, rest) := Scan(Space, s);
    if MeridiemText(false) <= rest then (Some((gap, false)), rest[2..])
    else if MeridiemText(true) <= rest then (Some((gap, true)), rest[2..])
    else (None, s)
  }

  function ScanClock(s: Text): Option<(ClockText, Text)> {
    var (hour, s1) := Scan(Digit, s);
    if s1 == [] || s1[0] != COLON then None
    else
      var (minute, s2) := Scan(Digit, s1[1..]);
      var (meridiem, rest) := ScanMeridiem(s2);
      Some((ClockText(hour, minute, meridiem), rest))
  }

  function ScanWhat(s: Text): Option<(Option<Text>, Text)> {
    if Directory() <= s then Some((None, s[|Directory()|..]))
    else
      var (size, rest) := Scan(NumberChar, s);
      if rest == [] || rest[0] != SPACE then None else Some((Some(size), rest[1..]))
  }

  /** The pieces of a line, if it is an entry. */
  function ScanEntry(line: Text): Option<EntryText> {
    var (lead, s0) := Scan(Space, line);
    match ScanDate(s0)
    case None => None
    case Some((date, s1)) =>
      var (gap, s2) := Scan(Space, s1);
      match ScanClock(s2)
      case None => None
      case Some((clock, s3)) =>
        var (gap2, s4) := Scan(Space, s3);
        match ScanWhat(s4)
        case None => None
        case Some((size, name)) =>
          var e := EntryText(lead, date, gap, clock, gap2, size, name);
          if EntryOk(e) then Some(e) else None
  }

  // What is scanned is what was written ...

  lemma ScanIs(p: CodePoint -> bool, a: Text, b: Text)
    requires All(p, a) && Outside(p, b)
    ensures Scan(p, a + b) == (a, b)
  {
    SpanIs(p, a, b);
  }

  lemma ScanDateIs(d: DateText, rest: Text)
    requires DateOk(d) && Outside(Digit, rest)
    ensures ScanDate(WriteDate(d, rest)) == Some((d, rest))
  {
    var s3 := d.third + rest;
    var s2 := [d.separator] + s3;
    var s1 := [d.separator] + (d.second + s2);
    ScanIs(Digit, d.first, s1);
    ScanIs(Digit, d.second, s2);
    ScanIs(Digit, d.third, rest);
    assert s1[1..] == d.second + s2 && s2[1..] == s3;
  }

  lemma ScanMeridiemIs(m: Option<(Text, bool)>, rest: Text)
    requires m.Some? ==> Gap(m.value.0)
    requires rest != [] && Space(rest[0])
    requires var s := Scan(Space, rest).1; s != [] && s[0] != 0x41 && s[0] != 0x50
    ensures ScanMeridiem(WriteMeridiem(m, rest)) == (m, rest)
  {
    assert MeridiemText(false)[0] == 0x41 && MeridiemText(false)[1] == 0x4D;
    assert MeridiemText(true)[0] == 0x50 && MeridiemText(true)[1] == 0x4D;
    if m.Some? {
      var tail := MeridiemText(m.value.1) + rest;
      ScanIs(Space, m.value.0, tail);
      assert tail[2..] == rest && tail[0] == MeridiemText(m.value.1)[0];
      assert MeridiemText(m.value.1) <= tail;
    }
  }

  lemma ScanClockIs(c: ClockText, rest: Text)
    requires ClockOk(c)
    requires rest != [] && Space(rest[0])
    requires var s := Scan(Space, rest).1; s != [] && s[0] != 0x41 && s[0] != 0x50
    ensures ScanClock(WriteClock(c, rest)) == Some((c, rest))
  {
    var s2 := WriteMeridiem(c.meridiem, rest);
    var s1 := [COLON] + (c.minute + s2);
    assert s2 != [] && Space(s2[0]);
    ScanIs(Digit, c.hour, s1);
    assert s1[1..] == c.minute + s2;
    ScanIs(Digit, c.minute, s2);
    ScanMeridiemIs(c.meridiem, rest);
  }

  lemma ScanWhatIs(size: Option<Text>, name: Text)
    requires size.Some? ==> size.value != [] && All(NumberChar, size.value)
    ensures ScanWhat(WriteWhat(size, name)) == Some((size, name))
    ensures var s := WriteWhat(size, name); s != [] && !Space(s[0]) && s[0] != 0x41 && s[0] != 0x50
  {
    assert Directory()[0] == 0x3C;
    if size.Some? {
      ScanIs(NumberChar, size.value, [SPACE] + name);
      assert NumberChar(size.value[0]);
    }
  }

  lemma ScansWhatIsWritten(e: EntryText)
    requires EntryOk(e)
    ensures ScanEntry(WriteEntry(e)) == Some(e)
  {
    hide WriteDate, WriteClock, WriteWhat, ScanDate, ScanClock, ScanWhat;
    var what := WriteWhat(e.size, e.name);
    var s3 := e.gap2 + what;
    var s2 := WriteClock(e.clock, s3);
    var s1 := e.gap + s2;
    ScanWhatIs(e.size, e.name);
    ScanIs(Space, e.gap2, what);
    ScanClockIs(e.clock, s3);
    WrittenClockStarts(e.clock, s3);
    ScanIs(Space, e.gap, s2);
    ScanDateIs(e.date, s1);
    WrittenDateStarts(e.date, s1);
    ScanIs(Space, e.lead, WriteDate(e.date, s1));
  }

  lemma WrittenClockStarts(c: ClockText, rest: Text)
    requires ClockOk(c)
    ensures WriteClock(c, rest) != [] && Digit(WriteClock(c, rest)[0])
  {
    assert Digit(c.hour[0]);
  }

  lemma WrittenDateStarts(d: DateText, rest: Text)
    requires DateOk(d)
    ensures WriteDate(d, rest) != [] && Digit(WriteDate(d, rest)[0])
  {
    assert Digit(d.first[0]);
  }

  // ... and what was written is what was scanned.

  lemma WriteScannedDate(s: Text)
    requires ScanDate(s).Some?
    ensures s == WriteDate(ScanDate(s).value.0, ScanDate(s).value.1)
  {
    hide Scan, Span, All, Separator;
    var (first, s1) := Scan(Digit, s);
    var (second, s2) := Scan(Digit, s1[1..]);
    var (third, rest) := Scan(Digit, s2[1..]);
    HeadAndRest(s1);
    HeadAndRest(s2);
  }

  lemma HeadAndRest(s: Text)
    requires s != []
    ensures s == [s[0]] + s[1..]
  {
  }

  lemma WriteScannedClock(s: Text)
    requires ScanClock(s).Some?
    ensures s == WriteClock(ScanClock(s).value.0, ScanClock(s).value.1)
  {
    hide Scan, Span, All, ScanMeridiem, WriteMeridiem;
    var (hour, s1) := Scan(Digit, s);
    var (minute, s2) := Scan(Digit, s1[1..]);
    WriteScannedMeridiem(s2);
    HeadAndRest(s1);
  }

  lemma WriteScannedMeridiem(s: Text)
    ensures s == WriteMeridiem(ScanMeridiem(s).0, ScanMeridiem(s).1)
  {
    var (gap, rest) := Scan(Space, s);
    assert s == gap + rest;
    if MeridiemText(false) <= rest {
      assert rest == MeridiemText(false) + rest[2..];
    } else if MeridiemText(true) <= rest {
      assert rest == MeridiemText(true) + rest[2..];
    }
  }

  lemma WriteScannedWhat(s: Text)
    requires ScanWhat(s).Some?
    ensures s == WriteWhat(ScanWhat(s).value.0, ScanWhat(s).value.1)
  {
    if Directory() <= s {
      assert s == Directory() + s[|Directory()|..];
    } else {
      var (size, rest) := Scan(NumberChar, s);
      assert rest == [SPACE] + rest[1..];
    }
  }

  lemma WritesWhatIsScanned(line: Text)
    requires ScanEntry(line).Some?
    ensures EntryOk(ScanEntry(line).value) && WriteEntry(ScanEntry(line).value) == line
  {
    hide Scan, WriteDate, WriteClock, WriteWhat, ScanDate, ScanClock, ScanWhat, EntryOk;
    var (lead, s0) := Scan(Space, line);
    var (date, s1) := ScanDate(s0).value;
    WriteScannedDate(s0);
    var (gap, s2) := Scan(Space, s1);
    var (clock, s3) := ScanClock(s2).value;
    WriteScannedClock(s2);
    var (gap2, s4) := Scan(Space, s3);
    WriteScannedWhat(s4);
  }

  /** A line is an entry in at most one way, and the scanner finds it. */
  lemma EntryHasOneReading(line: Text, e: EntryText)
    ensures ScanEntry(line) == Some(e) <==> EntryOk(e) && WriteEntry(e) == line
  {
    if ScanEntry(line).Some? {
      WritesWhatIsScanned(line);
    }
    if EntryOk(e) {
      ScansWhatIsWritten(e);
    }
  }

  // ------------------------------------------------------------ summaries

  datatype SummaryText = SummaryText(lead: Text, first: Text, gap: Text, second: Text, tail: Text)

  /** The words of a summary, after the first number and after the second. */
  datatype Words = Words(middle: Text, end: Text)
  {
    predicate Valid() {
      middle != [] && middle[0] == SPACE && end != [] && end[0] == SPACE
    }
  }

  function FileWords(): (w: Words)
    ensures w.Valid()
  {
    Words(Lit(" File(s)"), Lit(" bytes"))
  }

  function DirWords(): (w: Words)
    ensures w.Valid()
  {
    Words(Lit(" Dir(s)"), Lit(" bytes free"))
  }

  predicate NumberText(s: Text) {
    s != [] && All(NumberChar, s)
  }

  predicate SummaryOk(t: SummaryText) {
    && All(Space, t.lead) && NumberText(t.first) && Gap(t.gap) && NumberText(t.second)
    && All(Space, t.tail)
  }

  function WriteSummary(w: Words, t: SummaryText): Text {
    t.lead + (t.first + (w.middle + (t.gap + (t.second + (w.end + t.tail)))))
  }

  function ScanSummary(w: Words, line: Text): Option<SummaryText> {
    var (lead, s0) := Scan(Space, line);
    var (first, s1) := Scan(NumberChar, s0);
    if !(w.middle <= s1) then None
    else
      var (gap, s2) := Scan(Space, s1[|w.middle|..]);
      var (second, s3) := Scan(NumberChar, s2);
      if !(w.end <= s3) then None
      else
        var t := SummaryText(lead, first, gap, second, s3[|w.end|..]);
        if SummaryOk(t) then Some(t) else None
  }

  /** A number is found up to what is not part of it, and no space is skipped before it. */
  lemma ScansNumber(number: Text, rest: Text)
    requires NumberText(number) && Outside(NumberChar, rest)
    ensures Scan(NumberChar, number + rest) == (number, rest)
    ensures Outside(Space, number + rest)
  {
    ScanIs(NumberChar, number, rest);
    assert NumberChar(number[0]);
  }

  lemma WordsEndNumber(words: Text, rest: Text)
    requires words != [] && words[0] == SPACE
    ensures Outside(NumberChar, words + rest)
    ensures words <= words + rest && (words + rest)[|words|..] == rest
  {
  }

  lemma ScansSummary(w: Words, t: SummaryText)
    requires w.Valid() && SummaryOk(t)
    ensures ScanSummary(w, WriteSummary(w, t)) == Some(t)
  {
    hide Scan, Span, Space, NumberChar;
    var s3 := w.end + t.tail;
    var s2 := t.second + s3;
    var after := t.gap + s2;
    var s1 := w.middle + after;
    WordsEndNumber(w.end, t.tail);
    WordsEndNumber(w.middle, after);
    ScansNumber(t.first, s1);
    ScansNumber(t.second, s3);
    ScanIs(Space, t.lead, t.first + s1);
    ScanIs(Space, t.gap, s2);
  }

  lemma PrefixAndRest(w: Text, s: Text)
    requires w <= s
    ensures s == w + s[|w|..]
  {
  }

  lemma WritesSummary(w: Words, line: Text)
    requires ScanSummary(w, line).Some?
    ensures SummaryOk(ScanSummary(w, line).value) && WriteSummary(w, ScanSummary(w, line).value) == line
  {
    hide Scan, SummaryOk;
    var (lead, s0) := Scan(Space, line);
    var (first, s1) := Scan(NumberChar, s0);
    var after := s1[|w.middle|..];
    var (gap, s2) := Scan(Space, after);
    var (second, s3) := Scan(NumberChar, s2);
    hide All, Outside;
    PrefixAndRest(w.middle, s1);
    PrefixAndRest(w.end, s3);
  }

  lemma SummaryHasOneReading(w: Words, line: Text, t: SummaryText)
    requires w.Valid()
    ensures ScanSummary(w, line) == Some(t) <==> SummaryOk(t) && WriteSummary(w, t) == line
  {
    if ScanSummary(w, line).Some? {
      WritesSummary(w, line);
    }
    if SummaryOk(t) {
      ScansSummary(w, t);
    }
  }

  // --------------------------------------------------------------- header

  function DirectoryOf(): Text {
    Lit("Directory of")
  }

  /** A way to read a line as a section header. */
  datatype HeaderText = HeaderText(lead: Text, gap: Text, path: Text, tail: Text)

  predicate HeaderOk(h: HeaderText) {
    All(Space, h.lead) && Gap(h.gap) && h.path != [] && All(Space, h.tail)
  }

  function WriteHeader(h: HeaderText): Text {
    h.lead + (DirectoryOf() + (h.gap + (h.path + h.tail)))
  }

  /** `header_path` */
  function HeaderPath(line: Text): Option<Text> {
    var s := LStrip(line);
    if !(DirectoryOf() <= s) then None
    else
      var (gap, rest) := Scan(Space, s[|DirectoryOf()|..]);
      if gap == [] then None
      else if rest != [] then Some(RStrip(rest))
      else if |gap| >= 2 then Some([gap[|gap| - 1]])
      else None
  }

  /** The reading that the pattern prefers: the longest gap, then the shortest path. */
  predicate Preferred(h: HeaderText, other: HeaderText) {
    |other.gap| < |h.gap| || (|other.gap| == |h.gap| && |h.path| <= |other.path|)
  }

  predicate Reads(line: Text, h: HeaderText) {
    HeaderOk(h) && WriteHeader(h) == line
  }

  /** What every reading has in common. */
  lemma ReadingShape(line: Text, h: HeaderText)
    requires Reads(line, h)
    ensures LStrip(line) == DirectoryOf() + (h.gap + (h.path + h.tail))
    ensures DirectoryOf() <= LStrip(line)
    ensures LStrip(line)[|DirectoryOf()|..] == h.gap + (h.path + h.tail)
  {
    var s := DirectoryOf() + (h.gap + (h.path + h.tail));
    assert DirectoryOf()[0] == 0x44;
    SpanIs(Space, h.lead, s);
  }

  /** The header path is that of the preferred reading; without one there is no reading. */
  lemma HeaderPathIsPreferred(line: Text, other: HeaderText)
    requires Reads(line, other)
    ensures HeaderPath(line).Some?
    ensures Preferred(PreferredReading(line), other)
  {
    ReadingShape(line, other);
    hide Reads, Scan, Span, Space, RStrip, LStrip, DirectoryOf, WriteHeader;
    var s := other.gap + (other.path + other.tail);
    var (gap, rest) := Scan(Space, s);
    ScanAtLeast(Space, other.gap, other.path + other.tail);
    assert gap != [];
    if rest == [] {
      assert |gap| == |s| >= 2;
    } else if |gap| == |other.gap| {
      assert rest == s[|gap|..] == other.path + other.tail;
      RStripShortest(rest, other.path, other.tail);
    }
  }

  lemma ScanAtLeast(p: CodePoint -> bool, a: Text, b: Text)
    requires All(p, a)
    ensures |Scan(p, a + b).0| >= |a|
  {
    var (more, rest) := Scan(p, b);
    AllConcat(p, a, more);
    ScanIs(p, a + more, rest);
    assert a + more + rest == a + b;
  }

  lemma RStripShortest(s: Text, path: Text, tail: Text)
    requires s == path + tail && All(Space, tail)
    ensures |RStrip(s)| <= |path|
  {
    RStripConcat(path, tail);
  }

  function PreferredReading(line: Text): (h: HeaderText)
    requires HeaderPath(line).Some?
    ensures Reads(line, h) && HeaderPath(line) == Some(h.path)
  {
    hide Space, Scan, LStrip, RStrip;
    var (lead, s) := Scan(Space, line);
    LStripIsRest(line);
    var after := s[|DirectoryOf()|..];
    var (gap, rest) := Scan(Space, after);
    PrefixAndRest(DirectoryOf(), s);
    hide DirectoryOf;
    if rest != [] then
      var path := RStrip(rest);
      StripKeepsHead(rest);
      assert rest == path + rest[|path|..];
      HeaderText(lead, gap, path, rest[|path|..])
    else
      var last := |gap| - 1;
      assert gap == gap[..last] + [gap[last]];
      assert after == gap[..last] + ([gap[last]] + []);
      HeaderText(lead, gap[..last], [gap[last]], [])
  }

  /** With nothing but spaces after the words, the last of two or more is taken for a path. */
  lemma SpacesForPath(lead: Text, gap: Text)
    requires All(Space, lead) && All(Space, gap)
    ensures HeaderPath(lead + (DirectoryOf() + gap)) == if |gap| >= 2 then Some([gap[|gap| - 1]]) else None
  {
    var s := DirectoryOf() + gap;
    assert DirectoryOf()[0] == 0x44;
    SpanIs(Space, lead, s);
    assert s[|DirectoryOf()|..] == gap;
    SpanIs(Space, gap, []);
    assert gap + [] == gap;
  }

  lemma LStripIsRest(line: Text)
    ensures LStrip(line) == Scan(Space, line).1
  {
  }

  lemma {:induction false} StripKeepsHead(s: Text)
    requires s != [] && !Space(s[0])
    ensures RStrip(s) != []
  {
    if |s| > 1 && Space(s[|s| - 1]) {
      StripKeepsHead(s[..|s| - 1]);
    }
  }

  // ----------------------------------------------------- volume and others

  predicate HexOrDash(c: CodePoint) {
    Digit(c) || 0x41 <= c <= 0x46 || 0x61 <= c <= 0x66 || c == 0x2D
  }

  function VolumeIn(): Text {
    Lit("Volume in drive ")
  }

  function SerialNumber(): Text {
    Lit("Volume Serial Number is ")
  }

  predicate IsVolume(line: Text) {
    var s := LStrip(line);
    || (VolumeIn() < s)
    || (SerialNumber() <= s &&
        var (number, tail) := Scan(HexOrDash, s[|SerialNumber()|..]);
        number != [] && All(Space, tail))
  }

  predicate IsBlank(line: Text) {
    Strip(line) == []
  }

  function TotalFilesListed(): Text {
    Lit("Total Files Listed:")
  }

  function FileNotFound(): Text {
    Lit("File Not Found")
  }

  /** `resembles_entry` */
  predicate ResemblesEntry(line: Text) {
    LStrip(line) != [] && Digit(LStrip(line)[0])
  }

  // ---------------------------------------------------------- line classes

  datatype LineClass = Skipped | HeaderLine | TotalLine | FileSummaryLine | DirSummaryLine | NoFilesLine | EntryLine

  predicate Belongs(line: Text, c: LineClass) {
    match c
    case Skipped => IsBlank(line) || IsVolume(line)
    case HeaderLine => HeaderPath(line).Some?
    case TotalLine => Strip(line) == TotalFilesListed()
    case FileSummaryLine => ScanSummary(FileWords(), line).Some?
    case DirSummaryLine => ScanSummary(DirWords(), line).Some?
    case NoFilesLine => Strip(line) == FileNotFound()
    case EntryLine => ScanEntry(line).Some?
  }

  /** A few characters that tell the classes apart. */
  function Signature(line: Text): Option<LineClass> {
    var s := LStrip(line);
    if s == [] || s[0] == 0x56 then Some(Skipped)
    else if s[0] == 0x44 then Some(HeaderLine)
    else if s[0] == 0x54 then Some(TotalLine)
    else if s[0] == 0x46 then Some(NoFilesLine)
    else
      var rest := Scan(NumberChar, s).1;
      if |rest| < 2 then None
      else if Separator(rest[0]) then Some(EntryLine)
      else if rest[1] == 0x46 then Some(FileSummaryLine)
      else if rest[1] == 0x44 then Some(DirSummaryLine)
      else None
  }

  lemma EntrySignature(line: Text)
    requires ScanEntry(line).Some?
    ensures Signature(line) == Some(EntryLine)
    ensures ResemblesEntry(line)
  {
    hide ScanEntry, WriteClock, WriteWhat, Scan, Span;
    WritesWhatIsScanned(line);
    var e := ScanEntry(line).value;
    var rest := e.gap + WriteClock(e.clock, e.gap2 + WriteWhat(e.size, e.name));
    WrittenDateStarts(e.date, rest);
    ScanIs(Space, e.lead, WriteDate(e.date, rest));
    LStripIsRest(line);
    DateSeparates(e.date, rest);
  }

  /** The first separator stands where a summary would have a space. */
  lemma DateSeparates(d: DateText, rest: Text)
    requires DateOk(d)
    ensures var s := Scan(NumberChar, WriteDate(d, rest)).1; |s| >= 2 && Separator(s[0])
  {
    ScanIs(NumberChar, d.first, [d.separator] + (d.second + ([d.separator] + (d.third + rest))));
  }

  lemma SummarySignature(line: Text, w: Words)
    requires w.Valid() && |w.middle| >= 2 && ScanSummary(w, line).Some?
    ensures var s := LStrip(line); s != [] && NumberChar(s[0])
    ensures var rest := Scan(NumberChar, LStrip(line)).1; |rest| >= 2 && rest[0] == SPACE && rest[1] == w.middle[1]
  {
    WritesSummary(w, line);
    var (_, s0) := Scan(Space, line);
    var (first, s1) := Scan(NumberChar, s0);
    assert s0 == LStrip(line);
    assert first != [] && NumberChar(first[0]);
  }

  lemma StripSignature(line: Text, core: Text)
    requires core != [] && Strip(line) == core
    ensures LStrip(line) != [] && LStrip(line)[0] == core[0]
  {
  }

  lemma SkippedSignature(line: Text)
    requires IsBlank(line) || IsVolume(line)
    ensures LStrip(line) == [] || LStrip(line)[0] == 0x56
  {
    var s := LStrip(line);
    if s != [] {
      StripKeepsHead(s);
      assert VolumeIn()[0] == 0x56 && SerialNumber()[0] == 0x56;
    }
  }

  lemma WordSignature(line: Text, c: LineClass)
    requires Belongs(line, c) && (c.HeaderLine? || c.TotalLine? || c.NoFilesLine?)
    ensures Signature(line) == Some(c)
  {
    hide ScanEntry, ScanSummary, Scan, Space, Span, RStrip;
    assert DirectoryOf()[0] == 0x44 && TotalFilesListed()[0] == 0x54 && FileNotFound()[0] == 0x46;
    if c.TotalLine? {
      StripSignature(line, TotalFilesListed());
    } else if c.NoFilesLine? {
      StripSignature(line, FileNotFound());
    }
  }

  lemma ClassSignature(line: Text, c: LineClass)
    requires Belongs(line, c)
    ensures Signature(line) == Some(c)
  {
    hide ScanEntry, ScanSummary, Scan, Span, IsBlank, IsVolume;
    match c {
      case Skipped => SkippedSignature(line);
      case FileSummaryLine =>
        assert FileWords().middle[1] == 0x46;
        SummarySignature(line, FileWords());
      case DirSummaryLine =>
        assert DirWords().middle[1] == 0x44;
        SummarySignature(line, DirWords());
      case EntryLine => EntrySignature(line);
      case _ => WordSignature(line, c);
    }
  }

  /** No line is of two classes, so the order in which the patterns are tried does not matter. */
  lemma ClassesDisjoint(line: Text, a: LineClass, b: LineClass)
    requires Belongs(line, a) && Belongs(line, b)
    ensures a == b
  {
    ClassSignature(line, a);
    ClassSignature(line, b);
  }
}
