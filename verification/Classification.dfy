/**
 From a line of text to the classified line that the state machine takes: dates and times,
 entry names and sizes, section paths, and their mounted form.
 */
module Classification {
  import opened Core
  import opened Lexing
  import opened Building
  import opened Diagnostics
  import G = Grammar
  import P = WindowsDirParser

  // ------------------------------------------------------- dates and times

  datatype DateFormat = MDY | DMY | YMD

  datatype LocalTime = LocalTime(year: nat, month: nat, day: nat, hour: nat, minute: nat)

  predicate Leap(year: nat) {
    year % 4 == 0 && (year % 100 != 0 || year % 400 == 0)
  }

  function DaysIn(year: nat, month: nat): nat {
    if month == 2 then (if Leap(year) then 29 else 28)
    else if month in {4, 6, 9, 11} then 30 else 31
  }

  /** How many of the years up to `n` are multiples of `d`. */
  function Multiples(n: nat, d: nat): nat
    requires d > 0
  {
    n / d
  }

  /** Days before the first day of a year, in the Gregorian calendar. */
  function DaysBeforeYear(year: nat): int
    requires year >= 1
  {
    365 * (year - 1) + Multiples(year - 1, 4) - Multiples(year - 1, 100) + Multiples(year - 1, 400)
  }

  lemma OneMoreMultiple(n: nat)
    ensures Multiples(n + 1, 4) - Multiples(n, 4) == if (n + 1) % 4 == 0 then 1 else 0
    ensures Multiples(n + 1, 100) - Multiples(n, 100) == if (n + 1) % 100 == 0 then 1 else 0
    ensures Multiples(n + 1, 400) - Multiples(n, 400) == if (n + 1) % 400 == 0 then 1 else 0
  {
  }

  lemma FoursOf(q: nat)
    ensures (4 * q) % 4 == 0
  {
  }

  lemma HundredsOf(q: nat)
    ensures (100 * q) % 100 == 0
  {
  }

  lemma HundredsAreFours(year: nat)
    requires year % 100 == 0
    ensures year % 4 == 0
  {
    FoursOf(25 * (year / 100));
  }

  lemma FourHundredsAreHundreds(year: nat)
    requires year % 400 == 0
    ensures year % 100 == 0
  {
    HundredsOf(4 * (year / 400));
  }

  lemma MultiplesNest(year: nat)
    ensures year % 400 == 0 ==> year % 100 == 0
    ensures year % 100 == 0 ==> year % 4 == 0
  {
    if year % 400 == 0 {
      FourHundredsAreHundreds(year);
    }
    if year % 100 == 0 {
      HundredsAreFours(year);
    }
  }

  lemma LeapDay(year: nat)
    requires year >= 1
    ensures DaysBeforeYear(year + 1) - DaysBeforeYear(year) == if Leap(year) then 366 else 365
  {
    hide Multiples;
    OneMoreMultiple(year - 1);
    MultiplesNest(year);
  }

  /** The months make up the year. */
  lemma MonthsMakeYear(year: nat)
    requires year >= 1
    ensures DaysIn(year, 1) + DaysIn(year, 2) + DaysIn(year, 3) + DaysIn(year, 4) + DaysIn(year, 5) + DaysIn(year, 6)
          + DaysIn(year, 7) + DaysIn(year, 8) + DaysIn(year, 9) + DaysIn(year, 10) + DaysIn(year, 11) + DaysIn(year, 12)
         == DaysBeforeYear(year + 1) - DaysBeforeYear(year)
  {
    LeapDay(year);
    hide DaysBeforeYear, Leap;
  }

  /** What the calendar accepts. */
  predicate ValidTime(t: LocalTime) {
    && 1 <= t.year <= 9999 && 1 <= t.month <= 12 && 1 <= t.day <= DaysIn(t.year, t.month)
    && t.hour < 24 && t.minute < 60
  }

  /** The source of a listing: its date order and its time zone.  A local time that does not
      exist, or is ambiguous and refused, has no zoned form. */
  datatype Source = Source(format: DateFormat, zone: LocalTime -> Option<Timestamp>, naive: LocalTime -> Timestamp)

  /** Year, month and day fields of a date. */
  function Fields(format: DateFormat, d: G.DateText): (Text, Text, Text) {
    match format
    case MDY => (d.third, d.first, d.second)
    case DMY => (d.third, d.second, d.first)
    case YMD => (d.first, d.second, d.third)
  }

  /** The hour on a 24-hour clock. */
  function Hour(hour: nat, meridiem: Option<bool>): Option<nat> {
    match meridiem
    case Some(pm) => if 1 <= hour <= 12 then Some(hour % 12 + if pm then 12 else 0) else None
    case None => if hour <= 23 then Some(hour) else None
  }

  /** `_parse_datetime` */
  function ParseTime(format: DateFormat, d: G.DateText, c: G.ClockText): Result<LocalTime, Code>
    requires G.DateOk(d) && G.ClockOk(c)
  {
    var (year, month, day) := Fields(format, d);
    var meridiem := if c.meridiem.Some? then Some(c.meridiem.value.1) else None;
    var hour := Hour(Value(c.hour), meridiem);
    if |year| != 4 then Failure(TwoDigitYear)
    else if hour.None? then Failure(InvalidTime)
    else
      var t := LocalTime(Value(year), Value(month), Value(day), hour.value, Value(c.minute));
      if ValidTime(t) then Success(t) else Failure(InvalidDatetime)
  }

  // --------------------------------------------------------------- entries

  predicate DotName(name: Text) {
    name == [DOT] || name == [DOT, DOT]
  }

  predicate ForbiddenInName(name: Text) {
    0 in name || SLASH in name || G.BACKSLASH in name || G.COLON in name
  }

  /** The rest of `parse_entry`, once the line has matched. */
  function EntryResult(source: Source, e: G.EntryText): (r: P.EntryResult)
    requires G.EntryOk(e)
    ensures r.Wellformed()
  {
    match ParseTime(source.format, e.date, e.clock)
    case Failure(code) => P.Bad(code)
    case Success(t) =>
      var zoned := source.zone(t);
      var modified := if zoned.Some? then zoned.value else source.naive(t);
      if DotName(e.name) then P.Dot
      else if ForbiddenInName(e.name) then P.Bad(InvalidEntryName)
      else if e.size.None? then P.Named(e.name, Directory, None, modified, zoned.Some?)
      else
        var size := ParseInteger(e.size.value);
        if size.None? then P.Bad(InvalidSize) else P.Named(e.name, File, size, modified, zoned.Some?)
  }

  // ----------------------------------------------------------------- paths

  predicate Letter(c: CodePoint) {
    0x41 <= c <= 0x5A || 0x61 <= c <= 0x7A
  }

  function Upper(c: CodePoint): CodePoint {
    if 0x61 <= c <= 0x7A then c - 0x20 else c
  }

  /** `str.split` at backslashes. */
  function Split(s: Text): (parts: seq<Text>)
    ensures parts != []
  {
    if s == [] then [[]]
    else if s[0] == G.BACKSLASH then [[]] + Split(s[1..])
    else var rest := Split(s[1..]); [[s[0]] + rest[0]] + rest[1..]
  }

  function JoinParts(parts: seq<Text>): Text
    requires parts != []
  {
    if |parts| == 1 then parts[0] else parts[0] + [G.BACKSLASH] + JoinParts(parts[1..])
  }

  predicate GoodPart(part: Text) {
    part != [] && !DotName(part) && G.COLON !in part
  }

  /** `valid_section_path` */
  predicate ValidSectionPath(raw: Text) {
    && |raw| >= 3 && Letter(raw[0]) && raw[1] == G.COLON && raw[2] == G.BACKSLASH
    && (raw[3..] == [] || var parts := Split(raw[3..]); forall k :: 0 <= k < |parts| ==> GoodPart(parts[k]))
  }

  predicate Mountable(raw: Text) {
    ValidSectionPath(raw) && 0 !in raw && SLASH !in raw
  }

  /** `to_mounted_path`: the drive letter in upper case, then the names. */
  function MountedPath(raw: Text): seq<Text>
    requires |raw| >= 3
  {
    [[Upper(raw[0])]] + if raw[3..] == [] then [] else Split(raw[3..])
  }

  // --------------------------------------------------------------- classes

  function SummaryNumbers(t: G.SummaryText): Option<(nat, nat)> {
    var count, size := ParseInteger(t.first), ParseInteger(t.second);
    if count.None? || size.None? then None else Some((count.value, size.value))
  }

  /** The order in which the loop tries the patterns. */
  function Classify(source: Source, line: Text): P.Line {
    if G.IsBlank(line) || G.IsVolume(line) then P.Ignored
    else if G.HeaderPath(line).Some? then
      var raw := G.HeaderPath(line).value;
      P.Header(if Mountable(raw) then MountedPath(raw) else [raw], Mountable(raw))
    else if Strip(line) == G.TotalFilesListed() then P.Total
    else if G.ScanSummary(G.FileWords(), line).Some? then
      P.FileSummary(SummaryNumbers(G.ScanSummary(G.FileWords(), line).value))
    else if G.ScanSummary(G.DirWords(), line).Some? then
      P.DirSummary(SummaryNumbers(G.ScanSummary(G.DirWords(), line).value).Some?)
    else if Strip(line) == G.FileNotFound() then P.NoFiles
    else if G.ScanEntry(line).Some? then
      G.WritesWhatIsScanned(line);
      P.Entry(EntryResult(source, G.ScanEntry(line).value))
    else P.Unknown(G.ResemblesEntry(line))
  }

  function ClassOf(l: P.Line): Option<G.LineClass> {
    match l
    case Ignored => Some(G.Skipped)
    case Header(_, _) => Some(G.HeaderLine)
    case Total => Some(G.TotalLine)
    case FileSummary(_) => Some(G.FileSummaryLine)
    case DirSummary(_) => Some(G.DirSummaryLine)
    case NoFiles => Some(G.NoFilesLine)
    case Entry(_) => Some(G.EntryLine)
    case Unknown(_) => None
  }

  /** A line is put into a class exactly when it matches that class's own pattern: trying the
      patterns in another order would classify every line alike. */
  lemma ClassifiedByOwnPattern(source: Source, line: Text, c: G.LineClass)
    ensures ClassOf(Classify(source, line)) == Some(c) <==> G.Belongs(line, c)
  {
    hide *;
    var own := ClassOf(Classify(source, line));
    ClassifiedAsMatched(source, line);
    if own.Some? && G.Belongs(line, c) {
      G.ClassesDisjoint(line, c, own.value);
    }
    if own.None? && G.Belongs(line, c) {
      UnclassifiedMatchesNone(source, line, c);
    }
  }

  lemma ClassifiedAsMatched(source: Source, line: Text)
    ensures var own := ClassOf(Classify(source, line)); own.Some? ==> G.Belongs(line, own.value)
  {
    hide G.IsBlank, G.IsVolume, G.HeaderPath, G.ScanSummary, G.ScanEntry, Strip, Mountable, MountedPath, EntryResult;
  }

  lemma UnclassifiedMatchesNone(source: Source, line: Text, c: G.LineClass)
    requires ClassOf(Classify(source, line)).None?
    ensures !G.Belongs(line, c)
  {
    hide G.IsBlank, G.IsVolume, G.HeaderPath, G.ScanSummary, G.ScanEntry, Strip, Mountable, MountedPath, EntryResult;
  }

  // ------------------------------------------------- times read back

  function Two(n: nat): Text
    requires n < 100
  {
    [DigitOf(n / 10), DigitOf(n % 10)]
  }

  function Four(n: nat): Text
    requires n < 10000
  {
    Two(n / 100) + Two(n % 100)
  }

  lemma OneValue(d: nat)
    requires d < 10
    ensures Value([DigitOf(d)]) == d
  {
    assert [DigitOf(d)][..0] == [];
  }

  lemma TwoValue(n: nat)
    requires n < 100
    ensures All(Digit, Two(n)) && Value(Two(n)) == n
  {
    OneValue(n / 10);
    assert Two(n)[..1] == [DigitOf(n / 10)];
  }

  lemma FourValue(n: nat)
    requires n < 10000
    ensures All(Digit, Four(n)) && Value(Four(n)) == n
  {
    var a, b := Two(n / 100), n % 100;
    TwoValue(n / 100);
    assert Four(n) == a + [DigitOf(b / 10)] + [DigitOf(b % 10)];
    assert Four(n)[..3] == a + [DigitOf(b / 10)];
    assert Four(n)[..3][..2] == a;
  }

  /** A date written in a format. */
  function WriteDate(format: DateFormat, separator: CodePoint, t: LocalTime): G.DateText
    requires ValidTime(t)
  {
    match format
    case MDY => G.DateText(Two(t.month), separator, Two(t.day), Four(t.year))
    case DMY => G.DateText(Two(t.day), separator, Two(t.month), Four(t.year))
    case YMD => G.DateText(Four(t.year), separator, Two(t.month), Two(t.day))
  }

  /** A time written on a 24-hour clock, or on a 12-hour clock after some space. */
  function WriteTime(t: LocalTime, twelve: Option<Text>): G.ClockText
    requires ValidTime(t)
  {
    match twelve
    case None => G.ClockText(Two(t.hour), Two(t.minute), None)
    case Some(gap) =>
      G.ClockText(Two(if t.hour % 12 == 0 then 12 else t.hour % 12), Two(t.minute), Some((gap, t.hour >= 12)))
  }

  /** Every valid time reads back, in every date format and on both clocks. */
  lemma TimeRoundTrip(format: DateFormat, separator: CodePoint, t: LocalTime, twelve: Option<Text>)
    requires ValidTime(t) && G.Separator(separator) && (twelve.Some? ==> G.Gap(twelve.value))
    ensures G.DateOk(WriteDate(format, separator, t)) && G.ClockOk(WriteTime(t, twelve))
    ensures ParseTime(format, WriteDate(format, separator, t), WriteTime(t, twelve)) == Success(t)
  {
    hide Two, Four, Value;
    assert DaysIn(t.year, t.month) <= 31;
    TwoWidth(t.month);
    TwoWidth(t.day);
    FourValue(t.year);
    FourWidth(t.year);
    TwoWidth(t.hour);
    TwoWidth(if t.hour % 12 == 0 then 12 else t.hour % 12);
    TwoWidth(t.minute);
  }

  lemma TwoWidth(n: nat)
    requires n < 100
    ensures |Two(n)| == 2 && All(Digit, Two(n)) && Value(Two(n)) == n
  {
    TwoValue(n);
  }

  lemma FourWidth(n: nat)
    requires n < 10000
    ensures |Four(n)| == 4
  {
  }

  /** What a line must write to denote an entry. */
  datatype Meaning = Meaning(name: Text, size: Option<nat>, time: LocalTime)

  predicate MeaningOk(m: Meaning) {
    && m.name != [] && !DotName(m.name) && !ForbiddenInName(m.name) && ValidTime(m.time)
    && (m.size.Some? ==> |Decimal(m.size.value)| <= MAX_INTEGER_DIGITS)
  }

  /** A size, with or without separators. */
  function WriteSize(size: Option<nat>, grouped: bool): Option<Text> {
    if size.None? then None
    else if grouped then Some(Thousands(size.value)) else Some(Decimal(size.value))
  }

  /** An entry line, in any date format, with either clock, any separator, any spacing and
      either style of number, reads back as the entry; the name is everything after the one
      space that follows the size, or the ten that follow `<DIR>`. */
  lemma EntryRoundTrip(source: Source, m: Meaning, grouped: bool, separator: CodePoint, twelve: Option<Text>,
                       lead: Text, gap: Text, gap2: Text)
    requires MeaningOk(m) && G.Separator(separator) && (twelve.Some? ==> G.Gap(twelve.value))
    requires All(Space, lead) && G.Gap(gap) && G.Gap(gap2)
    ensures var e := G.EntryText(lead, WriteDate(source.format, separator, m.time), gap, WriteTime(m.time, twelve),
                                 gap2, WriteSize(m.size, grouped), m.name);
      var zoned := source.zone(m.time);
      Classify(source, G.WriteEntry(e)) ==
        P.Entry(P.Named(m.name, if m.size.Some? then File else Directory, m.size,
                        if zoned.Some? then zoned.value else source.naive(m.time), zoned.Some?))
  {
    hide ParseTime, WriteDate, WriteTime, WriteSize, G.ScanEntry, G.WriteEntry, Classify;
    var date, clock := WriteDate(source.format, separator, m.time), WriteTime(m.time, twelve);
    var e := G.EntryText(lead, date, gap, clock, gap2, WriteSize(m.size, grouped), m.name);
    TimeRoundTrip(source.format, separator, m.time, twelve);
    SizeRoundTrip(m.size, grouped);
    EntryIsOk(e);
    ClassifyWritten(source, e);
    EntryResultIs(source, e, m);
  }

  lemma EntryIsOk(e: G.EntryText)
    requires All(Space, e.lead) && G.DateOk(e.date) && G.Gap(e.gap) && G.ClockOk(e.clock) && G.Gap(e.gap2)
    requires e.size.Some? ==> e.size.value != [] && All(NumberChar, e.size.value)
    requires e.name != []
    ensures G.EntryOk(e)
  {
  }

  lemma ClassifyWritten(source: Source, e: G.EntryText)
    requires G.EntryOk(e)
    ensures Classify(source, G.WriteEntry(e)) == P.Entry(EntryResult(source, e))
  {
    hide Classify, G.ScanEntry, G.WriteEntry, G.EntryOk;
    var line := G.WriteEntry(e);
    G.ScansWhatIsWritten(e);
    ClassifiedByOwnPattern(source, line, G.EntryLine);
    ClassifyEntry(source, line);
  }

  lemma EntryResultIs(source: Source, e: G.EntryText, m: Meaning)
    requires G.EntryOk(e) && MeaningOk(m) && e.name == m.name
    requires ParseTime(source.format, e.date, e.clock) == Success(m.time)
    requires e.size.Some? <==> m.size.Some?
    requires e.size.Some? ==> ParseInteger(e.size.value) == m.size
    ensures EntryResult(source, e) ==
      var zoned := source.zone(m.time);
      P.Named(m.name, if m.size.Some? then File else Directory, m.size,
              if zoned.Some? then zoned.value else source.naive(m.time), zoned.Some?)
  {
    hide ParseTime, G.EntryOk, ParseInteger;
  }

  lemma ClassifyEntry(source: Source, line: Text)
    requires Classify(source, line).Entry?
    ensures G.ScanEntry(line).Some? && G.EntryOk(G.ScanEntry(line).value)
    ensures Classify(source, line) == P.Entry(EntryResult(source, G.ScanEntry(line).value))
  {
    hide G.IsBlank, G.IsVolume, G.HeaderPath, G.ScanSummary, Strip, Mountable, MountedPath, EntryResult;
  }

  lemma SizeRoundTrip(size: Option<nat>, grouped: bool)
    requires size.Some? ==> |Decimal(size.value)| <= MAX_INTEGER_DIGITS
    ensures var s := WriteSize(size, grouped);
      && (s.Some? <==> size.Some?)
      && (s.Some? ==> s.value != [] && All(NumberChar, s.value) && ParseInteger(s.value) == size)
  {
    if size.Some? {
      IntegerRoundTrip(size.value);
      WithCommasGroups(Decimal(size.value));
      if grouped {
        GroupedNumber(Thousands(size.value));
      }
    }
  }

  lemma {:induction false} GroupedNumber(s: Text)
    requires Grouped(s)
    ensures s != [] && All(NumberChar, s)
  {
    if |s| > 3 {
      GroupedNumber(s[..|s| - 4]);
      assert forall k :: 0 <= k < |s| - 4 ==> s[k] == s[..|s| - 4][k];
      assert forall k :: |s| - 3 <= k < |s| ==> s[k] == s[|s| - 3..][k - (|s| - 3)];
    }
  }

  // ------------------------------------------------- section paths read back

  lemma {:induction false} SplitOne(part: Text, rest: Text)
    requires G.BACKSLASH !in part
    ensures Split(part) == [part]
    ensures Split(part + [G.BACKSLASH] + rest) == [part] + Split(rest)
  {
    var s := part + [G.BACKSLASH] + rest;
    if part == [] {
      assert s[1..] == rest;
    } else {
      SplitOne(part[1..], rest);
      assert s[1..] == part[1..] + [G.BACKSLASH] + rest;
      assert [s[0]] + part[1..] == part;
    }
  }

  lemma {:induction false} SplitJoinParts(parts: seq<Text>)
    requires parts != [] && forall k :: 0 <= k < |parts| ==> G.BACKSLASH !in parts[k]
    ensures Split(JoinParts(parts)) == parts
  {
    SplitOne(parts[0], if |parts| == 1 then [] else JoinParts(parts[1..]));
    if |parts| > 1 {
      SplitJoinParts(parts[1..]);
    }
  }

  lemma {:induction false} JoinSplit(s: Text)
    ensures JoinParts(Split(s)) == s
    ensures forall k :: 0 <= k < |Split(s)| ==> G.BACKSLASH !in Split(s)[k]
  {
    if s != [] {
      JoinSplit(s[1..]);
    }
  }

  /** A name that a mountable section path may hold. */
  predicate SectionName(part: Text) {
    GoodPart(part) && G.BACKSLASH !in part && 0 !in part && SLASH !in part
  }

  function WriteSectionPath(drive: CodePoint, parts: seq<Text>): Text {
    [drive, G.COLON, G.BACKSLASH] + if parts == [] then [] else JoinParts(parts)
  }

  lemma {:induction false} JoinHolds(parts: seq<Text>, c: CodePoint)
    requires parts != [] && c != G.BACKSLASH
    ensures c in JoinParts(parts) <==> exists k :: 0 <= k < |parts| && c in parts[k]
  {
    if |parts| > 1 {
      JoinHolds(parts[1..], c);
      if k :| 0 <= k < |parts| && c in parts[k] {
        assert k > 0 ==> c in parts[1..][k - 1];
      }
    }
  }

  /** A drive and names make a mountable path, and mounting it gives them back. */
  lemma SectionPathRoundTrip(drive: CodePoint, parts: seq<Text>)
    requires Letter(drive) && forall k :: 0 <= k < |parts| ==> SectionName(parts[k])
    ensures Mountable(WriteSectionPath(drive, parts))
    ensures MountedPath(WriteSectionPath(drive, parts)) == [[Upper(drive)]] + parts
  {
    var raw := WriteSectionPath(drive, parts);
    if parts != [] {
      var joined := JoinParts(parts);
      assert raw[3..] == joined;
      SplitJoinParts(parts);
      JoinHolds(parts, 0);
      JoinHolds(parts, SLASH);
      assert Split(joined) == parts;
      assert joined != [] by {
        assert parts[0] != [];
      }
    }
  }

  /** ... and every mountable path is of that form. */
  lemma MountableIsWritten(raw: Text)
    requires Mountable(raw)
    ensures var parts := MountedPath(raw)[1..];
      && raw == WriteSectionPath(raw[0], parts)
      && forall k :: 0 <= k < |parts| ==> SectionName(parts[k])
  {
    var rest := raw[3..];
    assert raw == [raw[0], G.COLON, G.BACKSLASH] + rest;
    if rest != [] {
      JoinSplit(rest);
      JoinHolds(Split(rest), 0);
      JoinHolds(Split(rest), SLASH);
      assert forall c :: c in rest ==> c in raw;
    }
  }

  /** Two mountable paths are mounted alike exactly when they differ at most in the case of
      the drive letter. */
  lemma MountedPathInjective(raw: Text, other: Text)
    requires Mountable(raw) && Mountable(other)
    ensures MountedPath(raw) == MountedPath(other) <==>
      Upper(raw[0]) == Upper(other[0]) && raw[1..] == other[1..]
  {
    MountableIsWritten(raw);
    MountableIsWritten(other);
    if MountedPath(raw) == MountedPath(other) {
      assert MountedPath(raw)[0] == [Upper(raw[0])] && MountedPath(other)[0] == [Upper(other[0])];
      assert raw[1..] == WriteSectionPath(raw[0], MountedPath(raw)[1..])[1..];
      assert other[1..] == WriteSectionPath(other[0], MountedPath(other)[1..])[1..];
    }
    if raw[1..] == other[1..] {
      assert raw[3..] == raw[1..][2..] && other[3..] == other[1..][2..];
    }
  }
}
