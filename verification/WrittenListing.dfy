/**
 The parser's purpose, end to end: whatever file system is written as a listing, in any
 layout, its bytes import, and the store serves every file and directory that was listed
 with its size and time.
 */
module WrittenListing {
  import opened Core
  import opened Lexing
  import opened Building
  import opened Diagnostics
  import opened Classification
  import opened WrittenLines
  import opened ListingEntries
  import G = Grammar
  import P = WindowsDirParser
  import L = ListingGrammar

  // ------------------------------------------------------------- the writer

  /** How a listing is laid out. */
  datatype Layout = Layout(separator: CodePoint, twelve: Option<Text>, grouped: bool, lead: Text, gap: Text)

  predicate LayoutOk(y: Layout) {
    && G.Separator(y.separator) && (y.twelve.Some? ==> G.Gap(y.twelve.value))
    && All(Space, y.lead) && G.Gap(y.gap)
  }

  /** A directory: where it is, and what is in it. */
  datatype Section = Section(drive: CodePoint, names: seq<Text>, items: seq<Meaning>)
  {
    /** Its mounted path. */
    function Path(): seq<Text> {
      [[if drive <= 0x5A then drive else drive - 0x20]] + names
    }
  }

  predicate ItemOk(source: Source, m: Meaning) {
    MeaningOk(m) && source.zone(m.time).Some?
  }

  predicate SectionOk(source: Source, s: Section) {
    && Letter(s.drive) && HeaderNames(s.names)
    && (forall m :: m in s.items ==> ItemOk(source, m))
    && Readable(Files(s.items)) && Readable(Bytes(s.items))
  }

  function Files(items: seq<Meaning>): nat {
    if items == [] then 0
    else Files(items[..|items| - 1]) + if items[|items| - 1].size.Some? then 1 else 0
  }

  function Bytes(items: seq<Meaning>): nat {
    if items == [] then 0
    else Bytes(items[..|items| - 1]) + if items[|items| - 1].size.Some? then items[|items| - 1].size.value else 0
  }

  function ItemText(source: Source, y: Layout, m: Meaning): G.EntryText
    requires ItemOk(source, m)
  {
    G.EntryText(y.lead, WriteDate(source.format, y.separator, m.time), y.gap, WriteTime(m.time, y.twelve), y.gap,
                WriteSize(m.size, y.grouped), m.name)
  }

  function SummaryOf(y: Layout, first: nat, second: nat): G.SummaryText {
    G.SummaryText(y.lead, WriteNumber(first, y.grouped), y.gap, WriteNumber(second, y.grouped), [])
  }

  /** The two summary lines; nothing is made of the numbers of the second. */
  function SummaryLines(y: Layout, files: nat, bytes: nat): seq<Text> {
    [FileLine(SummaryOf(y, files, bytes)), DirLine(SummaryOf(y, 0, 0))]
  }

  function ItemLines(source: Source, y: Layout, items: seq<Meaning>): seq<Text>
    requires forall m :: m in items ==> ItemOk(source, m)
  {
    seq(|items|, k requires 0 <= k < |items| && ItemOk(source, items[k]) => EntryLine(ItemText(source, y, items[k])))
  }

  function SectionTexts(source: Source, y: Layout, s: Section): seq<Text>
    requires SectionOk(source, s)
  {
    [HeaderOf(y.lead, y.gap, s.drive, s.names, [])] + ItemLines(source, y, s.items)
    + SummaryLines(y, Files(s.items), Bytes(s.items))
  }

  predicate SectionsOk(source: Source, sections: seq<Section>) {
    forall s :: s in sections ==> SectionOk(source, s)
  }

  function SectionsTexts(source: Source, y: Layout, sections: seq<Section>): seq<Text>
    requires SectionsOk(source, sections)
  {
    if sections == [] then []
    else
      assert sections[|sections| - 1] in sections;
      SectionsTexts(source, y, sections[..|sections| - 1]) + SectionTexts(source, y, sections[|sections| - 1])
  }

  function TotalFiles(sections: seq<Section>): nat {
    if sections == [] then 0 else TotalFiles(sections[..|sections| - 1]) + Files(sections[|sections| - 1].items)
  }

  function TotalBytes(sections: seq<Section>): nat {
    if sections == [] then 0 else TotalBytes(sections[..|sections| - 1]) + Bytes(sections[|sections| - 1].items)
  }

  /** A whole listing, line by line. */
  function ListingTexts(source: Source, y: Layout, sections: seq<Section>): seq<Text>
    requires SectionsOk(source, sections)
  {
    SectionsTexts(source, y, sections) + [Lit("Total Files Listed:")]
    + SummaryLines(y, TotalFiles(sections), TotalBytes(sections))
  }

  // --------------------------------------------------------- what it reads as

  function ClassifyAll(source: Source, texts: seq<Text>): seq<P.Line> {
    seq(|texts|, k requires 0 <= k < |texts| => Classify(source, texts[k]))
  }

  function LineOf(source: Source, m: Meaning): P.Line
    requires ItemOk(source, m)
  {
    P.Entry(P.Named(m.name, if m.size.Some? then File else Directory, m.size, source.zone(m.time).value, true))
  }

  function BodyOf(source: Source, items: seq<Meaning>): seq<P.Line>
    requires forall m :: m in items ==> ItemOk(source, m)
  {
    seq(|items|, k requires 0 <= k < |items| && ItemOk(source, items[k]) => LineOf(source, items[k]))
  }

  function DocOf(source: Source, s: Section): L.Doc
    requires SectionOk(source, s)
  {
    L.Doc(s.Path(), BodyOf(source, s.items))
  }

  function DocsOf(source: Source, sections: seq<Section>): seq<L.Doc>
    requires SectionsOk(source, sections)
  {
    seq(|sections|, k requires 0 <= k < |sections| && SectionOk(source, sections[k]) => DocOf(source, sections[k]))
  }

  lemma ClassifyConcat(source: Source, a: seq<Text>, b: seq<Text>)
    ensures ClassifyAll(source, a + b) == ClassifyAll(source, a) + ClassifyAll(source, b)
  {
    hide Classify;
  }

  lemma ItemReads(source: Source, y: Layout, m: Meaning)
    requires LayoutOk(y) && ItemOk(source, m)
    ensures Classify(source, EntryLine(ItemText(source, y, m))) == LineOf(source, m)
  {
    hide Classify, EntryLine;
    EntryRoundTrip(source, m, y.grouped, y.separator, y.twelve, y.lead, y.gap, y.gap);
    EntryLineIs(ItemText(source, y, m));
  }

  lemma ItemsRead(source: Source, y: Layout, items: seq<Meaning>)
    requires LayoutOk(y) && forall m :: m in items ==> ItemOk(source, m)
    ensures ClassifyAll(source, ItemLines(source, y, items)) == BodyOf(source, items)
  {
    hide Classify, EntryLine, ItemText, LineOf, LayoutOk, ItemOk;
    forall k | 0 <= k < |items|
      ensures ClassifyAll(source, ItemLines(source, y, items))[k] == BodyOf(source, items)[k]
    {
      assert items[k] in items;
      ItemReads(source, y, items[k]);
    }
  }

  lemma SummariesRead(source: Source, y: Layout, files: nat, bytes: nat)
    requires LayoutOk(y) && Readable(files) && Readable(bytes)
    ensures ClassifyAll(source, SummaryLines(y, files, bytes)) ==
      [P.FileSummary(Some((files, bytes))), P.DirSummary(true)]
  {
    hide Classify, WriteNumber, Lit;
    SummaryRoundTrip(source, files, bytes, y.grouped, y.grouped, y.lead, y.gap, []);
    assert Readable(0);
    SummaryRoundTrip(source, 0, 0, y.grouped, y.grouped, y.lead, y.gap, []);
  }

  lemma HeaderIsRead(source: Source, y: Layout, s: Section)
    requires LayoutOk(y) && SectionOk(source, s)
    ensures Classify(source, HeaderOf(y.lead, y.gap, s.drive, s.names, [])) == P.Header(s.Path(), true)
  {
    hide Classify, HeaderOf, HeaderNames;
    var line := HeaderOf(y.lead, y.gap, s.drive, s.names, []);
    HeaderReads(source, line, s.Path());
    assert WrittenHeader(line, s.Path(), y.lead, y.gap, s.drive, s.names, []);
  }

  lemma {:induction false} BodyCounts(source: Source, items: seq<Meaning>)
    requires forall m :: m in items ==> ItemOk(source, m)
    ensures L.FilesIn(BodyOf(source, items)) == Files(items) && L.BytesIn(BodyOf(source, items)) == Bytes(items)
    ensures L.GoodBody(BodyOf(source, items))
  {
    hide ItemOk;
    if items != [] {
      var front, last := items[..|items| - 1], items[|items| - 1];
      assert last in items;
      BodyCounts(source, front);
      assert BodyOf(source, items)[..|items| - 1] == BodyOf(source, front);
    }
    forall k | 0 <= k < |items| ensures L.GoodEntry(BodyOf(source, items)[k]) {
    }
  }

  lemma SectionReads(source: Source, y: Layout, s: Section)
    requires LayoutOk(y) && SectionOk(source, s)
    ensures ClassifyAll(source, SectionTexts(source, y, s)) == L.SectionLines(DocOf(source, s))
  {
    hide Classify, HeaderOf, ItemOk, HeaderNames, Readable, ItemLines, SummaryLines, BodyOf, LayoutOk, Letter;
    var header := HeaderOf(y.lead, y.gap, s.drive, s.names, []);
    var items := ItemLines(source, y, s.items);
    HeaderIsRead(source, y, s);
    ItemsRead(source, y, s.items);
    SummariesRead(source, y, Files(s.items), Bytes(s.items));
    BodyCounts(source, s.items);
    ClassifyConcat(source, [header] + items, SummaryLines(y, Files(s.items), Bytes(s.items)));
    ClassifyConcat(source, [header], items);
    assert ClassifyAll(source, [header]) == [P.Header(s.Path(), true)];
  }

  lemma {:induction false} SectionsRead(source: Source, y: Layout, sections: seq<Section>)
    requires LayoutOk(y) && SectionsOk(source, sections)
    ensures ClassifyAll(source, SectionsTexts(source, y, sections)) == L.SectionsLines(DocsOf(source, sections))
    ensures L.AllFiles(DocsOf(source, sections)) == TotalFiles(sections)
    ensures L.AllBytes(DocsOf(source, sections)) == TotalBytes(sections)
    ensures L.GoodDocs(DocsOf(source, sections))
  {
    hide SectionOk, SectionTexts, L.SectionLines, L.FilesIn, L.BytesIn, Files, Bytes, L.GoodBody, BodyOf, LayoutOk;
    hide Classify;
    if sections != [] {
      var front, last := sections[..|sections| - 1], sections[|sections| - 1];
      assert last in sections;
      SectionsRead(source, y, front);
      SectionReads(source, y, last);
      SectionCounts(source, last);
      assert DocsOf(source, sections)[..|sections| - 1] == DocsOf(source, front);
      assert DocsOf(source, sections) == DocsOf(source, front) + [DocOf(source, last)];
      L.DocsGrow(DocsOf(source, front), DocOf(source, last));
      ClassifyConcat(source, SectionsTexts(source, y, front), SectionTexts(source, y, last));
    }
  }

  lemma SectionCounts(source: Source, s: Section)
    requires SectionOk(source, s)
    ensures var body := DocOf(source, s).body;
      L.FilesIn(body) == Files(s.items) && L.BytesIn(body) == Bytes(s.items) && L.GoodBody(body)
  {
    BodyCounts(source, s.items);
  }

  /** Every listing that is written reads as the complete listing of its directories. */
  lemma ListingReads(source: Source, y: Layout, sections: seq<Section>)
    requires LayoutOk(y) && SectionsOk(source, sections)
    requires Readable(TotalFiles(sections)) && Readable(TotalBytes(sections))
    ensures ClassifyAll(source, ListingTexts(source, y, sections)) == L.ListingLines(DocsOf(source, sections))
    ensures L.GoodDocs(DocsOf(source, sections))
  {
    hide Classify, SectionsTexts, SummaryLines, SectionsOk, LayoutOk, Readable, DocsOf, L.GoodDocs;
    var total := Lit("Total Files Listed:");
    var summaries := SummaryLines(y, TotalFiles(sections), TotalBytes(sections));
    SectionsRead(source, y, sections);
    SummariesRead(source, y, TotalFiles(sections), TotalBytes(sections));
    MarkersRead(source, total);
    assert Between(total, total, [], []);
    assert ClassifyAll(source, [total]) == [P.Total];
    ClassifyConcat(source, SectionsTexts(source, y, sections) + [total], summaries);
    ClassifyConcat(source, SectionsTexts(source, y, sections), [total]);
  }

  // ------------------------------------------------------- nothing is ignored

  lemma {:induction false} NothingIgnored(lines: seq<P.Line>)
    requires forall k :: 0 <= k < |lines| ==> !lines[k].Ignored?
    ensures L.Meaningful(lines) == lines
  {
    if lines != [] {
      NothingIgnored(lines[..|lines| - 1]);
    }
  }

  lemma {:induction false} SectionsNotIgnored(docs: seq<L.Doc>)
    requires L.GoodDocs(docs)
    ensures forall k :: 0 <= k < |L.SectionsLines(docs)| ==> !L.SectionsLines(docs)[k].Ignored?
  {
    if docs != [] {
      SectionsNotIgnored(docs[..|docs| - 1]);
      BodyNotIgnored(docs[|docs| - 1].body);
    }
  }

  lemma BodyNotIgnored(body: seq<P.Line>)
    requires L.GoodBody(body)
    ensures forall k :: 0 <= k < |body| ==> !body[k].Ignored?
  {
  }

  lemma ListingMeaningful(docs: seq<L.Doc>)
    requires L.GoodDocs(docs)
    ensures L.Meaningful(L.ListingLines(docs)) == L.ListingLines(docs)
  {
    hide L.SectionsLines;
    SectionsNotIgnored(docs);
    NothingIgnored(L.ListingLines(docs));
  }
}
