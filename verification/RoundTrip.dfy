/**
 Any file system, written as a listing in any layout and encoded in any Unicode encoding,
 imports, and the store serves each file and directory listed with its size and time.
 */
module RoundTrip {
  import opened Core
  import opened Lexing
  import opened Unicode
  import opened Building
  import opened Tree
  import opened PathMaps
  import opened Compatibility
  import opened Stores
  import opened Classification
  import opened WrittenLines
  import opened WrittenListing
  import opened ListingEntries
  import S = ServedEntries
  import D = Decoding
  import B = LineByLine
  import G = Grammar
  import P = WindowsDirParser
  import L = ListingGrammar
  import Pipeline

  // ------------------------------------------------------------- file systems

  /** What is at a path: no size means a directory. */
  datatype Fact = Fact(size: Option<nat>, time: LocalTime)

  type FileSystem = map<seq<Text>, Fact>

  /** Neither the path nor anything above it is a file. */
  ghost predicate IsDirectory(fs: FileSystem, path: seq<Text>) {
    forall p :: p in fs && (p == path || Above(p, path)) ==> fs[p].size.None?
  }

  ghost predicate Truthful(fs: FileSystem, s: Section) {
    && IsDirectory(fs, s.Path())
    && forall m :: m in s.items ==> s.Path() + [m.name] in fs && fs[s.Path() + [m.name]] == Fact(m.size, m.time)
  }

  /** The sections list directories of the file system, and nothing is below a file. */
  ghost predicate Lists(fs: FileSystem, sections: seq<Section>) {
    && (forall p, q :: p in fs && q in fs && Above(p, q) ==> fs[p].size.None?)
    && (forall s :: s in sections ==> Truthful(fs, s))
  }

  predicate FittingPath(path: seq<Text>) {
    forall k :: 0 <= k < |path| ==> Pipeline.Fitting(path[k])
  }

  /** Every name is short enough to be mounted. */
  predicate NamesFit(sections: seq<Section>) {
    forall s :: s in sections ==>
      FittingPath(s.Path()) && forall m :: m in s.items ==> Pipeline.Fitting(m.name)
  }

  // ---------------------------------------------------------- what is yielded

  /** An entry that is true of the file system. */
  ghost predicate IsTrue(source: Source, fs: FileSystem, e: ParsedEntry) {
    && e.content.None?
    && if e.observation.SectionHeader? then e.kind.Directory? && IsDirectory(fs, e.path)
       else
         && e.path in fs
         && e.size == fs[e.path].size
         && source.zone(fs[e.path].time).Some? && e.modified == source.zone(fs[e.path].time)
         && (if e.size.Some? then e.kind.File? && e.observation.FileEntry?
             else e.kind.Directory? && e.observation.DirectoryEntry?)
  }

  /** Entries that are true of one file system do not contradict each other. */
  lemma TrueIsCompatible(source: Source, fs: FileSystem, x: ParsedEntry, y: ParsedEntry)
    requires IsTrue(source, fs, x) && IsTrue(source, fs, y)
    requires forall p, q :: p in fs && q in fs && Above(p, q) ==> fs[p].size.None?
    ensures Compatible(x, y)
  {
  }

  lemma DocIsSection(source: Source, sections: seq<Section>, d: L.Doc) returns (s: Section)
    requires SectionsOk(source, sections) && d in DocsOf(source, sections)
    ensures s in sections && SectionOk(source, s) && d == DocOf(source, s)
  {
    var k :| 0 <= k < |sections| && DocsOf(source, sections)[k] == d;
    s := sections[k];
  }

  lemma LineIsItem(source: Source, s: Section, line: P.Line) returns (m: Meaning)
    requires SectionOk(source, s) && line in BodyOf(source, s.items)
    ensures m in s.items && ItemOk(source, m) && line == LineOf(source, m)
  {
    var k :| 0 <= k < |s.items| && BodyOf(source, s.items)[k] == line;
    m := s.items[k];
  }

  lemma ItemIsTrue(source: Source, fs: FileSystem, s: Section, m: Meaning, e: ParsedEntry)
    requires Truthful(fs, s) && m in s.items && ItemOk(source, m) && IsEntryOf(e, s.Path(), LineOf(source, m))
    ensures IsTrue(source, fs, e) && e.path == s.Path() + [m.name]
  {
    hide IsDirectory;
    assert e.path == s.Path() + [m.name];
  }

  /** What a truthful listing yields is true. */
  lemma YieldedIsTrue(source: Source, fs: FileSystem, sections: seq<Section>, es: seq<ParsedEntry>, e: ParsedEntry)
    requires SectionsOk(source, sections) && Lists(fs, sections) && NamesFit(sections)
    requires Told(es, DocsOf(source, sections)) && e in es
    ensures IsTrue(source, fs, e) && FittingPath(e.path)
  {
    hide DocsOf, Pipeline.Fitting, SectionOk, IsDirectory, AllSaid, IsEntryOf, ItemOk, LineOf, IsTrue;
    assert SaidBySome(DocsOf(source, sections), e);
    var d :| d in DocsOf(source, sections) && Says(d, e);
    var s := DocIsSection(source, sections, d);
    if IsHeaderOf(e, d.path) {
      assert IsTrue(source, fs, e) by {
        HeaderIsTrue(source, fs, s, e);
      }
    } else {
      var line :| line in d.body && IsEntryOf(e, d.path, line);
      var m := LineIsItem(source, s, line);
      ItemIsTrue(source, fs, s, m, e);
    }
  }

  lemma HeaderIsTrue(source: Source, fs: FileSystem, s: Section, e: ParsedEntry)
    requires Truthful(fs, s) && IsHeaderOf(e, s.Path())
    ensures IsTrue(source, fs, e)
  {
  }

  lemma Yielded(source: Source, sections: seq<Section>, es: seq<ParsedEntry>, s: Section, m: Meaning)
    returns (e: ParsedEntry)
    requires SectionsOk(source, sections) && Told(es, DocsOf(source, sections))
    requires s in sections && m in s.items
    ensures ItemOk(source, m) && e in es && IsEntryOf(e, s.Path(), LineOf(source, m))
  {
    hide DocsOf, ItemOk, LineOf, IsEntryOf, Says, BodyOf;
    SectionIsDoc(source, sections, s);
    ItemIsLine(source, s, m);
    assert AllSaid(es, DocOf(source, s));
    assert HasEntry(es, s.Path(), LineOf(source, m));
    e :| e in es && IsEntryOf(e, s.Path(), LineOf(source, m));
  }

  lemma SectionIsDoc(source: Source, sections: seq<Section>, s: Section)
    requires SectionsOk(source, sections) && s in sections
    ensures SectionOk(source, s) && DocOf(source, s) in DocsOf(source, sections)
  {
    hide SectionOk, DocOf;
    var k :| 0 <= k < |sections| && sections[k] == s;
    assert DocsOf(source, sections)[k] == DocOf(source, s);
  }

  lemma ItemIsLine(source: Source, s: Section, m: Meaning)
    requires SectionOk(source, s) && m in s.items
    ensures ItemOk(source, m) && LineOf(source, m) in BodyOf(source, s.items)
    ensures LineOf(source, m).Entry? && LineOf(source, m).result.Named?
  {
    var k :| 0 <= k < |s.items| && s.items[k] == m;
    assert BodyOf(source, s.items)[k] == LineOf(source, m);
  }

  // -------------------------------------------------------------- the theorem

  /** The run decodes to the lines of the listing. */
  predicate RunsTo(run: D.Run, texts: seq<Text>) {
    run.error.None? && |run.lines| == |texts| && forall k :: 0 <= k < |texts| ==> run.lines[k].text == texts[k]
  }

  /** A listing that can be written and mounted. */
  ghost predicate Writable(source: Source, y: Layout, fs: FileSystem, sections: seq<Section>) {
    && LayoutOk(y) && SectionsOk(source, sections) && sections != []
    && Readable(TotalFiles(sections)) && Readable(TotalBytes(sections))
    && Lists(fs, sections) && NamesFit(sections)
  }

  lemma RunTells(source: Source, y: Layout, fs: FileSystem, sections: seq<Section>, run: D.Run)
    requires Writable(source, y, fs, sections) && RunsTo(run, ListingTexts(source, y, sections))
    ensures L.Complete(L.LinesOf(Pipeline.Classified(source, run.lines)))
    ensures Told(Pipeline.EntriesOf(source, run), DocsOf(source, sections))
  {
    hide Classify, ListingTexts, SectionsOk, DocsOf, L.ListingLines, P.After, Told, LayoutOk, Lists, NamesFit, Readable;
    hide L.GoodDocs, L.Meaningful;
    var docs := DocsOf(source, sections);
    var numbered := Pipeline.Classified(source, run.lines);
    ListingReads(source, y, sections);
    ListingMeaningful(docs);
    assert L.LinesOf(numbered) == ClassifyAll(source, ListingTexts(source, y, sections));
    Pipeline.ClassifiedAreClean(source, run.lines);
    CompleteListingTells(numbered, docs);
    assert docs != [] by {
      NoDocs(source, sections);
    }
  }

  lemma NoDocs(source: Source, sections: seq<Section>)
    requires SectionsOk(source, sections) && sections != []
    ensures DocsOf(source, sections) != []
  {
    assert |DocsOf(source, sections)| == |sections|;
  }

  /** Every listing of a file system is importable ... */
  lemma WrittenIsImportable(source: Source, y: Layout, fs: FileSystem, sections: seq<Section>, run: D.Run)
    requires Writable(source, y, fs, sections) && RunsTo(run, ListingTexts(source, y, sections))
    ensures Pipeline.Importable(source, run)
  {
    hide Pipeline.EntriesOf, Pipeline.Fitting, IsTrue, Compatible, DocsOf, Told, SectionsOk, NamesFit, L.Complete;
    var es := Pipeline.EntriesOf(source, run);
    RunTells(source, y, fs, sections, run);
    forall e | e in es ensures IsTrue(source, fs, e) && FittingPath(e.path) {
      YieldedIsTrue(source, fs, sections, es, e);
    }
    forall a, b | a in es && b in es ensures Compatible(a, b) {
      TrueIsCompatible(source, fs, a, b);
    }
  }

  /** The node is the item: a file of its size, or a directory, with its time. */
  predicate IsItem(source: Source, node: Node, m: Meaning) {
    && node.kind == (if m.size.Some? then File else Directory)
    && node.size == m.size
    && source.zone(m.time).Some? && node.modified == source.zone(m.time)
  }

  function ItemNames(s: Section, m: Meaning): seq<Bytes>
    requires ValidPath(s.Path() + [m.name])
  {
    MountedNames(s.Path() + [m.name])
  }

  /** ... and what is published from it serves each item that was listed, at its own path. */
  lemma WrittenIsServed(source: Source, y: Layout, fs: FileSystem, sections: seq<Section>, run: D.Run,
                        s: Section, m: Meaning)
    requires Writable(source, y, fs, sections) && RunsTo(run, ListingTexts(source, y, sections))
    requires s in sections && m in s.items
    ensures ValidPath(s.Path() + [m.name]) && IndexOk(EMPTY_TREE)
    ensures var store := FinishedMemory(AddAll(EMPTY_TREE, Pipeline.EntriesOf(source, run)).0);
      && store.Closed()
      && var found := S.WalkMemory(store, ItemNames(s, m));
      && found.Some? && found.value in store.nodes && IsItem(source, store.nodes[found.value], m)
  {
    var es := Pipeline.EntriesOf(source, run);
    hide Pipeline.EntriesOf, Pipeline.Fitting, Compatible, DocsOf, Told, SectionsOk, L.Complete, S.Shows;
    hide AddAll, TreeOk, Describes, IsEntryOf, Lists, LayoutOk, Pipeline.CleanPath, S.HasEntry, IsItem;
    hide ListingTexts, FinishedMemory, IndexOk;
    RunTells(source, y, fs, sections, run);
    WrittenIsImportable(source, y, fs, sections, run);
    var e := Yielded(source, sections, es, s, m);
    Pipeline.EntriesAreShaped(source, run);
    BuildsIffCompatible(es);
    AllPathsValid(es);
    ItemEntry(source, s, m, e);
    S.MemoryServes(es, NamesOf(e));
    var store := FinishedMemory(AddAll(EMPTY_TREE, es).0);
    S.ServedHasEntry(es, e, S.WalkMemory(store, NamesOf(e)), id => store.GetNode(id));
  }

  lemma AllPathsValid(es: seq<ParsedEntry>)
    requires Pipeline.FittingPaths(es) && forall e :: e in es ==> Pipeline.CleanPath(e.path)
    ensures forall e :: e in es ==> ValidPath(e.path)
  {
    hide ValidPath, Pipeline.Fitting, Pipeline.CleanPath;
    forall e | e in es ensures ValidPath(e.path) {
      Pipeline.CleanPathIsValid(e.path);
    }
  }

  lemma ItemEntry(source: Source, s: Section, m: Meaning, e: ParsedEntry)
    requires ItemOk(source, m) && IsEntryOf(e, s.Path(), LineOf(source, m))
    ensures e.path == s.Path() + [m.name]
    ensures forall node: Node :: S.HasEntry(node, e) ==> IsItem(source, node, m)
  {
  }

  // ---------------------------------------------------------------- as bytes

  /** Lines ended by line feeds, with or without carriage returns. */
  function JoinLines(texts: seq<Text>, cr: bool): Text {
    if texts == [] then [] else texts[0] + (if cr then [CR] else []) + [LF] + JoinLines(texts[1..], cr)
  }

  /** Text that stays one line when it is so ended. */
  predicate OneLine(t: Text, cr: bool) {
    LF !in t && (cr || t == [] || t[|t| - 1] != CR)
  }

  predicate OneLineEach(texts: seq<Text>, cr: bool) {
    forall k :: 0 <= k < |texts| ==> OneLine(texts[k], cr)
  }

  lemma {:induction false} JoinedLines(texts: seq<Text>, cr: bool)
    requires OneLineEach(texts, cr)
    ensures B.TextLines(JoinLines(texts, cr)) == texts
  {
    hide B.TextLines;
    if texts == [] {
      NoLines();
    } else {
      JoinedLines(texts[1..], cr);
      B.TextLinesStep(texts[0], cr, JoinLines(texts[1..], cr));
    }
  }

  lemma NoLines()
    ensures B.TextLines([]) == []
  {
  }

  lemma {:induction false} NumberedTexts(texts: seq<Text>, number: LineNumber)
    ensures var lines := B.Numbered(texts, number);
      |lines| == |texts| && forall k :: 0 <= k < |texts| ==> lines[k].text == texts[k]
  {
    if texts != [] {
      NumberedTexts(texts[1..], number + 1);
    }
  }

  /** The bytes are the text in the codec's encoding, after a mark where there is one. */
  predicate Encodes(codec: B.UtfCodec, s: Bytes, text: Text) {
    && Encodable(text)
    && match codec
       case Utf8Codec =>
         s == EncodePoint(B.MARK) + Utf8Encode(text) || ((text == [] || text[0] != B.MARK) && s == Utf8Encode(text))
       case Utf16Codec(Fixed(order)) => s == Utf16Encode(order, text)
       case Utf16Codec(Detected) =>
         || s == UnitCode(Big, B.MARK) + Utf16Encode(Big, text)
         || s == UnitCode(Little, B.MARK) + Utf16Encode(Little, text)
  }

  lemma EncodesDecodes(codec: B.UtfCodec, s: Bytes, text: Text)
    requires Encodes(codec, s, text)
    ensures B.OrderKnown(codec, s) && B.WholeDecode(codec, s) == Decoded(text)
  {
    hide B.OrderKnown, B.WholeDecode, Utf8Encode, Utf16Encode, EncodePoint, UnitCode;
    match codec {
      case Utf8Codec =>
        B.EncodedTextDecodes(text, Big);
        OrderGiven(codec, s);
      case Utf16Codec(Fixed(order)) =>
        B.EncodedTextDecodes(text, order);
        OrderGiven(codec, s);
      case Utf16Codec(Detected) =>
        B.EncodedTextDecodes(text, Big);
        B.EncodedTextDecodes(text, Little);
    }
  }

  lemma OrderGiven(codec: B.UtfCodec, s: Bytes)
    requires codec != B.Utf16Codec(D.Detected)
    ensures B.OrderKnown(codec, s)
  {
  }

  /** Lines that are joined and encoded are the lines of the run. */
  lemma EncodedRuns(codec: B.UtfCodec, s: Bytes, limit: nat, texts: seq<Text>, cr: bool)
    requires texts != [] && OneLineEach(texts, cr) && Encodes(codec, s, JoinLines(texts, cr))
    requires B.LinesFit(codec, s, limit)
    ensures RunsTo(Pipeline.WholeRun(Pipeline.CharsetOf(codec), s, limit), texts)
  {
    hide B.OrderKnown, B.WholeDecode, B.LinesFit, B.StreamRun, B.TextLines, Encodes, OneLineEach;
    hide D.LineRun, D.Utf16Run, JoinLines;
    var text := JoinLines(texts, cr);
    EncodesDecodes(codec, s, text);
    JoinedLines(texts, cr);
    NoLines();
    B.LineByLineAgrees(codec, s, limit);
    NumberedTexts(texts, 1);
    SameRun(codec, s, limit, text);
  }

  lemma SameRun(codec: B.UtfCodec, s: Bytes, limit: nat, text: Text)
    requires B.OrderKnown(codec, s) && B.LinesFit(codec, s, limit) && B.WholeDecode(codec, s) == Decoded(text)
    ensures Pipeline.WholeRun(Pipeline.CharsetOf(codec), s, limit) == Pipeline.TextRun(s, text)
  {
    hide D.LineRun, D.Utf16Run, B.LinesFit;
    B.LineByLineAgrees(codec, s, limit);
    assert Pipeline.WholeRun(Pipeline.CharsetOf(codec), s, limit) == B.StreamRun(codec, s, limit);
  }

  /** A file system, written as a listing in any layout, with either line ending, and encoded
      in any Unicode encoding, is importable, and each item listed is served at its path. */
  lemma EncodedListingIsServed(source: Source, y: Layout, fs: FileSystem, sections: seq<Section>, cr: bool,
                               codec: B.UtfCodec, bytes: Bytes, limit: nat, s: Section, m: Meaning)
    requires Writable(source, y, fs, sections) && OneLineEach(ListingTexts(source, y, sections), cr)
    requires Encodes(codec, bytes, JoinLines(ListingTexts(source, y, sections), cr))
    requires B.LinesFit(codec, bytes, limit)
    requires s in sections && m in s.items
    ensures ValidPath(s.Path() + [m.name]) && IndexOk(EMPTY_TREE)
    ensures var run := Pipeline.WholeRun(Pipeline.CharsetOf(codec), bytes, limit);
      && Pipeline.Importable(source, run)
      && var store := FinishedMemory(AddAll(EMPTY_TREE, Pipeline.EntriesOf(source, run)).0);
      && store.Closed()
      && var found := S.WalkMemory(store, ItemNames(s, m));
      found.Some? && found.value in store.nodes && IsItem(source, store.nodes[found.value], m)
  {
    hide Encodes, B.LinesFit, Pipeline.WholeRun, Pipeline.Importable, SectionsTexts, JoinLines, IsItem, FinishedMemory;
    hide AddAll, IndexOk, Lists, Readable, SectionsOk, LayoutOk, NamesFit, OneLineEach, RunsTo;
    var texts := ListingTexts(source, y, sections);
    EncodedRuns(codec, bytes, limit, texts, cr);
    var run := Pipeline.WholeRun(Pipeline.CharsetOf(codec), bytes, limit);
    WrittenIsImportable(source, y, fs, sections, run);
    WrittenIsServed(source, y, fs, sections, run, s, m);
  }
}
