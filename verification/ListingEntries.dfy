/**
 What a complete listing says about a file system: exactly its sections' directories and
 their named entries, whatever the order of lines and ignored lines between them.
 */
module ListingEntries {
  import opened Core
  import opened Building
  import opened WindowsDirParser
  import opened ListingGrammar

  predicate IsHeaderOf(e: ParsedEntry, path: seq<Text>) {
    e.line.Some? && e.line.value >= 1 && CarriesHeader(e, path, e.line.value)
  }

  predicate IsEntryOf(e: ParsedEntry, path: seq<Text>, line: Line) {
    && line.Entry? && line.result.Named?
    && e.line.Some? && e.line.value >= 1 && CarriesEntry(e, path, line.result, e.line.value)
  }

  /** The section accounts for the entry. */
  ghost predicate Says(d: Doc, e: ParsedEntry) {
    IsHeaderOf(e, d.path) || exists line :: line in d.body && IsEntryOf(e, d.path, line)
  }

  ghost predicate HasHeader(es: seq<ParsedEntry>, path: seq<Text>) {
    exists e :: e in es && IsHeaderOf(e, path)
  }

  ghost predicate HasEntry(es: seq<ParsedEntry>, path: seq<Text>, line: Line) {
    exists e :: e in es && IsEntryOf(e, path, line)
  }

  /** All that the section says is among the entries. */
  ghost predicate AllSaid(es: seq<ParsedEntry>, d: Doc) {
    && HasHeader(es, d.path)
    && forall line :: line in d.body && line.Entry? && line.result.Named? ==> HasEntry(es, d.path, line)
  }

  ghost predicate SaidBySome(docs: seq<Doc>, e: ParsedEntry) {
    exists d :: d in docs && Says(d, e)
  }

  /** The entries are exactly what the sections say. */
  ghost predicate Told(es: seq<ParsedEntry>, docs: seq<Doc>) {
    && (forall e :: e in es ==> SaidBySome(docs, e))
    && (forall d :: d in docs ==> AllSaid(es, d))
  }

  lemma MoreEntries(es: seq<ParsedEntry>, e: ParsedEntry, d: Doc)
    requires AllSaid(es, d)
    ensures AllSaid(es + [e], d)
  {
    hide CarriesHeader, CarriesEntry, IsHeaderOf, IsEntryOf;
    var h :| h in es && IsHeaderOf(h, d.path);
    assert h in es + [e];
    forall line | line in d.body && line.Entry? && line.result.Named? ensures HasEntry(es + [e], d.path, line) {
      assert HasEntry(es, d.path, line);
      var x :| x in es && IsEntryOf(x, d.path, line);
      assert x in es + [e];
    }
  }

  /** A new section, of which only the header has been read. */
  lemma ToldHeader(es: seq<ParsedEntry>, docs: seq<Doc>, e: ParsedEntry, path: seq<Text>)
    requires Told(es, docs) && IsHeaderOf(e, path)
    ensures Told(es + [e], docs + [Doc(path, [])])
  {
    hide IsHeaderOf, IsEntryOf, AllSaid, Says;
    var d := Doc(path, []);
    assert d in docs + [d] && Says(d, e) by {
      SaysHeader(d, e);
    }
    forall x | x in es + [e] ensures SaidBySome(docs + [d], x) {
      if x in es {
        assert SaidBySome(docs, x);
        var c :| c in docs && Says(c, x);
        assert c in docs + [d];
      }
    }
    forall c | c in docs + [d] ensures AllSaid(es + [e], c) {
      if c in docs {
        MoreEntries(es, e, c);
      } else {
        OnlyHeaderSaid(es + [e], e, path);
      }
    }
  }

  lemma SaysHeader(d: Doc, e: ParsedEntry)
    requires IsHeaderOf(e, d.path)
    ensures Says(d, e)
  {
  }

  lemma OnlyHeaderSaid(es: seq<ParsedEntry>, e: ParsedEntry, path: seq<Text>)
    requires e in es && IsHeaderOf(e, path)
    ensures AllSaid(es, Doc(path, []))
  {
    hide IsHeaderOf;
  }

  /** One more line in the last section's body, with its entry if it has one. */
  lemma ToldLine(es: seq<ParsedEntry>, more: seq<ParsedEntry>, docs: seq<Doc>, d: Doc, line: Line)
    requires Told(es, docs + [d])
    requires if line.Entry? && line.result.Named? then |more| == 1 && IsEntryOf(more[0], d.path, line) else more == []
    ensures Told(es + more, docs + [d.(body := d.body + [line])])
  {
    hide IsHeaderOf, IsEntryOf;
    var d' := d.(body := d.body + [line]);
    forall x | x in es + more ensures SaidBySome(docs + [d'], x) {
      if x in es {
        assert SaidBySome(docs + [d], x);
        var c :| c in docs + [d] && Says(c, x);
        if c in docs {
          assert c in docs + [d'];
        } else {
          SaysMore(d, line, x);
          assert d' in docs + [d'];
        }
      } else {
        assert line in d'.body && d' in docs + [d'];
      }
    }
    forall c | c in docs + [d'] ensures AllSaid(es + more, c) {
      assert es + [] == es;
      if c in docs {
        assert c in docs + [d];
        if more != [] {
          MoreEntries(es, more[0], c);
          assert more == [more[0]];
        }
      } else {
        assert d in docs + [d];
        LineSaid(es, more, d, line);
      }
    }
  }

  lemma SaysMore(d: Doc, line: Line, e: ParsedEntry)
    requires Says(d, e)
    ensures Says(d.(body := d.body + [line]), e)
  {
    hide IsHeaderOf, IsEntryOf;
    if !IsHeaderOf(e, d.path) {
      var l :| l in d.body && IsEntryOf(e, d.path, l);
      assert l in d.body + [line];
    }
  }

  lemma LineSaid(es: seq<ParsedEntry>, more: seq<ParsedEntry>, d: Doc, line: Line)
    requires AllSaid(es, d)
    requires if line.Entry? && line.result.Named? then |more| == 1 && IsEntryOf(more[0], d.path, line) else more == []
    ensures AllSaid(es + more, d.(body := d.body + [line]))
  {
    hide IsHeaderOf, IsEntryOf;
    var d' := d.(body := d.body + [line]);
    var h :| h in es && IsHeaderOf(h, d.path);
    assert h in es + more;
    forall l | l in d'.body && l.Entry? && l.result.Named? ensures HasEntry(es + more, d.path, l) {
      if l in d.body {
        assert HasEntry(es, d.path, l);
        var x :| x in es && IsEntryOf(x, d.path, l);
        assert x in es + more;
      } else {
        assert more[0] in es + more;
      }
    }
  }

  // --------------------------------------------------------------- whole runs

  /** The sections that have been read, the one being read included. */
  function DocsIn(p: Partial): seq<Doc> {
    p.done + if InDoc(p) then [p.doc] else []
  }

  lemma ClosingDocs(p: Partial)
    requires Closing(p).Some?
    ensures Closing(p).value == DocsIn(p)
  {
    hide FilesIn, BytesIn;
  }

  /** Lines that neither open a section nor stand in a body change nothing. */
  lemma OtherLines(p: Partial, line: Line)
    requires Next(p, line).Some? && !line.Header? && !line.NoFiles? && !line.Entry?
    ensures DocsIn(Next(p, line).value) == DocsIn(p)
  {
    hide FilesIn, BytesIn, AllFiles, AllBytes;
  }

  lemma BodyLines(p: Partial, line: Line)
    requires Next(p, line).Some? && (line.NoFiles? || line.Entry?)
    ensures p.InBody? && DocsIn(p) == p.done + [p.doc]
    ensures DocsIn(Next(p, line).value) == p.done + [p.doc.(body := p.doc.body + [line])]
  {
    hide FilesIn, BytesIn, AllFiles, AllBytes;
    if line.NoFiles? {
      assert p.doc.body + [line] == [NoFiles];
    }
  }

  lemma NextTold(es: seq<ParsedEntry>, more: seq<ParsedEntry>, p: Partial, line: Line)
    requires Told(es, DocsIn(p)) && Next(p, line).Some?
    requires line.Header? ==> |more| == 1 && IsHeaderOf(more[0], line.path)
    requires line.Entry? && line.result.Named? ==> |more| == 1 && p.InBody? && IsEntryOf(more[0], p.doc.path, line)
    requires !line.Header? && !(line.Entry? && line.result.Named?) ==> more == []
    ensures Told(es + more, DocsIn(Next(p, line).value))
  {
    hide Told, Next, DocsIn, IsHeaderOf, IsEntryOf;
    assert es + [] == es;
    if line.Header? {
      HeaderDocs(p, line);
      ToldHeader(es, DocsIn(p), more[0], line.path);
      assert more == [more[0]];
    } else if line.NoFiles? || line.Entry? {
      BodyLines(p, line);
      ToldLine(es, more, p.done, p.doc, line);
    } else {
      OtherLines(p, line);
    }
  }

  lemma HeaderDocs(p: Partial, line: Line)
    requires Next(p, line).Some? && line.Header?
    ensures DocsIn(Next(p, line).value) == DocsIn(p) + [Doc(line.path, [])]
  {
    ClosingDocs(p);
  }

  /** As far as an error-free listing has got, the run has yielded exactly what it says. */
  lemma {:induction false} RunTells(numbered: seq<Numbered>)
    requires WellformedLines(numbered) && Advance(NO_LINES, LinesOf(numbered)).Some?
    ensures Told(After(numbered).emits, DocsIn(Advance(NO_LINES, LinesOf(numbered)).value))
  {
    hide Step, Matches, LinesTo, YieldsAs, Told, DocsIn;
    if numbered == [] {
      NothingTold();
    } else {
      var front, last := numbered[..|numbered| - 1], numbered[|numbered| - 1];
      assert LinesOf(numbered)[..|numbered| - 1] == LinesOf(front);
      assert LinesOf(numbered)[|numbered| - 1] == last.line;
      RunTells(front);
      RunFollows(front);
      var p := Advance(NO_LINES, LinesOf(front)).value;
      var before := After(front);
      StepYields(before.state, last.number, last.line);
      AcceptedYields(before.state, p, last.number, last.line);
      NextTold(before.emits, Step(before.state, last.number, last.line).emits, p, last.line);
    }
  }

  lemma NothingTold()
    ensures Told([], DocsIn(NO_LINES))
  {
  }

  /** A complete listing yields exactly what its sections say. */
  lemma CompleteListingTells(numbered: seq<Numbered>, docs: seq<Doc>)
    requires WellformedLines(numbered) && GoodDocs(docs) && Meaningful(LinesOf(numbered)) == ListingLines(docs)
    ensures Told(After(numbered).emits, docs)
  {
    hide Told, GoodDocs, ListingLines;
    AdvanceListing(docs);
    AdvanceMeaningful(NO_LINES, LinesOf(numbered));
    RunTells(numbered);
    assert DocsIn(Finished(docs)) == docs;
  }
}
