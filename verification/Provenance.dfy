/**
 Which observation a node speaks for, after any series of entries: the first of its path that
 is not a section header, or else the first header.
 */
module Provenance {
  import opened Core
  import opened Unicode
  import opened Building
  import opened Tree
  import opened PathMaps
  import opened Compatibility

  /** Entry `k` is the one that the node at `p` takes everything from. */
  ghost predicate IsSource(es: seq<ParsedEntry>, p: seq<Bytes>, k: nat) {
    && k < |es| && NamesOf(es[k]) == p
    && forall j :: 0 <= j < |es| && NamesOf(es[j]) == p && j != k ==>
         if es[k].observation.SectionHeader? then es[j].observation.SectionHeader? && k < j
         else es[j].observation.SectionHeader? || k < j
  }

  /** The node says what an entry says. */
  predicate SpeaksFor(r: NodeRecord, e: ParsedEntry) {
    && r.kind == e.kind && r.size == e.size && r.modified == e.modified && r.content == e.content
    && r.line == e.line && r.metadata == e.metadata && r.observation == Some(e.observation)
    && r.originalPath == Some(JoinText(e.path))
  }

  /** The node was made only because something lies below it. */
  predicate SpeaksForNone(r: NodeRecord) {
    && r.kind.Directory? && r.size.None? && r.modified.None? && r.content.None?
    && r.line.None? && r.metadata.NoMetadata? && r.observation.None?
  }

  ghost predicate Sourced(r: NodeRecord, p: seq<Bytes>, es: seq<ParsedEntry>) {
    if exists k: nat :: IsSource(es, p, k) then exists k: nat :: IsSource(es, p, k) && SpeaksFor(r, es[k])
    else SpeaksForNone(r)
  }

  ghost predicate TreeSourced(t: TreeState, es: seq<ParsedEntry>) {
    TreeOk(t) && forall id :: id in t.nodes ==> Sourced(t.nodes[id], PathOf(t.nodes, id), es)
  }

  /** There is at most one source, and there is one as soon as the path was observed. */
  lemma SourceUnique(es: seq<ParsedEntry>, p: seq<Bytes>, j: nat, k: nat)
    requires IsSource(es, p, j) && IsSource(es, p, k)
    ensures j == k
  {
  }

  lemma {:induction false} SourceExists(es: seq<ParsedEntry>, p: seq<Bytes>)
    ensures (exists k: nat :: IsSource(es, p, k)) <==> exists k :: 0 <= k < |es| && NamesOf(es[k]) == p
  {
    if k :| 0 <= k < |es| && NamesOf(es[k]) == p {
      var front, e := es[..|es| - 1], es[|es| - 1];
      assert es == front + [e];
      if NamesOf(e) != p {
        assert front[k] == es[k];
      }
      SourceExists(front, p);
      if j: nat :| IsSource(front, p, j) {
        SourceGrows(front, p, j, e);
      } else {
        assert forall j :: 0 <= j < |front| ==> NamesOf(front[j]) != p;
        FirstSource(front, p, e);
      }
    }
  }

  /** One more entry: it takes over from a header if it is none itself. */
  lemma SourceGrows(es: seq<ParsedEntry>, p: seq<Bytes>, k: nat, e: ParsedEntry)
    requires IsSource(es, p, k)
    ensures IsSource(es + [e], p,
      if NamesOf(e) == p && es[k].observation.SectionHeader? && !e.observation.SectionHeader? then |es| else k)
  {
  }

  lemma FirstSource(es: seq<ParsedEntry>, p: seq<Bytes>, e: ParsedEntry)
    requires NamesOf(e) == p && forall j :: 0 <= j < |es| ==> NamesOf(es[j]) != p
    ensures IsSource(es + [e], p, |es|)
  {
  }

  // ---------------------------------------------------------------- one call

  /** What a successful call leaves of each node: the one at the entry's path merged with it,
      a new one above it unobserved, any other as it was. */
  ghost predicate RecordsAfter(t: TreeState, t': TreeState, names: seq<Bytes>, e: ParsedEntry) {
    && TreeOk(t) && TreeOk(t')
    && (forall id :: id in t'.nodes ==> RecordAfter(t, t', names, e, id))
    && (forall id :: id in t.nodes ==> id in t'.nodes)
  }

  ghost predicate RecordAfter(t: TreeState, t': TreeState, names: seq<Bytes>, e: ParsedEntry, id: nat)
    requires TreeOk(t) && TreeOk(t') && id in t'.nodes
  {
    && (id in t.nodes ==> PathOf(t'.nodes, id) == PathOf(t.nodes, id))
    && if PathOf(t'.nodes, id) == names then
         if id in t.nodes then t.nodes[id].kind == e.kind && Merged(t.nodes[id], e) == Success(t'.nodes[id])
         else SpeaksFor(t'.nodes[id], e)
       else if id in t.nodes then t'.nodes[id] == t.nodes[id]
       else SpeaksForNone(t'.nodes[id])
  }

  lemma EnteredNode(t: TreeState, e: ParsedEntry, names: seq<Bytes>, i: nat, parent: nat)
    requires Reached(t, e, names, i, parent) && i < |names|
    ensures var (t', id, error) := Enter(t, e, names, i, parent);
      && (id !in t.nodes ==> error.None? && id in t'.nodes && t'.nodes[id].observation.None?)
      && (id !in t.nodes && i < |names| - 1 ==> SpeaksForNone(t'.nodes[id]))
      && (id in t.nodes ==> t' == t)
      && forall k :: k in t'.nodes ==> k in t.nodes || k == id
  {
    hide JoinText, Conflict, NodeOk, Linked, IndexInverse;
    TreeIsIndexed(t);
    if names[i] in ChildrenOf(t, parent) {
      assert ChildrenOf(t, parent)[names[i]] in t.nodes;
    }
  }

  /** The last component. */
  lemma MergeRecords(t: TreeState, t1: TreeState, e: ParsedEntry, names: seq<Bytes>, id: nat)
    requires TreeOk(t) && TreeOk(t1) && id in t1.nodes && id != 1
    requires e.Wellformed() && ValidPath(e.path) && names == MountedNames(e.path)
    requires PathOf(t1.nodes, id) == names && t1.nodes[id].kind == e.kind
    requires forall k :: k in t.nodes ==>
      k in t1.nodes && t1.nodes[k] == t.nodes[k] && PathOf(t1.nodes, k) == PathOf(t.nodes, k)
    requires forall k :: k in t1.nodes ==> k in t.nodes || k == id
    requires id !in t.nodes ==> t1.nodes[id].observation.None?
    requires Merged(t1.nodes[id], e).Success?
    ensures RecordsAfter(t, t1.(nodes := t1.nodes[id := Merged(t1.nodes[id], e).value]), names, e)
  {
    hide NodeOk, IndexInverse, Linked, Tree.Numbered, JoinText, Conflict;
    var t' := t1.(nodes := t1.nodes[id := Merged(t1.nodes[id], e).value]);
    AppliedKeeps(t1, e, names, id);
    forall k | k in t'.nodes ensures RecordAfter(t, t', names, e, k) {
      if k != id && PathOf(t'.nodes, k) == names {
        PathInjective(t', k, id);
      }
    }
  }

  lemma {:induction false} AddFromRecords(t: TreeState, e: ParsedEntry, names: seq<Bytes>, i: nat, parent: nat)
    requires Reached(t, e, names, i, parent) && i < |names|
    requires IndexOk(t) && AddFrom(t, e, names, i, parent).1.None?
    ensures RecordsAfter(t, AddFrom(t, e, names, i, parent).0, names, e)
    decreases |names| - i
  {
    hide TreeOk, Enter, Merged, IndexOk, SpeaksFor, SpeaksForNone;
    EnterKeeps(t, e, names, i, parent);
    EnteredNode(t, e, names, i, parent);
    EnterKeepsIndex(t, e, names, i, parent);
    var (t1, id, error) := Enter(t, e, names, i, parent);
    if i < |names| - 1 {
      AddFromRecords(t1, e, names, i + 1, id);
      var t' := AddFrom(t1, e, names, i + 1, id).0;
      forall k | k in t'.nodes ensures RecordAfter(t, t', names, e, k) {
        assert RecordAfter(t1, t', names, e, k);
      }
    } else {
      assert names[..i + 1] == names;
      MergeRecords(t, t1, e, names, id);
    }
  }

  lemma AddRecords(t: TreeState, e: ParsedEntry)
    requires TreeOk(t) && e.Wellformed()
    ensures IndexOk(t)
    ensures Add(t, e).1.None? ==> ValidPath(e.path) && RecordsAfter(t, Add(t, e).0, NamesOf(e), e)
  {
    TreeIsIndexed(t);
    if ValidPath(e.path) && Add(t, e).1.None? {
      StartReached(t, e);
      AddFromRecords(t, e, MountedNames(e.path), 0, 1);
    }
  }

  // ----------------------------------------------------------- whole series

  lemma MergedSpeaks(es: seq<ParsedEntry>, p: seq<Bytes>, e: ParsedEntry, before: NodeRecord, after: NodeRecord)
    requires Sourced(before, p, es) && NamesOf(e) == p && before.kind == e.kind
    requires e.ParserShaped() && forall x :: x in es ==> x.ParserShaped()
    requires Merged(before, e) == Success(after)
    ensures Sourced(after, p, es + [e])
  {
    hide NamesOf, JoinText, Conflict;
    if exists k: nat :: IsSource(es, p, k) {
      var k: nat :| IsSource(es, p, k) && SpeaksFor(before, es[k]);
      SourceGrows(es, p, k, e);
      assert es[k] in es;
    } else {
      SourceExists(es, p);
      FirstSource(es, p, e);
      assert IsSource(es + [e], p, |es|) && SpeaksFor(after, (es + [e])[|es|]);
    }
  }

  lemma StaysSourced(es: seq<ParsedEntry>, p: seq<Bytes>, e: ParsedEntry, r: NodeRecord)
    requires Sourced(r, p, es) && NamesOf(e) != p
    ensures Sourced(r, p, es + [e])
  {
    hide SpeaksFor, SpeaksForNone;
    SourceExists(es, p);
    SourceExists(es + [e], p);
    if exists k: nat :: IsSource(es, p, k) {
      var k: nat :| IsSource(es, p, k) && SpeaksFor(r, es[k]);
      SourceGrows(es, p, k, e);
      assert (es + [e])[k] == es[k];
    }
  }

  /** Nothing was observed at a path that no node has. */
  lemma NewPathUnobserved(t: TreeState, es: seq<ParsedEntry>, p: seq<Bytes>)
    requires TreeOk(t) && Describes(Abs(t), SetOf(es)) && forall id :: id in t.nodes ==> PathOf(t.nodes, id) != p
    ensures forall k :: 0 <= k < |es| ==> NamesOf(es[k]) != p
  {
    hide TreeOk;
    if p in Abs(t) {
      var id := NodeAt(t, p);
    }
    DescribesNothingNew(Abs(t), SetOf(es), p);
    forall k | 0 <= k < |es| ensures NamesOf(es[k]) != p {
      assert es[k] in SetOf(es);
    }
  }

  lemma AddSourced(t: TreeState, es: seq<ParsedEntry>, e: ParsedEntry)
    requires TreeSourced(t, es) && BuiltFrom(t, SetOf(es)) && AllShaped(es) && e.ParserShaped()
    requires IndexOk(t) && Add(t, e).1.None?
    ensures TreeSourced(Add(t, e).0, es + [e])
  {
    hide NodeOk, IndexInverse, Linked, Tree.Numbered, Sourced, Add, Describes, SpeaksFor, SpeaksForNone, Abs, IndexOk;
    var t' := Add(t, e).0;
    AddRecords(t, e);
    forall id | id in t'.nodes ensures Sourced(t'.nodes[id], PathOf(t'.nodes, id), es + [e]) {
      assert RecordAfter(t, t', NamesOf(e), e, id);
      if id in t.nodes {
        KeptSourced(t, t', es, e, id);
      } else {
        NewSourced(t, t', es, e, id);
      }
    }
  }

  lemma KeptSourced(t: TreeState, t': TreeState, es: seq<ParsedEntry>, e: ParsedEntry, id: nat)
    requires TreeSourced(t, es) && AllShaped(es) && e.ParserShaped() && ValidPath(e.path)
    requires TreeOk(t') && id in t.nodes && id in t'.nodes && RecordAfter(t, t', NamesOf(e), e, id)
    ensures Sourced(t'.nodes[id], PathOf(t'.nodes, id), es + [e])
  {
    hide NodeOk, IndexInverse, Linked, Tree.Numbered, Sourced, Merged, NamesOf;
    var p := PathOf(t'.nodes, id);
    if p == NamesOf(e) {
      MergedSpeaks(es, p, e, t.nodes[id], t'.nodes[id]);
    } else {
      StaysSourced(es, p, e, t.nodes[id]);
    }
  }

  lemma NewSourced(t: TreeState, t': TreeState, es: seq<ParsedEntry>, e: ParsedEntry, id: nat)
    requires BuiltFrom(t, SetOf(es)) && TreeOk(t') && id in t'.nodes && id !in t.nodes
    requires RecordsAfter(t, t', NamesOf(e), e)
    ensures Sourced(t'.nodes[id], PathOf(t'.nodes, id), es + [e])
  {
    hide NodeOk, IndexInverse, Linked, Tree.Numbered, Describes, SpeaksFor, SpeaksForNone, NamesOf, IsSource, Abs;
    var p := PathOf(t'.nodes, id);
    assert RecordAfter(t, t', NamesOf(e), e, id);
    forall k | k in t.nodes ensures PathOf(t.nodes, k) != p {
      assert RecordAfter(t, t', NamesOf(e), e, k);
      if PathOf(t.nodes, k) == p {
        PathInjective(t', k, id);
      }
    }
    NewPathUnobserved(t, es, p);
    if p == NamesOf(e) {
      FirstSource(es, p, e);
      assert (es + [e])[|es|] == e;
    } else {
      SourceExists(es + [e], p);
    }
  }

  lemma {:induction false} AddAllSourced(t: TreeState, done: seq<ParsedEntry>, es: seq<ParsedEntry>)
    requires TreeSourced(t, done) && BuiltFrom(t, SetOf(done)) && AllShaped(done + es)
    requires IndexOk(t) && AddAll(t, es).1.None?
    ensures TreeSourced(AddAll(t, es).0, done + es)
    decreases |es|
  {
    hide TreeSourced, Add, BuiltFrom, IndexOk;
    if es == [] {
      assert done + es == done;
    } else {
      var e := es[0];
      assert e in done + es && forall x :: x in done ==> x in done + es;
      AddSourced(t, done, e);
      AddStep(t, SetOf(done), e);
      assert SetOf(done + [e]) == SetOf(done) + {e};
      assert done + es == done + [e] + es[1..];
      AddKeepsIndex(t, e);
      AddAllSourced(Add(t, e).0, done + [e], es[1..]);
    }
  }

  /** After any series that builds, each node below the root speaks for its one source, in
      every field: kind, size, time, content, line, metadata and spelling of the path. */
  lemma BuiltIsSourced(es: seq<ParsedEntry>)
    requires AllShaped(es)
    ensures IndexOk(EMPTY_TREE)
    ensures AddAll(EMPTY_TREE, es).1.None? ==> TreeSourced(AddAll(EMPTY_TREE, es).0, es)
  {
    hide AddAll, TreeOk;
    EmptyTreeDescribes();
    BuildsIffCompatible(es);
    if AddAll(EMPTY_TREE, es).1.None? {
      EmptyTreeSourced();
      assert SetOf([]) == {};
      assert [] + es == es;
      AddAllSourced(EMPTY_TREE, [], es);
    }
  }

  lemma EmptyTreeSourced()
    ensures TreeSourced(EMPTY_TREE, [])
  {
    EmptyTreeOk();
  }

  // --------------------------------------------------------------- conflicts

  /** Every path that was observed has a node. */
  ghost predicate AllEntered(t: TreeState, es: seq<ParsedEntry>)
    requires TreeOk(t)
  {
    forall k :: 0 <= k < |es| ==> EnteredAt(t, NamesOf(es[k]))
  }

  ghost predicate EnteredAt(t: TreeState, p: seq<Bytes>)
    requires TreeOk(t)
  {
    exists id :: id in t.nodes && PathOf(t.nodes, id) == p
  }

  /** How an observation is located: by its line, or else by its path. */
  function LocationOf(e: ParsedEntry): Location {
    if e.line.Some? then AtLine(e.line.value) else AtPath(JoinText(e.path))
  }

  /** The location that a conflict names for a path: that of its source, or none. */
  ghost predicate Locates(location: Location, es: seq<ParsedEntry>, p: seq<Bytes>) {
    if exists k: nat :: IsSource(es, p, k) then exists k: nat :: IsSource(es, p, k) && location == LocationOf(es[k])
    else location.Synthesized?
  }

  /** A conflict names the new entry and the source of what it contradicts: something above
      its path that is no directory, or what is at its path already. */
  ghost predicate Contradicts(error: BuildError, es: seq<ParsedEntry>, e: ParsedEntry, names: seq<Bytes>) {
    && error.EntryConflict? && error.line == e.line && error.incoming == LocationOf(e)
    && exists n: nat :: n <= |names| && ContradictsAt(error, es, e, names, n)
  }

  ghost predicate ContradictsAt(error: BuildError, es: seq<ParsedEntry>, e: ParsedEntry, names: seq<Bytes>, n: nat)
    requires error.EntryConflict? && n <= |names|
  {
    && Locates(error.existing, es, names[..n])
    && (n < |names| ==> error.reason.KindConflict?)
    && (error.reason.FileMetadataConflict? ==> e.kind.File?)
    && (error.reason.DirectoryMetadataConflict? ==> e.kind.Directory?)
  }

  lemma ConflictLocates(r: NodeRecord, p: seq<Bytes>, es: seq<ParsedEntry>, e: ParsedEntry, reason: ConflictReason)
    requires Sourced(r, p, es)
    ensures Locates(Conflict(r, e, reason).existing, es, p)
  {
    hide IsSource, JoinText;
    if exists k: nat :: IsSource(es, p, k) {
      SourceInRange(es, p);
      var k: nat :| IsSource(es, p, k) && k < |es| && SpeaksFor(r, es[k]);
      assert Conflict(r, e, reason).existing == LocationOf(es[k]);
    }
  }

  lemma SourceInRange(es: seq<ParsedEntry>, p: seq<Bytes>)
    ensures forall k: nat :: IsSource(es, p, k) ==> k < |es|
  {
  }

  /** Entering a directory on the way keeps every node true to its source. */
  lemma EnterSourced(t: TreeState, es: seq<ParsedEntry>, e: ParsedEntry, names: seq<Bytes>, i: nat, parent: nat)
    requires Reached(t, e, names, i, parent) && i < |names| - 1
    requires TreeSourced(t, es) && AllEntered(t, es)
    ensures var t' := Enter(t, e, names, i, parent).0; TreeSourced(t', es) && AllEntered(t', es)
  {
    hide NodeOk, IndexInverse, Linked, Tree.Numbered, Sourced, Enter, SpeaksForNone;
    TreeIsIndexed(t);
    var (t', id, error) := Enter(t, e, names, i, parent);
    EnterKeeps(t, e, names, i, parent);
    EnteredNode(t, e, names, i, parent);
    forall k | 0 <= k < |es| ensures EnteredAt(t', NamesOf(es[k])) {
      assert EnteredAt(t, NamesOf(es[k]));
      var j :| j in t.nodes && PathOf(t.nodes, j) == NamesOf(es[k]);
    }
    forall j | j in t'.nodes ensures Sourced(t'.nodes[j], PathOf(t'.nodes, j), es) {
      if j !in t.nodes {
        forall k | 0 <= k < |es| ensures NamesOf(es[k]) != PathOf(t'.nodes, j) {
          assert EnteredAt(t, NamesOf(es[k]));
          var other :| other in t.nodes && PathOf(t.nodes, other) == NamesOf(es[k]);
          if NamesOf(es[k]) == PathOf(t'.nodes, j) {
            PathInjective(t', other, j);
          }
        }
        UnobservedSourced(t'.nodes[j], PathOf(t'.nodes, j), es);
      }
    }
  }

  lemma UnobservedSourced(r: NodeRecord, p: seq<Bytes>, es: seq<ParsedEntry>)
    requires SpeaksForNone(r) && forall k :: 0 <= k < |es| ==> NamesOf(es[k]) != p
    ensures Sourced(r, p, es)
  {
    hide SpeaksForNone;
    SourceExists(es, p);
  }

  /** What the last two steps of a call raise. */
  lemma EnterContradicts(t: TreeState, es: seq<ParsedEntry>, e: ParsedEntry, names: seq<Bytes>, i: nat, parent: nat)
    requires Reached(t, e, names, i, parent) && i < |names| && TreeSourced(t, es)
    requires Enter(t, e, names, i, parent).2.Some?
    ensures Contradicts(Enter(t, e, names, i, parent).2.value, es, e, names)
  {
    hide NodeOk, IndexInverse, Linked, Tree.Numbered, Sourced, JoinText, Locates;
    TreeIsIndexed(t);
    EnterKeeps(t, e, names, i, parent);
    var id := Enter(t, e, names, i, parent).1;
    ConflictLocates(t.nodes[id], PathOf(t.nodes, id), es, e, KindConflict);
    assert ContradictsAt(Conflict(t.nodes[id], e, KindConflict), es, e, names, i + 1);
  }

  lemma MergeContradicts(t: TreeState, es: seq<ParsedEntry>, e: ParsedEntry, names: seq<Bytes>, id: nat)
    requires TreeSourced(t, es) && id in t.nodes && PathOf(t.nodes, id) == names && t.nodes[id].kind == e.kind
    requires Merged(t.nodes[id], e).Failure?
    ensures Contradicts(Merged(t.nodes[id], e).error, es, e, names)
  {
    hide TreeOk, Sourced, JoinText, Locates;
    var reason := if e.kind.File? then FileMetadataConflict else DirectoryMetadataConflict;
    ConflictLocates(t.nodes[id], names, es, e, reason);
    assert names[..|names|] == names;
    assert ContradictsAt(Merged(t.nodes[id], e).error, es, e, names, |names|);
  }

  lemma {:induction false} AddFromContradicts(t: TreeState, es: seq<ParsedEntry>, e: ParsedEntry, names: seq<Bytes>,
                                              i: nat, parent: nat)
    requires Reached(t, e, names, i, parent) && i < |names|
    requires TreeSourced(t, es) && AllEntered(t, es) && IndexOk(t)
    requires AddFrom(t, e, names, i, parent).1.Some?
    ensures Contradicts(AddFrom(t, e, names, i, parent).1.value, es, e, names)
    decreases |names| - i
  {
    hide TreeOk, Enter, Merged, IndexOk, TreeSourced, AllEntered, Contradicts, SpeaksForNone;
    EnterKeeps(t, e, names, i, parent);
    EnteredNode(t, e, names, i, parent);
    EnterKeepsIndex(t, e, names, i, parent);
    var (t1, id, error) := Enter(t, e, names, i, parent);
    if error.Some? {
      EnterContradicts(t, es, e, names, i, parent);
    } else if i < |names| - 1 {
      EnterSourced(t, es, e, names, i, parent);
      AddFromContradicts(t1, es, e, names, i + 1, id);
    } else {
      assert names[..i + 1] == names;
      NewMerges(t1.nodes[id], e);
      MergeContradicts(t, es, e, names, id);
    }
  }

  lemma NewMerges(r: NodeRecord, e: ParsedEntry)
    ensures r.observation.None? ==> Merged(r, e).Success?
  {
  }

  /** When an entry with a usable path is refused, after any series that has built, the error
      names the entry and the observation that it contradicts. */
  lemma ConflictTells(es: seq<ParsedEntry>, e: ParsedEntry)
    requires AllShaped(es) && e.ParserShaped() && ValidPath(e.path)
    requires IndexOk(EMPTY_TREE) && AddAll(EMPTY_TREE, es).1.None?
    ensures IndexOk(AddAll(EMPTY_TREE, es).0)
    ensures var error := Add(AddAll(EMPTY_TREE, es).0, e).1;
      error.Some? ==> Contradicts(error.value, es, e, NamesOf(e))
  {
    hide AddAll, TreeSourced, AllEntered, Contradicts, AddFrom;
    var t := AddAll(EMPTY_TREE, es).0;
    BuildsIffCompatible(es);
    BuiltIsSourced(es);
    BuiltEntered(t, es);
    TreeIsIndexed(t);
    StartReached(t, e);
    if Add(t, e).1.Some? {
      AddFromContradicts(t, es, e, MountedNames(e.path), 0, 1);
    }
  }

  lemma BuiltEntered(t: TreeState, es: seq<ParsedEntry>)
    requires TreeOk(t) && Describes(Abs(t), SetOf(es))
    ensures AllEntered(t, es)
  {
    hide TreeOk, InfoDescribes, NamesOf;
    forall k | 0 <= k < |es| ensures EnteredAt(t, NamesOf(es[k])) {
      assert es[k] in SetOf(es) && Covers(es[k], NamesOf(es[k]));
      var id := NodeAt(t, NamesOf(es[k]));
    }
  }
}
