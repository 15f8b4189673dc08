/**
 From entries to answers: after a series that builds, looking up the names of a path one
 after the other finds a node exactly when the entries make the path exist, and the node
 carries what they said of it, in memory and in SQLite alike.
 */
module ServedEntries {
  import opened Core
  import opened Unicode
  import opened Building
  import opened Tree
  import opened PathMaps
  import opened Compatibility
  import opened Provenance
  import opened Ordering
  import opened Stores
  import I = ImportService
  import Diagnostics

  // ------------------------------------------------------------ single queries

  /** The identifiers of a store are 1 to `count`, and `iter_nodes` gives every node once, in
      their order. */
  ghost predicate GivesAll(nodes: seq<Node>, get: int -> Result<Node, QueryError>) {
    && (forall id: int :: 1 <= id <= |nodes| && Fits64(id) ==> get(id) == Success(nodes[id - 1]))
    && (forall id: int :: !(1 <= id <= |nodes|) ==> get(id).Failure?)
    && (forall k :: 0 <= k < |nodes| ==> nodes[k].id == k + 1)
  }

  lemma IterNodesGivesAll(t: TreeState)
    requires TreeOk(t)
    ensures (forall k :: 0 <= k < |t.order| ==> t.order[k] in t.nodes) && FinishedMemory(t).Closed()
    ensures var mem, sql := FinishedMemory(t), SqliteStore(FinishedTable(t));
      && GivesAll(mem.IterNodes(), id => mem.GetNode(id))
      && GivesAll(sql.IterNodes(), id => sql.GetNode(id))
  {
    hide FinishedNode;
    FinishedShape(t);
    var mem, sql := FinishedMemory(t), SqliteStore(FinishedTable(t));
    OrderByIdKeeps(sql.rows);
    forall k | 0 <= k < |t.order| ensures mem.IterNodes()[k] == mem.nodes[k + 1] && mem.nodes[k + 1].id == k + 1 {
      assert FinishedTable(t)[k].node == mem.nodes[k + 1];
    }
    forall id: int ensures SelectById(sql.rows, id).Some? <==> 1 <= id <= |sql.rows| {
      SameGetNode(t, id);
    }
    forall id: int | 1 <= id <= |sql.rows| ensures SelectById(sql.rows, id) == Some(sql.rows[id - 1]) {
      SelectByIdFinds(sql.rows, id);
    }
  }

  /** What `iter_children` must give for a node: its children, each once, by name. */
  ghost predicate GivesChildren(found: seq<Node>, parent: int, all: seq<Node>) {
    && (forall node :: node in found <==> node in all && node.parent.Some? && node.parent.value == parent)
    && forall i, j :: 0 <= i < j < |found| ==> Less(found[i].name, found[j].name)
  }

  lemma IterChildrenGivesChildren(t: TreeState, parent: nat)
    requires TreeOk(t) && parent in t.nodes && Fits64(parent)
    ensures (forall k :: 0 <= k < |t.order| ==> t.order[k] in t.nodes) && FinishedMemory(t).Closed()
    ensures var mem, sql := FinishedMemory(t), SqliteStore(FinishedTable(t));
      && mem.IterChildren(parent, 0).Success?
      && GivesChildren(mem.IterChildren(parent, 0).value, parent, mem.IterNodes())
      && sql.IterChildren(parent, 0) == mem.IterChildren(parent, 0)
  {
    hide FinishedNode, FinishedTable, OrderByName, SelectChildren;
    FinishedShape(t);
    SameAnswers(t, parent, [], 0);
    SameGetNode(t, parent);
    var rows := FinishedTable(t);
    var found, ordered := OrderedChildren(t, parent);
    OffsetIsSlice(rows, parent, 0);
    assert SliceFrom(ordered, 0) == ordered;
    OrderByIdKeeps(rows);
    ChildNodes(rows, parent, ordered);
  }

  lemma ChildNodes(rows: seq<Row>, parent: int, ordered: seq<Row>)
    requires Ascending(RowNames(ordered)) && forall row :: row in ordered <==> row in rows && IsChild(row, parent)
    ensures GivesChildren(NodesOf(ordered), parent, NodesOf(rows))
  {
    var found, all := NodesOf(ordered), NodesOf(rows);
    forall node | node in found
      ensures node in all && node.parent.Some? && node.parent.value == parent
    {
      var k :| 0 <= k < |ordered| && found[k] == node;
      assert ordered[k] in rows && IsChild(ordered[k], parent);
      var j :| 0 <= j < |rows| && rows[j] == ordered[k];
      assert all[j] == node;
    }
    forall node | node in all && node.parent.Some? && node.parent.value == parent
      ensures node in found
    {
      var k :| 0 <= k < |rows| && all[k] == node;
      assert rows[k] in rows && IsChild(rows[k], parent);
      var j :| 0 <= j < |ordered| && ordered[j] == rows[k];
      assert found[j] == node;
    }
    forall i, j | 0 <= i < j < |found| ensures Less(found[i].name, found[j].name) {
      assert RowNames(ordered)[i] == found[i].name && RowNames(ordered)[j] == found[j].name;
    }
  }

  // --------------------------------------------------------- walking a path

  /** Looking up one name after the other, from the root's inode. */
  function WalkMemory(store: MemoryStore, names: seq<Bytes>): Option<nat>
    requires store.Closed()
    decreases |names|
  {
    if names == [] then Some(1)
    else
      match WalkMemory(store, names[..|names| - 1])
      case None => None
      case Some(parent) => Answered(store.Lookup(parent, names[|names| - 1]))
  }

  function WalkSqlite(store: SqliteStore, names: seq<Bytes>): Option<nat>
    decreases |names|
  {
    if names == [] then Some(1)
    else
      match WalkSqlite(store, names[..|names| - 1])
      case None => None
      case Some(parent) => Answered(store.Lookup(parent, names[|names| - 1]))
  }

  function Answered(answer: Result<Option<Node>, QueryError>): Option<nat> {
    match answer
    case Success(Some(node)) => Some(node.id)
    case _ => None
  }

  lemma LookupIsChild(t: TreeState, parent: nat, name: Bytes)
    requires TreeOk(t) && parent in t.nodes
    ensures FinishedMemory(t).Closed() && parent in t.children
    ensures Answered(FinishedMemory(t).Lookup(parent, name)) ==
      if name in t.children[parent] then Some(t.children[parent][name]) else None
  {
    FinishedShape(t);
    if name in t.children[parent] {
      assert EntryOk(t, parent, name);
      assert NodeOk(t.nodes, t.children[parent][name]);
    }
  }

  lemma IndexedPath(t: TreeState, id: nat)
    requires TreeOk(t) && id in t.nodes && id != 1
    ensures t.nodes[id].parent.Some? && var p := t.nodes[id].parent.value;
      && p in t.children && t.nodes[id].name in t.children[p] && t.children[p][t.nodes[id].name] == id
      && p in t.nodes && PathOf(t.nodes, id) == PathOf(t.nodes, p) + [t.nodes[id].name]
  {
    assert LinkOk(t.nodes, id) && Indexed(t, id);
  }

  /** The walk ends at the node with that path, if there is one. */
  lemma {:induction false} WalkFinds(t: TreeState, names: seq<Bytes>)
    requires TreeOk(t)
    ensures FinishedMemory(t).Closed()
    ensures match WalkMemory(FinishedMemory(t), names)
      case Some(id) => id in t.nodes && PathOf(t.nodes, id) == names
      case None => names !in Abs(t)
    decreases |names|
  {
    hide NodeOk, FinishedNode, IndexInverse, Linked;
    FinishedShape(t);
    if names != [] {
      var front, name := names[..|names| - 1], names[|names| - 1];
      assert names == front + [name];
      WalkFinds(t, front);
      var walked := WalkMemory(FinishedMemory(t), front);
      if walked.Some? {
        LookupIsChild(t, walked.value, name);
        if name in t.children[walked.value] {
          ChildPath(t, walked.value, name);
        }
      }
      if WalkMemory(FinishedMemory(t), names).None? && names in Abs(t) {
        var id := NodeAt(t, names);
        IndexedPath(t, id);
        var parent := t.nodes[id].parent.value;
        AbsAt(t, parent);
        assert PathOf(t.nodes, parent) == front;
        PathInjective(t, parent, walked.value);
      }
    }
  }

  lemma {:induction false} WalksAlike(t: TreeState, names: seq<Bytes>)
    requires TreeOk(t) && t.next <= 0x8000_0000_0000_0000
    ensures (forall k :: 0 <= k < |t.order| ==> t.order[k] in t.nodes) && FinishedMemory(t).Closed()
    ensures WalkSqlite(SqliteStore(FinishedTable(t)), names) == WalkMemory(FinishedMemory(t), names)
    decreases |names|
  {
    hide FinishedTable, FinishedMemory;
    FinishedShape(t);
    if names != [] {
      var front := names[..|names| - 1];
      WalksAlike(t, front);
      WalkFinds(t, front);
      var walked := WalkMemory(FinishedMemory(t), front);
      if walked.Some? {
        SameAnswers(t, walked.value, names[|names| - 1], 0);
      }
    }
  }

  // ------------------------------------------------------- what is found there

  /** The node tells what an entry told: kind, size, time, line, metadata and spelling, with
      the content of an empty file known. */
  predicate Carries(node: Node, e: ParsedEntry) {
    && node.kind == e.kind && node.size == e.size && node.modified == e.modified
    && node.line == e.line && node.metadata == e.metadata && node.originalPath == Some(JoinText(e.path))
    && node.content == (if e.kind.File? && e.size == Some(0) then Some([]) else e.content)
    && node.status == (if e.kind.Directory? then NotApplicable else if node.content.Some? then Present else Missing)
  }

  /** A directory of which nothing is known but that it exists. */
  predicate Implied(node: Node) {
    && node.kind.Directory? && node.size.None? && node.modified.None? && node.content.None?
    && node.line.None? && node.metadata.NoMetadata? && node.status.NotApplicable?
  }

  /** What the entries make of a path: the source entry's word, or a mere directory. */
  ghost predicate Shows(node: Node, es: seq<ParsedEntry>, names: seq<Bytes>) {
    if exists k: nat :: IsSource(es, names, k) then exists k: nat :: IsSource(es, names, k) && Carries(node, es[k])
    else Implied(node)
  }

  /** A path and the node that is served for it, if any. */
  ghost predicate Serves(found: Option<nat>, get: int -> Result<Node, QueryError>, es: seq<ParsedEntry>,
                         names: seq<Bytes>)
  {
    match found
    case None => names != [] && forall e :: e in es ==> !Covers(e, names)
    case Some(id) =>
      && (names == [] || exists e :: e in es && Covers(e, names))
      && get(id).Success? && get(id).value.id == id && Shows(get(id).value, es, names)
  }

  lemma KeepsShows(r: NodeRecord, node: Node, es: seq<ParsedEntry>, names: seq<Bytes>)
    requires Sourced(r, names, es) && Keeps(node, r) && RecordOk(r)
    ensures Shows(node, es, names)
  {
    hide JoinText, NamesOf;
    if exists k: nat :: IsSource(es, names, k) {
      var k: nat :| IsSource(es, names, k) && SpeaksFor(r, es[k]);
      assert Carries(node, es[k]);
    }
  }

  /** After a series that builds, every path is served as the entries say, in memory ... */
  lemma MemoryServes(es: seq<ParsedEntry>, names: seq<Bytes>)
    requires AllShaped(es) && IndexOk(EMPTY_TREE) && AddAll(EMPTY_TREE, es).1.None?
    ensures var store := FinishedMemory(AddAll(EMPTY_TREE, es).0);
      store.Closed() && Serves(WalkMemory(store, names), id => store.GetNode(id), es, names)
  {
    hide AddAll, Shows, Keeps, NodeOk, Linked, IndexInverse, FinishedNode, RecordOk, Sourced, InfoDescribes, Covers;
    hide Abs, Tree.Numbered;
    var t := AddAll(EMPTY_TREE, es).0;
    BuildsIffCompatible(es);
    BuiltIsSourced(es);
    FinishedShape(t);
    WalkFinds(t, names);
    var walked := WalkMemory(FinishedMemory(t), names);
    if walked.Some? {
      var id := walked.value;
      AbsAt(t, id);
      NodeFinished(t, id);
      KeepsShows(t.nodes[id], FinishedMemory(t).nodes[id], es, names);
    }
  }

  lemma NodeFinished(t: TreeState, id: nat)
    requires TreeOk(t) && id in t.nodes
    ensures id in FinishedMemory(t).nodes && FinishedMemory(t).nodes[id].id == id
    ensures RecordOk(t.nodes[id]) && Keeps(FinishedMemory(t).nodes[id], t.nodes[id])
  {
    hide JoinsTo, MountedName, Linked, IndexInverse;
    assert NodeOk(t.nodes, id);
    FinishedKeeps(t.nodes[id]);
  }

  /** ... and in SQLite. */
  lemma SqliteServes(es: seq<ParsedEntry>, names: seq<Bytes>)
    requires AllShaped(es) && IndexOk(EMPTY_TREE) && AddAll(EMPTY_TREE, es).1.None?
    requires AddAll(EMPTY_TREE, es).0.next <= 0x8000_0000_0000_0000
    ensures var t := AddAll(EMPTY_TREE, es).0;
      && (forall k :: 0 <= k < |t.order| ==> t.order[k] in t.nodes)
      && var store := SqliteStore(FinishedTable(t));
      Serves(WalkSqlite(store, names), id => store.GetNode(id), es, names)
  {
    hide AddAll, Shows, TreeOk, FinishedMemory, FinishedTable, Covers, Describes;
    var t := AddAll(EMPTY_TREE, es).0;
    BuildsIffCompatible(es);
    FinishedShape(t);
    MemoryServes(es, names);
    WalksAlike(t, names);
    var walked := WalkMemory(FinishedMemory(t), names);
    if walked.Some? {
      SameAnswers(t, walked.value, [], 0);
      WalkFinds(t, names);
      InodeFits(t, walked.value);
    }
  }

  lemma InodeFits(t: TreeState, id: nat)
    requires TreeOk(t) && id in t.nodes && t.next <= 0x8000_0000_0000_0000
    ensures Fits64(id)
  {
  }

  /** Whatever the source, the node at an entry's path has the entry's kind and size; a file
      its time and content, and an explicit directory its time. */
  predicate HasEntry(node: Node, e: ParsedEntry) {
    && node.kind == e.kind && node.size == e.size
    && (e.kind.File? ==>
          && node.modified == e.modified
          && node.content == (if e.size == Some(0) then Some([]) else e.content))
    && (e.observation.DirectoryEntry? ==> node.modified == e.modified)
  }

  lemma ServedHasEntry(es: seq<ParsedEntry>, e: ParsedEntry, found: Option<nat>, get: int -> Result<Node, QueryError>)
    requires AllShaped(es) && IndexOk(EMPTY_TREE) && AddAll(EMPTY_TREE, es).1.None? && e in es
    requires Serves(found, get, es, NamesOf(e))
    ensures found.Some? && get(found.value).Success? && HasEntry(get(found.value).value, e)
  {
    hide AddAll, JoinText, TreeOk, Abs;
    BuildsIffCompatible(es);
    assert Covers(e, NamesOf(e));
    var names := NamesOf(e);
    SourceExists(es, names);
    var k: nat :| IsSource(es, names, k) && Carries(get(found.value).value, es[k]);
    var j :| 0 <= j < |es| && es[j] == e;
    assert es[k] in es;
    NamesFollowPaths(es[k], e);
    SourceHasEntry(es, names, k, j, get(found.value).value);
  }

  lemma SourceHasEntry(es: seq<ParsedEntry>, names: seq<Bytes>, k: nat, j: nat, node: Node)
    requires IsSource(es, names, k) && j < |es| && NamesOf(es[j]) == names && Carries(node, es[k])
    requires es[k].path == es[j].path && Compatible(es[k], es[j])
    requires es[k].ParserShaped() && es[j].ParserShaped()
    ensures HasEntry(node, es[j])
  {
    hide JoinText, NamesOf;
  }

  // ------------------------------------------------------------ whole imports

  /** What an import publishes serves every entry that was yielded, whatever else. */
  lemma PublishedServes(outcome: I.Outcome, reported: seq<Diagnostics.Diagnostic>, es: seq<ParsedEntry>)
    requires AllShaped(es) && IndexOk(EMPTY_TREE)
    requires I.Imports(outcome, reported, es) && outcome.Published?
    ensures outcome.store.Closed()
    ensures forall names ::
      Serves(WalkMemory(outcome.store, names), id => outcome.store.GetNode(id), es, names)
    ensures forall e :: e in es ==>
      var found := WalkMemory(outcome.store, NamesOf(e));
      found.Some? && found.value in outcome.store.nodes && HasEntry(outcome.store.nodes[found.value], e)
  {
    hide AddAll, FinishedMemory, Shows, HasEntry, TreeOk;
    MemoryServes(es, []);
    forall names
      ensures Serves(WalkMemory(outcome.store, names), id => outcome.store.GetNode(id), es, names)
    {
      MemoryServes(es, names);
    }
    forall e | e in es
      ensures var found := WalkMemory(outcome.store, NamesOf(e));
        found.Some? && found.value in outcome.store.nodes && HasEntry(outcome.store.nodes[found.value], e)
    {
      MemoryServes(es, NamesOf(e));
      ServedHasEntry(es, e, WalkMemory(outcome.store, NamesOf(e)), id => outcome.store.GetNode(id));
    }
  }

  /** ... and so does what is stored in an artifact. */
  lemma StoredServes(outcome: I.ArtifactOutcome, reported: seq<Diagnostics.Diagnostic>, es: seq<ParsedEntry>)
    requires AllShaped(es) && IndexOk(EMPTY_TREE)
    requires I.ImportsTable(outcome, reported, es) && outcome.Stored?
    requires |outcome.rows| < 0x8000_0000_0000_0000
    ensures var store := SqliteStore(outcome.rows);
      && (forall names :: Serves(WalkSqlite(store, names), id => store.GetNode(id), es, names))
      && forall e :: e in es ==>
           var found := WalkSqlite(store, NamesOf(e));
           && found.Some? && store.GetNode(found.value).Success?
           && HasEntry(store.GetNode(found.value).value, e)
  {
    hide AddAll, FinishedTable, Shows, HasEntry, TreeOk;
    var t := AddAll(EMPTY_TREE, es).0;
    BuildsIffCompatible(es);
    FinishedShape(t);
    var store := SqliteStore(outcome.rows);
    forall names
      ensures Serves(WalkSqlite(store, names), id => store.GetNode(id), es, names)
    {
      SqliteServes(es, names);
    }
    forall e | e in es
      ensures var found := WalkSqlite(store, NamesOf(e));
        && found.Some? && store.GetNode(found.value).Success?
        && HasEntry(store.GetNode(found.value).value, e)
    {
      SqliteServes(es, NamesOf(e));
      ServedHasEntry(es, e, WalkSqlite(store, NamesOf(e)), id => store.GetNode(id));
    }
  }
}
