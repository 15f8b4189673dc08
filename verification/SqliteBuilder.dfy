/** The SQLite builder: one flat table of rows, keyed by identifier and by parent and name. */
module SqliteBuilder {
  import opened Core
  import opened Building
  import opened Tree
  import opened Stores

  // ---------------------------------------------------------- the table

  datatype SqlError = ConstraintFailed | ParameterOverflow

  /** The row that stores a node under construction. */
  function StoredRow(r: NodeRecord): Row {
    Row(Node(r.id, r.parent, r.name, r.originalPath, r.kind, r.size, r.modified, r.content, NotApplicable, None,
             r.line, r.metadata),
        r.observation)
  }

  /** `_mutable`: the node a row stores. */
  function RecordOf(row: Row): NodeRecord {
    var n := row.node;
    NodeRecord(n.id, n.parent, n.name, n.originalPath, n.kind, n.size, n.modified, n.content, n.line,
               row.observation, n.metadata)
  }

  predicate OptionFits(n: Option<nat>) {
    n.Some? ==> Fits64(n.value)
  }

  /** The integers of a record that SQLite must be able to bind. */
  predicate RecordFits(r: NodeRecord) {
    OptionFits(r.size) && OptionFits(r.line)
  }

  class NodeTable {
    var rows: seq<Row>

    constructor ()
      ensures rows == []
    {
      rows := [];
    }

    /** INSERT INTO nodes: the primary key and UNIQUE(parent_id, mounted_name) hold. */
    method Insert(row: Row) returns (error: Option<SqlError>)
      modifies this
      ensures error == InsertFailure(old(rows), row)
      ensures rows == if error.None? then old(rows) + [row] else old(rows)
    {
      if !RecordFits(RecordOf(row)) {
        return Some(ParameterOverflow);
      }
      var k := 0;
      while k < |rows|
        invariant 0 <= k <= |rows|
        invariant forall j :: 0 <= j < k ==> !Clashes(rows[j], row)
      {
        if Clashes(rows[k], row) {
          return Some(ConstraintFailed);
        }
        k := k + 1;
      }
      rows := rows + [row];
      return None;
    }

    /** UPDATE nodes SET ... WHERE id = ?: everything a merge may change. */
    method Update(r: NodeRecord) returns (error: Option<SqlError>)
      modifies this
      ensures error == if RecordFits(r) then None else Some(ParameterOverflow)
      ensures |rows| == |old(rows)|
      ensures forall k :: 0 <= k < |rows| ==>
        rows[k] == if error.None? && old(rows)[k].node.id == r.id then Overwritten(old(rows)[k], r) else old(rows)[k]
    {
      if !RecordFits(r) {
        return Some(ParameterOverflow);
      }
      var k := 0;
      while k < |rows|
        invariant 0 <= k <= |rows| == |old(rows)|
        invariant forall j :: 0 <= j < k ==>
          rows[j] == if old(rows)[j].node.id == r.id then Overwritten(old(rows)[j], r) else old(rows)[j]
        invariant forall j :: k <= j < |rows| ==> rows[j] == old(rows)[j]
      {
        if rows[k].node.id == r.id {
          rows := rows[k := Overwritten(rows[k], r)];
        }
        k := k + 1;
      }
      return None;
    }

    /** The two set-based statements of `finish`: empty content for empty files, then a
        content status for every node. */
    method AssignContent()
      modifies this
      ensures |rows| == |old(rows)|
      ensures forall k :: 0 <= k < |rows| ==> rows[k] == WithStatus(WithEmptyContent(old(rows)[k]))
    {
      rows := seq(|rows|, k requires 0 <= k < |rows| reads this => WithEmptyContent(rows[k]));
      rows := seq(|rows|, k requires 0 <= k < |rows| reads this => WithStatus(rows[k]));
    }
  }

  /** Same primary key, or same parent and name; null parents never clash. */
  predicate Clashes(a: Row, b: Row) {
    || a.node.id == b.node.id
    || (a.node.parent.Some? && a.node.parent == b.node.parent && a.node.name == b.node.name)
  }

  /** Why an insertion fails: a number too large to bind, or a violated constraint. */
  function InsertFailure(rows: seq<Row>, row: Row): Option<SqlError> {
    if !RecordFits(RecordOf(row)) then Some(ParameterOverflow)
    else if exists k :: 0 <= k < |rows| && Clashes(rows[k], row) then Some(ConstraintFailed)
    else None
  }

  function Overwritten(row: Row, r: NodeRecord): Row {
    Row(row.node.(originalPath := r.originalPath, size := r.size, modified := r.modified, content := r.content,
                  line := r.line, metadata := r.metadata),
        r.observation)
  }

  function WithEmptyContent(row: Row): Row {
    if row.node.kind.File? && row.node.size == Some(0) && row.node.content.None? then
      row.(node := row.node.(content := Some([])))
    else row
  }

  function WithStatus(row: Row): Row {
    row.(node := row.node.(status :=
      if row.node.kind.Directory? then NotApplicable
      else if row.node.kind.File? && row.node.content.Some? then Present
      else Missing))
  }

  // ------------------------------------------------------- the tree it is

  ghost predicate AllFit(t: TreeState) {
    forall id :: id in t.nodes ==> RecordFits(t.nodes[id])
  }

  /** The rows are the nodes of `t`, in order of identifier. */
  ghost predicate Holds(rows: seq<Row>, t: TreeState) {
    |rows| == t.next - 1 && forall k :: 0 <= k < |rows| ==> IsRow(rows[k], t, k + 1)
  }

  predicate IsRow(row: Row, t: TreeState, id: nat) {
    id in t.nodes && row == StoredRow(t.nodes[id])
  }

  lemma HoldsMirrors(rows: seq<Row>, t: TreeState)
    requires TreeOk(t) && Holds(rows, t)
    ensures Mirrors(t, rows)
  {
    forall k | 0 <= k < |rows| ensures rows[k].node.id == k + 1 && k + 1 in t.nodes {
      assert IsRow(rows[k], t, k + 1);
      assert NodeOk(t.nodes, k + 1);
    }
  }

  /** A child that the index lacks clashes with no row. */
  lemma NewRowFits(rows: seq<Row>, t: TreeState, parent: nat, name: Bytes, row: Row)
    requires TreeOk(t) && Holds(rows, t) && parent in t.nodes && name !in ChildrenOf(t, parent)
    requires row.node.id == t.next && row.node.parent == Some(parent) && row.node.name == name
    ensures forall k :: 0 <= k < |rows| ==> !Clashes(rows[k], row)
  {
    HoldsMirrors(rows, t);
    forall k | 0 <= k < |rows| ensures !Clashes(rows[k], row) {
      if IsChild(rows[k], parent) && rows[k].node.name == name {
        MirrorChild(t, rows, parent, rows[k]);
      }
    }
  }

  lemma RowAppended(rows: seq<Row>, t: TreeState, t': TreeState, r: NodeRecord)
    requires Holds(rows, t) && t.next >= 1
    requires t'.next == t.next + 1 && t'.nodes == t.nodes[t.next := r]
    ensures Holds(rows + [StoredRow(r)], t')
  {
    var rows' := rows + [StoredRow(r)];
    forall k | 0 <= k < |rows'| ensures IsRow(rows'[k], t', k + 1) {
      if k < |rows| {
        assert IsRow(rows[k], t, k + 1);
      }
    }
  }

  lemma SelectedRecord(rows: seq<Row>, t: TreeState, id: nat)
    requires TreeOk(t) && Holds(rows, t) && 1 <= id <= |rows|
    ensures id in t.nodes && RecordOf(rows[id - 1]) == t.nodes[id] && t.nodes[id].id == id
  {
    assert IsRow(rows[id - 1], t, id - 1 + 1);
    assert NodeOk(t.nodes, id);
  }

  lemma FinishedRowsKeep(rows: seq<Row>, t: TreeState)
    requires TreeOk(t) && Holds(rows, t)
    ensures (forall k :: 0 <= k < |t.order| ==> t.order[k] in t.nodes) && |FinishedTable(t)| == |rows|
    ensures forall k :: 0 <= k < |rows| ==>
      && Keeps(FinishedTable(t)[k].node, RecordOf(rows[k]))
      && FinishedTable(t)[k].observation == rows[k].observation
  {
    hide Keeps, FinishedNode, FinishedTable, RecordOk;
    FinishedShape(t);
    forall k | 0 <= k < |rows| ensures
      && Keeps(FinishedTable(t)[k].node, RecordOf(rows[k]))
      && FinishedTable(t)[k].observation == rows[k].observation
    {
      assert IsRow(rows[k], t, k + 1);
      assert NodeOk(t.nodes, k + 1);
      FinishedKeeps(t.nodes[k + 1]);
    }
  }

  /** `tree` has every node that adding `e` enters; only the merge into the last is missing. */
  ghost predicate AllButMerged(tree: TreeState, t: TreeState, e: ParsedEntry) {
    exists id :: id in tree.nodes && MergedInto(tree, id, e) == Some(t)
  }

  function MergedInto(t: TreeState, id: nat, e: ParsedEntry): Option<TreeState>
    requires id in t.nodes
  {
    match Merged(t.nodes[id], e)
    case Failure(_) => None
    case Success(r) => Some(t.(nodes := t.nodes[id := r]))
  }

  // ------------------------------------------------ what overflows

  predicate EntryFits(e: ParsedEntry) {
    OptionFits(e.size) && OptionFits(e.line)
  }

  lemma MergedFits(node: NodeRecord, e: ParsedEntry)
    requires RecordFits(node) && EntryFits(e)
    ensures Merged(node, e).Success? ==> RecordFits(Merged(node, e).value)
  {
  }

  lemma EnterFits(t: TreeState, e: ParsedEntry, names: seq<Bytes>, i: nat, parent: nat)
    requires |names| == |e.path| && i < |names| && IndexOk(t) && AllFit(t)
    ensures AllFit(Enter(t, e, names, i, parent).0)
  {
    hide JoinText, Conflict;
  }

  lemma {:induction false} AddFromFits(t: TreeState, e: ParsedEntry, names: seq<Bytes>, i: nat, parent: nat)
    requires |names| == |e.path| && i <= |names| && IndexOk(t) && AllFit(t) && EntryFits(e)
    ensures AllFit(AddFrom(t, e, names, i, parent).0)
    decreases |names| - i
  {
    hide Merged;
    if i < |names| {
      EnterKeepsIndex(t, e, names, i, parent);
      EnterFits(t, e, names, i, parent);
      hide Enter;
      var (t', id, error) := Enter(t, e, names, i, parent);
      if error.None? {
        if i < |names| - 1 {
          AddFromFits(t', e, names, i + 1, id);
        } else {
          MergedFits(t'.nodes[id], e);
        }
      }
    }
  }

  /** Only an entry with a number too large makes a tree that does not fit. */
  lemma AddFits(t: TreeState, e: ParsedEntry)
    requires IndexOk(t) && AllFit(t) && EntryFits(e)
    ensures AllFit(Tree.Add(t, e).0)
  {
    if Components(e).Success? {
      AddFromFits(t, e, MountedNames(e.path), 0, 1);
    }
  }

  /** Writing back a merged node stores it. */
  lemma OverwrittenIsStored(r: NodeRecord, e: ParsedEntry)
    ensures Merged(r, e).Success? ==> Overwritten(StoredRow(r), Merged(r, e).value) == StoredRow(Merged(r, e).value)
  {
  }

  datatype AddOutcome = Added | Rejected(error: BuildError) | Overflowed | AlreadyFinished

  class SqliteSnapshotBuilder {
    const table: NodeTable
    var nextInode: nat
    var connected: bool
    var finished: bool
    /** The tree the table stores. */
    ghost var tree: TreeState

    ghost predicate Valid()
      reads this, table
    {
      TreeOk(tree) && Holds(table.rows, tree) && nextInode == tree.next && AllFit(tree)
    }

    constructor ()
      ensures Valid() && tree == EMPTY_TREE && connected && !finished
      ensures fresh(table)
    {
      table := new NodeTable();
      nextInode := 2;
      connected := true;
      finished := false;
      tree := EMPTY_TREE;
      new;
      EmptyTreeOk();
      assert RecordOf(StoredRow(ROOT)) == ROOT;
      var error := table.Insert(StoredRow(ROOT));
    }

    /** One component of a path: select its row or insert it, and check its kind. */
    method EnterComponent(e: ParsedEntry, names: seq<Bytes>, i: nat, parentId: nat)
      returns (node: MutableNode, error: Option<BuildError>)
      requires Valid() && i < |names| && Reached(tree, e, names, i, parentId)
      modifies this`tree, this`nextInode, table
      ensures IndexOk(old(tree)) && Valid()
      ensures Enter(old(tree), e, names, i, parentId) == (tree, node.id, error)
      ensures node.id in tree.nodes && node.Record() == tree.nodes[node.id] && fresh(node)
    {
      hide TreeOk;
      hide JoinText;
      hide Conflict;
      hide Mirrors;
      hide Holds;
      TreeIsIndexed(tree);
      EnterKeeps(tree, e, names, i, parentId);
      HoldsMirrors(table.rows, tree);
      MirrorSelect(tree, table.rows, parentId, names[i]);
      var kind := if i == |names| - 1 then e.kind else Directory;
      var found := SelectChild(table.rows, parentId, names[i]);
      error := None;
      match found {
        case None =>
          node := new MutableNode(NewNode(nextInode, Some(parentId), names[i], Some(JoinText(e.path[..i + 1])), kind));
          NewRowFits(table.rows, tree, parentId, names[i], StoredRow(node.Record()));
          tree := Enter(tree, e, names, i, parentId).0;
          nextInode := nextInode + 1;
          assert RecordOf(StoredRow(node.Record())) == node.Record();
          var failure := table.Insert(StoredRow(node.Record()));
          assert failure.None?;
          RowAppended(old(table.rows), old(tree), tree, node.Record());
        case Some(row) =>
          SelectedRecord(table.rows, tree, tree.children[parentId][names[i]]);
          node := new MutableNode(RecordOf(row));
          if node.kind != kind {
            error := Some(Conflict(node.Record(), e, KindConflict));
          }
      }
    }

    /** Merge the entry into its node and write the row back. */
    method MergeAndUpdate(node: MutableNode, e: ParsedEntry, names: seq<Bytes>) returns (outcome: AddOutcome)
      requires Valid() && node.id in tree.nodes && node.Record() == tree.nodes[node.id] && node.id != 1
      requires e.Wellformed() && ValidPath(e.path) && names == MountedNames(e.path)
      requires PathOf(tree.nodes, node.id) == names && node.kind == e.kind
      modifies this`tree, table, node
      ensures Valid()
      ensures match Merged(old(tree).nodes[node.id], e)
        case Failure(conflict) => outcome == Rejected(conflict) && tree == old(tree)
        case Success(r) =>
          var t := old(tree).(nodes := old(tree).nodes[node.id := r]);
          && (AllFit(t) ==> outcome == Added && tree == t)
          && (!AllFit(t) ==> outcome == Overflowed && tree == old(tree))
    {
      hide TreeOk, Merged, Overwritten;
      HoldsMirrors(table.rows, tree);
      ghost var t := tree;
      var error := node.Merge(e);
      if error.Some? {
        return Rejected(error.value);
      }
      AppliedKeeps(tree, e, names, node.id);
      var failure := table.Update(node.Record());
      if failure.Some? {
        assert !AllFit(t.(nodes := t.nodes[node.id := node.Record()]));
        assert table.rows == old(table.rows);
        return Overflowed;
      }
      tree := t.(nodes := t.nodes[node.id := node.Record()]);
      forall k | 0 <= k < |table.rows| ensures IsRow(table.rows[k], tree, k + 1) {
        assert IsRow(old(table.rows)[k], t, k + 1);
        assert old(table.rows)[k].node.id == k + 1;
        OverwrittenIsStored(t.nodes[k + 1], e);
      }
      assert TreeOk(tree) && AllFit(tree);
      return Added;
    }

    /** One `add`.  It simulates the tree, hence the in-memory builder, step by step; it
        stops short only when an integer does not fit SQLite's. */
    method Add(e: ParsedEntry) returns (outcome: AddOutcome)
      requires Valid() && e.Wellformed()
      modifies this`tree, this`nextInode, table
      ensures Valid() && IndexOk(old(tree))
      ensures old(finished) || !old(connected) ==> outcome == AlreadyFinished && tree == old(tree)
      ensures !old(finished) && old(connected) ==>
        var (t, error) := Tree.Add(old(tree), e);
        && (error.Some? ==> outcome == Rejected(error.value) && tree == t)
        && (error.None? && AllFit(t) ==> outcome == Added && tree == t)
        && (error.None? && !AllFit(t) ==> outcome == Overflowed && AllButMerged(tree, t, e))
    {
      hide TreeOk;
      hide Merged;
      hide Enter;
      hide Holds;
      TreeIsIndexed(tree);
      if finished || !connected {
        return AlreadyFinished;
      }
      var components := CheckComponents(e);
      if components.Failure? {
        return Rejected(components.error);
      }
      var names := components.value;
      ghost var whole := Tree.Add(tree, e);
      var parentId: nat := 1;
      var i := 0;
      StartReached(tree, e);
      while i < |names|
        invariant 0 <= i <= |names| == |e.path|
        invariant Valid() && IndexOk(tree)
        invariant i < |names| ==> Reached(tree, e, names, i, parentId)
        invariant i < |names| ==> whole == AddFrom(tree, e, names, i, parentId)
        invariant i == |names| ==> whole == (tree, None)
      {
        var final := i == |names| - 1;
        ghost var t := tree;
        EnterKeeps(t, e, names, i, parentId);
        var node, error := EnterComponent(e, names, i, parentId);
        if error.Some? {
          return Rejected(error.value);
        }
        TreeIsIndexed(tree);
        if final {
          assert names[..i + 1] == names;
          ghost var entered := tree;
          outcome := MergeAndUpdate(node, e, names);
          if outcome != Added {
            assert outcome == Overflowed ==> MergedInto(entered, node.id, e) == Some(whole.0);
            return;
          }
          TreeIsIndexed(tree);
        }
        parentId := node.id;
        i := i + 1;
      }
      return Added;
    }

    /** Closes the connection; the temporary file is cleaned up. */
    method Abort()
      modifies this`connected, this`finished
      ensures finished && !connected
    {
      connected := false;
      finished := true;
    }

    /** The data half of `finish`: the table becomes the finished table of the tree. */
    method AssignStatuses()
      requires Valid() && !finished && connected
      modifies table
      ensures (forall k :: 0 <= k < |tree.order| ==> tree.order[k] in tree.nodes)
      ensures table.rows == FinishedTable(tree)
      ensures |table.rows| == |old(table.rows)|
      ensures forall k :: 0 <= k < |table.rows| ==>
        && Keeps(table.rows[k].node, RecordOf(old(table.rows)[k]))
        && table.rows[k].observation == old(table.rows)[k].observation
    {
      hide Keeps;
      FinishedShape(tree);
      FinishedRowsKeep(table.rows, tree);
      table.AssignContent();
      forall k | 0 <= k < |table.rows| ensures table.rows[k] == FinishedTable(tree)[k] {
        assert IsRow(old(table.rows)[k], tree, k + 1);
      }
    }
  }
}
