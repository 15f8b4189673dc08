/** The finished stores: immutable dictionaries in memory, and a table of rows in SQLite.
    Both must give the same answers. */
module Stores {
  import opened Core
  import opened Building
  import opened Tree
  import opened Ordering

  /** A finished node, without the snapshot identifier that all nodes share. */
  datatype Node = Node(
    id: nat,
    parent: Option<nat>,
    name: Bytes,
    originalPath: Option<Text>,
    kind: NodeKind,
    size: Option<nat>,
    modified: Option<Timestamp>,
    content: Option<Bytes>,
    status: ContentStatus,
    reference: Option<Text>,
    line: Option<nat>,
    metadata: Metadata)
  {
    /** What constructing a node enforces; anything else raises. */
    predicate Invariant() {
      if kind.Directory? then
        size.None? && content.None? && reference.None? && status.NotApplicable?
      else
        && (content.Some? ==> size == Some(|content.value|))
        && !status.NotApplicable?
        && (size == Some(0) ==> content == Some([]) && status.Present? && reference.None?)
        && (if content.Some? then status.Present? && reference.None?
            else if status.Present? || status.Remote? then reference.Some? && reference.value != []
            else reference.None?)
    }
  }

  /** A row of the `nodes` table. */
  datatype Row = Row(node: Node, observation: Option<Observation>)

  function FinishedNode(r: NodeRecord): Node {
    var (content, status) := ContentValues(r);
    Node(r.id, r.parent, r.name, r.originalPath, r.kind, r.size, r.modified, content, status, None, r.line, r.metadata)
  }

  function FinishedRow(r: NodeRecord): Row {
    Row(FinishedNode(r), r.observation)
  }

  /** Finishing can never violate the node invariants. */
  lemma FinishedNodeInvariant(r: NodeRecord)
    requires RecordOk(r)
    ensures FinishedNode(r).Invariant()
  {
  }

  /** What a store keeps of a node under construction, field by field: all but the content of
      an empty file, which becomes known, and the status, which follows. */
  predicate Keeps(node: Node, r: NodeRecord) {
    && node.id == r.id && node.parent == r.parent && node.name == r.name
    && node.originalPath == r.originalPath && node.kind == r.kind
    && node.size == r.size && node.modified == r.modified
    && node.line == r.line && node.metadata == r.metadata
    && node.content == (if r.kind.File? && r.size == Some(0) then Some([]) else r.content)
    && node.status == (if r.kind.Directory? then NotApplicable else if node.content.Some? then Present else Missing)
    && node.reference.None?
  }

  /** Finishing keeps what was observed. */
  lemma FinishedKeeps(r: NodeRecord)
    requires RecordOk(r)
    ensures Keeps(FinishedNode(r), r)
  {
  }

  /** Why a query raises: no such node, or an integer SQLite cannot bind. */
  datatype QueryError = NoSuchNode | IntegerOverflow

  predicate Fits64(i: int) {
    -0x8000_0000_0000_0000 <= i < 0x8000_0000_0000_0000
  }

  // ------------------------------------------------------------- memory

  datatype MemoryStore = MemoryStore(order: seq<nat>, nodes: map<nat, Node>, children: map<nat, map<Bytes, nat>>) {

    /** The dictionaries refer to each other. */
    predicate Closed() {
      && (forall k :: 0 <= k < |order| ==> order[k] in nodes)
      && (forall p, n :: p in children && n in children[p] ==> children[p][n] in nodes)
    }

    function GetNode(inode: int): Result<Node, QueryError> {
      if inode >= 0 && inode in nodes then Success(nodes[inode]) else Failure(NoSuchNode)
    }

    function Lookup(parent: int, name: Bytes): Result<Option<Node>, QueryError>
      requires Closed()
    {
      if parent < 0 || parent !in children then Failure(NoSuchNode)
      else if name in children[parent] then Success(Some(nodes[children[parent][name]]))
      else Success(None)
    }

    ghost function IterChildren(parent: int, offset: int): Result<seq<Node>, QueryError>
      requires Closed()
    {
      if parent < 0 || parent !in children then Failure(NoSuchNode)
      else
        var ids := children[parent];
        var names := SliceFrom(Sorted(ids.Keys), offset);
        SliceFromElements(Sorted(ids.Keys), offset);
        Success(seq(|names|, k requires 0 <= k < |names| && names[k] in ids => nodes[ids[names[k]]]))
    }

    function IterNodes(): seq<Node>
      requires Closed()
    {
      seq(|order|, k requires 0 <= k < |order| && order[k] in nodes => nodes[order[k]])
    }
  }

  /** Python's `s[offset:]`, for an offset of either sign. */
  function SliceFrom<T>(s: seq<T>, offset: int): seq<T> {
    if offset >= |s| then []
    else if offset >= 0 then s[offset..]
    else if |s| + offset <= 0 then s
    else s[|s| + offset..]
  }

  lemma SliceFromElements<T>(s: seq<T>, offset: int)
    ensures forall k :: 0 <= k < |SliceFrom(s, offset)| ==> SliceFrom(s, offset)[k] in Elements(s)
  {
  }

  function FinishedMemory(t: TreeState): MemoryStore {
    MemoryStore(t.order, map id | id in t.nodes :: FinishedNode(t.nodes[id]), t.children)
  }

  // ------------------------------------------------------------- SQLite

  /** SELECT ... WHERE id = ? */
  function SelectById(rows: seq<Row>, id: int): Option<Row> {
    if rows == [] then None else if rows[0].node.id == id then Some(rows[0]) else SelectById(rows[1..], id)
  }

  /** SELECT ... WHERE parent_id = ? AND mounted_name = ? */
  function SelectChild(rows: seq<Row>, parent: int, name: Bytes): Option<Row> {
    if rows == [] then None
    else if IsChild(rows[0], parent) && rows[0].node.name == name then Some(rows[0])
    else SelectChild(rows[1..], parent, name)
  }

  predicate IsChild(row: Row, parent: int) {
    row.node.parent.Some? && row.node.parent.value == parent
  }

  /** SELECT ... WHERE parent_id = ? */
  function SelectChildren(rows: seq<Row>, parent: int): seq<Row> {
    if rows == [] then []
    else (if IsChild(rows[0], parent) then [rows[0]] else []) + SelectChildren(rows[1..], parent)
  }

  function InsertByName(row: Row, rows: seq<Row>): seq<Row> {
    if rows != [] && Less(rows[0].node.name, row.node.name) then [rows[0]] + InsertByName(row, rows[1..])
    else [row] + rows
  }

  /** ORDER BY mounted_name COLLATE BINARY */
  function OrderByName(rows: seq<Row>): seq<Row> {
    if rows == [] then [] else InsertByName(rows[0], OrderByName(rows[1..]))
  }

  function InsertById(row: Row, rows: seq<Row>): seq<Row> {
    if rows != [] && rows[0].node.id < row.node.id then [rows[0]] + InsertById(row, rows[1..])
    else [row] + rows
  }

  /** ORDER BY id */
  function OrderById(rows: seq<Row>): seq<Row> {
    if rows == [] then [] else InsertById(rows[0], OrderById(rows[1..]))
  }

  function NodesOf(rows: seq<Row>): seq<Node> {
    seq(|rows|, k requires 0 <= k < |rows| => rows[k].node)
  }

  /** A read-only SQLite store over a table of rows. */
  datatype SqliteStore = SqliteStore(rows: seq<Row>) {

    function GetNode(inode: int): Result<Node, QueryError> {
      if !Fits64(inode) then Failure(IntegerOverflow)
      else
        match SelectById(rows, inode)
        case None => Failure(NoSuchNode)
        case Some(row) => Success(row.node)
    }

    function Lookup(parent: int, name: Bytes): Result<Option<Node>, QueryError> {
      match GetNode(parent)
      case Failure(e) => Failure(e)
      case Success(_) =>
        match SelectChild(rows, parent, name)
        case None => Success(None)
        case Some(row) => Success(Some(row.node))
    }

    /** A negative offset counts from the end; LIMIT -1 OFFSET then skips what is left. */
    function IterChildren(parent: int, offset: int): Result<seq<Node>, QueryError> {
      match GetNode(parent)
      case Failure(e) => Failure(e)
      case Success(_) =>
        var count := |SelectChildren(rows, parent)|;
        if offset >= 0 && offset >= count then Success([])
        else
          var skip := if offset < 0 then (if count + offset > 0 then count + offset else 0) else offset;
          var ordered := OrderByName(SelectChildren(rows, parent));
          Success(NodesOf(if skip <= |ordered| then ordered[skip..] else []))
    }

    function IterNodes(): seq<Node> {
      NodesOf(OrderById(rows))
    }
  }

  function FinishedTable(t: TreeState): (rows: seq<Row>)
    requires forall k :: 0 <= k < |t.order| ==> t.order[k] in t.nodes
  {
    seq(|t.order|, k requires 0 <= k < |t.order| && t.order[k] in t.nodes => FinishedRow(t.nodes[t.order[k]]))
  }

  // ------------------------------------------------ what selections find

  lemma {:induction false} SelectByIdFinds(rows: seq<Row>, id: int)
    ensures match SelectById(rows, id)
      case None => forall k :: 0 <= k < |rows| ==> rows[k].node.id != id
      case Some(row) => row in rows && row.node.id == id
  {
    if rows != [] && rows[0].node.id != id {
      SelectByIdFinds(rows[1..], id);
      if SelectById(rows, id).None? {
        forall k | 0 <= k < |rows| ensures rows[k].node.id != id {
          assert k > 0 ==> rows[k] == rows[1..][k - 1];
        }
      }
    }
  }

  lemma {:induction false} SelectChildFinds(rows: seq<Row>, parent: int, name: Bytes)
    ensures match SelectChild(rows, parent, name)
      case None => forall k :: 0 <= k < |rows| ==> !(IsChild(rows[k], parent) && rows[k].node.name == name)
      case Some(row) => row in rows && IsChild(row, parent) && row.node.name == name
  {
    if rows != [] && !(IsChild(rows[0], parent) && rows[0].node.name == name) {
      SelectChildFinds(rows[1..], parent, name);
      if SelectChild(rows, parent, name).None? {
        forall k | 0 <= k < |rows| ensures !(IsChild(rows[k], parent) && rows[k].node.name == name) {
          assert k > 0 ==> rows[k] == rows[1..][k - 1];
        }
      }
    }
  }

  /** UNIQUE(parent_id, mounted_name) */
  predicate SiblingsDiffer(rows: seq<Row>) {
    forall i, j :: 0 <= i < j < |rows| && rows[i].node.parent == rows[j].node.parent
      ==> rows[i].node.name != rows[j].node.name
  }

  predicate NamesDiffer(rows: seq<Row>) {
    forall i, j :: 0 <= i < j < |rows| ==> rows[i].node.name != rows[j].node.name
  }

  lemma {:induction false} SelectChildrenFinds(rows: seq<Row>, parent: int)
    ensures forall row :: row in SelectChildren(rows, parent) <==> row in rows && IsChild(row, parent)
    ensures SiblingsDiffer(rows) ==> NamesDiffer(SelectChildren(rows, parent))
  {
    if rows != [] {
      var rest := SelectChildren(rows[1..], parent);
      SelectChildrenFinds(rows[1..], parent);
      assert rows == [rows[0]] + rows[1..];
      if SiblingsDiffer(rows) {
        forall i, j | 0 <= i < j < |rows[1..]| && rows[1..][i].node.parent == rows[1..][j].node.parent
          ensures rows[1..][i].node.name != rows[1..][j].node.name
        {
          assert rows[1..][i] == rows[i + 1] && rows[1..][j] == rows[j + 1];
        }
        forall j | 0 <= j < |rest| && IsChild(rows[0], parent) ensures rest[j].node.name != rows[0].node.name {
          assert rest[j] in rows[1..];
          var k :| 0 <= k < |rows[1..]| && rows[1..][k] == rest[j];
          assert rows[k + 1] == rest[j];
        }
      }
    }
  }

  function RowNames(rows: seq<Row>): seq<Bytes> {
    seq(|rows|, k requires 0 <= k < |rows| => rows[k].node.name)
  }

  lemma HeadStaysLeast(row: Row, rows: seq<Row>, sorted: seq<Row>)
    requires rows != [] && Ascending(RowNames(rows)) && Less(rows[0].node.name, row.node.name)
    requires multiset(sorted) == multiset{row} + multiset(rows[1..])
    ensures forall x :: x in Elements(RowNames(sorted)) ==> Less(rows[0].node.name, x)
  {
    var tail := rows[1..];
    forall x | x in Elements(RowNames(sorted)) ensures Less(rows[0].node.name, x) {
      var k :| 0 <= k < |sorted| && sorted[k].node.name == x;
      assert sorted[k] in multiset(sorted);
      if sorted[k] != row {
        assert sorted[k] in tail;
        var j :| 0 <= j < |tail| && tail[j] == sorted[k];
        assert RowNames(rows)[j + 1] == x && RowNames(rows)[0] == rows[0].node.name;
      }
    }
  }

  lemma NewHeadIsLeast(row: Row, rows: seq<Row>)
    requires Ascending(RowNames(rows))
    requires rows != [] ==> rows[0].node.name != row.node.name && !Less(rows[0].node.name, row.node.name)
    ensures forall x :: x in Elements(RowNames(rows)) ==> Less(row.node.name, x)
  {
    hide Less;
    forall x | x in Elements(RowNames(rows)) ensures Less(row.node.name, x) {
      var k :| 0 <= k < |rows| && rows[k].node.name == x;
      LessTotal(rows[0].node.name, row.node.name);
      if k > 0 {
        assert RowNames(rows)[0] == rows[0].node.name && RowNames(rows)[k] == x;
        LessTransitive(row.node.name, rows[0].node.name, x);
      }
    }
  }

  lemma {:induction false} InsertByNameSorts(row: Row, rows: seq<Row>)
    requires Ascending(RowNames(rows))
    requires forall k :: 0 <= k < |rows| ==> rows[k].node.name != row.node.name
    ensures Ascending(RowNames(InsertByName(row, rows)))
    ensures multiset(InsertByName(row, rows)) == multiset{row} + multiset(rows)
  {
    hide Less;
    if rows != [] {
      assert rows == [rows[0]] + rows[1..];
    }
    if rows != [] && Less(rows[0].node.name, row.node.name) {
      var tail := rows[1..];
      var sorted := InsertByName(row, tail);
      assert RowNames(tail) == RowNames(rows)[1..];
      InsertByNameSorts(row, tail);
      HeadStaysLeast(row, rows, sorted);
      AscendingCons(rows[0].node.name, RowNames(sorted));
      assert RowNames([rows[0]] + sorted) == [rows[0].node.name] + RowNames(sorted);
    } else {
      NewHeadIsLeast(row, rows);
      AscendingCons(row.node.name, RowNames(rows));
      assert RowNames([row] + rows) == [row.node.name] + RowNames(rows);
    }
  }

  lemma {:induction false} OrderByNameSorts(rows: seq<Row>)
    requires NamesDiffer(rows)
    ensures Ascending(RowNames(OrderByName(rows)))
    ensures multiset(OrderByName(rows)) == multiset(rows)
    ensures |OrderByName(rows)| == |rows|
  {
    if rows != [] {
      var tail := rows[1..];
      assert rows == [rows[0]] + tail;
      OrderByNameSorts(tail);
      var sorted := OrderByName(tail);
      forall k | 0 <= k < |sorted| ensures sorted[k].node.name != rows[0].node.name {
        assert sorted[k] in multiset(sorted);
        assert sorted[k] in tail;
        var j :| 0 <= j < |tail| && tail[j] == sorted[k];
        assert rows[j + 1] == sorted[k];
      }
      InsertByNameSorts(rows[0], sorted);
      assert |multiset(OrderByName(rows))| == |multiset(rows)|;
    }
  }

  lemma {:induction false} OrderByIdKeeps(rows: seq<Row>)
    requires forall i, j :: 0 <= i < j < |rows| ==> rows[i].node.id < rows[j].node.id
    ensures OrderById(rows) == rows
  {
    if rows != [] {
      OrderByIdKeeps(rows[1..]);
      assert rows == [rows[0]] + rows[1..];
    }
  }

  // --------------------------------------------------- the same answers

  lemma FinishedShape(t: TreeState)
    requires TreeOk(t)
    ensures forall k :: 0 <= k < |t.order| ==> t.order[k] in t.nodes
    ensures FinishedMemory(t).Closed()
    ensures |FinishedTable(t)| == t.next - 1
    ensures forall k :: 0 <= k < t.next - 1 ==> FinishedTable(t)[k] == FinishedRow(t.nodes[k + 1])
    ensures forall k :: 0 <= k < t.next - 1 ==> FinishedTable(t)[k].node.id == k + 1
  {
    TreeIsIndexed(t);
    forall id | id in t.nodes ensures t.nodes[id].id == id {
      assert NodeOk(t.nodes, id);
    }
  }

  lemma SameGetNode(t: TreeState, inode: int)
    requires TreeOk(t)
    ensures (forall k :: 0 <= k < |t.order| ==> t.order[k] in t.nodes)
    ensures FinishedMemory(t).GetNode(inode) ==
      if SelectById(FinishedTable(t), inode).Some? then Success(SelectById(FinishedTable(t), inode).value.node)
      else Failure(NoSuchNode)
    ensures SelectById(FinishedTable(t), inode).Some? <==> inode >= 0 && inode in t.nodes
  {
    hide FinishedTable;
    FinishedShape(t);
    var rows := FinishedTable(t);
    SelectByIdFinds(rows, inode);
    if inode >= 0 && inode in t.nodes {
      assert rows[inode - 1].node.id == inode;
    }
  }

  /** Row `k` is node `k + 1`: its identifier, parent and name. */
  ghost predicate Mirrors(t: TreeState, rows: seq<Row>) {
    && |rows| == t.next - 1
    && forall k :: 0 <= k < |rows| ==> rows[k].node.id == k + 1 && SamePlace(t, rows[k].node)
  }

  predicate SamePlace(t: TreeState, node: Node) {
    node.id in t.nodes && node.parent == t.nodes[node.id].parent && node.name == t.nodes[node.id].name
  }

  lemma FinishedMirrors(t: TreeState)
    requires TreeOk(t)
    ensures (forall k :: 0 <= k < |t.order| ==> t.order[k] in t.nodes)
    ensures Mirrors(t, FinishedTable(t))
  {
    hide FinishedTable;
    FinishedShape(t);
  }

  lemma MirrorSiblingsDiffer(t: TreeState, rows: seq<Row>)
    requires TreeOk(t) && Mirrors(t, rows)
    ensures SiblingsDiffer(rows)
  {
    forall i, j | 0 <= i < j < |rows| && rows[i].node.parent == rows[j].node.parent
      ensures rows[i].node.name != rows[j].node.name
    {
      assert LinkOk(t.nodes, i + 1) && LinkOk(t.nodes, j + 1);
      assert Indexed(t, i + 1) && Indexed(t, j + 1);
    }
  }

  /** A row is a child exactly when the index leads to it. */
  lemma MirrorChild(t: TreeState, rows: seq<Row>, parent: nat, row: Row)
    requires TreeOk(t) && Mirrors(t, rows) && parent in t.nodes
    ensures parent in t.children
    ensures row in rows && IsChild(row, parent) <==>
      (row.node.name in t.children[parent] && 1 <= t.children[parent][row.node.name] <= |rows|
       && row == rows[t.children[parent][row.node.name] - 1])
  {
    if row in rows && IsChild(row, parent) {
      var k :| 0 <= k < |rows| && rows[k] == row;
      assert LinkOk(t.nodes, k + 1) && Indexed(t, k + 1);
    }
    if row.node.name in t.children[parent] {
      assert EntryOk(t, parent, row.node.name);
    }
  }

  /** Selecting by parent and name is looking up in the child index. */
  lemma MirrorSelect(t: TreeState, rows: seq<Row>, parent: nat, name: Bytes)
    requires TreeOk(t) && Mirrors(t, rows) && parent in t.nodes
    ensures parent in t.children
    ensures match SelectChild(rows, parent, name)
      case None => name !in t.children[parent]
      case Some(row) =>
        && name in t.children[parent]
        && 1 <= t.children[parent][name] <= |rows|
        && row == rows[t.children[parent][name] - 1]
  {
    SelectChildFinds(rows, parent, name);
    if name in t.children[parent] {
      assert EntryOk(t, parent, name);
      assert rows[t.children[parent][name] - 1].node.id == t.children[parent][name];
    }
    if SelectChild(rows, parent, name).Some? {
      MirrorChild(t, rows, parent, SelectChild(rows, parent, name).value);
    }
  }

  lemma ChildRow(t: TreeState, parent: nat, row: Row)
    requires TreeOk(t) && parent in t.nodes
    ensures (forall k :: 0 <= k < |t.order| ==> t.order[k] in t.nodes)
    ensures parent in t.children
    ensures row in FinishedTable(t) && IsChild(row, parent) <==> IsIndexed(t, parent, row)
  {
    hide FinishedTable;
    hide FinishedRow;
    FinishedShape(t);
    FinishedMirrors(t);
    MirrorChild(t, FinishedTable(t), parent, row);
    if row.node.name in t.children[parent] {
      assert EntryOk(t, parent, row.node.name);
    }
  }

  lemma SameLookup(t: TreeState, parent: nat, name: Bytes)
    requires TreeOk(t) && parent in t.nodes
    ensures (forall k :: 0 <= k < |t.order| ==> t.order[k] in t.nodes) && FinishedMemory(t).Closed()
    ensures FinishedMemory(t).Lookup(parent, name) == Success(
      match SelectChild(FinishedTable(t), parent, name)
      case None => None
      case Some(row) => Some(row.node))
  {
    hide FinishedTable;
    FinishedShape(t);
    FinishedMirrors(t);
    MirrorSelect(t, FinishedTable(t), parent, name);
  }

  /** The finished child that the index leads to. */
  predicate IsIndexed(t: TreeState, parent: nat, row: Row)
    requires parent in t.children
  {
    && row.node.name in t.children[parent]
    && t.children[parent][row.node.name] in t.nodes
    && row == FinishedRow(t.nodes[t.children[parent][row.node.name]])
  }

  lemma OrderedChildren(t: TreeState, parent: nat) returns (found: seq<Row>, ordered: seq<Row>)
    requires TreeOk(t) && parent in t.nodes
    ensures (forall k :: 0 <= k < |t.order| ==> t.order[k] in t.nodes)
    ensures found == SelectChildren(FinishedTable(t), parent) && ordered == OrderByName(found)
    ensures |ordered| == |found| && Ascending(RowNames(ordered))
    ensures forall row :: row in ordered <==> row in FinishedTable(t) && IsChild(row, parent)
  {
    hide FinishedTable;
    FinishedShape(t);
    FinishedMirrors(t);
    MirrorSiblingsDiffer(t, FinishedTable(t));
    found := SelectChildren(FinishedTable(t), parent);
    ordered := OrderByName(found);
    SelectChildrenFinds(FinishedTable(t), parent);
    OrderByNameSorts(found);
    forall row ensures row in ordered <==> row in found {
      assert row in multiset(ordered) <==> row in multiset(found);
    }
  }

  lemma IndexedChild(t: TreeState, parent: nat, name: Bytes) returns (row: Row)
    requires TreeOk(t) && parent in t.nodes && parent in t.children && name in t.children[parent]
    ensures row.node.name == name && IsIndexed(t, parent, row)
  {
    assert EntryOk(t, parent, name);
    row := FinishedRow(t.nodes[t.children[parent][name]]);
  }

  /** Ordered by name, the child rows are the nodes of the sorted child names. */
  lemma SameChildren(t: TreeState, parent: nat) returns (ordered: seq<Row>)
    requires TreeOk(t) && parent in t.nodes
    ensures (forall k :: 0 <= k < |t.order| ==> t.order[k] in t.nodes)
    ensures parent in t.children
    ensures ordered == OrderByName(SelectChildren(FinishedTable(t), parent))
    ensures |ordered| == |SelectChildren(FinishedTable(t), parent)|
    ensures RowNames(ordered) == Sorted(t.children[parent].Keys)
    ensures forall k :: 0 <= k < |ordered| ==> IsIndexed(t, parent, ordered[k])
  {
    hide FinishedTable;
    hide SelectChildren;
    hide OrderByName;
    var found;
    found, ordered := OrderedChildren(t, parent);
    var names := t.children[parent].Keys;
    forall k | 0 <= k < |ordered| ensures IsIndexed(t, parent, ordered[k]) {
      ChildRow(t, parent, ordered[k]);
    }
    forall n | n in names ensures n in RowNames(ordered) {
      var row := IndexedChild(t, parent, n);
      ChildRow(t, parent, row);
      var k :| 0 <= k < |ordered| && ordered[k] == row;
      assert RowNames(ordered)[k] == n;
    }
    forall n | n in RowNames(ordered) ensures n in names {
      var k :| 0 <= k < |ordered| && RowNames(ordered)[k] == n;
      assert IsIndexed(t, parent, ordered[k]);
    }
    assert Elements(RowNames(ordered)) == names;
    AscendingUnique(RowNames(ordered), Sorted(names));
  }

  lemma SliceOfNames(ordered: seq<Row>, offset: int)
    ensures SliceFrom(RowNames(ordered), offset) == RowNames(SliceFrom(ordered, offset))
  {
  }

  /** What SQLite's OFFSET leaves is Python's slice. */
  lemma OffsetIsSlice(rows: seq<Row>, parent: int, offset: int)
    requires Fits64(parent) && SelectById(rows, parent).Some?
    requires |OrderByName(SelectChildren(rows, parent))| == |SelectChildren(rows, parent)|
    ensures SqliteStore(rows).IterChildren(parent, offset)
         == Success(NodesOf(SliceFrom(OrderByName(SelectChildren(rows, parent)), offset)))
  {
    hide OrderByName;
    hide SelectChildren;
    hide SelectById;
    var ordered := OrderByName(SelectChildren(rows, parent));
    assert ordered[0..] == ordered;
    var none: seq<Row> := [];
    assert NodesOf(none) == [];
  }

  lemma SameIterChildren(t: TreeState, parent: nat, offset: int)
    requires TreeOk(t) && parent in t.nodes && Fits64(parent)
    ensures (forall k :: 0 <= k < |t.order| ==> t.order[k] in t.nodes) && FinishedMemory(t).Closed()
    ensures FinishedMemory(t).IterChildren(parent, offset) == SqliteStore(FinishedTable(t)).IterChildren(parent, offset)
  {
    hide FinishedTable;
    hide OrderByName;
    hide SelectChildren;
    hide FinishedRow;
    FinishedShape(t);
    SameGetNode(t, parent);
    var ordered := SameChildren(t, parent);
    OffsetIsSlice(FinishedTable(t), parent, offset);
    SliceOfNames(ordered, offset);
    var part := SliceFrom(ordered, offset);
    SliceFromElements(ordered, offset);
    MemoryChildren(t, parent, offset, part);
  }

  lemma MemoryChildren(t: TreeState, parent: nat, offset: int, part: seq<Row>)
    requires FinishedMemory(t).Closed() && parent in t.children
    requires SliceFrom(Sorted(t.children[parent].Keys), offset) == RowNames(part)
    requires forall row :: row in part ==> IsIndexed(t, parent, row)
    ensures FinishedMemory(t).IterChildren(parent, offset) == Success(NodesOf(part))
  {
    var mem := FinishedMemory(t);
    var ids := t.children[parent];
    forall k | 0 <= k < |part| ensures RowNames(part)[k] in ids && mem.nodes[ids[RowNames(part)[k]]] == part[k].node {
      assert IsIndexed(t, parent, part[k]);
    }
    hide IsIndexed, FinishedNode, Sorted;
    var nodes := mem.IterChildren(parent, offset).value;
    assert |nodes| == |part|;
    forall k | 0 <= k < |part| ensures nodes[k] == part[k].node {
    }
    assert nodes == NodesOf(part);
  }

  /**
   Both stores answer alike: `get_node`, `lookup` and `iter_children` for every inode that
   fits 64 bits and every offset, and `iter_nodes`.
   */
  lemma SameAnswers(t: TreeState, inode: int, name: Bytes, offset: int)
    requires TreeOk(t)
    ensures (forall k :: 0 <= k < |t.order| ==> t.order[k] in t.nodes) && FinishedMemory(t).Closed()
    ensures var mem, sql := FinishedMemory(t), SqliteStore(FinishedTable(t));
      && mem.IterNodes() == sql.IterNodes()
      && (Fits64(inode) ==>
            && mem.GetNode(inode) == sql.GetNode(inode)
            && mem.Lookup(inode, name) == sql.Lookup(inode, name)
            && mem.IterChildren(inode, offset) == sql.IterChildren(inode, offset))
  {
    FinishedShape(t);
    var mem, sql := FinishedMemory(t), SqliteStore(FinishedTable(t));
    OrderByIdKeeps(sql.rows);
    assert mem.IterNodes() == NodesOf(sql.rows);
    SameGetNode(t, inode);
    if Fits64(inode) && inode >= 0 && inode in t.nodes {
      SameLookup(t, inode, name);
      SameIterChildren(t, inode, offset);
    }
  }

  /** Beyond 64 bits they differ on every query: memory has no such node, SQLite cannot bind
      the number. */
  lemma AnswersDifferBeyond64(t: TreeState, inode: int, name: Bytes, offset: int)
    requires TreeOk(t) && t.next <= 0x8000_0000_0000_0000
    ensures (forall k :: 0 <= k < |t.order| ==> t.order[k] in t.nodes) && FinishedMemory(t).Closed()
    ensures var mem, sql := FinishedMemory(t), SqliteStore(FinishedTable(t));
      if Fits64(inode) then
        && mem.GetNode(inode) == sql.GetNode(inode)
        && mem.Lookup(inode, name) == sql.Lookup(inode, name)
        && mem.IterChildren(inode, offset) == sql.IterChildren(inode, offset)
      else
        && mem.GetNode(inode) == Failure(NoSuchNode) && sql.GetNode(inode) == Failure(IntegerOverflow)
        && mem.Lookup(inode, name) == Failure(NoSuchNode) && sql.Lookup(inode, name) == Failure(IntegerOverflow)
        && mem.IterChildren(inode, offset) == Failure(NoSuchNode)
        && sql.IterChildren(inode, offset) == Failure(IntegerOverflow)
  {
    hide FinishedTable;
    SameAnswers(t, inode, name, offset);
    if !Fits64(inode) && inode >= 0 {
      assert inode !in t.nodes && inode !in t.children;
    }
  }
}
