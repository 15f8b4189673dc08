/**
 `print_tree` over a validated artifact: the recursion ends, and prints every node but the
 root exactly once, indented by its depth.
 */
module CliOutput {
  import opened Core
  import opened Building
  import opened Forest
  import opened Ordering
  import opened Stores
  import opened Compatibility
  import opened PathMaps
  import opened Tree
  import opened Unicode
  import opened Validation

  /** One printed line: its indentation and the node it shows. */
  datatype Visit = Visit(depth: nat, node: Node)

  /** What validation and the schema leave `print_tree` with. */
  ghost predicate Printable(rows: seq<Row>) {
    && Keyed(rows) && SiblingsDiffer(rows)
    && ParentsAreDirectories(rows) && AllReachRoot(rows)
    && 1 in ParentsOf(rows) && !OwnAncestor(ParentsOf(rows), 1)
  }

  ghost predicate AtDepth(rows: seq<Row>, v: nat, depth: nat)
    requires Keyed(rows)
  {
    Ancestor(ParentsOf(rows), v, depth) == Some(1)
  }

  lemma ChildrenOneDeeper(rows: seq<Row>, parent: nat, depth: nat)
    requires Printable(rows) && AtDepth(rows, parent, depth)
    ensures depth < |rows|
    ensures var list := OrderByName(SelectChildren(rows, parent));
      && (forall row :: row in list <==> row in rows && IsChild(row, parent))
      && (forall k :: 0 <= k < |list| ==> AtDepth(rows, list[k].node.id, depth + 1))
      && NamesDiffer(list) && |list| == |SelectChildren(rows, parent)|
      && Ascending(RowNames(list))
  {
    hide ParentsOf;
    DepthBound(ParentsOf(rows), parent, depth);
    ParentsSize(rows);
    var found := SelectChildren(rows, parent);
    var list := OrderByName(found);
    SelectChildrenFinds(rows, parent);
    OrderByNameSorts(found);
    forall row ensures row in list <==> row in rows && IsChild(row, parent) {
      assert row in multiset(list) <==> row in multiset(found);
    }
    forall k | 0 <= k < |list| ensures AtDepth(rows, list[k].node.id, depth + 1) {
      ParentsOfRow(rows, list[k]);
    }
    forall i, j | 0 <= i < j < |list| ensures list[i].node.name != list[j].node.name {
      LessTotal(RowNames(list)[i], RowNames(list)[j]);
    }
  }

  /** The inner `visit(parent, depth + 1)`. */
  ghost function VisitChildren(rows: seq<Row>, parent: nat, depth: nat): seq<Visit>
    requires Printable(rows) && AtDepth(rows, parent, depth)
    decreases |rows| - depth, 1, 0
  {
    ChildrenOneDeeper(rows, parent, depth);
    VisitAll(rows, OrderByName(SelectChildren(rows, parent)), depth)
  }

  /** Its loop: each child, followed by what is below it. */
  ghost function VisitAll(rows: seq<Row>, list: seq<Row>, depth: nat): seq<Visit>
    requires Printable(rows) && depth < |rows|
    requires forall k :: 0 <= k < |list| ==> AtDepth(rows, list[k].node.id, depth + 1)
    decreases |rows| - depth, 0, |list|
  {
    if list == [] then []
    else
      [Visit(depth + 1, list[0].node)]
      + (if list[0].node.kind.Directory? then VisitChildren(rows, list[0].node.id, depth + 1) else [])
      + VisitAll(rows, list[1..], depth)
  }

  /** The lines of the whole tree, below the "/" printed first. */
  ghost function PrintTree(rows: seq<Row>): seq<Visit>
    requires Printable(rows)
  {
    NamesOfRoot(rows);
    assert Ancestor(ParentsOf(rows), 1, 0) == Some(1);
    VisitChildren(rows, 1, 0)
  }

  function VisitedIds(visits: seq<Visit>): seq<nat> {
    seq(|visits|, k requires 0 <= k < |visits| => visits[k].node.id)
  }

  /** `v` is in the subtree of `u`, whose root it may be only if `k` allows it. */
  ghost predicate Under(p: Parents, v: nat, u: nat, least: nat) {
    exists k: nat :: k >= least && Ancestor(p, v, k) == Some(u)
  }

  /** Subtrees of different nodes at one depth have nothing in common. */
  lemma SubtreesApart(rows: seq<Row>, v: nat, a: nat, b: nat, depth: nat)
    requires Printable(rows) && AtDepth(rows, a, depth) && AtDepth(rows, b, depth)
    requires Under(ParentsOf(rows), v, a, 0) && Under(ParentsOf(rows), v, b, 0)
    ensures a == b
  {
    hide ParentsOf;
    var p := ParentsOf(rows);
    var k: nat :| Ancestor(p, v, k) == Some(a);
    var m: nat :| Ancestor(p, v, m) == Some(b);
    AncestorAdds(p, v, k, depth);
    AncestorAdds(p, v, m, depth);
    DepthUnique(p, v, k + depth, m + depth);
  }

  lemma NotBelowItself(rows: seq<Row>, v: nat, depth: nat)
    requires Printable(rows) && AtDepth(rows, v, depth)
    ensures !Under(ParentsOf(rows), v, v, 1)
  {
    hide ParentsOf;
    var p := ParentsOf(rows);
    forall k: nat | k >= 1 ensures Ancestor(p, v, k) != Some(v) {
      if Ancestor(p, v, k) == Some(v) {
        AncestorAdds(p, v, k, depth);
        DepthUnique(p, v, k + depth, depth);
      }
    }
  }

  /** Something strictly below a node is below one of its children, and conversely. */
  lemma BelowThroughChild(rows: seq<Row>, v: nat, parent: nat)
    requires Keyed(rows) && parent in ParentsOf(rows)
    ensures Under(ParentsOf(rows), v, parent, 1) <==>
      exists row :: row in rows && IsChild(row, parent) && Under(ParentsOf(rows), v, row.node.id, 0)
  {
    hide ParentsOf;
    var p := ParentsOf(rows);
    if Under(p, v, parent, 1) {
      var k: nat :| k >= 1 && Ancestor(p, v, k) == Some(parent);
      var j: nat := k - 1;
      AncestorsBelow(p, v, j, k);
      var c := Ancestor(p, v, j).value;
      AncestorAdds(p, v, j, 1);
      assert Ancestor(p, c, 1) == Some(parent);
      var row := RowOfParent(rows, c);
      assert j >= 0 && Ancestor(p, v, j) == Some(row.node.id);
      assert IsChild(row, parent);
    }
    if row :| row in rows && IsChild(row, parent) && Under(p, v, row.node.id, 0) {
      var j: nat :| Ancestor(p, v, j) == Some(row.node.id);
      ParentsOfRow(rows, row);
      AncestorsBelow(p, v, j, j);
      AncestorAdds(p, v, j, 1);
      var k: nat := j + 1;
      assert k >= 1 && Ancestor(p, v, k) == Some(parent);
    }
  }

  /** `visits` shows exactly the nodes under the listed ones, each once and at its depth. */
  ghost predicate Shows(rows: seq<Row>, visits: seq<Visit>, list: seq<Row>)
    requires Keyed(rows)
  {
    && NoRepeats(VisitedIds(visits))
    && (forall v :: v in VisitedIds(visits) <==> exists row :: row in list && Under(ParentsOf(rows), v, row.node.id, 0))
    && (forall x :: x in visits ==>
          AtDepth(rows, x.node.id, x.depth) && exists row :: row in rows && row.node == x.node)
  }

  /** A file has nothing below it; a directory has what its children have. */
  ghost predicate ShowsBelow(rows: seq<Row>, visits: seq<Visit>, parent: nat)
    requires Keyed(rows)
  {
    && NoRepeats(VisitedIds(visits))
    && (forall v :: v in VisitedIds(visits) <==> Under(ParentsOf(rows), v, parent, 1))
    && (forall x :: x in visits ==>
          AtDepth(rows, x.node.id, x.depth) && exists row :: row in rows && row.node == x.node)
  }

  lemma NothingUnderFile(rows: seq<Row>, row: Row)
    requires Printable(rows) && row in rows && !row.node.kind.Directory?
    ensures ShowsBelow(rows, [], row.node.id)
  {
    hide ParentsOf;
    ParentsOfRow(rows, row);
    forall v ensures !Under(ParentsOf(rows), v, row.node.id, 1) {
      BelowThroughChild(rows, v, row.node.id);
    }
  }

  /** One child, what is below it, and the rest of the loop. */
  lemma ShowsOneMore(rows: seq<Row>, row: Row, inside: seq<Visit>, rest: seq<Visit>, list: seq<Row>, depth: nat)
    requires Printable(rows) && row in rows && AtDepth(rows, row.node.id, depth)
    requires forall k :: 0 <= k < |list| ==> AtDepth(rows, list[k].node.id, depth) && list[k].node.id != row.node.id
    requires ShowsBelow(rows, inside, row.node.id) && Shows(rows, rest, list)
    ensures Shows(rows, [Visit(depth, row.node)] + inside + rest, [row] + list)
  {
    hide ParentsOf;
    var p := ParentsOf(rows);
    var id := row.node.id;
    var visits := [Visit(depth, row.node)] + inside + rest;
    assert VisitedIds(visits) == [id] + VisitedIds(inside) + VisitedIds(rest);
    UnderSelf(rows, id, depth);
    NotBelowItself(rows, id, depth);
    NoRepeatsAppend([id], VisitedIds(inside));
    forall v | v in [id] + VisitedIds(inside) ensures v !in VisitedIds(rest) && Under(p, v, id, 0) {
      UnderWeaker(p, v, id);
      if v in VisitedIds(rest) {
        var other :| other in list && Under(p, v, other.node.id, 0);
        SubtreesApart(rows, v, id, other.node.id, depth);
      }
    }
    NoRepeatsAppend([id] + VisitedIds(inside), VisitedIds(rest));
    forall v ensures v in VisitedIds(visits) <==> exists r :: r in [row] + list && Under(p, v, r.node.id, 0) {
      UnderSplit(p, v, id);
      if v in VisitedIds(rest) {
        var r :| r in list && Under(p, v, r.node.id, 0);
        assert r in [row] + list;
      } else if v in VisitedIds(visits) {
        assert row in [row] + list;
      }
    }
  }

  lemma UnderSelf(rows: seq<Row>, v: nat, depth: nat)
    requires Keyed(rows) && AtDepth(rows, v, depth)
    ensures Under(ParentsOf(rows), v, v, 0)
  {
    var z: nat := 0;
    assert z >= 0 && Ancestor(ParentsOf(rows), v, z) == Some(v);
  }

  lemma UnderWeaker(p: Parents, v: nat, u: nat)
    ensures Under(p, v, u, 1) ==> Under(p, v, u, 0)
  {
  }

  lemma UnderSplit(p: Parents, v: nat, u: nat)
    ensures Under(p, v, u, 0) ==> v == u || Under(p, v, u, 1)
  {
    if Under(p, v, u, 0) {
      var k: nat :| Ancestor(p, v, k) == Some(u);
      assert k == 0 || k >= 1;
    }
  }

  lemma {:induction false} VisitAllShows(rows: seq<Row>, list: seq<Row>, depth: nat)
    requires Printable(rows) && depth < |rows|
    requires forall k :: 0 <= k < |list| ==> list[k] in rows && AtDepth(rows, list[k].node.id, depth + 1)
    requires forall i, j :: 0 <= i < j < |list| ==> list[i].node.id != list[j].node.id
    ensures Shows(rows, VisitAll(rows, list, depth), list)
    decreases |rows| - depth, 0, |list|
  {
    hide ParentsOf;
    if list != [] {
      var row, tail := list[0], list[1..];
      assert list == [row] + tail;
      VisitAllShows(rows, tail, depth);
      if row.node.kind.Directory? {
        VisitChildrenShows(rows, row.node.id, depth + 1);
        var inside := VisitChildren(rows, row.node.id, depth + 1);
        ShowsOneMore(rows, row, inside, VisitAll(rows, tail, depth), tail, depth + 1);
      } else {
        NothingUnderFile(rows, row);
        ShowsOneMore(rows, row, [], VisitAll(rows, tail, depth), tail, depth + 1);
      }
    }
  }

  lemma {:induction false} VisitChildrenShows(rows: seq<Row>, parent: nat, depth: nat)
    requires Printable(rows) && AtDepth(rows, parent, depth)
    ensures ShowsBelow(rows, VisitChildren(rows, parent, depth), parent)
    decreases |rows| - depth, 1, 0
  {
    hide ParentsOf;
    ChildrenOneDeeper(rows, parent, depth);
    AncestorsBelow(ParentsOf(rows), parent, 0, depth);
    var list := OrderByName(SelectChildren(rows, parent));
    forall i, j | 0 <= i < j < |list| ensures list[i].node.id != list[j].node.id {
      assert list[i] in rows && list[j] in rows;
      KeyedUnique(rows);
    }
    VisitAllShows(rows, list, depth);
    forall v ensures v in VisitedIds(VisitChildren(rows, parent, depth)) <==> Under(ParentsOf(rows), v, parent, 1) {
      BelowThroughChild(rows, v, parent);
    }
  }

  lemma UnderRoot(rows: seq<Row>, v: nat)
    requires Printable(rows)
    ensures Under(ParentsOf(rows), v, 1, 1) <==> v in ParentsOf(rows) && v != 1
  {
    hide ParentsOf;
    var p := ParentsOf(rows);
    assert Ancestor(p, 1, 0) == Some(1);
    NotBelowItself(rows, 1, 0);
    if v in p && v != 1 {
      var row := RowOfParent(rows, v);
      var n: nat :| Ancestor(p, v, n) == Some(1);
      assert n >= 1;
    }
  }

  /** `print_tree` prints every node but the root, each exactly once and at its depth. */
  lemma PrintsEveryNodeOnce(rows: seq<Row>)
    requires Printable(rows)
    ensures var visits := PrintTree(rows);
      && NoRepeats(VisitedIds(visits))
      && (forall v :: v in VisitedIds(visits) <==> v in ParentsOf(rows) && v != 1)
      && (forall x :: x in visits ==>
            && (exists row :: row in rows && row.node == x.node)
            && Ancestor(ParentsOf(rows), x.node.id, x.depth) == Some(1))
      && |visits| == |rows| - 1
  {
    hide ParentsOf;
    var p := ParentsOf(rows);
    var visits := PrintTree(rows);
    NamesOfRoot(rows);
    assert Ancestor(p, 1, 0) == Some(1);
    VisitChildrenShows(rows, 1, 0);
    forall v ensures v in VisitedIds(visits) <==> v in p && v != 1 {
      UnderRoot(rows, v);
    }
    AllButRoot(rows, VisitedIds(visits));
  }

  lemma AllButRoot(rows: seq<Row>, ids: seq<nat>)
    requires Keyed(rows) && 1 in ParentsOf(rows) && NoRepeats(ids)
    requires forall v :: v in ids <==> v in ParentsOf(rows) && v != 1
    ensures |ids| == |rows| - 1
  {
    hide ParentsOf;
    NoRepeatsSize(ids);
    ParentsSize(rows);
    assert ParentsOf(rows).Keys == Elements(ids) + {1};
  }

  // ------------------------------------------------------- how it reads

  /** Line `j` is the parent of line `k`: one step less indented, and the last such line. */
  ghost predicate IsParentLine(visits: seq<Visit>, j: nat, k: nat)
    requires j < k < |visits|
  {
    && visits[j].depth + 1 == visits[k].depth && visits[k].node.parent == Some(visits[j].node.id)
    && forall i :: j < i < k ==> visits[i].depth >= visits[k].depth
  }

  ghost predicate Indented(visits: seq<Visit>, k: nat, parent: nat, depth: nat)
    requires k < |visits|
  {
    && visits[k].depth > depth
    && if visits[k].depth == depth + 1 then visits[k].node.parent == Some(parent)
       else exists j: nat :: j < k && IsParentLine(visits, j, k)
  }

  /** Every line stands below its parent, as its indentation says. */
  ghost predicate Nested(visits: seq<Visit>, parent: nat, depth: nat) {
    forall k :: 0 <= k < |visits| ==> Indented(visits, k, parent, depth)
  }

  /** Equally indented lines with nothing less indented in between. */
  ghost predicate Siblings(visits: seq<Visit>, j: int, k: int) {
    && 0 <= j < k < |visits| && visits[j].depth == visits[k].depth
    && forall i :: j < i < k ==> visits[i].depth >= visits[k].depth
  }

  ghost predicate SiblingsAscend(visits: seq<Visit>) {
    forall j, k :: Siblings(visits, j, k) ==> Less(visits[j].node.name, visits[k].node.name)
  }

  /** The least indented lines are the listed rows. */
  ghost predicate TopLines(visits: seq<Visit>, list: seq<Row>, depth: nat) {
    && (forall k :: 0 <= k < |visits| && visits[k].depth == depth + 1 ==>
          exists row :: row in list && row.node == visits[k].node)
    && (visits != [] ==> visits[0].depth == depth + 1)
  }

  ghost predicate ReadsAs(visits: seq<Visit>, list: seq<Row>, parent: nat, depth: nat) {
    Nested(visits, parent, depth) && SiblingsAscend(visits) && TopLines(visits, list, depth)
  }

  lemma ShiftParentLine(visits: seq<Visit>, n: nat, j: nat, k: nat)
    requires n <= |visits| && j < k < |visits| - n && IsParentLine(visits[n..], j, k)
    ensures IsParentLine(visits, n + j, n + k)
  {
    forall i | n + j < i < n + k ensures visits[i].depth >= visits[n + k].depth {
      assert visits[n..][i - n].depth >= visits[n..][k].depth;
    }
  }

  lemma NestedOneMore(row: Row, inside: seq<Visit>, rest: seq<Visit>, parent: nat, depth: nat)
    requires IsChild(row, parent) && Nested(inside, row.node.id, depth + 1) && Nested(rest, parent, depth)
    ensures Nested([Visit(depth + 1, row.node)] + inside + rest, parent, depth)
  {
    var visits := [Visit(depth + 1, row.node)] + inside + rest;
    forall k | 0 <= k < |visits| ensures Indented(visits, k, parent, depth) {
      if 0 < k <= |inside| {
        InsideIndented(row, inside, rest, parent, depth, k);
      } else if k > |inside| {
        RestIndented([Visit(depth + 1, row.node)] + inside, rest, parent, depth, k - 1 - |inside|);
      }
    }
  }

  lemma InsideIndented(row: Row, inside: seq<Visit>, rest: seq<Visit>, parent: nat, depth: nat, k: nat)
    requires Nested(inside, row.node.id, depth + 1) && 0 < k <= |inside|
    ensures Indented([Visit(depth + 1, row.node)] + inside + rest, k, parent, depth)
  {
    var visits := [Visit(depth + 1, row.node)] + inside + rest;
    assert visits[k] == inside[k - 1] && Indented(inside, k - 1, row.node.id, depth + 1);
    if inside[k - 1].depth == depth + 2 {
      forall i | 0 < i < k ensures visits[i].depth >= visits[k].depth {
        assert visits[i] == inside[i - 1] && Indented(inside, i - 1, row.node.id, depth + 1);
      }
      assert IsParentLine(visits, 0, k);
    } else {
      var j: nat :| j < k - 1 && IsParentLine(inside, j, k - 1);
      forall i | j + 1 < i < k ensures visits[i].depth >= visits[k].depth {
        assert visits[i] == inside[i - 1];
      }
      assert visits[j + 1] == inside[j];
      assert IsParentLine(visits, j + 1, k);
    }
  }

  lemma RestIndented(front: seq<Visit>, rest: seq<Visit>, parent: nat, depth: nat, k: nat)
    requires Nested(rest, parent, depth) && k < |rest|
    ensures Indented(front + rest, |front| + k, parent, depth)
  {
    var visits := front + rest;
    assert visits[|front|..] == rest && visits[|front| + k] == rest[k] && Indented(rest, k, parent, depth);
    if rest[k].depth != depth + 1 {
      var j: nat :| j < k && IsParentLine(rest, j, k);
      ShiftParentLine(visits, |front|, j, k);
    }
  }

  lemma NestedIsDeeper(visits: seq<Visit>, parent: nat, depth: nat)
    requires Nested(visits, parent, depth)
    ensures forall k :: 0 <= k < |visits| ==> visits[k].depth > depth
  {
    forall k | 0 <= k < |visits| ensures visits[k].depth > depth {
      assert Indented(visits, k, parent, depth);
    }
  }

  lemma AscendOneMore(row: Row, inside: seq<Visit>, rest: seq<Visit>, list: seq<Row>, parent: nat, depth: nat)
    requires Nested(inside, row.node.id, depth + 1) && SiblingsAscend(inside)
    requires ReadsAs(rest, list, parent, depth)
    requires forall r :: r in list ==> Less(row.node.name, r.node.name)
    ensures SiblingsAscend([Visit(depth + 1, row.node)] + inside + rest)
  {
    var visits := [Visit(depth + 1, row.node)] + inside + rest;
    var n := 1 + |inside|;
    assert forall i :: 0 < i < n ==> visits[i] == inside[i - 1];
    assert forall i :: n <= i < |visits| ==> visits[i] == rest[i - n];
    assert rest != [] ==> visits[n].depth == depth + 1;
    NestedIsDeeper(inside, row.node.id, depth + 1);
    forall j, k | Siblings(visits, j, k) ensures Less(visits[j].node.name, visits[k].node.name) {
      if 0 < j && k < n {
        assert Siblings(inside, j - 1, k - 1) by {
          forall i | j - 1 < i < k - 1 ensures inside[i].depth >= inside[k - 1].depth {
            assert visits[i + 1].depth >= visits[k].depth;
          }
        }
      } else if n <= j {
        assert Siblings(rest, j - n, k - n) by {
          forall i | j - n < i < k - n ensures rest[i].depth >= rest[k - n].depth {
            assert visits[i + n].depth >= visits[k].depth;
          }
        }
      }
    }
  }

  lemma TopOneMore(row: Row, inside: seq<Visit>, rest: seq<Visit>, list: seq<Row>, depth: nat)
    requires Nested(inside, row.node.id, depth + 1) && TopLines(rest, list, depth)
    ensures TopLines([Visit(depth + 1, row.node)] + inside + rest, [row] + list, depth)
  {
    var visits := [Visit(depth + 1, row.node)] + inside + rest;
    NestedIsDeeper(inside, row.node.id, depth + 1);
    assert forall i :: 0 < i <= |inside| ==> visits[i] == inside[i - 1];
    forall k | 0 <= k < |visits| && visits[k].depth == depth + 1
      ensures exists r :: r in [row] + list && r.node == visits[k].node
    {
      if k == 0 {
        assert row in [row] + list;
      } else {
        assert k > |inside|;
        var r :| r in list && r.node == rest[k - 1 - |inside|].node;
        assert r in [row] + list;
      }
    }
  }

  lemma {:induction false} VisitAllReads(rows: seq<Row>, list: seq<Row>, parent: nat, depth: nat)
    requires Printable(rows) && depth < |rows|
    requires forall k :: 0 <= k < |list| ==> IsChild(list[k], parent) && AtDepth(rows, list[k].node.id, depth + 1)
    requires Ascending(RowNames(list))
    ensures ReadsAs(VisitAll(rows, list, depth), list, parent, depth)
    decreases |rows| - depth, 0, |list|
  {
    hide Printable, AtDepth, Nested, SiblingsAscend, TopLines;
    if list == [] {
      NothingReads(list, parent, depth);
    } else {
      var row, tail := list[0], list[1..];
      assert list == [row] + tail;
      forall r | r in tail ensures Less(row.node.name, r.node.name) {
        var k :| 0 <= k < |tail| && tail[k] == r;
        assert RowNames(list)[0] == row.node.name && RowNames(list)[k + 1] == r.node.name;
      }
      assert RowNames(tail) == RowNames(list)[1..];
      VisitAllReads(rows, tail, parent, depth);
      var inside := if row.node.kind.Directory? then VisitChildren(rows, row.node.id, depth + 1) else [];
      if row.node.kind.Directory? {
        VisitChildrenRead(rows, row.node.id, depth + 1);
      } else {
        NothingReads([], row.node.id, depth + 1);
      }
      var rest := VisitAll(rows, tail, depth);
      NestedOneMore(row, inside, rest, parent, depth);
      AscendOneMore(row, inside, rest, tail, parent, depth);
      TopOneMore(row, inside, rest, tail, depth);
    }
  }

  lemma NothingReads(list: seq<Row>, parent: nat, depth: nat)
    ensures ReadsAs([], list, parent, depth)
  {
  }

  lemma {:induction false} VisitChildrenRead(rows: seq<Row>, parent: nat, depth: nat)
    requires Printable(rows) && AtDepth(rows, parent, depth)
    ensures Nested(VisitChildren(rows, parent, depth), parent, depth)
    ensures SiblingsAscend(VisitChildren(rows, parent, depth))
    decreases |rows| - depth, 1, 0
  {
    ChildrenOneDeeper(rows, parent, depth);
    hide Printable, AtDepth, Nested, SiblingsAscend, TopLines;
    var list := OrderByName(SelectChildren(rows, parent));
    VisitAllReads(rows, list, parent, depth);
  }

  /** The printed tree reads as the tree: every line stands below its parent, the last line
      above it that is indented one step less, and siblings ascend in byte order. */
  lemma PrintedTreeReads(rows: seq<Row>)
    requires Printable(rows)
    ensures Nested(PrintTree(rows), 1, 0) && SiblingsAscend(PrintTree(rows))
  {
    NamesOfRoot(rows);
    assert Ancestor(ParentsOf(rows), 1, 0) == Some(1);
    VisitChildrenRead(rows, 1, 0);
  }

  // -------------------------------------------------- a bounded stack

  /** What is printed before the recursion ends, or fails for lack of stack. */
  datatype Printed = Printed(visits: seq<Visit>, failed: bool)

  /** `visit` with room for `frames` nested calls of itself; the root's is the first. */
  ghost function VisitChildrenIn(rows: seq<Row>, parent: nat, depth: nat, frames: nat): Printed
    requires Printable(rows) && AtDepth(rows, parent, depth)
    decreases |rows| - depth, 1, 0
  {
    if depth >= frames then Printed([], true)
    else
      ChildrenOneDeeper(rows, parent, depth);
      VisitAllIn(rows, OrderByName(SelectChildren(rows, parent)), depth, frames)
  }

  ghost function VisitAllIn(rows: seq<Row>, list: seq<Row>, depth: nat, frames: nat): Printed
    requires Printable(rows) && depth < |rows|
    requires forall k :: 0 <= k < |list| ==> AtDepth(rows, list[k].node.id, depth + 1)
    decreases |rows| - depth, 0, |list|
  {
    if list == [] then Printed([], false)
    else
      var line := [Visit(depth + 1, list[0].node)];
      var inside :=
        if list[0].node.kind.Directory? then VisitChildrenIn(rows, list[0].node.id, depth + 1, frames)
        else Printed([], false);
      if inside.failed then Printed(line + inside.visits, true)
      else
        var rest := VisitAllIn(rows, list[1..], depth, frames);
        Printed(line + inside.visits + rest.visits, rest.failed)
  }

  ghost function PrintTreeIn(rows: seq<Row>, frames: nat): Printed
    requires Printable(rows)
  {
    NamesOfRoot(rows);
    assert Ancestor(ParentsOf(rows), 1, 0) == Some(1);
    VisitChildrenIn(rows, 1, 0, frames)
  }

  ghost predicate TooDeep(visits: seq<Visit>, frames: nat) {
    exists x :: x in visits && x.node.kind.Directory? && x.depth >= frames
  }

  lemma TooDeepConcat(a: seq<Visit>, b: seq<Visit>, frames: nat)
    ensures TooDeep(a + b, frames) <==> TooDeep(a, frames) || TooDeep(b, frames)
  {
    if x :| x in a && x.node.kind.Directory? && x.depth >= frames {
      assert x in a + b;
    }
    if x :| x in b && x.node.kind.Directory? && x.depth >= frames {
      assert x in a + b;
    }
  }

  /** `printed` is all of `visits`, or what comes before the failure. */
  ghost predicate Cuts(printed: Printed, visits: seq<Visit>) {
    printed.visits <= visits && (!printed.failed ==> printed.visits == visits)
  }

  lemma {:induction false} VisitAllCut(rows: seq<Row>, list: seq<Row>, depth: nat, frames: nat)
    requires Printable(rows) && depth < |rows| && depth < frames
    requires forall k :: 0 <= k < |list| ==> AtDepth(rows, list[k].node.id, depth + 1)
    ensures Cuts(VisitAllIn(rows, list, depth, frames), VisitAll(rows, list, depth))
    ensures VisitAllIn(rows, list, depth, frames).failed <==> TooDeep(VisitAll(rows, list, depth), frames)
    decreases |rows| - depth, 0, |list|
  {
    hide Printable, AtDepth, TooDeep;
    if list == [] {
      NothingTooDeep(frames);
    } else {
      var line := [Visit(depth + 1, list[0].node)];
      var inside := if list[0].node.kind.Directory? then VisitChildren(rows, list[0].node.id, depth + 1) else [];
      var rest := VisitAll(rows, list[1..], depth);
      VisitAllCut(rows, list[1..], depth, frames);
      if list[0].node.kind.Directory? {
        VisitChildrenCut(rows, list[0].node.id, depth + 1, frames);
      } else {
        NothingTooDeep(frames);
      }
      LineTooDeep(line[0], frames);
      TooDeepConcat(line, inside, frames);
      TooDeepConcat(line + inside, rest, frames);
    }
  }

  lemma NothingTooDeep(frames: nat)
    ensures !TooDeep([], frames)
  {
  }

  lemma LineTooDeep(x: Visit, frames: nat)
    ensures TooDeep([x], frames) <==> x.node.kind.Directory? && x.depth >= frames
  {
    assert x in [x];
  }

  lemma {:induction false} VisitChildrenCut(rows: seq<Row>, parent: nat, depth: nat, frames: nat)
    requires Printable(rows) && AtDepth(rows, parent, depth)
    ensures Cuts(VisitChildrenIn(rows, parent, depth, frames), VisitChildren(rows, parent, depth))
    ensures VisitChildrenIn(rows, parent, depth, frames).failed
      <==> depth >= frames || TooDeep(VisitChildren(rows, parent, depth), frames)
    decreases |rows| - depth, 1, 0
  {
    if depth < frames {
      ChildrenOneDeeper(rows, parent, depth);
      hide Printable, AtDepth, TooDeep;
      VisitAllCut(rows, OrderByName(SelectChildren(rows, parent)), depth, frames);
    }
  }

  /** A directory that has `frames` or more directories above it. */
  ghost predicate HasDeepDirectory(rows: seq<Row>, frames: nat)
    requires Keyed(rows)
  {
    exists row, n: nat :: row in rows && row.node.kind.Directory? && n >= frames && AtDepth(rows, row.node.id, n)
  }

  /** The tree is printed completely exactly when there is stack for the root's visit and no
      directory is too deep; otherwise printing fails after some of the lines. */
  lemma PrintsAllUnlessTooDeep(rows: seq<Row>, frames: nat)
    requires Printable(rows)
    ensures var printed := PrintTreeIn(rows, frames);
      && printed.visits <= PrintTree(rows)
      && (!printed.failed ==> printed.visits == PrintTree(rows))
      && (printed.failed <==> frames == 0 || HasDeepDirectory(rows, frames))
  {
    NamesOfRoot(rows);
    assert Ancestor(ParentsOf(rows), 1, 0) == Some(1);
    VisitChildrenCut(rows, 1, 0, frames);
    PrintsEveryNodeOnce(rows);
    if frames > 0 {
      DeepAreVisited(rows, PrintTree(rows), frames);
    }
  }

  lemma RootOnTop(rows: seq<Row>, n: nat)
    requires Printable(rows)
    ensures AtDepth(rows, 1, n) ==> n == 0
  {
    assert Ancestor(ParentsOf(rows), 1, 0) == Some(1);
    if n > 0 && AtDepth(rows, 1, n) {
      assert OwnAncestor(ParentsOf(rows), 1);
    }
  }

  lemma DeepAreVisited(rows: seq<Row>, visits: seq<Visit>, frames: nat)
    requires Printable(rows) && frames > 0
    requires forall v :: v in VisitedIds(visits) <==> v in ParentsOf(rows) && v != 1
    requires forall x :: x in visits ==>
      (exists row :: row in rows && row.node == x.node) && Ancestor(ParentsOf(rows), x.node.id, x.depth) == Some(1)
    ensures TooDeep(visits, frames) <==> HasDeepDirectory(rows, frames)
  {
    hide ParentsOf;
    var p := ParentsOf(rows);
    if x :| x in visits && x.node.kind.Directory? && x.depth >= frames {
      var row :| row in rows && row.node == x.node;
      assert AtDepth(rows, row.node.id, x.depth);
    }
    if row, n: nat :| row in rows && row.node.kind.Directory? && n >= frames && AtDepth(rows, row.node.id, n) {
      ParentsOfRow(rows, row);
      RootOnTop(rows, n);
      var k :| 0 <= k < |visits| && VisitedIds(visits)[k] == row.node.id;
      var other :| other in rows && other.node == visits[k].node;
      KeyedUnique(rows);
      DepthUnique(p, row.node.id, visits[k].depth, n);
      assert visits[k] in visits;
    }
  }

  /** A valid artifact, opened, can be printed. */
  lemma ValidIsPrintable(rows: seq<Row>)
    requires ValidTable(rows) && SiblingsDiffer(rows)
    ensures Printable(rows)
  {
    hide ParentsOf;
    var root :| root in rows && root.node.id == 1;
    ParentsOfRow(rows, root);
    RootIsTop(ParentsOf(rows));
  }

  /** Whatever calls of `add` have built is printed as a whole. */
  lemma FinishedIsPrintable(t: TreeState)
    requires TreeOk(t)
    ensures (forall k :: 0 <= k < |t.order| ==> t.order[k] in t.nodes)
    ensures Printable(FinishedTable(t))
  {
    hide FinishedTable, ValidTable, TreeOk, Printable;
    FinishedTableIsValid(t);
    FinishedMirrors(t);
    MirrorSiblingsDiffer(t, FinishedTable(t));
    ValidIsPrintable(FinishedTable(t));
  }

  lemma DepthIsPathLength(t: TreeState, id: nat, n: nat)
    requires TreeOk(t) && id in t.nodes
    ensures (forall k :: 0 <= k < |t.order| ==> t.order[k] in t.nodes) && Keyed(FinishedTable(t))
    ensures AtDepth(FinishedTable(t), id, n) <==> n == |PathOf(t.nodes, id)|
  {
    hide FinishedTable, ParentsOf, NamesDown;
    FinishedKeyed(t);
    FinishedChains(t, id);
    var p := ParentsOf(FinishedTable(t));
    RootIsTop(p);
    if AtDepth(FinishedTable(t), id, n) {
      DepthUnique(p, id, n, Depth(p, id));
    }
  }

  /** A directory with `frames` or more names in its path. */
  ghost predicate HasLongDirectory(t: TreeState, frames: nat)
    requires TreeOk(t)
  {
    exists id :: id in t.nodes && t.nodes[id].kind.Directory? && |PathOf(t.nodes, id)| >= frames
  }

  lemma DeepIsLong(t: TreeState, row: Row, n: nat, frames: nat)
    requires TreeOk(t)
    requires (forall k :: 0 <= k < |t.order| ==> t.order[k] in t.nodes) && Keyed(FinishedTable(t))
    requires row in FinishedTable(t) && row.node.kind.Directory?
    requires n >= frames && AtDepth(FinishedTable(t), row.node.id, n)
    ensures HasLongDirectory(t, frames)
  {
    hide FinishedTable, FinishedRow, TreeOk, AtDepth, PathOf;
    FinishedKeyed(t);
    FinishedKind(t.nodes[row.node.id]);
    DepthIsPathLength(t, row.node.id, n);
  }

  lemma LongIsDeep(t: TreeState, id: nat, frames: nat)
    requires TreeOk(t) && id in t.nodes && t.nodes[id].kind.Directory? && |PathOf(t.nodes, id)| >= frames
    ensures (forall k :: 0 <= k < |t.order| ==> t.order[k] in t.nodes) && Keyed(FinishedTable(t))
    ensures HasDeepDirectory(FinishedTable(t), frames)
  {
    assert Linked(t.nodes);
    hide FinishedTable, FinishedRow, TreeOk, AtDepth, PathOf;
    FinishedKeyed(t);
    FinishedKind(t.nodes[id]);
    RowOfNode(t, id);
    DepthIsPathLength(t, id, |PathOf(t.nodes, id)|);
  }

  /** What a builder has finished is printed completely exactly when there is stack for the
      root's visit and every directory has fewer names in its path than there are frames. */
  lemma FinishedPrintsUnlessTooDeep(t: TreeState, frames: nat)
    requires TreeOk(t)
    ensures (forall k :: 0 <= k < |t.order| ==> t.order[k] in t.nodes)
    ensures Printable(FinishedTable(t))
    ensures PrintTreeIn(FinishedTable(t), frames).failed <==> frames == 0 || HasLongDirectory(t, frames)
  {
    assert Linked(t.nodes);
    hide FinishedTable, PrintTreeIn, PrintTree, TreeOk, AtDepth, PathOf;
    FinishedIsPrintable(t);
    var rows := FinishedTable(t);
    PrintsAllUnlessTooDeep(rows, frames);
    if row, n: nat :| row in rows && row.node.kind.Directory? && n >= frames && AtDepth(rows, row.node.id, n) {
      DeepIsLong(t, row, n, frames);
    }
    if id :| id in t.nodes && t.nodes[id].kind.Directory? && |PathOf(t.nodes, id)| >= frames {
      LongIsDeep(t, id, frames);
    }
  }

  lemma FinishedKind(r: NodeRecord)
    ensures FinishedRow(r).node.kind == r.kind && FinishedRow(r).node.id == r.id
  {
  }

  lemma RowOfNode(t: TreeState, id: nat)
    requires TreeOk(t) && id in t.nodes
    ensures (forall k :: 0 <= k < |t.order| ==> t.order[k] in t.nodes)
    ensures FinishedRow(t.nodes[id]) in FinishedTable(t) && t.nodes[id].id == id
  {
    FinishedShape(t);
    assert NodeOk(t.nodes, id);
    assert FinishedTable(t)[id - 1] == FinishedRow(t.nodes[id]);
  }

  /** A section of a listing, so many names deep. */
  function DeepSection(depth: nat): ParsedEntry {
    ParsedEntry(seq(depth, _ => [0x61]), Directory, SectionHeader, None, None, None, None, NoMetadata)
  }

  /** However much stack there is, one section header can be too deep for it: builders take
      it, validation passes, and printing fails. */
  lemma DeepSectionIsNotPrinted(frames: nat)
    ensures IndexOk(EMPTY_TREE)
    ensures var (t, error) := AddAll(EMPTY_TREE, [DeepSection(frames + 1)]);
      && error.None? && TreeOk(t)
      && (forall k :: 0 <= k < |t.order| ==> t.order[k] in t.nodes)
      && ValidTable(FinishedTable(t)) && Printable(FinishedTable(t))
      && PrintTreeIn(FinishedTable(t), frames).failed
  {
    hide FinishedTable, PrintTreeIn, TreeOk, Printable, ValidTable, Describes, AddAll, Abs;
    var e := DeepSection(frames + 1);
    DeepSectionIsUsable(frames + 1);
    BuildsIffCompatible([e]);
    var t := AddAll(EMPTY_TREE, [e]).0;
    DescribedDirectory(Abs(t), e, SetOf([e]));
    var id := NodeAt(t, NamesOf(e));
    FinishedTableIsValid(t);
    FinishedPrintsUnlessTooDeep(t, frames);
  }

  lemma DescribedDirectory(pm: PathMap, e: ParsedEntry, s: set<ParsedEntry>)
    requires Describes(pm, s) && e in s && e.kind.Directory?
    ensures NamesOf(e) in pm && pm[NamesOf(e)].kind.Directory?
  {
    assert Covers(e, NamesOf(e));
  }

  lemma DeepSectionIsUsable(depth: nat)
    requires depth > 0
    ensures var e := DeepSection(depth);
      && e.ParserShaped() && ValidPath(e.path) && |NamesOf(e)| == depth && Compatible(e, e)
  {
    var e := DeepSection(depth);
    var name: Text := [0x61];
    assert |Utf8Encode(name)| == 1 by {
      assert name[1..] == [];
    }
    assert ComponentFault(name).None?;
    assert ValidPath(e.path);
    SelfCompatible(e);
  }
}
