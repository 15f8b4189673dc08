/** Validation of an artifact's node table: is it a tree of well-formed nodes? */
module Validation {
  import opened Core
  import opened Unicode
  import opened Building
  import opened Tree
  import opened Forest
  import opened Ordering
  import opened Stores

  /** PRIMARY KEY */
  predicate Keyed(rows: seq<Row>) {
    forall i, j :: 0 <= i < j < |rows| ==> rows[i].node.id != rows[j].node.id
  }

  lemma KeyedUnique(rows: seq<Row>)
    requires Keyed(rows)
    ensures forall a, b :: a in rows && b in rows && a.node.id == b.node.id ==> a == b
  {
  }

  ghost function ParentsOf(rows: seq<Row>): Parents
    requires Keyed(rows)
  {
    KeyedUnique(rows);
    map row | row in rows :: row.node.id := row.node.parent
  }

  lemma ParentsOfRow(rows: seq<Row>, row: Row)
    requires Keyed(rows) && row in rows
    ensures row.node.id in ParentsOf(rows) && ParentsOf(rows)[row.node.id] == row.node.parent
  {
    KeyedUnique(rows);
  }

  lemma RowOfParent(rows: seq<Row>, v: nat) returns (row: Row)
    requires Keyed(rows) && v in ParentsOf(rows)
    ensures row in rows && row.node.id == v && ParentsOf(rows)[v] == row.node.parent
  {
    row :| row in rows && row.node.id == v;
    ParentsOfRow(rows, row);
  }

  lemma ParentsCons(row: Row, tail: seq<Row>)
    requires Keyed([row] + tail)
    ensures Keyed(tail) && row.node.id !in ParentsOf(tail)
    ensures ParentsOf([row] + tail) == ParentsOf(tail)[row.node.id := row.node.parent]
  {
    var rows := [row] + tail;
    forall i, j | 0 <= i < j < |tail| ensures tail[i].node.id != tail[j].node.id {
      assert rows[i + 1] == tail[i] && rows[j + 1] == tail[j];
    }
    forall j | 0 <= j < |tail| ensures tail[j].node.id != row.node.id {
      assert rows[0] == row && rows[j + 1] == tail[j];
    }
    if row.node.id in ParentsOf(tail) {
      var other := RowOfParent(tail, row.node.id);
    }
    hide ParentsOf;
    assert rows[0] == row;
    var want := ParentsOf(tail)[row.node.id := row.node.parent];
    forall v | v in ParentsOf(rows) ensures v in want && want[v] == ParentsOf(rows)[v] {
      var r := RowOfParent(rows, v);
      if r != row {
        ParentsOfRow(tail, r);
      }
    }
    forall v | v in want ensures v in ParentsOf(rows) {
      if v == row.node.id {
        ParentsOfRow(rows, row);
      } else {
        var r := RowOfParent(tail, v);
        assert r in rows;
        ParentsOfRow(rows, r);
      }
    }
    assert ParentsOf(rows).Keys == want.Keys;
  }

  lemma {:induction false} ParentsSize(rows: seq<Row>)
    requires Keyed(rows)
    ensures |ParentsOf(rows)| == |rows|
  {
    if rows == [] {
      assert ParentsOf(rows) == map[];
    } else {
      assert rows == [rows[0]] + rows[1..];
      ParentsCons(rows[0], rows[1..]);
      ParentsSize(rows[1..]);
    }
  }

  /** No element twice. */
  predicate NoRepeats<T(==)>(s: seq<T>) {
    forall i, j :: 0 <= i < j < |s| ==> s[i] != s[j]
  }

  lemma NoRepeatsAppend<T>(s: seq<T>, t: seq<T>)
    requires NoRepeats(s) && NoRepeats(t) && forall x :: x in s ==> x !in t
    ensures NoRepeats(s + t)
  {
    forall i, j | 0 <= i < j < |s + t| ensures (s + t)[i] != (s + t)[j] {
      if i < |s| <= j {
        assert s[i] in s && t[j - |s|] in t;
      }
    }
  }

  lemma NotInBoth<T>(s: seq<T>, t: seq<T>, x: T)
    requires NoRepeats(s + t) && x in t
    ensures x !in s
  {
    var j :| 0 <= j < |t| && t[j] == x;
    assert (s + t)[|s| + j] == x;
    forall i | 0 <= i < |s| ensures s[i] != x {
      assert (s + t)[i] == s[i];
    }
  }

  lemma {:induction false} NoRepeatsSize<T>(s: seq<T>)
    requires NoRepeats(s)
    ensures |Elements(s)| == |s|
  {
    if s != [] {
      assert s == [s[0]] + s[1..];
      NoRepeatsSize(s[1..]);
      assert Elements(s) == {s[0]} + Elements(s[1..]);
    }
  }

  function ChildIds(rows: seq<Row>, parent: nat): seq<nat> {
    if rows == [] then []
    else (if IsChild(rows[0], parent) then [rows[0].node.id] else []) + ChildIds(rows[1..], parent)
  }

  lemma {:induction false} ChildIdsFind(rows: seq<Row>, parent: nat)
    requires Keyed(rows)
    ensures NoRepeats(ChildIds(rows, parent))
    ensures forall c :: c in ChildIds(rows, parent) <==> c in ParentsOf(rows) && ParentsOf(rows)[c] == Some(parent)
  {
    if rows == [] {
      assert ParentsOf(rows) == map[];
    } else {
      assert rows == [rows[0]] + rows[1..];
      ParentsCons(rows[0], rows[1..]);
      ChildIdsFind(rows[1..], parent);
    }
  }

  // -------------------------------------------------- the recursive count

  /** Between two steps of the recursion: `found` has been produced, `queue` is waiting. */
  ghost predicate Exploring(p: Parents, found: seq<nat>, queue: seq<nat>) {
    && NoRepeats(found + queue)
    && 1 in found + queue
    && (forall v :: v in found + queue ==> ReachesRoot(p, v))
    && (forall v :: v in found + queue && v != 1 ==> v in p && p[v].Some? && p[v].value in found)
    && (forall v :: v in p && p[v].Some? && p[v].value in found ==> v in found + queue)
  }

  lemma StartExploring(p: Parents)
    requires 1 in p
    ensures Exploring(p, [], [1])
  {
    assert Ancestor(p, 1, 0) == Some(1);
    assert [] + [1] == [1];
  }

  lemma ChildReaches(p: Parents, v: nat, c: nat)
    requires ReachesRoot(p, v) && c in p && p[c] == Some(v)
    ensures ReachesRoot(p, c)
    ensures !OwnAncestor(p, 1) ==> c != 1
  {
    var n: nat :| Ancestor(p, v, n) == Some(1);
    assert Ancestor(p, c, n + 1) == Some(1);
  }

  /** Taking the next row and queueing its children repeats nothing. */
  lemma ExploreStep(p: Parents, found: seq<nat>, queue: seq<nat>, children: seq<nat>)
    requires Exploring(p, found, queue) && queue != [] && !OwnAncestor(p, 1)
    requires NoRepeats(children)
    requires forall c :: c in children <==> c in p && p[c] == Some(queue[0])
    ensures Exploring(p, found + [queue[0]], queue[1..] + children)
  {
    var v := queue[0];
    var all := found + queue;
    var all' := found + [v] + (queue[1..] + children);
    assert all' == all + children;
    assert all[|found|] == v;
    forall c | c in children ensures c !in all && ReachesRoot(p, c) {
      ChildReaches(p, v, c);
      assert v in queue;
      NotInBoth(found, queue, v);
    }
    NoRepeatsAppend(all, children);
    forall u | u in p && p[u].Some? && p[u].value in found + [v] ensures u in all' {
      if p[u].value == v {
        assert u in children;
      } else {
        assert u in all;
      }
    }
  }

  lemma {:induction false} AllReachingFound(p: Parents, found: seq<nat>, v: nat, n: nat)
    requires Exploring(p, found, []) && Ancestor(p, v, n) == Some(1)
    ensures v in found
    decreases n
  {
    assert found + [] == found;
    if n > 0 {
      AllReachingFound(p, found, p[v].value, n - 1);
    }
  }

  lemma FoundInTable(p: Parents, found: seq<nat>, queue: seq<nat>)
    requires Exploring(p, found, queue) && 1 in p
    ensures |found| + |queue| <= |p|
  {
    NoRepeatsSize(found + queue);
    assert Elements(found + queue) <= p.Keys;
    SubsetSize(Elements(found + queue), p.Keys);
  }

  /**
   The `UNION ALL` recursion from inode 1, as SQLite runs it: take a row from the queue,
   produce it, queue its children.  Nothing removes duplicates, yet it ends, and produces
   every row whose parent chain ends at inode 1 exactly once.
   */
  method Reachable(rows: seq<Row>) returns (found: seq<nat>)
    requires Keyed(rows) && 1 in ParentsOf(rows) && !OwnAncestor(ParentsOf(rows), 1)
    ensures NoRepeats(found)
    ensures forall v :: v in found <==> ReachesRoot(ParentsOf(rows), v)
  {
    hide ParentsOf;
    ghost var p := ParentsOf(rows);
    found := [];
    var queue: seq<nat> := [1];
    StartExploring(p);
    while queue != []
      invariant Exploring(p, found, queue)
      decreases |p| - |found|
    {
      FoundInTable(p, found, queue);
      var children := ChildIds(rows, queue[0]);
      ChildIdsFind(rows, queue[0]);
      ExploreStep(p, found, queue, children);
      found, queue := found + [queue[0]], queue[1..] + children;
      FoundInTable(p, found, queue);
    }
    assert found + [] == found;
    forall v | ReachesRoot(p, v) ensures v in found {
      var n: nat :| Ancestor(p, v, n) == Some(1);
      AllReachingFound(p, found, v, n);
    }
  }

  /** Every parent is a directory. */
  ghost predicate ParentsAreDirectories(rows: seq<Row>) {
    forall child, parent :: child in rows && parent in rows && child.node.parent == Some(parent.node.id)
      ==> parent.node.kind.Directory?
  }

  /** Every row's parent chain ends at inode 1. */
  ghost predicate AllReachRoot(rows: seq<Row>)
    requires Keyed(rows)
  {
    forall row :: row in rows ==> ReachesRoot(ParentsOf(rows), row.node.id)
  }

  /** As many rows are produced as there are rows, exactly when none is left out. */
  lemma CountDecides(rows: seq<Row>, found: seq<nat>)
    requires Keyed(rows) && NoRepeats(found)
    requires forall v :: v in found <==> ReachesRoot(ParentsOf(rows), v)
    ensures |found| == |rows| <==> AllReachRoot(rows)
  {
    var p := ParentsOf(rows);
    var ids := Elements(found);
    ParentsSize(rows);
    NoRepeatsSize(found);
    forall v | v in ids ensures v in p {
      var n: nat :| Ancestor(p, v, n) == Some(1);
    }
    SubsetSize(ids, p.Keys);
    if |found| == |rows| {
      forall row | row in rows ensures ReachesRoot(p, row.node.id) {
        ParentsOfRow(rows, row);
      }
    }
    if AllReachRoot(rows) {
      forall v | v in p ensures v in ids {
        var row :| row in rows && row.node.id == v;
      }
      assert ids == p.Keys;
    }
  }

  /** `_require_graph`: accepts exactly the trees of directories below inode 1. */
  method RequireGraph(rows: seq<Row>) returns (ok: bool)
    requires Keyed(rows) && 1 in ParentsOf(rows) && !OwnAncestor(ParentsOf(rows), 1)
    ensures ok <==> ParentsAreDirectories(rows) && AllReachRoot(rows)
  {
    hide ParentsOf;
    if exists child, parent :: child in rows && parent in rows && child.node.parent == Some(parent.node.id)
                               && !parent.node.kind.Directory? {
      return false;
    }
    var found := Reachable(rows);
    CountDecides(rows, found);
    return |found| == |rows|;
  }

  // ---------------------------------------------- content and paths

  /** The WHERE clause of `_require_content_invariants`; comparisons with NULL select nothing. */
  predicate InvalidContent(n: Node) {
    || (n.kind.Directory? &&
        (n.size.Some? || n.content.Some? || n.reference.Some? || !n.status.NotApplicable?))
    || (n.kind.File? &&
        (|| n.status.NotApplicable?
         || (n.size == Some(0) &&
             (n.content.None? || |n.content.value| != 0 || !n.status.Present? || n.reference.Some?))
         || (n.content.Some? &&
             (n.size.None? || |n.content.value| != n.size.value || !n.status.Present? || n.reference.Some?))
         || (n.content.None? && (n.status.Present? || n.status.Remote?) &&
             (n.reference.None? || n.reference == Some([])))
         || (n.content.None? && !(n.status.Present? || n.status.Remote?) && n.reference.Some?)))
  }

  /** The SQL check refuses exactly the rows that could not be constructed as nodes. */
  lemma ContentCheckIsInvariant(n: Node)
    ensures InvalidContent(n) <==> !n.Invariant()
  {
  }

  function RowWith(rows: seq<Row>, v: nat): (row: Row)
    requires exists r :: r in rows && r.node.id == v
    ensures row in rows && row.node.id == v
  {
    SelectByIdFinds(rows, v);
    SelectById(rows, v).value
  }

  lemma RowWithParent(rows: seq<Row>, v: nat)
    requires Keyed(rows) && v in ParentsOf(rows)
    ensures exists r :: r in rows && r.node.id == v
    ensures RowWith(rows, v).node.parent == ParentsOf(rows)[v]
  {
    var row := RowOfParent(rows, v);
    ParentsOfRow(rows, RowWith(rows, v));
  }

  /** How far below the root a node is. */
  ghost function Depth(p: Parents, v: nat): (n: nat)
    requires ReachesRoot(p, v)
    ensures Ancestor(p, v, n) == Some(1)
  {
    var n: nat :| Ancestor(p, v, n) == Some(1);
    n
  }

  /** The names on the way down to `v` from the ancestor `n` levels above it. */
  ghost function NamesDown(rows: seq<Row>, v: nat, n: nat): (names: seq<Bytes>)
    requires Keyed(rows) && Ancestor(ParentsOf(rows), v, n).Some?
    ensures |names| == n
    decreases n
  {
    if n == 0 then []
    else
      RowWithParent(rows, v);
      NamesDown(rows, ParentsOf(rows)[v].value, n - 1) + [RowWith(rows, v).node.name]
  }

  ghost function NamesFromRoot(rows: seq<Row>, v: nat): seq<Bytes>
    requires Keyed(rows) && ReachesRoot(ParentsOf(rows), v)
  {
    NamesDown(rows, v, Depth(ParentsOf(rows), v))
  }

  lemma NamesFromRootStep(rows: seq<Row>, v: nat, c: nat)
    requires Keyed(rows) && !OwnAncestor(ParentsOf(rows), 1)
    requires ReachesRoot(ParentsOf(rows), v) && c in ParentsOf(rows) && ParentsOf(rows)[c] == Some(v)
    ensures ReachesRoot(ParentsOf(rows), c)
    ensures exists r :: r in rows && r.node.id == c
    ensures NamesFromRoot(rows, c) == NamesFromRoot(rows, v) + [RowWith(rows, c).node.name]
  {
    var p := ParentsOf(rows);
    ChildReaches(p, v, c);
    RowWithParent(rows, c);
    assert Ancestor(p, c, Depth(p, v) + 1) == Some(1);
    DepthUnique(p, c, Depth(p, c), Depth(p, v) + 1);
  }

  lemma NamesOfRoot(rows: seq<Row>)
    requires Keyed(rows) && 1 in ParentsOf(rows) && !OwnAncestor(ParentsOf(rows), 1)
    ensures ReachesRoot(ParentsOf(rows), 1) && NamesFromRoot(rows, 1) == []
  {
    var p := ParentsOf(rows);
    assert Ancestor(p, 1, 0) == Some(1);
    DepthUnique(p, 1, Depth(p, 1), 0);
  }

  lemma {:induction false} JoinOneMore(names: seq<Bytes>, name: Bytes)
    ensures JoinNames(names + [name]) == if names == [] then name else JoinNames(names) + [SLASH] + name
  {
    if |names| == 1 {
      assert (names + [name])[1..] == [name];
    } else if |names| > 1 {
      assert (names + [name])[1..] == names[1..] + [name];
      JoinOneMore(names[1..], name);
    } else {
      assert names + [name] == [name];
    }
  }

  /** The CASE of the query: no slash below the root, whose path is empty. */
  function Below(path: Bytes, name: Bytes): Bytes {
    if path == [] then name else path + [SLASH] + name
  }

  ghost predicate NamesNonempty(rows: seq<Row>) {
    forall row :: row in rows && row.node.id != 1 ==> row.node.name != []
  }

  lemma {:induction false} FirstNameNonempty(rows: seq<Row>, v: nat, n: nat)
    requires Keyed(rows) && NamesNonempty(rows) && !OwnAncestor(ParentsOf(rows), 1)
    requires n > 0 && Ancestor(ParentsOf(rows), v, n) == Some(1)
    ensures NamesDown(rows, v, n)[0] != []
    decreases n
  {
    RowWithParent(rows, v);
    if n > 1 {
      FirstNameNonempty(rows, ParentsOf(rows)[v].value, n - 1);
    }
  }

  /** Extending a derived path by one name. */
  lemma DerivedStep(rows: seq<Row>, v: nat, c: nat)
    requires Keyed(rows) && NamesNonempty(rows) && !OwnAncestor(ParentsOf(rows), 1)
    requires ReachesRoot(ParentsOf(rows), v) && c in ParentsOf(rows) && ParentsOf(rows)[c] == Some(v)
    ensures ReachesRoot(ParentsOf(rows), c)
    ensures exists r :: r in rows && r.node.id == c
    ensures JoinNames(NamesFromRoot(rows, c)) == Below(JoinNames(NamesFromRoot(rows, v)), RowWith(rows, c).node.name)
  {
    NamesFromRootStep(rows, v, c);
    var names := NamesFromRoot(rows, v);
    JoinOneMore(names, RowWith(rows, c).node.name);
    if names != [] {
      FirstNameNonempty(rows, v, Depth(ParentsOf(rows), v));
      assert JoinNames(names) != [];
    }
  }

  datatype Derived = Derived(id: nat, path: Bytes)

  function IdsOf(ds: seq<Derived>): seq<nat> {
    seq(|ds|, k requires 0 <= k < |ds| => ds[k].id)
  }

  /** Every pair holds the joined names of its node. */
  ghost predicate DerivedOk(rows: seq<Row>, ds: seq<Derived>)
    requires Keyed(rows)
  {
    forall d :: d in ds ==>
      ReachesRoot(ParentsOf(rows), d.id) && d.path == JoinNames(NamesFromRoot(rows, d.id))
  }

  /** The rows the recursion joins to one derived row. */
  function DeriveChildren(rows: seq<Row>, from: Derived): (ds: seq<Derived>)
  {
    if rows == [] then []
    else
      (if IsChild(rows[0], from.id) then [Derived(rows[0].node.id, Below(from.path, rows[0].node.name))] else [])
      + DeriveChildren(rows[1..], from)
  }

  lemma {:induction false} DeriveChildrenIds(rows: seq<Row>, from: Derived)
    ensures IdsOf(DeriveChildren(rows, from)) == ChildIds(rows, from.id)
    ensures forall d :: d in DeriveChildren(rows, from) ==>
      exists r :: r in rows && IsChild(r, from.id) && d == Derived(r.node.id, Below(from.path, r.node.name))
  {
    if rows != [] {
      DeriveChildrenIds(rows[1..], from);
    }
  }

  lemma DeriveStep(rows: seq<Row>, from: Derived)
    requires Keyed(rows) && NamesNonempty(rows) && !OwnAncestor(ParentsOf(rows), 1)
    requires DerivedOk(rows, [from])
    ensures DerivedOk(rows, DeriveChildren(rows, from))
  {
    assert from in [from];
    DeriveChildrenIds(rows, from);
    forall d | d in DeriveChildren(rows, from)
      ensures ReachesRoot(ParentsOf(rows), d.id) && d.path == JoinNames(NamesFromRoot(rows, d.id))
    {
      var r :| r in rows && IsChild(r, from.id) && d == Derived(r.node.id, Below(from.path, r.node.name));
      ParentsOfRow(rows, r);
      DerivedStep(rows, from.id, r.node.id);
      KeyedUnique(rows);
    }
  }

  /** A stored path is the one derived from the names. */
  ghost predicate PathsDerived(rows: seq<Row>)
    requires Keyed(rows) && AllReachRoot(rows)
  {
    forall row :: row in rows && row.node.id != 1 ==>
      JoinsTo(row.node.originalPath, NamesFromRoot(rows, row.node.id))
  }

  /** The second recursion: every row of the tree with the path derived from its names. */
  method DerivePaths(rows: seq<Row>) returns (found: seq<Derived>)
    requires Keyed(rows) && 1 in ParentsOf(rows) && !OwnAncestor(ParentsOf(rows), 1)
    requires NamesNonempty(rows)
    ensures DerivedOk(rows, found)
    ensures Exploring(ParentsOf(rows), IdsOf(found), [])
  {
    hide ParentsOf;
    hide NamesFromRoot;
    hide ReachesRoot;
    hide Exploring;
    ghost var p := ParentsOf(rows);
    found := [];
    var queue := [Derived(1, [])];
    NamesOfRoot(rows);
    StartExploring(p);
    assert IdsOf(found) == [] && IdsOf(queue) == [1];
    while queue != []
      invariant Exploring(p, IdsOf(found), IdsOf(queue))
      invariant DerivedOk(rows, found) && DerivedOk(rows, queue)
      decreases |p| - |found|
    {
      FoundInTable(p, IdsOf(found), IdsOf(queue));
      var children := DeriveChildren(rows, queue[0]);
      DeriveChildrenIds(rows, queue[0]);
      ChildIdsFind(rows, queue[0].id);
      DeriveStep(rows, queue[0]);
      ExploreStep(p, IdsOf(found), IdsOf(queue), IdsOf(children));
      assert IdsOf(found + [queue[0]]) == IdsOf(found) + [IdsOf(queue)[0]];
      assert IdsOf(queue[1..] + children) == IdsOf(queue)[1..] + IdsOf(children);
      found, queue := found + [queue[0]], queue[1..] + children;
      FoundInTable(p, IdsOf(found), IdsOf(queue));
    }
    assert IdsOf(queue) == [];
  }

  /** Derived and stored paths agree on every row but the root. */
  predicate Agree(rows: seq<Row>, found: seq<Derived>) {
    forall d, row ::
      d in found && row in rows && row.node.id == d.id && d.id != 1 ==> SamePath(row.node.originalPath, d.path)
  }

  method RequireDerivedPaths(rows: seq<Row>) returns (ok: bool)
    requires Keyed(rows) && 1 in ParentsOf(rows) && !OwnAncestor(ParentsOf(rows), 1)
    requires AllReachRoot(rows) && NamesNonempty(rows)
    ensures ok <==> PathsDerived(rows)
  {
    hide ParentsOf;
    hide NamesFromRoot;
    var found := DerivePaths(rows);
    ok := Agree(rows, found);
    forall row | row in rows ensures row.node.id in IdsOf(found) {
      var n: nat :| Ancestor(ParentsOf(rows), row.node.id, n) == Some(1);
      AllReachingFound(ParentsOf(rows), IdsOf(found), row.node.id, n);
    }
    ComparedAll(rows, found);
  }

  lemma ComparedAll(rows: seq<Row>, found: seq<Derived>)
    requires Keyed(rows) && AllReachRoot(rows) && DerivedOk(rows, found)
    requires forall row :: row in rows ==> row.node.id in IdsOf(found)
    ensures PathsDerived(rows) <==> Agree(rows, found)
  {
    if Agree(rows, found) {
      forall row | row in rows && row.node.id != 1
        ensures JoinsTo(row.node.originalPath, NamesFromRoot(rows, row.node.id))
      {
        var k :| 0 <= k < |found| && IdsOf(found)[k] == row.node.id;
        assert found[k] in found;
      }
    }
  }

  // ------------------------------------------------ does the recursion end

  /** The rows the recursion produces `k` joins away from inode 1, repeats included. */
  function Generation(rows: seq<Row>, k: nat): seq<nat> {
    if k == 0 then [1] else ChildrenOfAll(rows, Generation(rows, k - 1))
  }

  function ChildrenOfAll(rows: seq<Row>, vs: seq<nat>): seq<nat> {
    if vs == [] then [] else ChildIds(rows, vs[0]) + ChildrenOfAll(rows, vs[1..])
  }

  lemma {:induction false} ChildrenOfAllFind(rows: seq<Row>, vs: seq<nat>)
    requires Keyed(rows)
    ensures forall c :: c in ChildrenOfAll(rows, vs) <==>
      c in ParentsOf(rows) && ParentsOf(rows)[c].Some? && ParentsOf(rows)[c].value in vs
  {
    if vs != [] {
      ChildIdsFind(rows, vs[0]);
      ChildrenOfAllFind(rows, vs[1..]);
      assert vs == [vs[0]] + vs[1..];
    }
  }

  lemma {:induction false} GenerationFinds(rows: seq<Row>, k: nat)
    requires Keyed(rows) && 1 in ParentsOf(rows)
    ensures forall v :: v in Generation(rows, k) <==> Ancestor(ParentsOf(rows), v, k) == Some(1)
    decreases k
  {
    if k > 0 {
      GenerationFinds(rows, k - 1);
      ChildrenOfAllFind(rows, Generation(rows, k - 1));
    }
  }

  lemma {:induction false} NoMoreGenerations(rows: seq<Row>, j: nat, k: nat)
    requires j <= k && Generation(rows, j) == []
    ensures Generation(rows, k) == []
    decreases k
  {
    if j < k {
      NoMoreGenerations(rows, j, k - 1);
    }
  }

  lemma {:induction false} RoundAndRound(p: Parents, n: nat, m: nat)
    requires 1 in p && n > 0 && Ancestor(p, 1, n) == Some(1)
    ensures m * n >= m && Ancestor(p, 1, m * n) == Some(1)
    decreases m
  {
    if m > 0 {
      RoundAndRound(p, n, m - 1);
      AncestorAdds(p, 1, (m - 1) * n, n);
      assert (m - 1) * n + n == m * n;
    }
  }

  lemma CycleNeverEnds(rows: seq<Row>, n: nat, k: nat)
    requires Keyed(rows) && n > 0 && 1 in ParentsOf(rows) && Ancestor(ParentsOf(rows), 1, n) == Some(1)
    ensures Generation(rows, k) != []
  {
    RoundAndRound(ParentsOf(rows), n, k);
    GenerationFinds(rows, k * n);
    assert 1 in Generation(rows, k * n);
    if Generation(rows, k) == [] {
      NoMoreGenerations(rows, k, k * n);
    }
  }

  /** The recursion runs dry exactly when inode 1 is not its own ancestor; a root without a
      parent, which the caller checks only afterwards, is one such case. */
  lemma RecursionEndsIff(rows: seq<Row>)
    requires Keyed(rows) && 1 in ParentsOf(rows)
    ensures (exists k :: Generation(rows, k) == []) <==> !OwnAncestor(ParentsOf(rows), 1)
  {
    var p := ParentsOf(rows);
    if OwnAncestor(p, 1) {
      var n: nat :| n > 0 && Ancestor(p, 1, n) == Some(1);
      forall k ensures Generation(rows, k) != [] {
        CycleNeverEnds(rows, n, k);
      }
    }
    if !OwnAncestor(p, 1) {
      var n: nat := |p|;
      NoGenerationThatDeep(rows, n);
      assert Generation(rows, n) == [];
    }
  }

  lemma NoGenerationThatDeep(rows: seq<Row>, n: nat)
    requires Keyed(rows) && 1 in ParentsOf(rows) && !OwnAncestor(ParentsOf(rows), 1)
    requires n == |ParentsOf(rows)|
    ensures Generation(rows, n) == []
  {
    GenerationFinds(rows, n);
    if Generation(rows, n) != [] {
      DepthBound(ParentsOf(rows), Generation(rows, n)[0], n);
    }
  }

  /** The row that a foreign key refers to exists. */
  ghost predicate HasParentRow(rows: seq<Row>, row: Row) {
    row.node.parent.Some? ==> exists p :: p in rows && p.node.id == row.node.parent.value
  }

  /** `COUNT(*) ... WHERE parent_id IS NULL` is one. */
  ghost predicate OneTop(rows: seq<Row>) {
    && (exists row :: row in rows && row.node.parent.None?)
    && (forall a, b :: a in rows && b in rows && a.node.parent.None? && b.node.parent.None? ==> a == b)
  }

  /** Whatever is checked of the node table before the recursion runs. */
  ghost predicate EarlierChecks(rows: seq<Row>) {
    && Keyed(rows) && SiblingsDiffer(rows)
    && (forall row :: row in rows ==> HasParentRow(rows, row) && InRange(row.node) && !InvalidContent(row.node))
    && OneTop(rows)
    && (exists row :: row in rows && row.node.id == 1)
    && ParentsAreDirectories(rows)
  }

  function DirectoryRow(id: nat, parent: Option<nat>, name: Bytes): Row {
    Row(Node(id, parent, name, None, Directory, None, None, None, NotApplicable, None, None, NoMetadata), None)
  }

  /** Inodes 1 and 2 are each other's parent, and inode 3 is the one without. */
  function RootInCycle(): (rows: seq<Row>)
    ensures |rows| == 3
  {
    [DirectoryRow(1, Some(2), [0x61]), DirectoryRow(2, Some(1), [0x62]), DirectoryRow(3, None, [0x63])]
  }

  lemma RootInCycleLinks(rows: seq<Row>, row: Row)
    requires rows == RootInCycle() && row in rows
    ensures HasParentRow(rows, row) && row.node.id in {1, 2, 3} && row == rows[row.node.id - 1]
    ensures row.node.kind.Directory? && InRange(row.node) && !InvalidContent(row.node)
    ensures row.node.parent.None? ==> row == rows[2]
  {
    assert rows[0] in rows && rows[1] in rows;
  }

  /** Such a table passes every earlier check ... */
  lemma RootInCyclePasses()
    ensures EarlierChecks(RootInCycle())
  {
    var rows := RootInCycle();
    assert Keyed(rows) && SiblingsDiffer(rows);
    assert rows[0] in rows && rows[2] in rows;
    assert rows[0].node.id == 1 && rows[2].node.parent.None?;
    hide RootInCycle, Keyed, SiblingsDiffer, HasParentRow, InRange, InvalidContent;
    forall row | row in rows
      ensures HasParentRow(rows, row) && InRange(row.node) && !InvalidContent(row.node) && row.node.kind.Directory?
      ensures row.node.parent.None? ==> row == rows[2]
    {
      RootInCycleLinks(rows, row);
    }
  }

  /** ... and the recursion over it never ends. */
  lemma RootInCycleNeverEnds(k: nat)
    ensures Generation(RootInCycle(), k) != []
  {
    RootInCyclePasses();
    var rows := RootInCycle();
    assert rows[0] in rows && rows[1] in rows;
    ParentsOfRow(rows, rows[0]);
    ParentsOfRow(rows, rows[1]);
    var p := ParentsOf(rows);
    hide ParentsOf, EarlierChecks;
    assert Ancestor(p, 1, 0) == Some(1);
    assert Ancestor(p, 2, 1) == Some(1);
    assert Ancestor(p, 1, 2) == Some(1);
    CycleNeverEnds(rows, 2, k);
  }

  // ---------------------------------------------------- the whole table

  /** The ranges of `_require_ranges_and_domain_values`; sizes are not negative by their type. */
  predicate InRange(n: Node) {
    n.id >= 1 && (n.parent.Some? ==> n.parent.value >= 1) && (n.line.Some? ==> n.line.value >= 1)
  }

  /** What `validate_records` and the root checks demand of the node table. */
  ghost predicate ValidTable(rows: seq<Row>) {
    && Keyed(rows)
    && (forall row :: row in rows ==> InRange(row.node))
    && (forall row :: row in rows ==> row.node.Invariant())
    && ParentsAreDirectories(rows) && AllReachRoot(rows)
    && (forall row :: row in rows && row.node.id != 1 ==> MountedName(row.node.name))
    && (forall row :: row in rows && row.node.id == 1 ==> RootRow(row))
    && (exists row :: row in rows && row.node.id == 1)
    && PathsDerived(rows)
  }

  predicate RootRow(row: Row) {
    && row.node.parent.None? && row.node.kind.Directory? && row.node.name == []
    && row.node.originalPath.None? && row.node.modified.None? && row.node.line.None?
    && row.observation.None? && row.node.metadata.NoMetadata?
  }

  /** The checks in their order; the first that fails refuses the table. */
  method ValidateRecords(rows: seq<Row>) returns (ok: bool)
    requires Keyed(rows) && 1 in ParentsOf(rows) && !OwnAncestor(ParentsOf(rows), 1)
    ensures ok <==> ValidTable(rows)
  {
    hide ParentsOf;
    hide PathsDerived;
    hide MountedName;
    if exists row :: row in rows && !InRange(row.node) {
      return false;
    }
    if exists row :: row in rows && InvalidContent(row.node) {
      return false;
    }
    var graph := RequireGraph(rows);
    if !graph {
      return false;
    }
    if exists row :: row in rows && !(if row.node.id == 1 then RootRow(row) else MountedName(row.node.name)) {
      return false;
    }
    assert NamesNonempty(rows) by {
      forall row | row in rows && row.node.id != 1 ensures row.node.name != [] {
        NonemptyName(row.node.name);
      }
    }
    ok := RequireDerivedPaths(rows);
    ghost var root := RowOfParent(rows, 1);
  }

  lemma NonemptyName(name: Bytes)
    requires MountedName(name)
    ensures name != []
  {
  }

  // -------------------------------------- what the builders finish is valid

  lemma FinishedKeyed(t: TreeState)
    requires TreeOk(t)
    ensures (forall k :: 0 <= k < |t.order| ==> t.order[k] in t.nodes)
    ensures Keyed(FinishedTable(t))
    ensures ParentsOf(FinishedTable(t)).Keys == t.nodes.Keys
    ensures forall id :: id in t.nodes ==> ParentsOf(FinishedTable(t))[id] == t.nodes[id].parent
    ensures forall row :: row in FinishedTable(t) ==> row.node.id in t.nodes && row == FinishedRow(t.nodes[row.node.id])
  {
    hide FinishedTable;
    hide FinishedRow;
    FinishedShape(t);
    FinishedMirrors(t);
    var rows := FinishedTable(t);
    forall row | row in rows ensures row.node.id in t.nodes && row == FinishedRow(t.nodes[row.node.id]) {
      var k :| 0 <= k < |rows| && rows[k] == row;
    }
    forall id | id in t.nodes
      ensures id in ParentsOf(rows) && ParentsOf(rows)[id] == t.nodes[id].parent
    {
      assert rows[id - 1].node.id == id;
      ParentsOfRow(rows, rows[id - 1]);
    }
    forall id | id in ParentsOf(rows) ensures id in t.nodes {
      var row := RowOfParent(rows, id);
    }
  }

  /** In a builder's tree the parent chain spells out the path. */
  lemma {:induction false} FinishedChains(t: TreeState, id: nat)
    requires TreeOk(t) && id in t.nodes
    ensures (forall k :: 0 <= k < |t.order| ==> t.order[k] in t.nodes) && Keyed(FinishedTable(t))
    ensures ReachesRoot(ParentsOf(FinishedTable(t)), id)
    ensures NamesFromRoot(FinishedTable(t), id) == PathOf(t.nodes, id)
    decreases id
  {
    hide FinishedTable;
    hide ParentsOf;
    hide NamesFromRoot;
    FinishedKeyed(t);
    var rows := FinishedTable(t);
    var p := ParentsOf(rows);
    RootIsTop(p);
    NamesOfRoot(rows);
    assert LinkOk(t.nodes, id);
    if id != 1 {
      var parent := t.nodes[id].parent.value;
      FinishedChains(t, parent);
      NamesFromRootStep(rows, parent, id);
    }
  }

  /** Whatever calls of `add` have built, what `finish` makes of it passes validation. */
  lemma FinishedTableIsValid(t: TreeState)
    requires TreeOk(t)
    ensures (forall k :: 0 <= k < |t.order| ==> t.order[k] in t.nodes)
    ensures ValidTable(FinishedTable(t))
  {
    hide FinishedTable;
    hide ParentsOf;
    hide NamesFromRoot;
    hide MountedName;
    hide JoinsTo;
    FinishedKeyed(t);
    FinishedShape(t);
    var rows := FinishedTable(t);
    forall row | row in rows
      ensures InRange(row.node) && row.node.Invariant() && ReachesRoot(ParentsOf(rows), row.node.id)
      ensures row.node.id == 1 ==> RootRow(row)
      ensures row.node.id != 1 ==>
        MountedName(row.node.name) && JoinsTo(row.node.originalPath, NamesFromRoot(rows, row.node.id))
    {
      var id := row.node.id;
      assert NodeOk(t.nodes, id);
      assert LinkOk(t.nodes, id);
      FinishedNodeInvariant(t.nodes[id]);
      FinishedChains(t, id);
    }
    assert rows[0].node.id == 1;
    forall child, parent | child in rows && parent in rows && child.node.parent == Some(parent.node.id)
      ensures parent.node.kind.Directory?
    {
      assert NodeOk(t.nodes, child.node.id);
    }
  }
}
