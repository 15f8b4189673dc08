/**
 The tree that a builder grows, as a value: a dictionary of nodes in insertion order, a
 dictionary of children per node, and the next identifier.  `Add` is what one call of
 `add` does to it, including what it leaves behind when it fails midway.
 */
module Tree {
  import opened Core
  import opened Unicode
  import opened Building

  datatype TreeState = TreeState(
    order: seq<nat>,
    nodes: map<nat, NodeRecord>,
    children: map<nat, map<Bytes, nat>>,
    next: nat)

  const ROOT: NodeRecord := NewNode(1, None, [], None, Directory)

  const EMPTY_TREE: TreeState := TreeState([1], map[1 := ROOT], map[1 := map[]], 2)

  // ---------------------------------------------------------- one call

  function ChildrenOf(t: TreeState, parent: nat): map<Bytes, nat> {
    if parent in t.children then t.children[parent] else map[]
  }

  /** `setdefault`, then a new node under `parent`. */
  function Insert(t: TreeState, parent: nat, name: Bytes, originalPath: Text, kind: NodeKind): TreeState {
    TreeState(
      t.order + [t.next],
      t.nodes[t.next := NewNode(t.next, Some(parent), name, Some(originalPath), kind)],
      t.children[parent := ChildrenOf(t, parent)[name := t.next]][t.next := map[]],
      t.next + 1)
  }

  /** One path component: find or create its node, and check its kind. */
  function Enter(t: TreeState, e: ParsedEntry, names: seq<Bytes>, i: nat, parent: nat)
    : (TreeState, nat, Option<BuildError>)
    requires |names| == |e.path| && i < |names|
    requires IndexOk(t)
  {
    var kind := if i == |names| - 1 then e.kind else Directory;
    var siblings := ChildrenOf(t, parent);
    if names[i] !in siblings then
      (Insert(t, parent, names[i], JoinText(e.path[..i + 1]), kind), t.next, None)
    else
      var id := siblings[names[i]];
      (t, id, if t.nodes[id].kind == kind then None else Some(Conflict(t.nodes[id], e, KindConflict)))
  }

  /** Components `i` onwards, below node `parent`. */
  function AddFrom(t: TreeState, e: ParsedEntry, names: seq<Bytes>, i: nat, parent: nat)
    : (TreeState, Option<BuildError>)
    requires |names| == |e.path| && i <= |names|
    requires IndexOk(t)
    decreases |names| - i
  {
    if i == |names| then (t, None)
    else
      EnterKeepsIndex(t, e, names, i, parent);
      var (t', id, error) := Enter(t, e, names, i, parent);
      if error.Some? then (t', error)
      else if i < |names| - 1 then AddFrom(t', e, names, i + 1, id)
      else
        match Merged(t'.nodes[id], e)
        case Failure(conflict) => (t', Some(conflict))
        case Success(node) => (t'.(nodes := t'.nodes[id := node]), None)
  }

  function Add(t: TreeState, e: ParsedEntry): (TreeState, Option<BuildError>)
    requires IndexOk(t)
  {
    match Components(e)
    case Failure(error) => (t, Some(error))
    case Success(names) => AddFrom(t, e, names, 0, 1)
  }

  // --------------------------------------------------------- invariants

  /** Every indexed child is a node. */
  predicate IndexOk(t: TreeState) {
    forall p, n :: p in t.children && n in t.children[p] ==> t.children[p][n] in t.nodes
  }

  lemma EnterKeepsIndex(t: TreeState, e: ParsedEntry, names: seq<Bytes>, i: nat, parent: nat)
    requires |names| == |e.path| && i < |names|
    requires IndexOk(t)
    ensures IndexOk(Enter(t, e, names, i, parent).0)
    ensures Enter(t, e, names, i, parent).1 in Enter(t, e, names, i, parent).0.nodes
  {
  }

  /** Every node but the root has a parent with a smaller identifier. */
  ghost predicate Linked(nodes: map<nat, NodeRecord>) {
    forall id {:trigger LinkOk(nodes, id)} :: id in nodes ==> LinkOk(nodes, id)
  }

  predicate LinkOk(nodes: map<nat, NodeRecord>, id: nat)
    requires id in nodes
  {
    id != 1 ==>
      nodes[id].parent.Some? && nodes[id].parent.value in nodes && nodes[id].parent.value < id
  }

  /** The names from the root down to a node. */
  ghost function PathOf(nodes: map<nat, NodeRecord>, id: nat): seq<Bytes>
    requires Linked(nodes) && id in nodes
    decreases id
  {
    assert LinkOk(nodes, id);
    if id == 1 then [] else PathOf(nodes, nodes[id].parent.value) + [nodes[id].name]
  }

  /** Directories have no content; inline content has the declared size; lines count from one. */
  predicate RecordOk(node: NodeRecord) {
    && (node.line.Some? ==> node.line.value >= 1)
    && (node.kind.Directory? ==> node.size.None? && node.content.None?)
    && (node.content.Some? ==> node.size == Some(|node.content.value|))
  }

  /** A text compares to a path by its UTF-8 bytes. */
  predicate SamePath(originalPath: Option<Text>, path: Bytes) {
    originalPath.Some? && Encodable(originalPath.value) && Utf8Encode(originalPath.value) == path
  }

  /** An original path is the slash-join of the names. */
  predicate JoinsTo(originalPath: Option<Text>, names: seq<Bytes>) {
    SamePath(originalPath, JoinNames(names))
  }

  /** A node below the root: its parent is a directory, its name can be mounted, and its
      original path is the slash-join of the names from the root. */
  ghost predicate NodeOk(nodes: map<nat, NodeRecord>, id: nat)
    requires Linked(nodes) && id in nodes
  {
    var node := nodes[id];
    assert LinkOk(nodes, id);
    && node.id == id
    && RecordOk(node)
    && (id != 1 ==>
          && nodes[node.parent.value].kind.Directory?
          && MountedName(node.name)
          && JoinsTo(node.originalPath, PathOf(nodes, id)))
  }

  /** An index entry leads to the node with that parent and name ... */
  predicate EntryOk(t: TreeState, p: nat, n: Bytes)
    requires p in t.children && n in t.children[p]
  {
    var c := t.children[p][n];
    c in t.nodes && c != 1 && t.nodes[c].parent == Some(p) && t.nodes[c].name == n
  }

  /** ... and every node below the root is indexed. */
  predicate Indexed(t: TreeState, c: nat)
    requires c in t.nodes
  {
    c != 1 ==>
      && t.nodes[c].parent.Some?
      && t.nodes[c].parent.value in t.children
      && t.nodes[c].name in t.children[t.nodes[c].parent.value]
      && t.children[t.nodes[c].parent.value][t.nodes[c].name] == c
  }

  /** The child index is exactly the inverse of (parent, name). */
  ghost predicate IndexInverse(t: TreeState) {
    && (forall id :: id in t.children <==> id in t.nodes)
    && (forall p, n :: p in t.children && n in t.children[p] ==> EntryOk(t, p, n))
    && (forall c {:trigger Indexed(t, c)} :: c in t.nodes ==> Indexed(t, c))
  }

  /** Identifiers are exactly 1 to next - 1, handed out in order. */
  ghost predicate Numbered(t: TreeState) {
    && t.next == |t.order| + 1 && t.next >= 2
    && (forall k :: 0 <= k < |t.order| ==> t.order[k] == k + 1)
    && (forall id :: id in t.nodes <==> 1 <= id < t.next)
  }

  /** What every reachable builder state satisfies. */
  ghost predicate TreeOk(t: TreeState) {
    && Numbered(t)
    && t.nodes[1] == ROOT
    && Linked(t.nodes)
    && IndexInverse(t)
    && forall id {:trigger NodeOk(t.nodes, id)} :: id in t.nodes ==> NodeOk(t.nodes, id)
  }

  lemma EmptyTreeOk()
    ensures TreeOk(EMPTY_TREE)
  {
  }

  lemma TreeIsIndexed(t: TreeState)
    requires TreeOk(t)
    ensures IndexOk(t)
  {
    forall p, n | p in t.children && n in t.children[p] ensures t.children[p][n] in t.nodes {
      assert EntryOk(t, p, n);
    }
  }

  /** Paths do not change when nodes are added or keep their place. */
  lemma {:induction false} PathFrame(nodes: map<nat, NodeRecord>, nodes': map<nat, NodeRecord>, id: nat)
    requires Linked(nodes) && Linked(nodes') && id in nodes
    requires forall k :: k in nodes ==>
      k in nodes' && nodes'[k].parent == nodes[k].parent && nodes'[k].name == nodes[k].name
    ensures PathOf(nodes', id) == PathOf(nodes, id)
    decreases id
  {
    assert LinkOk(nodes, id) && LinkOk(nodes', id);
    if id != 1 {
      PathFrame(nodes, nodes', nodes[id].parent.value);
    }
  }

  lemma {:induction false} PathInjective(t: TreeState, a: nat, b: nat)
    requires TreeOk(t) && a in t.nodes && b in t.nodes
    requires PathOf(t.nodes, a) == PathOf(t.nodes, b)
    ensures a == b
    decreases a
  {
    assert LinkOk(t.nodes, a) && LinkOk(t.nodes, b);
    assert Indexed(t, a) && Indexed(t, b);
    if a != 1 && b != 1 {
      var pa, pb := t.nodes[a].parent.value, t.nodes[b].parent.value;
      var path := PathOf(t.nodes, a);
      assert PathOf(t.nodes, pa) == path[..|path| - 1] == PathOf(t.nodes, pb);
      assert t.nodes[a].name == path[|path| - 1] == t.nodes[b].name;
      PathInjective(t, pa, pb);
    }
  }

  lemma {:induction false} NamesHoldNoSlash(t: TreeState, id: nat)
    requires TreeOk(t) && id in t.nodes
    ensures forall k :: 0 <= k < |PathOf(t.nodes, id)| ==> SLASH !in PathOf(t.nodes, id)[k]
    ensures id != 1 ==> PathOf(t.nodes, id) != []
    decreases id
  {
    if id != 1 {
      assert LinkOk(t.nodes, id) && NodeOk(t.nodes, id);
      NamesHoldNoSlash(t, t.nodes[id].parent.value);
    }
  }

  /** No two nodes of a tree have the same original path; only the root has none. */
  lemma OriginalPathsUnique(t: TreeState, a: nat, b: nat)
    requires TreeOk(t) && a in t.nodes && b in t.nodes
    requires t.nodes[a].originalPath == t.nodes[b].originalPath
    ensures a == b
  {
    assert LinkOk(t.nodes, a) && NodeOk(t.nodes, a);
    assert LinkOk(t.nodes, b) && NodeOk(t.nodes, b);
    if a != 1 && b != 1 {
      NamesHoldNoSlash(t, a);
      NamesHoldNoSlash(t, b);
      JoinInjective(PathOf(t.nodes, a), PathOf(t.nodes, b));
      PathInjective(t, a, b);
    }
  }

  /** Every prefix of a node's path is the path of a node, a directory if it is proper. */
  lemma {:induction false} PrefixIsNode(t: TreeState, id: nat, n: nat) returns (a: nat)
    requires TreeOk(t) && id in t.nodes && n <= |PathOf(t.nodes, id)|
    ensures a in t.nodes && PathOf(t.nodes, a) == PathOf(t.nodes, id)[..n]
    ensures n < |PathOf(t.nodes, id)| ==> t.nodes[a].kind.Directory?
    decreases id
  {
    var path := PathOf(t.nodes, id);
    if n == |path| {
      a := id;
      assert path[..n] == path;
    } else {
      assert LinkOk(t.nodes, id) && NodeOk(t.nodes, id);
      var p := t.nodes[id].parent.value;
      assert PathOf(t.nodes, p) == path[..|path| - 1];
      if n == |path| - 1 {
        a := p;
      } else {
        a := PrefixIsNode(t, p, n);
        assert path[..|path| - 1][..n] == path[..n];
      }
    }
  }

  lemma InsertLinks(t: TreeState, parent: nat, name: Bytes, originalPath: Text, kind: NodeKind)
    requires TreeOk(t) && parent in t.nodes && name !in ChildrenOf(t, parent)
    ensures var t' := Insert(t, parent, name, originalPath, kind);
      Linked(t'.nodes) && Numbered(t') && IndexInverse(t')
  {
    var t' := Insert(t, parent, name, originalPath, kind);
    forall id | id in t'.nodes
      ensures LinkOk(t'.nodes, id) && Indexed(t', id)
    {
      if id in t.nodes {
        assert LinkOk(t.nodes, id) && Indexed(t, id);
      }
    }
    forall p, n | p in t'.children && n in t'.children[p]
      ensures EntryOk(t', p, n)
    {
      if p in t.children && n in t.children[p] {
        assert EntryOk(t, p, n);
      }
    }
  }

  lemma InsertKeeps(t: TreeState, parent: nat, name: Bytes, originalPath: Text, kind: NodeKind)
    requires TreeOk(t)
    requires parent in t.nodes && t.nodes[parent].kind.Directory?
    requires name !in ChildrenOf(t, parent) && MountedName(name)
    requires JoinsTo(Some(originalPath), PathOf(t.nodes, parent) + [name])
    ensures var t' := Insert(t, parent, name, originalPath, kind);
      && TreeOk(t')
      && PathOf(t'.nodes, t.next) == PathOf(t.nodes, parent) + [name]
      && forall id :: id in t.nodes ==> PathOf(t'.nodes, id) == PathOf(t.nodes, id)
  {
    hide MountedName;
    hide JoinsTo;
    hide IndexInverse;
    var t' := Insert(t, parent, name, originalPath, kind);
    InsertLinks(t, parent, name, originalPath, kind);
    forall id | id in t.nodes
      ensures PathOf(t'.nodes, id) == PathOf(t.nodes, id)
      ensures NodeOk(t'.nodes, id)
    {
      PathFrame(t.nodes, t'.nodes, id);
      assert NodeOk(t.nodes, id) && LinkOk(t.nodes, id);
    }
    assert NodeOk(t'.nodes, t.next);
  }

  lemma UpdateLinks(t: TreeState, id: nat, node: NodeRecord)
    requires TreeOk(t) && id in t.nodes && id != 1
    requires node.parent == t.nodes[id].parent && node.name == t.nodes[id].name
    ensures var t' := t.(nodes := t.nodes[id := node]);
      Linked(t'.nodes) && Numbered(t') && IndexInverse(t')
  {
    var t' := t.(nodes := t.nodes[id := node]);
    forall k | k in t'.nodes
      ensures LinkOk(t'.nodes, k) && Indexed(t', k)
    {
      assert LinkOk(t.nodes, k) && Indexed(t, k);
    }
    forall p, n | p in t'.children && n in t'.children[p]
      ensures EntryOk(t', p, n)
    {
      assert EntryOk(t, p, n);
    }
  }

  /** A node's data may change; its place, kind and joined path may not. */
  lemma UpdateKeeps(t: TreeState, id: nat, node: NodeRecord)
    requires TreeOk(t) && id in t.nodes && id != 1
    requires node.id == id && node.parent == t.nodes[id].parent
    requires node.name == t.nodes[id].name && node.kind == t.nodes[id].kind
    requires RecordOk(node) && JoinsTo(node.originalPath, PathOf(t.nodes, id))
    ensures var t' := t.(nodes := t.nodes[id := node]);
      && TreeOk(t')
      && forall k :: k in t.nodes ==> PathOf(t'.nodes, k) == PathOf(t.nodes, k)
  {
    hide MountedName;
    hide JoinsTo;
    hide RecordOk;
    hide IndexInverse;
    var t' := t.(nodes := t.nodes[id := node]);
    UpdateLinks(t, id, node);
    forall k | k in t.nodes
      ensures PathOf(t'.nodes, k) == PathOf(t.nodes, k)
      ensures NodeOk(t'.nodes, k)
    {
      PathFrame(t.nodes, t'.nodes, k);
      assert NodeOk(t.nodes, k) && LinkOk(t.nodes, k);
    }
  }

  /** `parent` is the directory reached by the first `i` of an entry's mounted names. */
  ghost predicate Reached(t: TreeState, e: ParsedEntry, names: seq<Bytes>, i: nat, parent: nat) {
    && TreeOk(t)
    && e.Wellformed() && ValidPath(e.path) && names == MountedNames(e.path)
    && i <= |names|
    && parent in t.nodes && t.nodes[parent].kind.Directory?
    && PathOf(t.nodes, parent) == names[..i]
  }

  lemma PrefixJoins(path: seq<Text>, n: nat)
    requires ValidPath(path) && n <= |path|
    ensures JoinsTo(Some(JoinText(path[..n])), MountedNames(path)[..n])
  {
    JoinEncodes(path[..n]);
    assert MountedNames(path[..n]) == MountedNames(path)[..n];
  }

  lemma ChildPath(t: TreeState, parent: nat, name: Bytes)
    requires TreeOk(t) && parent in t.nodes && name in ChildrenOf(t, parent)
    ensures var c := ChildrenOf(t, parent)[name];
      c in t.nodes && c != 1 && PathOf(t.nodes, c) == PathOf(t.nodes, parent) + [name]
  {
    assert EntryOk(t, parent, name);
  }

  /** Entering a component, found or created, keeps the tree and moves one name down. */
  lemma EnterKeeps(t: TreeState, e: ParsedEntry, names: seq<Bytes>, i: nat, parent: nat)
    requires Reached(t, e, names, i, parent) && i < |names|
    ensures var (t', id, error) := Enter(t, e, names, i, parent);
      && TreeOk(t')
      && id in t'.nodes && id != 1 && PathOf(t'.nodes, id) == names[..i + 1]
      && (forall k :: k in t.nodes ==>
            k in t'.nodes && t'.nodes[k] == t.nodes[k] && PathOf(t'.nodes, k) == PathOf(t.nodes, k))
      && (error.None? ==> t'.nodes[id].kind == if i == |names| - 1 then e.kind else Directory)
      && (error.None? && i < |names| - 1 ==> Reached(t', e, names, i + 1, id))
  {
    hide MountedName;
    hide JoinsTo;
    hide JoinText;
    hide IndexInverse;
    hide Linked;
    ComponentMounts(e.path[i]);
    PrefixJoins(e.path, i + 1);
    assert names[..i] + [names[i]] == names[..i + 1];
    if names[i] !in ChildrenOf(t, parent) {
      InsertKeeps(t, parent, names[i], JoinText(e.path[..i + 1]), if i == |names| - 1 then e.kind else Directory);
    } else {
      ChildPath(t, parent, names[i]);
    }
  }

  lemma AppliedKeeps(t: TreeState, e: ParsedEntry, names: seq<Bytes>, id: nat)
    requires TreeOk(t) && id in t.nodes && id != 1
    requires e.Wellformed() && ValidPath(e.path) && names == MountedNames(e.path)
    requires PathOf(t.nodes, id) == names && t.nodes[id].kind == e.kind
    requires Merged(t.nodes[id], e).Success?
    ensures var t' := t.(nodes := t.nodes[id := Merged(t.nodes[id], e).value]);
      && TreeOk(t')
      && forall k :: k in t.nodes ==> PathOf(t'.nodes, k) == PathOf(t.nodes, k)
  {
    hide JoinsTo;
    hide JoinText;
    hide IndexInverse;
    hide Linked;
    assert NodeOk(t.nodes, id);
    PrefixJoins(e.path, |e.path|);
    assert e.path[..|e.path|] == e.path && names[..|names|] == names;
    UpdateKeeps(t, id, Merged(t.nodes[id], e).value);
  }

  lemma {:induction false} AddFromKeeps(t: TreeState, e: ParsedEntry, names: seq<Bytes>, i: nat, parent: nat)
    requires Reached(t, e, names, i, parent)
    ensures TreeOk(AddFrom(t, e, names, i, parent).0)
    decreases |names| - i
  {
    if i < |names| {
      EnterKeeps(t, e, names, i, parent);
      var (t', id, error) := Enter(t, e, names, i, parent);
      if error.None? {
        if i < |names| - 1 {
          AddFromKeeps(t', e, names, i + 1, id);
        } else {
          assert names[..i + 1] == names;
          if Merged(t'.nodes[id], e).Success? {
            AppliedKeeps(t', e, names, id);
          }
        }
      }
    }
  }

  /** An entry starts at the root. */
  lemma StartReached(t: TreeState, e: ParsedEntry)
    requires TreeOk(t) && e.Wellformed()
    ensures ValidPath(e.path) ==> Reached(t, e, MountedNames(e.path), 0, 1)
    ensures ValidPath(e.path) ==> IndexOk(t) && Add(t, e) == AddFrom(t, e, MountedNames(e.path), 0, 1)
  {
    TreeIsIndexed(t);
    if ValidPath(e.path) {
      assert MountedNames(e.path)[..0] == [];
    }
  }

  /** Every call keeps the tree, including one that fails midway through a path. */
  lemma AddKeepsTree(t: TreeState, e: ParsedEntry)
    requires TreeOk(t) && e.Wellformed()
    ensures TreeOk(Add(t, e).0)
  {
    if Components(e).Success? {
      var names := MountedNames(e.path);
      assert names[..0] == [];
      AddFromKeeps(t, e, names, 0, 1);
    }
  }
}
