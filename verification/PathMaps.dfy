/**
 A reference for the builders that knows nothing of identifiers: a map from paths to what
 has been observed there.  The tree is proved to refine it.
 */
module PathMaps {
  import opened Core
  import opened Building
  import opened Tree

  /** What a node records about its path, apart from identity and provenance. */
  datatype Info = Info(
    kind: NodeKind,
    size: Option<nat>,
    modified: Option<Timestamp>,
    content: Option<Bytes>,
    observation: Option<Observation>)

  /** `p` is a proper prefix of `q`. */
  predicate Above<T(==)>(p: seq<T>, q: seq<T>) {
    |p| < |q| && q[..|p|] == p
  }

  type PathMap = map<seq<Bytes>, Info>

  function InfoOf(node: NodeRecord): Info {
    Info(node.kind, node.size, node.modified, node.content, node.observation)
  }

  /** A path that is known to exist but has not been observed itself. */
  function Unobserved(kind: NodeKind): Info {
    Info(kind, None, None, None, None)
  }

  function Observed(e: ParsedEntry): Info {
    Info(e.kind, e.size, e.modified, e.content, Some(e.observation))
  }

  /** A second observation of a path; None when the two are incompatible. */
  function Reconcile(info: Info, e: ParsedEntry): Option<Info>
    requires info.kind == e.kind
  {
    if info.observation.None? then Some(Observed(e))
    else if e.kind.File? then
      if info.size == e.size && info.modified == e.modified && info.content == e.content then Some(info) else None
    else if e.observation.SectionHeader? then Some(info)
    else if info.observation == Some(SectionHeader) then Some(Observed(e))
    else if info.modified == e.modified then Some(info) else None
  }

  /** Nothing above `names` is a file, and what is at `names` has the entry's kind. */
  ghost predicate Fits(pm: PathMap, names: seq<Bytes>, e: ParsedEntry) {
    && (forall p :: p in pm && Above(p, names) ==> pm[p].kind.Directory?)
    && (names in pm ==> pm[names].kind == e.kind)
  }

  /** Every missing ancestor becomes an unobserved directory, and the path is reconciled. */
  ghost function PathAdd(pm: PathMap, names: seq<Bytes>, e: ParsedEntry): Option<PathMap> {
    if !Fits(pm, names, e) then None
    else
      match Reconcile(if names in pm then pm[names] else Unobserved(e.kind), e)
      case None => None
      case Some(info) => Some(WithAncestors(pm, names)[names := info])
  }

  ghost function Ancestors(names: seq<Bytes>): set<seq<Bytes>> {
    set n | 0 <= n < |names| :: names[..n]
  }

  ghost function WithAncestors(pm: PathMap, names: seq<Bytes>): PathMap {
    map p | p in pm.Keys + Ancestors(names) :: if p in pm then pm[p] else Unobserved(Directory)
  }

  lemma AncestorIsProperPrefix(names: seq<Bytes>, p: seq<Bytes>)
    ensures p in Ancestors(names) <==> Above(p, names)
  {
  }

  // ------------------------------------------------- the tree refines it

  lemma PathsDistinct(t: TreeState)
    requires TreeOk(t)
    ensures forall a, b :: a in t.nodes && b in t.nodes && PathOf(t.nodes, a) == PathOf(t.nodes, b) ==> a == b
  {
    forall a, b | a in t.nodes && b in t.nodes && PathOf(t.nodes, a) == PathOf(t.nodes, b) ensures a == b {
      PathInjective(t, a, b);
    }
  }

  ghost function Abs(t: TreeState): PathMap
    requires TreeOk(t)
  {
    PathsDistinct(t);
    map id | id in t.nodes :: PathOf(t.nodes, id) := InfoOf(t.nodes[id])
  }

  lemma AbsAt(t: TreeState, id: nat)
    requires TreeOk(t) && id in t.nodes
    ensures PathOf(t.nodes, id) in Abs(t) && Abs(t)[PathOf(t.nodes, id)] == InfoOf(t.nodes[id])
  {
    PathsDistinct(t);
  }

  lemma NodeAt(t: TreeState, p: seq<Bytes>) returns (id: nat)
    requires TreeOk(t) && p in Abs(t)
    ensures id in t.nodes && PathOf(t.nodes, id) == p && Abs(t)[p] == InfoOf(t.nodes[id])
  {
    id :| id in t.nodes && PathOf(t.nodes, id) == p;
    AbsAt(t, id);
  }

  /** Everything strictly above a node is in the map, and is a directory. */
  lemma AboveNode(t: TreeState, id: nat)
    requires TreeOk(t) && id in t.nodes
    ensures forall p :: Above(p, PathOf(t.nodes, id)) ==> p in Abs(t) && Abs(t)[p].kind.Directory?
  {
    var path := PathOf(t.nodes, id);
    forall p | Above(p, path) ensures p in Abs(t) && Abs(t)[p].kind.Directory? {
      var a := PrefixIsNode(t, id, |p|);
      AbsAt(t, a);
    }
  }

  lemma MergedIsReconciled(node: NodeRecord, e: ParsedEntry)
    requires node.kind == e.kind
    ensures match Merged(node, e)
      case Success(node') => Reconcile(InfoOf(node), e) == Some(InfoOf(node'))
      case Failure(_) => Reconcile(InfoOf(node), e) == None
  {
  }

  /** One node added or changed, every other path as before: the map changes there only. */
  lemma AbsUpdate(t: TreeState, t': TreeState, id: nat)
    requires TreeOk(t) && TreeOk(t')
    requires t'.nodes.Keys == t.nodes.Keys + {id}
    requires forall k :: k in t.nodes ==> PathOf(t'.nodes, k) == PathOf(t.nodes, k)
    requires forall k :: k in t.nodes && k != id ==> t'.nodes[k] == t.nodes[k]
    ensures Abs(t') == Abs(t)[PathOf(t'.nodes, id) := InfoOf(t'.nodes[id])]
  {
    hide Abs;
    hide IndexInverse;
    hide Linked;
    hide Tree.Numbered;
    var path := PathOf(t'.nodes, id);
    var want := Abs(t)[path := InfoOf(t'.nodes[id])];
    AbsAt(t', id);
    forall p | p in Abs(t') ensures p in want && want[p] == Abs(t')[p] {
      var k := NodeAt(t', p);
      if k != id {
        AbsAt(t, k);
        if p == path {
          PathInjective(t', k, id);
        }
      }
    }
    forall p | p in want ensures p in Abs(t') {
      if p != path {
        var k := NodeAt(t, p);
        AbsAt(t', k);
      }
    }
    assert Abs(t').Keys == want.Keys;
  }

  /** Supplying one missing ancestor first makes no difference. */
  lemma AncestorFirst(pm: PathMap, names: seq<Bytes>, e: ParsedEntry, p: seq<Bytes>)
    requires Above(p, names) && p !in pm
    ensures PathAdd(pm[p := Unobserved(Directory)], names, e) == PathAdd(pm, names, e)
  {
    var pm' := pm[p := Unobserved(Directory)];
    AncestorIsProperPrefix(names, p);
    assert Fits(pm', names, e) <==> Fits(pm, names, e) by {
      if Fits(pm, names, e) {
        assert forall q :: q in pm' && Above(q, names) ==> pm'[q].kind.Directory?;
      }
      if Fits(pm', names, e) {
        forall q | q in pm && Above(q, names) ensures pm[q].kind.Directory? {
          assert q in pm' && pm'[q] == pm[q];
        }
      }
    }
    assert WithAncestors(pm', names) == WithAncestors(pm, names);
  }

  /** The last component, once every ancestor is a directory of the map. */
  lemma LastComponent(pm: PathMap, names: seq<Bytes>, e: ParsedEntry)
    requires forall p :: Above(p, names) ==> p in pm && pm[p].kind.Directory?
    requires names in pm ==> pm[names].kind == e.kind
    ensures PathAdd(pm, names, e) ==
      match Reconcile(if names in pm then pm[names] else Unobserved(e.kind), e)
      case None => None
      case Some(info) => Some(pm[names := info])
  {
    forall p | p in Ancestors(names) ensures p in pm {
      AncestorIsProperPrefix(names, p);
    }
    assert WithAncestors(pm, names) == pm;
  }

  lemma NewChildIsNew(t: TreeState, parent: nat, name: Bytes)
    requires TreeOk(t) && parent in t.nodes && name !in ChildrenOf(t, parent)
    ensures PathOf(t.nodes, parent) + [name] !in Abs(t)
  {
    var path := PathOf(t.nodes, parent) + [name];
    if path in Abs(t) {
      var c := NodeAt(t, path);
      assert LinkOk(t.nodes, c) && Indexed(t, c);
      var p := t.nodes[c].parent.value;
      assert PathOf(t.nodes, p) == path[..|path| - 1] == PathOf(t.nodes, parent);
      assert t.nodes[c].name == path[|path| - 1];
      PathInjective(t, p, parent);
    }
  }

  /** What entering one component does to the map. */
  lemma EnterAbs(t: TreeState, e: ParsedEntry, names: seq<Bytes>, i: nat, parent: nat)
    requires Reached(t, e, names, i, parent) && i < |names|
    ensures var (t', id, error) := Enter(t, e, names, i, parent);
      && TreeOk(t')
      && (names[i] in ChildrenOf(t, parent) ==> t' == t && names[..i + 1] in Abs(t))
      && (names[i] !in ChildrenOf(t, parent) ==>
            && names[..i + 1] !in Abs(t)
            && Abs(t') == Abs(t)[names[..i + 1] := Unobserved(if i == |names| - 1 then e.kind else Directory)])
  {
    hide Abs;
    EnterKeeps(t, e, names, i, parent);
    var (t', id, error) := Enter(t, e, names, i, parent);
    assert names[..i] + [names[i]] == names[..i + 1];
    if names[i] in ChildrenOf(t, parent) {
      AbsAt(t, id);
    } else {
      NewChildIsNew(t, parent, names[i]);
      AbsUpdate(t, t', id);
    }
  }

  /** The final merge. */
  lemma MergeAbs(t: TreeState, e: ParsedEntry, names: seq<Bytes>, id: nat)
    requires TreeOk(t) && id in t.nodes && id != 1
    requires e.Wellformed() && ValidPath(e.path) && names == MountedNames(e.path)
    requires PathOf(t.nodes, id) == names && t.nodes[id].kind == e.kind
    ensures match Merged(t.nodes[id], e)
      case Failure(_) => PathAdd(Abs(t), names, e).None?
      case Success(node) =>
        var t' := t.(nodes := t.nodes[id := node]);
        TreeOk(t') && PathAdd(Abs(t), names, e) == Some(Abs(t'))
  {
    hide Abs;
    AboveNode(t, id);
    AbsAt(t, id);
    LastComponent(Abs(t), names, e);
    MergedIsReconciled(t.nodes[id], e);
    if Merged(t.nodes[id], e).Success? {
      AppliedKeeps(t, e, names, id);
      AbsUpdate(t, t.(nodes := t.nodes[id := Merged(t.nodes[id], e).value]), id);
    }
  }

  /** A freshly inserted last component reconciles as if nothing had been there. */
  lemma InsertedLast(pm: PathMap, names: seq<Bytes>, e: ParsedEntry)
    requires names !in pm
    requires forall p :: Above(p, names) ==> p in pm && pm[p].kind.Directory?
    ensures PathAdd(pm[names := Unobserved(e.kind)], names, e) == PathAdd(pm, names, e)
  {
    var pm' := pm[names := Unobserved(e.kind)];
    LastComponent(pm, names, e);
    LastComponent(pm', names, e);
    assert pm'[names := Observed(e)] == pm[names := Observed(e)];
  }

  /** Adding through the tree is adding to the map, with the same success or failure. */
  lemma {:induction false} AddFromRefines(t: TreeState, e: ParsedEntry, names: seq<Bytes>, i: nat, parent: nat)
    requires Reached(t, e, names, i, parent) && i < |names|
    ensures var (t', error) := AddFrom(t, e, names, i, parent);
      && TreeOk(t')
      && PathAdd(Abs(t), names, e) == if error.None? then Some(Abs(t')) else None
    decreases |names| - i
  {
    hide Abs;
    hide PathAdd;
    hide Merged;
    hide IndexInverse;
    hide Linked;
    hide Conflict;
    AddFromKeeps(t, e, names, i, parent);
    EnterKeeps(t, e, names, i, parent);
    EnterAbs(t, e, names, i, parent);
    TreeIsIndexed(t);
    var (t1, id, error) := Enter(t, e, names, i, parent);
    AboveNode(t, parent);
    AbsAt(t, parent);
    var last := i == |names| - 1;
    assert last ==> names[..i + 1] == names;
    if error.Some? {
      AbsAt(t, id);
      KindMismatch(Abs(t), names, e, names[..i + 1]);
    } else {
      if names[i] !in ChildrenOf(t, parent) {
        if last {
          AboveSplit(names, i);
          InsertedLast(Abs(t), names, e);
        } else {
          AncestorFirst(Abs(t), names, e, names[..i + 1]);
        }
      }
      if last {
        MergeAbs(t1, e, names, id);
      } else {
        AddFromRefines(t1, e, names, i + 1, id);
      }
    }
  }

  lemma AboveSplit(names: seq<Bytes>, i: nat)
    requires i + 1 == |names|
    ensures forall p :: Above(p, names) <==> p == names[..i] || Above(p, names[..i])
  {
    forall p ensures Above(p, names) <==> p == names[..i] || Above(p, names[..i]) {
      if Above(p, names) {
        assert names[..|p|] == names[..i][..|p|];
      }
      if Above(p, names[..i]) {
        assert names[..|p|] == names[..i][..|p|];
      }
    }
  }

  lemma KindMismatch(pm: PathMap, names: seq<Bytes>, e: ParsedEntry, p: seq<Bytes>)
    requires (p == names || Above(p, names)) && p in pm
    requires pm[p].kind != if p == names then e.kind else Directory
    ensures PathAdd(pm, names, e).None?
  {
  }

  lemma AddRefines(t: TreeState, e: ParsedEntry)
    requires TreeOk(t) && e.Wellformed() && ValidPath(e.path)
    ensures var (t', error) := Add(t, e);
      && TreeOk(t')
      && PathAdd(Abs(t), MountedNames(e.path), e) == if error.None? then Some(Abs(t')) else None
  {
    var names := MountedNames(e.path);
    assert names[..0] == [];
    AddFromRefines(t, e, names, 0, 1);
  }
}
