/** The in-memory builder: dictionaries of mutable nodes and of children. */
module MemoryBuilder {
  import opened Core
  import opened Building
  import opened Tree
  import opened Stores

  datatype AddOutcome = Added | Rejected(error: BuildError) | AlreadyFinished

  /** `InvalidNode` is the error a node's own construction would raise. */
  datatype FinishOutcome = Finished(store: MemoryStore) | InvalidNode | FinishedBefore

  class InMemorySnapshotBuilder {
    /** Keys of `nodes`, in insertion order. */
    var order: seq<nat>
    var nodes: map<nat, MutableNode>
    var children: map<nat, map<Bytes, nat>>
    var nextId: nat
    var finished: bool

    ghost function State(): TreeState
      reads this, nodes.Values
    {
      TreeState(order, map id | id in nodes :: nodes[id].Record(), children, nextId)
    }

    /** The dictionaries form a tree; in particular no node object is shared. */
    ghost predicate Valid()
      reads this, nodes.Values
    {
      TreeOk(State())
    }

    constructor ()
      ensures Valid() && State() == EMPTY_TREE && !finished
      ensures fresh(nodes.Values)
    {
      var root := new MutableNode(ROOT);
      order := [1];
      nodes := map[1 := root];
      children := map[1 := map[]];
      nextId := 2;
      finished := false;
      new;
      EmptyTreeOk();
      assert State().nodes == EMPTY_TREE.nodes;
    }

    lemma ObjectsDistinct()
      requires Valid()
      ensures forall a, b :: a in nodes && b in nodes && nodes[a] == nodes[b] ==> a == b
    {
      forall a | a in nodes ensures nodes[a].id == a {
        assert NodeOk(State().nodes, a);
      }
    }

    /** A new node below `parentId`, in both dictionaries. */
    method NewChild(parentId: nat, name: Bytes, originalPath: Text, kind: NodeKind) returns (node: MutableNode)
      modifies this
      requires forall id :: id in nodes ==> id < nextId
      ensures State() == Insert(old(State()), parentId, name, originalPath, kind)
      ensures nodes == old(nodes)[old(nextId) := node] && fresh(node) && node.id == old(nextId)
      ensures nodes.Values <= old(nodes.Values) + {node}
      ensures finished == old(finished)
    {
      var siblings := if parentId in children then children[parentId] else map[];
      var nodeId := nextId;
      nextId := nextId + 1;
      node := new MutableNode(NewNode(nodeId, Some(parentId), name, Some(originalPath), kind));
      nodes := nodes[nodeId := node];
      order := order + [nodeId];
      children := children[parentId := siblings[name := nodeId]];
      children := children[nodeId := map[]];
    }

    /** Merging into the node with a given identifier changes that node alone. */
    method MergeInto(node: MutableNode, e: ParsedEntry) returns (error: Option<BuildError>)
      requires Valid()
      requires node.id in nodes && nodes[node.id] == node
      modifies node
      ensures nodes == old(nodes) && order == old(order) && children == old(children) && nextId == old(nextId)
      ensures match Merged(old(State()).nodes[node.id], e)
        case Failure(conflict) => error == Some(conflict) && State() == old(State())
        case Success(r) => error.None? && State() == old(State()).(nodes := old(State()).nodes[node.id := r])
    {
      ObjectsDistinct();
      hide TreeOk, Merged;
      ghost var before := State();
      error := node.Merge(e);
      ghost var r := Merged(before.nodes[node.id], e);
      if r.Success? {
        assert State().nodes == before.nodes[node.id := r.value];
      } else {
        assert State().nodes == before.nodes;
      }
    }

    /** One component of a path: find its node or create it, and check its kind. */
    method EnterComponent(e: ParsedEntry, names: seq<Bytes>, i: nat, parentId: nat)
      returns (node: MutableNode, error: Option<BuildError>)
      requires Valid() && i < |names| && Reached(State(), e, names, i, parentId)
      modifies this
      ensures IndexOk(old(State()))
      ensures Enter(old(State()), e, names, i, parentId) == (State(), node.id, error)
      ensures Valid()
      ensures node.id in nodes && nodes[node.id] == node
      ensures fresh(nodes.Values - old(nodes.Values)) && finished == old(finished)
    {
      hide TreeOk;
      hide Insert;
      TreeIsIndexed(State());
      EnterKeeps(State(), e, names, i, parentId);
      var kind := if i == |names| - 1 then e.kind else Directory;
      var siblings := if parentId in children then children[parentId] else map[];
      error := None;
      if names[i] !in siblings {
        IdsBelowNext();
        node := NewChild(parentId, names[i], JoinText(e.path[..i + 1]), kind);
      } else {
        IndexedObject(parentId, names[i]);
        node := nodes[siblings[names[i]]];
        if node.kind != kind {
          error := Some(Conflict(node.Record(), e, KindConflict));
        }
      }
    }

    /** One `add`: fails leaving behind whatever the path had created so far. */
    method Add(e: ParsedEntry) returns (outcome: AddOutcome)
      requires Valid() && e.Wellformed()
      modifies this, nodes.Values
      ensures Valid() && finished == old(finished)
      ensures fresh(nodes.Values - old(nodes.Values))
      ensures IndexOk(old(State()))
      ensures old(finished) ==> outcome == AlreadyFinished && State() == old(State())
      ensures !old(finished) ==>
        var (t, error) := Tree.Add(old(State()), e);
        State() == t && outcome == if error.Some? then Rejected(error.value) else Added
    {
      hide TreeOk;
      hide Merged;
      hide Enter;
      hide State;
      TreeIsIndexed(State());
      AddKeepsTree(State(), e);
      if finished {
        return AlreadyFinished;
      }
      var components := CheckComponents(e);
      if components.Failure? {
        return Rejected(components.error);
      }
      var names := components.value;
      ghost var whole := Tree.Add(State(), e);
      var parentId: nat := 1;
      var i := 0;
      StartReached(State(), e);
      while i < |names|
        invariant 0 <= i <= |names| == |e.path|
        invariant Valid() && !finished && IndexOk(State())
        invariant fresh(nodes.Values - old(nodes.Values))
        invariant i < |names| ==> Reached(State(), e, names, i, parentId)
        invariant i < |names| ==> whole == AddFrom(State(), e, names, i, parentId)
        invariant i == |names| ==> whole == (State(), None)
      {
        var final := i == |names| - 1;
        ghost var t := State();
        EnterKeeps(t, e, names, i, parentId);
        var node, error := EnterComponent(e, names, i, parentId);
        if error.Some? {
          return Rejected(error.value);
        }
        ghost var t' := State();
        TreeIsIndexed(t');
        if final {
          error := MergeInto(node, e);
          if error.Some? {
            return Rejected(error.value);
          }
          AppliedKeeps(t', e, names, node.id);
          TreeIsIndexed(State());
        }
        parentId := node.id;
        i := i + 1;
      }
      return Added;
    }

    /** Freezes every node and the child dictionaries.  It cannot fail on a node. */
    method Finish() returns (outcome: FinishOutcome)
      requires Valid()
      modifies this`finished
      ensures finished && State() == old(State())
      ensures outcome == if old(finished) then FinishedBefore else Finished(FinishedMemory(State()))
      ensures outcome.Finished? ==>
        && outcome.store.nodes.Keys == nodes.Keys && outcome.store.children == children
        && forall id :: id in nodes ==> Keeps(outcome.store.nodes[id], nodes[id].Record())
    {
      hide TreeOk;
      hide ContentValues;
      if finished {
        return FinishedBefore;
      }
      ghost var before := State();
      finished := true;
      assert State().nodes == before.nodes;
      assert State() == before;
      FinishedNodesKeep();
      outcome := Freeze();
    }

    lemma FinishedNodesKeep()
      requires Valid()
      ensures var store := FinishedMemory(State());
        && store.nodes.Keys == nodes.Keys && store.children == children
        && forall id :: id in nodes ==> Keeps(store.nodes[id], nodes[id].Record())
    {
      hide Keeps, RecordOk, FinishedNode;
      forall id | id in nodes ensures Keeps(FinishedMemory(State()).nodes[id], nodes[id].Record()) {
        assert NodeOk(State().nodes, id);
        FinishedKeeps(nodes[id].Record());
      }
    }

    /** The loop of `finish`, over the nodes in dictionary order. */
    method Freeze() returns (outcome: FinishOutcome)
      requires Valid()
      ensures outcome == Finished(FinishedMemory(State()))
    {
      hide TreeOk;
      hide RecordOk;
      hide FinishedNode;
      hide State;
      var done: map<nat, Node> := map[];
      var exactChildren: map<nat, map<Bytes, nat>> := map[];
      var k := 0;
      InOrder();
      while k < |order|
        invariant 0 <= k <= |order|
        invariant forall id :: id in done <==> 1 <= id <= k
        invariant forall id :: id in exactChildren <==> 1 <= id <= k
        invariant forall id :: id in done ==> done[id] == FinishedNode(nodes[id].Record())
        invariant forall id :: id in exactChildren ==> exactChildren[id] == children[id]
      {
        var mutable := nodes[order[k]];
        NodeInOrder(k);
        var node := FinishedNode(mutable.Record());
        FinishedNodeInvariant(mutable.Record());
        if !node.Invariant() {
          return InvalidNode;
        }
        done := done[mutable.id := node];
        var siblings := if mutable.id in children then children[mutable.id] else map[];
        ChildNames(mutable.id);
        var childMap := map c | c in siblings.Values :: nodes[c].name := c;
        ChildMapIsIndex(mutable.id, childMap);
        exactChildren := exactChildren[mutable.id := childMap];
        k := k + 1;
      }
      FrozenIsFinished(done, exactChildren);
      return Finished(MemoryStore(order, done, exactChildren));
    }

    lemma FrozenIsFinished(done: map<nat, Node>, exactChildren: map<nat, map<Bytes, nat>>)
      requires forall id :: id in done <==> id in nodes
      requires forall id :: id in exactChildren <==> id in children
      requires forall id :: id in done ==> done[id] == FinishedNode(nodes[id].Record())
      requires forall id :: id in exactChildren ==> exactChildren[id] == children[id]
      ensures MemoryStore(order, done, exactChildren) == FinishedMemory(State())
    {
      assert done == FinishedMemory(State()).nodes;
      assert exactChildren == children;
    }

    method Abort()
      modifies this`finished
      ensures finished
    {
      finished := true;
    }

    lemma InOrder()
      requires Valid()
      ensures forall k :: 0 <= k < |order| ==> order[k] == k + 1 && order[k] in nodes
      ensures forall id :: id in nodes <==> 1 <= id <= |order|
      ensures forall id :: id in children <==> id in nodes
    {
      var t := State();
      forall id ensures id in nodes <==> 1 <= id <= |order| {
        assert id in t.nodes <==> id in nodes;
      }
      forall id ensures id in children <==> id in nodes {
        assert id in t.children <==> id in t.nodes;
      }
    }

    lemma NodeInOrder(k: nat)
      requires Valid() && k < |order| && order[k] in nodes
      ensures nodes[order[k]].id == order[k] && RecordOk(nodes[order[k]].Record())
    {
      assert NodeOk(State().nodes, order[k]);
    }

    /** Children are nodes with different names. */
    lemma ChildNames(id: nat)
      requires Valid() && id in children
      ensures forall c :: c in children[id].Values ==> c in nodes
      ensures forall n :: n in children[id] ==> children[id][n] in nodes && nodes[children[id][n]].name == n
    {
      forall n | n in children[id] ensures children[id][n] in nodes && nodes[children[id][n]].name == n {
        assert EntryOk(State(), id, n);
      }
    }

    lemma ChildMapIsIndex(id: nat, childMap: map<Bytes, nat>)
      requires Valid() && id in children
      requires forall c :: c in children[id].Values ==> c in nodes
      requires forall c :: c in children[id].Values ==> nodes[c].name in childMap && childMap[nodes[c].name] == c
      requires forall n :: n in childMap ==> childMap[n] in children[id].Values && nodes[childMap[n]].name == n
      ensures childMap == children[id]
    {
      ChildNames(id);
      forall n | n in children[id] ensures n in childMap && childMap[n] == children[id][n] {
        assert children[id][n] in children[id].Values;
      }
      forall n | n in childMap ensures n in children[id] {
        var m :| m in children[id] && children[id][m] == childMap[n];
      }
    }

    lemma IdsBelowNext()
      requires Valid()
      ensures forall id :: id in nodes ==> id < nextId
    {
      forall id | id in nodes ensures id < nextId {
        assert id in State().nodes;
      }
    }

    lemma IndexedObject(parentId: nat, name: Bytes)
      requires Valid()
      ensures parentId in children && name in children[parentId] ==>
        var id := children[parentId][name];
        id in nodes && nodes[id].id == id
    {
      if parentId in children && name in children[parentId] {
        assert EntryOk(State(), parentId, name);
        assert NodeOk(State().nodes, children[parentId][name]);
      }
    }
  }
}
