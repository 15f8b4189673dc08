/** The read-only FUSE adapter: handle tables, kernel lookup counts and directory paging. */
module FuseOperations {
  import opened Core
  import opened Building
  import opened Tree
  import opened Ordering
  import opened Stores
  import R = Reading

  /** What an operation replies with, or an exception of the store that it does not catch. */
  datatype FuseError =
    ENOENT | ENOTDIR | EISDIR | EROFS | EBADF | EINVAL | ENODATA | UncaughtKeyError | UncaughtOverflow

  datatype OpenFlags = OpenFlags(accessMode: nat, append: bool, truncate: bool)

  const O_RDONLY := 0

  // ------------------------------------------------------ lookup counts

  /** What moves a lookup count: a reply the kernel accepted, or a batch it forgot. */
  datatype Event = Replied(inode: nat) | Forgot(inode: nat, nlookup: int)

  type Counts = map<nat, nat>

  function Count(counts: Counts, inode: nat): nat {
    if inode in counts then counts[inode] else 0
  }

  function AfterEvent(counts: Counts, event: Event): Counts {
    match event
    case Replied(inode) => counts[inode := Count(counts, inode) + 1]
    case Forgot(inode, nlookup) =>
      if nlookup <= 0 then counts
      else if Count(counts, inode) > nlookup then counts[inode := Count(counts, inode) - nlookup]
      else counts - {inode}
  }

  /** Counts after a history of events, the latest last. */
  function CountsAfter(events: seq<Event>): Counts {
    if events == [] then map[] else AfterEvent(CountsAfter(events[..|events| - 1]), events[|events| - 1])
  }

  /** Replies minus forgets. */
  function Net(events: seq<Event>, inode: nat): int {
    if events == [] then 0
    else
      Net(events[..|events| - 1], inode) +
      match events[|events| - 1]
      case Replied(i) => if i == inode then 1 else 0
      case Forgot(i, n) => if i == inode && n > 0 then -n else 0
  }

  /** The kernel never forgot more of this inode than it had been told of. */
  predicate NeverOverForgotten(events: seq<Event>, inode: nat) {
    events == [] ||
    (&& NeverOverForgotten(events[..|events| - 1], inode)
     && Net(events, inode) >= 0)
  }

  /** Stored counts are positive whatever the kernel forgets, and exact unless it forgets
      too much. */
  lemma {:induction false} CountsAreNet(events: seq<Event>, inode: nat)
    ensures inode in CountsAfter(events) ==> CountsAfter(events)[inode] > 0
    ensures Count(CountsAfter(events), inode) >= Net(events, inode)
    ensures NeverOverForgotten(events, inode) ==> Count(CountsAfter(events), inode) == Net(events, inode)
  {
    if events != [] {
      CountsAreNet(events[..|events| - 1], inode);
    }
  }

  lemma CountsAfterOne(events: seq<Event>, event: Event)
    ensures CountsAfter(events + [event]) == AfterEvent(CountsAfter(events), event)
  {
    assert (events + [event])[..|events|] == events;
  }

  /** Accepted replies, one for each node. */
  function Replies(nodes: seq<Node>): seq<Event> {
    seq(|nodes|, k requires 0 <= k < |nodes| => Replied(nodes[k].id))
  }

  lemma NoReplies(nodes: seq<Node>)
    ensures Replies(nodes[..0]) == []
  {
  }

  lemma RepliesOneMore(nodes: seq<Node>, k: nat)
    requires k < |nodes|
    ensures Replies(nodes[..k + 1]) == Replies(nodes[..k]) + [Replied(nodes[k].id)]
  {
  }

  // ------------------------------------------------------------- paging

  /** The next `n` of the children after `start`, or as many as there are. */
  function UpTo(children: seq<Node>, start: nat, n: nat): seq<Node>
    requires start <= |children|
  {
    if start + n < |children| then children[start..start + n] else children[start..]
  }

  lemma UpToMeets(children: seq<Node>, start: nat, n: nat, m: nat)
    requires start <= |children|
    ensures var first := UpTo(children, start, n);
      && start + |first| <= |children|
      && first + UpTo(children, start + |first|, m) == UpTo(children, start, n + m)
  {
  }

  function Sum(ns: seq<nat>): nat {
    if ns == [] then 0 else Sum(ns[..|ns| - 1]) + ns[|ns| - 1]
  }

  lemma SumOneMore(ns: seq<nat>, k: nat)
    requires k < |ns|
    ensures Sum(ns[..k + 1]) == Sum(ns[..k]) + ns[k]
  {
    assert ns[..k + 1][..k] == ns[..k];
  }

  lemma {:induction false} ProgressSum(rooms: seq<nat>)
    requires forall k :: 0 <= k < |rooms| ==> rooms[k] >= 1
    ensures Sum(rooms) >= |rooms|
  {
    if rooms != [] {
      ProgressSum(rooms[..|rooms| - 1]);
    }
  }

  // ---------------------------------------------------------- resolution

  /** `_node` */
  function NodeOf(store: SqliteStore, inode: int): Result<Node, FuseError> {
    match store.GetNode(inode)
    case Success(node) => Success(node)
    case Failure(NoSuchNode) => Failure(ENOENT)
    case Failure(IntegerOverflow) => Failure(UncaughtOverflow)
  }

  /** The first row with that identifier, `ENOENT` exactly without one, and an exception for a
      number that cannot be bound. */
  lemma NodeOfTells(store: SqliteStore, inode: int)
    ensures match NodeOf(store, inode)
      case Success(node) => Fits64(inode) && node.id == inode && exists row :: row in store.rows && row.node == node
      case Failure(e) =>
        && (!Fits64(inode) ==> e == UncaughtOverflow)
        && (Fits64(inode) ==> e == ENOENT && forall k :: 0 <= k < |store.rows| ==> store.rows[k].node.id != inode)
  {
    hide SelectById;
    SelectByIdFinds(store.rows, inode);
  }

  /** The node a lookup names: `.`, `..` or a child. */
  function Target(store: SqliteStore, parent: int, name: Bytes): Result<Node, FuseError> {
    match NodeOf(store, parent)
    case Failure(e) => Failure(e)
    case Success(node) =>
      if !node.kind.Directory? then Failure(ENOTDIR)
      else if name == [DOT] then Success(node)
      else if name == [DOT, DOT] then
        if node.parent.None? then Success(node) else NodeOf(store, node.parent.value)
      else
        match store.Lookup(parent, name)
        case Failure(NoSuchNode) => Failure(UncaughtKeyError)
        case Failure(IntegerOverflow) => Failure(UncaughtOverflow)
        case Success(None) => Failure(ENOENT)
        case Success(Some(found)) => Success(found)
  }

  // --------------------------------------------------------- the adapter

  class SnapshotOperations {
    const store: SqliteStore
    var fileHandles: map<nat, nat>
    var directoryHandles: map<nat, nat>
    var lookupCounts: Counts
    var nextHandle: nat
    /** Every handle ever handed out, and everything that ever moved a count. */
    ghost var issued: seq<nat>
    ghost var events: seq<Event>

    ghost predicate Valid()
      reads this
    {
      && nextHandle == |issued| + 1
      && (forall k :: 0 <= k < |issued| ==> issued[k] == k + 1)
      && (forall h :: h in fileHandles ==> h in issued && h !in directoryHandles)
      && (forall h :: h in directoryHandles ==> h in issued)
      && lookupCounts == CountsAfter(events)
    }

    constructor (store: SqliteStore)
      ensures Valid() && this.store == store && issued == [] && events == []
      ensures fileHandles == map[] && directoryHandles == map[]
    {
      this.store := store;
      fileHandles, directoryHandles, lookupCounts := map[], map[], map[];
      nextHandle := 1;
      issued, events := [], [];
    }

    method IncrementLookup(inode: nat)
      requires Valid()
      modifies this`lookupCounts, this`events
      ensures Valid() && events == old(events) + [Replied(inode)]
    {
      CountsAfterOne(events, Replied(inode));
      lookupCounts := lookupCounts[inode := (if inode in lookupCounts then lookupCounts[inode] else 0) + 1];
      events := events + [Replied(inode)];
    }

    /** A handle that was never issued before. */
    method AllocateHandle() returns (handle: nat)
      requires Valid()
      modifies this`nextHandle, this`issued
      ensures Valid() && issued == old(issued) + [handle]
      ensures handle !in old(issued) && handle !in fileHandles && handle !in directoryHandles
    {
      handle := nextHandle;
      nextHandle := nextHandle + 1;
      issued := issued + [handle];
    }

    /** Only a successful reply counts. */
    method Lookup(parent: int, name: Bytes) returns (r: Result<Node, FuseError>)
      requires Valid()
      modifies this`lookupCounts, this`events
      ensures Valid() && r == Target(store, parent, name)
      ensures events == old(events) + if r.Success? then [Replied(r.value.id)] else []
    {
      r := Target(store, parent, name);
      if r.Success? {
        IncrementLookup(r.value.id);
      }
    }

    method Forget(inodes: seq<(nat, int)>)
      requires Valid()
      modifies this`lookupCounts, this`events
      ensures Valid()
      ensures events == old(events) + seq(|inodes|, k requires 0 <= k < |inodes| => Forgot(inodes[k].0, inodes[k].1))
    {
      ghost var all := seq(|inodes|, k requires 0 <= k < |inodes| => Forgot(inodes[k].0, inodes[k].1));
      var k := 0;
      while k < |inodes|
        invariant 0 <= k <= |inodes|
        invariant Valid() && events == old(events) + all[..k]
      {
        var (inode, nlookup) := inodes[k];
        CountsAfterOne(events, Forgot(inode, nlookup));
        events := events + [Forgot(inode, nlookup)];
        k := k + 1;
        assert all[..k] == all[..k - 1] + [Forgot(inode, nlookup)];
        if nlookup <= 0 {
          continue;
        }
        var current := if inode in lookupCounts then lookupCounts[inode] else 0;
        var remaining := if current - nlookup > 0 then current - nlookup else 0;
        if remaining != 0 {
          lookupCounts := lookupCounts[inode := remaining];
        } else {
          lookupCounts := lookupCounts - {inode};
        }
      }
      assert all[..k] == all;
    }

    method Opendir(inode: nat) returns (r: Result<nat, FuseError>)
      requires Valid()
      modifies this`directoryHandles, this`nextHandle, this`issued
      ensures Valid()
      ensures match NodeOf(store, inode)
        case Failure(e) => r == Failure(e)
        case Success(node) => if node.kind.Directory? then r.Success? else r == Failure(ENOTDIR)
      ensures r.Success? ==>
        && r.value !in old(issued) && issued == old(issued) + [r.value]
        && directoryHandles == old(directoryHandles)[r.value := inode]
      ensures r.Failure? ==> issued == old(issued) && directoryHandles == old(directoryHandles)
    {
      var node := NodeOf(store, inode);
      if node.Failure? {
        return Failure(node.error);
      }
      if !node.value.kind.Directory? {
        return Failure(ENOTDIR);
      }
      var handle := AllocateHandle();
      directoryHandles := directoryHandles[handle := inode];
      return Success(handle);
    }

    method Open(inode: nat, flags: OpenFlags) returns (r: Result<nat, FuseError>)
      requires Valid()
      modifies this`fileHandles, this`nextHandle, this`issued
      ensures Valid()
      ensures match NodeOf(store, inode)
        case Failure(e) => r == Failure(e)
        case Success(node) =>
          if node.kind.Directory? then r == Failure(EISDIR)
          else if flags.accessMode != O_RDONLY || flags.append || flags.truncate then r == Failure(EROFS)
          else r.Success?
      ensures r.Success? ==>
        && r.value !in old(issued) && issued == old(issued) + [r.value]
        && fileHandles == old(fileHandles)[r.value := inode]
      ensures r.Failure? ==> issued == old(issued) && fileHandles == old(fileHandles)
    {
      var node := NodeOf(store, inode);
      if node.Failure? {
        return Failure(node.error);
      }
      if node.value.kind.Directory? {
        return Failure(EISDIR);
      }
      if flags.accessMode != O_RDONLY || flags.append || flags.truncate {
        return Failure(EROFS);
      }
      var handle := AllocateHandle();
      fileHandles := fileHandles[handle := inode];
      return Success(handle);
    }

    /** Reading through a handle is reading the file it was opened for. */
    method Read(fh: nat, off: int, size: int, simulate: bool) returns (r: Result<Bytes, FuseError>)
      requires Valid()
      ensures fh !in fileHandles ==> r == Failure(EBADF)
      ensures fh in fileHandles ==>
        match NodeOf(store, fileHandles[fh])
        case Failure(e) => r == Failure(e)
        case Success(node) =>
          match R.ReadNode(node, off, size, simulate)
          case Success(bytes) => r == Success(bytes)
          case Failure(IsADirectory) => r == Failure(EISDIR)
          case Failure(InvalidArgument) => r == Failure(EINVAL)
          case Failure(NoData) => r == Failure(ENODATA)
    {
      if fh !in fileHandles {
        return Failure(EBADF);
      }
      var node := NodeOf(store, fileHandles[fh]);
      if node.Failure? {
        return Failure(node.error);
      }
      match R.ReadNode(node.value, off, size, simulate) {
        case Success(bytes) => r := Success(bytes);
        case Failure(IsADirectory) => r := Failure(EISDIR);
        case Failure(InvalidArgument) => r := Failure(EINVAL);
        case Failure(NoData) => r := Failure(ENODATA);
      }
    }

    method Release(fh: nat) returns (r: Result<(), FuseError>)
      requires Valid()
      modifies this`fileHandles
      ensures Valid() && fileHandles == old(fileHandles) - {fh}
      ensures r == if fh in old(fileHandles) then Success(()) else Failure(EBADF)
    {
      if fh !in fileHandles {
        return Failure(EBADF);
      }
      fileHandles := fileHandles - {fh};
      return Success(());
    }

    method Releasedir(fh: nat) returns (r: Result<(), FuseError>)
      requires Valid()
      modifies this`directoryHandles
      ensures Valid() && directoryHandles == old(directoryHandles) - {fh}
      ensures r == if fh in old(directoryHandles) then Success(()) else Failure(EBADF)
    {
      if fh !in directoryHandles {
        return Failure(EBADF);
      }
      directoryHandles := directoryHandles - {fh};
      return Success(());
    }

    /** Offers the children after `startId`; the kernel has room for `room` of them.  Every
        accepted entry counts once and carries the identifier to resume from. */
    method Readdir(fh: nat, startId: nat, room: nat) returns (r: Result<seq<(Node, nat)>, FuseError>)
      requires Valid()
      modifies this`lookupCounts, this`events
      ensures Valid()
      ensures r.Failure? ==> events == old(events)
      ensures fh !in directoryHandles ==> r == Failure(EBADF)
      ensures fh in directoryHandles ==>
        match store.IterChildren(directoryHandles[fh], startId)
        case Failure(NoSuchNode) => r == Failure(UncaughtKeyError)
        case Failure(IntegerOverflow) => r == Failure(UncaughtOverflow)
        case Success(offered) =>
          && r.Success?
          && |r.value| == (if room < |offered| then room else |offered|)
          && (forall k :: 0 <= k < |r.value| ==> r.value[k] == (offered[k], startId + k + 1))
          && events == old(events) + Replies(offered[..|r.value|])
    {
      hide SqliteStore.IterChildren;
      hide CountsAfter;
      hide Replies;
      if fh !in directoryHandles {
        return Failure(EBADF);
      }
      var answer := store.IterChildren(directoryHandles[fh], startId);
      if answer.Failure? {
        return Failure(if answer.error.NoSuchNode? then UncaughtKeyError else UncaughtOverflow);
      }
      var offered := answer.value;
      var accepted: seq<(Node, nat)> := [];
      var k := 0;
      NoReplies(offered);
      while k < |offered|
        invariant 0 <= k <= |offered| && k == |accepted| <= room
        invariant forall j :: 0 <= j < k ==> accepted[j] == (offered[j], startId + j + 1)
        invariant Valid()
        invariant events == old(events) + Replies(offered[..k])
      {
        if k == room {
          break;
        }
        RepliesOneMore(offered, k);
        IncrementLookup(offered[k].id);
        accepted := accepted + [(offered[k], startId + k + 1)];
        k := k + 1;
      }
      r := Success(accepted);
    }
  }

  // ------------------------------------------- over a finished tree

  /** What a lookup finds: for a name, the node at the parent's path and that name, and
      `ENOENT` exactly when there is none. */
  lemma LookupFinds(t: TreeState, parent: nat, name: Bytes)
    requires TreeOk(t) && Fits64(parent)
    ensures (forall k :: 0 <= k < |t.order| ==> t.order[k] in t.nodes)
    ensures var r := Target(SqliteStore(FinishedTable(t)), parent, name);
      if parent !in t.nodes then r == Failure(ENOENT)
      else if !t.nodes[parent].kind.Directory? then r == Failure(ENOTDIR)
      else if name == [DOT] then r == Success(FinishedNode(t.nodes[parent]))
      else if name == [DOT, DOT] then FindsParent(t, parent, r)
      else FindsChild(t, parent, name, r)
  {
    hide FinishedTable, SqliteStore.Lookup, SqliteStore.IterChildren, SqliteStore.GetNode, TreeOk;
    hide FinishedMemory, MemoryStore.Lookup, MemoryStore.GetNode, ContentValues;
    MemoryFinds(t, parent, name);
    SameAnswers(t, parent, name, 0);
    if parent in t.nodes && t.nodes[parent].parent.Some? {
      ParentFits(t, parent);
      MemoryFinds(t, t.nodes[parent].parent.value, name);
      SameAnswers(t, t.nodes[parent].parent.value, name, 0);
    }
    if parent in t.nodes {
      ParentFound(t, parent);
    }
  }

  /** The root's parent is the root. */
  ghost predicate FindsParent(t: TreeState, parent: nat, r: Result<Node, FuseError>)
    requires TreeOk(t) && parent in t.nodes
  {
    var path := PathOf(t.nodes, parent);
    && r.Success? && r.value.id in t.nodes && r.value == FinishedNode(t.nodes[r.value.id])
    && PathOf(t.nodes, r.value.id) == if path == [] then [] else path[..|path| - 1]
  }

  ghost predicate FindsChild(t: TreeState, parent: nat, name: Bytes, r: Result<Node, FuseError>)
    requires TreeOk(t) && parent in t.nodes
  {
    var path := PathOf(t.nodes, parent) + [name];
    match r
    case Success(node) =>
      node.id in t.nodes && node == FinishedNode(t.nodes[node.id]) && PathOf(t.nodes, node.id) == path
    case Failure(e) =>
      e == ENOENT && forall id :: id in t.nodes ==> PathOf(t.nodes, id) != path
  }

  lemma ParentFits(t: TreeState, id: nat)
    requires TreeOk(t) && id in t.nodes && Fits64(id) && t.nodes[id].parent.Some?
    ensures Fits64(t.nodes[id].parent.value)
  {
    assert LinkOk(t.nodes, id);
  }

  lemma ParentFound(t: TreeState, id: nat)
    requires TreeOk(t) && id in t.nodes
    ensures t.nodes[id].parent.None? ==> FindsParent(t, id, Success(FinishedNode(t.nodes[id])))
    ensures t.nodes[id].parent.Some? ==>
      && t.nodes[id].parent.value in t.nodes
      && FindsParent(t, id, Success(FinishedNode(t.nodes[t.nodes[id].parent.value])))
  {
    assert LinkOk(t.nodes, id) && NodeOk(t.nodes, id);
    if id != 1 {
      assert NodeOk(t.nodes, t.nodes[id].parent.value);
    }
  }

  /** The dictionaries hold exactly the nodes and children of the tree. */
  lemma MemoryFinds(t: TreeState, inode: nat, name: Bytes)
    requires TreeOk(t)
    ensures FinishedMemory(t).Closed()
    ensures FinishedMemory(t).GetNode(inode) ==
      if inode in t.nodes then Success(FinishedNode(t.nodes[inode])) else Failure(NoSuchNode)
    ensures inode in t.nodes ==>
      var answer := FinishedMemory(t).Lookup(inode, name);
      && answer.Success?
      && FindsChild(t, inode, name, if answer.value.Some? then Success(answer.value.value) else Failure(ENOENT))
  {
    SameAnswers(t, inode, name, 0);
    if inode in t.nodes {
      if name in t.children[inode] {
        assert EntryOk(t, inode, name) && LinkOk(t.nodes, t.children[inode][name]);
        assert NodeOk(t.nodes, t.children[inode][name]);
      } else {
        forall id | id in t.nodes ensures PathOf(t.nodes, id) != PathOf(t.nodes, inode) + [name] {
          NoSuchChild(t, inode, name, id);
        }
      }
    }
  }

  lemma NoSuchChild(t: TreeState, parent: nat, name: Bytes, id: nat)
    requires TreeOk(t) && parent in t.nodes && parent in t.children && name !in t.children[parent] && id in t.nodes
    ensures PathOf(t.nodes, id) != PathOf(t.nodes, parent) + [name]
  {
    var path := PathOf(t.nodes, parent) + [name];
    assert path[..|path| - 1] == PathOf(t.nodes, parent) && path[|path| - 1] == name;
    assert LinkOk(t.nodes, id) && Indexed(t, id);
    if id != 1 && PathOf(t.nodes, id) == path {
      var p := t.nodes[id].parent.value;
      assert PathOf(t.nodes, p) == PathOf(t.nodes, id)[..|path| - 1];
      PathInjective(t, p, parent);
    }
  }

  /** The children of a directory, in byte order of their names, each once. */
  lemma ListingIsSorted(t: TreeState, parent: nat)
    requires TreeOk(t) && parent in t.nodes && Fits64(parent)
    ensures (forall k :: 0 <= k < |t.order| ==> t.order[k] in t.nodes)
    ensures parent in t.children
    ensures var answer := SqliteStore(FinishedTable(t)).IterChildren(parent, 0);
      && answer.Success?
      && Ascending(NamesIn(answer.value))
      && Elements(NamesIn(answer.value)) == t.children[parent].Keys
  {
    hide FinishedTable;
    hide SqliteStore.IterChildren;
    hide OrderByName;
    hide SelectChildren;
    FinishedShape(t);
    SameGetNode(t, parent);
    var ordered := SameChildren(t, parent);
    OffsetIsSlice(FinishedTable(t), parent, 0);
    var answer := SqliteStore(FinishedTable(t)).IterChildren(parent, 0);
    assert SliceFrom(ordered, 0) == ordered;
    assert NamesIn(answer.value) == RowNames(ordered);
  }

  /** What a call resuming at `startId` is offered is the first listing from there on. */
  lemma ResumedOfferIsSlice(t: TreeState, parent: nat, startId: nat)
    requires TreeOk(t) && parent in t.nodes && Fits64(parent)
    ensures (forall k :: 0 <= k < |t.order| ==> t.order[k] in t.nodes)
    ensures var store := SqliteStore(FinishedTable(t));
      && store.IterChildren(parent, 0).Success?
      && store.IterChildren(parent, startId) == Success(SliceFrom(store.IterChildren(parent, 0).value, startId))
  {
    hide FinishedTable;
    hide SqliteStore.IterChildren;
    hide OrderByName;
    hide SelectChildren;
    FinishedShape(t);
    SameGetNode(t, parent);
    var ordered := SameChildren(t, parent);
    OffsetIsSlice(FinishedTable(t), parent, 0);
    OffsetIsSlice(FinishedTable(t), parent, startId);
    SliceOfNodes(ordered, startId);
  }

  lemma SliceOfNodes(ordered: seq<Row>, startId: nat)
    ensures SliceFrom(ordered, 0) == ordered
    ensures NodesOf(SliceFrom(ordered, startId)) == SliceFrom(NodesOf(ordered), startId)
  {
  }

  function NamesIn(nodes: seq<Node>): seq<Bytes> {
    seq(|nodes|, k requires 0 <= k < |nodes| => nodes[k].name)
  }

  function Accepted(answer: seq<(Node, nat)>): seq<Node> {
    seq(|answer|, k requires 0 <= k < |answer| => answer[k].0)
  }

  /** A store over the finished table of a tree. */
  ghost predicate Serves(store: SqliteStore, t: TreeState) {
    && TreeOk(t)
    && (forall k :: 0 <= k < |t.order| ==> t.order[k] in t.nodes)
    && store == SqliteStore(FinishedTable(t))
  }

  /**
   A kernel that reads a directory: call after call on one handle, each resuming at the
   identifier of the last entry it accepted, with any room each time.  It gets the children
   in byte order, none twice and none left out before the last it got; if every call has
   room for one, as many calls as there are children get them all.
   */
  method ListDirectory(ops: SnapshotOperations, fh: nat, rooms: seq<nat>, ghost t: TreeState)
    returns (listed: seq<Node>)
    requires ops.Valid() && fh in ops.directoryHandles && Serves(ops.store, t)
    requires ops.directoryHandles[fh] in t.nodes && Fits64(ops.directoryHandles[fh])
    modifies ops`lookupCounts, ops`events
    ensures ops.Valid()
    ensures var inode := ops.directoryHandles[fh];
      && ops.store.IterChildren(inode, 0).Success?
      && var children := ops.store.IterChildren(inode, 0).value;
      && listed == UpTo(children, 0, Sum(rooms))
      && ops.events == old(ops.events) + Replies(listed)
      && Ascending(NamesIn(listed))
      && (|rooms| >= |children| && (forall k :: 0 <= k < |rooms| ==> rooms[k] >= 1) ==>
            listed == children && Elements(NamesIn(listed)) == t.children[inode].Keys)
  {
    hide FinishedTable, SqliteStore.IterChildren, TreeOk, CountsAfter, Replies, Accepted, UpTo, Ascending, NamesIn, Sum;
    var inode := ops.directoryHandles[fh];
    ListingIsSorted(t, inode);
    ghost var children := ops.store.IterChildren(inode, 0).value;
    listed := [];
    var startId: nat := 0;
    var k := 0;
    NothingListed(children, rooms);
    while k < |rooms|
      invariant 0 <= k <= |rooms|
      invariant ops.Valid() && startId == |listed| <= |children|
      invariant listed == UpTo(children, 0, Sum(rooms[..k]))
      invariant ops.events == old(ops.events) + Replies(listed)
    {
      ResumedOfferIsSlice(t, inode, startId);
      var r := ops.Readdir(fh, startId, rooms[k]);
      ListedMore(children, listed, rooms, k, r.value);
      if r.value != [] {
        startId := r.value[|r.value| - 1].1;
      }
      listed := listed + Accepted(r.value);
      k := k + 1;
    }
    assert rooms[..k] == rooms;
    ListedIsAll(children, rooms);
  }

  lemma NothingListed(children: seq<Node>, rooms: seq<nat>)
    ensures UpTo(children, 0, Sum(rooms[..0])) == [] && Replies([]) == []
  {
  }

  /** The answer to one more call continues the listing, and tells where to resume. */
  lemma ListedMore(children: seq<Node>, listed: seq<Node>, rooms: seq<nat>, k: nat, answer: seq<(Node, nat)>)
    requires k < |rooms| && |listed| <= |children| && listed == UpTo(children, 0, Sum(rooms[..k]))
    requires var offered := SliceFrom(children, |listed|);
      && |answer| == (if rooms[k] < |offered| then rooms[k] else |offered|)
      && forall j :: 0 <= j < |answer| ==> answer[j] == (offered[j], |listed| + j + 1)
    ensures var offered := SliceFrom(children, |listed|);
      && listed + Accepted(answer) == UpTo(children, 0, Sum(rooms[..k + 1]))
      && |listed| + |answer| == |listed + Accepted(answer)| <= |children|
      && |answer| <= |offered|
      && Replies(listed) + Replies(offered[..|answer|]) == Replies(listed + Accepted(answer))
      && (answer != [] ==> answer[|answer| - 1].1 == |listed| + |answer|)
  {
    AcceptedIsUpTo(children, |listed|, rooms[k], answer);
    assert |Accepted(answer)| == |answer|;
    hide UpTo, Sum, Replies, Accepted;
    UpToMeets(children, 0, Sum(rooms[..k]), rooms[k]);
    SumOneMore(rooms, k);
    RepliesConcat(listed, Accepted(answer));
  }

  lemma ListedIsAll(children: seq<Node>, rooms: seq<nat>)
    requires Ascending(NamesIn(children))
    ensures Ascending(NamesIn(UpTo(children, 0, Sum(rooms))))
    ensures |rooms| >= |children| && (forall k :: 0 <= k < |rooms| ==> rooms[k] >= 1) ==>
      UpTo(children, 0, Sum(rooms)) == children
  {
    PrefixAscends(children, Sum(rooms));
    if forall k :: 0 <= k < |rooms| ==> rooms[k] >= 1 {
      ProgressSum(rooms);
    }
  }

  lemma AcceptedIsUpTo(children: seq<Node>, start: nat, room: nat, answer: seq<(Node, nat)>)
    requires start <= |children|
    requires var offered := SliceFrom(children, start);
      && |answer| == (if room < |offered| then room else |offered|)
      && forall k :: 0 <= k < |answer| ==> answer[k] == (offered[k], start + k + 1)
    ensures Accepted(answer) == UpTo(children, start, room)
    ensures Accepted(answer) == SliceFrom(children, start)[..|answer|]
    ensures answer != [] ==> answer[|answer| - 1].1 == start + |answer|
  {
  }

  lemma RepliesConcat(a: seq<Node>, b: seq<Node>)
    ensures Replies(a + b) == Replies(a) + Replies(b)
  {
  }

  lemma PrefixAscends(children: seq<Node>, n: nat)
    requires Ascending(NamesIn(children))
    ensures Ascending(NamesIn(UpTo(children, 0, n)))
    ensures n >= |children| ==> UpTo(children, 0, n) == children
  {
    var some := UpTo(children, 0, n);
    forall i, j | 0 <= i < j < |some| ensures Less(NamesIn(some)[i], NamesIn(some)[j]) {
      assert NamesIn(some)[i] == NamesIn(children)[i] && NamesIn(some)[j] == NamesIn(children)[j];
    }
  }
}
