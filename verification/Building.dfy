/** Path normalisation and entry merge semantics, shared by both builders. */
module Building {
  import opened Core
  import opened Unicode

  const MAX_MOUNTED_NAME_BYTES := 255

  const DOT: CodePoint := 0x2E
  const SLASH: CodePoint := 0x2F

  datatype NodeKind = Directory | File

  datatype ContentStatus = NotApplicable | Missing | Present | Remote | Failed | Redacted

  datatype Observation = SectionHeader | DirectoryEntry | FileEntry

  /** Timestamps and metadata are opaque values, compared for equality. */
  datatype Timestamp = Timestamp(instant: int)

  datatype Metadata = NoMetadata | Metadata(value: int)

  datatype ParsedEntry = ParsedEntry(
    path: seq<Text>,
    kind: NodeKind,
    observation: Observation,
    size: Option<nat>,
    modified: Option<Timestamp>,
    line: Option<nat>,
    content: Option<Bytes>,
    metadata: Metadata)
  {
    /** What constructing an entry enforces. */
    predicate Wellformed() {
      && (line.Some? ==> line.value >= 1)
      && (kind.Directory? ==> size.None? && content.None?)
      && (content.Some? ==> size == Some(|content.value|))
    }

    /** The three forms a parser emits. */
    predicate ParserShaped() {
      && Wellformed()
      && match observation
         case FileEntry => kind.File?
         case DirectoryEntry => kind.Directory?
         case SectionHeader => kind.Directory? && modified.None?
    }
  }

  /** The value of a node under construction. */
  datatype NodeRecord = NodeRecord(
    id: nat,
    parent: Option<nat>,
    name: Bytes,
    originalPath: Option<Text>,
    kind: NodeKind,
    size: Option<nat>,
    modified: Option<Timestamp>,
    content: Option<Bytes>,
    line: Option<nat>,
    observation: Option<Observation>,
    metadata: Metadata)

  function NewNode(id: nat, parent: Option<nat>, name: Bytes, originalPath: Option<Text>, kind: NodeKind): NodeRecord {
    NodeRecord(id, parent, name, originalPath, kind, None, None, None, None, None, NoMetadata)
  }

  // ------------------------------------------------------------- errors

  datatype PathFault = NoComponents | ReservedName | ForbiddenCharacter | NotUnicode | NameTooLong

  datatype ConflictReason = KindConflict | FileMetadataConflict | DirectoryMetadataConflict

  /** How a conflict message identifies an observation. */
  datatype Location = AtLine(line: nat) | AtPath(path: Text) | Synthesized

  datatype BuildError =
    | InvalidPath(fault: PathFault, line: Option<nat>)
    | EntryConflict(reason: ConflictReason, existing: Location, incoming: Location, line: Option<nat>)

  function Conflict(node: NodeRecord, e: ParsedEntry, reason: ConflictReason): BuildError {
    var existing :=
      if node.line.Some? then AtLine(node.line.value)
      else if node.observation.Some? && node.originalPath.Some? then AtPath(node.originalPath.value)
      else Synthesized;
    var incoming := if e.line.Some? then AtLine(e.line.value) else AtPath(JoinText(e.path));
    EntryConflict(reason, existing, incoming, e.line)
  }

  // --------------------------------------------------------- components

  /** `"/".join(path)` */
  function JoinText(path: seq<Text>): Text {
    if path == [] then []
    else if |path| == 1 then path[0]
    else path[0] + [SLASH] + JoinText(path[1..])
  }

  /** Why a component cannot be mounted, tested in the builders' order. */
  function ComponentFault(c: Text): Option<PathFault> {
    if c == [] || c == [DOT] || c == [DOT, DOT] then Some(ReservedName)
    else if 0 in c || SLASH in c then Some(ForbiddenCharacter)
    else if !Encodable(c) then Some(NotUnicode)
    else if |Utf8Encode(c)| > MAX_MOUNTED_NAME_BYTES then Some(NameTooLong)
    else None
  }

  /** Every component is mountable, and there is at least one. */
  predicate ValidPath(path: seq<Text>) {
    path != [] && forall i :: 0 <= i < |path| ==> ComponentFault(path[i]).None?
  }

  /** The mounted names of a valid path. */
  function MountedNames(path: seq<Text>): (names: seq<Bytes>)
    requires forall i :: 0 <= i < |path| ==> ComponentFault(path[i]).None?
  {
    seq(|path|, i requires 0 <= i < |path| && ComponentFault(path[i]).None? => Utf8Encode(path[i]))
  }

  /** The mounted names of an entry's path, or its first fault. */
  function Components(e: ParsedEntry): Result<seq<Bytes>, BuildError> {
    if e.path == [] then Failure(InvalidPath(NoComponents, e.line))
    else if ValidPath(e.path) then Success(MountedNames(e.path))
    else Failure(InvalidPath(ComponentFault(e.path[FirstFault(e.path)]).value, e.line))
  }

  function FirstFault(path: seq<Text>): (i: nat)
    requires exists k :: 0 <= k < |path| && ComponentFault(path[k]).Some?
    ensures i < |path| && ComponentFault(path[i]).Some?
    ensures forall k :: 0 <= k < i ==> ComponentFault(path[k]).None?
  {
    if ComponentFault(path[0]).Some? then 0
    else
      assert exists k :: 0 <= k < |path[1..]| && ComponentFault(path[1..][k]).Some? by {
        var k :| 0 <= k < |path| && ComponentFault(path[k]).Some?;
        assert path[1..][k - 1] == path[k];
      }
      1 + FirstFault(path[1..])
  }

  /** The loop over components: stops at the first fault. */
  method CheckComponents(e: ParsedEntry) returns (r: Result<seq<Bytes>, BuildError>)
    ensures r == Components(e)
  {
    if e.path == [] {
      return Failure(InvalidPath(NoComponents, e.line));
    }
    var names: seq<Bytes> := [];
    var i := 0;
    while i < |e.path|
      invariant 0 <= i <= |e.path| && |names| == i
      invariant forall k :: 0 <= k < i ==> ComponentFault(e.path[k]).None? && names[k] == Utf8Encode(e.path[k])
    {
      var component := e.path[i];
      var fault := None;
      if component == [] || component == [DOT] || component == [DOT, DOT] {
        fault := Some(ReservedName);
      } else if 0 in component || SLASH in component {
        fault := Some(ForbiddenCharacter);
      } else if !Encodable(component) {
        fault := Some(NotUnicode);
      } else if |Utf8Encode(component)| > MAX_MOUNTED_NAME_BYTES {
        fault := Some(NameTooLong);
      }
      assert fault == ComponentFault(component);
      if fault.Some? {
        return Failure(InvalidPath(fault.value, e.line));
      }
      names := names + [Utf8Encode(component)];
      i := i + 1;
    }
    assert names == MountedNames(e.path);
    return Success(names);
  }

  // -------------------------------------------------------------- merge

  /** The node an entry is observed on: everything but its identity. */
  function Applied(node: NodeRecord, e: ParsedEntry): NodeRecord {
    node.(size := e.size, modified := e.modified, content := e.content, line := e.line,
          originalPath := Some(JoinText(e.path)), observation := Some(e.observation), metadata := e.metadata)
  }

  function Merged(node: NodeRecord, e: ParsedEntry): Result<NodeRecord, BuildError> {
    if node.observation.None? then Success(Applied(node, e))
    else if node.kind.File? then
      if node.size != e.size || node.modified != e.modified || node.content != e.content then
        Failure(Conflict(node, e, FileMetadataConflict))
      else Success(node)
    else if e.observation.SectionHeader? then Success(node)
    else if node.observation.value.SectionHeader? then Success(Applied(node, e))
    else if node.modified != e.modified then Failure(Conflict(node, e, DirectoryMetadataConflict))
    else Success(node)
  }

  /** A node while a builder fills it in. */
  class MutableNode {
    const id: nat
    const parent: Option<nat>
    const name: Bytes
    var originalPath: Option<Text>
    const kind: NodeKind
    var size: Option<nat>
    var modified: Option<Timestamp>
    var content: Option<Bytes>
    var line: Option<nat>
    var observation: Option<Observation>
    var metadata: Metadata

    function Record(): NodeRecord
      reads this
    {
      NodeRecord(id, parent, name, originalPath, kind, size, modified, content, line, observation, metadata)
    }

    constructor (r: NodeRecord)
      ensures Record() == r
    {
      id, parent, name, kind := r.id, r.parent, r.name, r.kind;
      originalPath, size, modified, content := r.originalPath, r.size, r.modified, r.content;
      line, observation, metadata := r.line, r.observation, r.metadata;
    }

    method ApplyEntry(e: ParsedEntry)
      modifies this
      ensures Record() == Applied(old(Record()), e)
    {
      size := e.size;
      modified := e.modified;
      content := e.content;
      line := e.line;
      originalPath := Some(JoinText(e.path));
      observation := Some(e.observation);
      metadata := e.metadata;
    }

    method Merge(e: ParsedEntry) returns (error: Option<BuildError>)
      modifies this
      ensures match Merged(old(Record()), e)
        case Success(r) => error.None? && Record() == r
        case Failure(conflict) => error == Some(conflict) && Record() == old(Record())
    {
      if observation.None? {
        ApplyEntry(e);
        return None;
      }
      if kind.File? {
        if size != e.size || modified != e.modified || content != e.content {
          return Some(Conflict(Record(), e, FileMetadataConflict));
        }
        return None;
      }
      if e.observation.SectionHeader? {
        return None;
      }
      if observation.value.SectionHeader? {
        ApplyEntry(e);
        return None;
      }
      if modified != e.modified {
        return Some(Conflict(Record(), e, DirectoryMetadataConflict));
      }
      return None;
    }
  }

  // ------------------------------------------------------------ content

  /** Final content and status: a file of size zero has known, empty content. */
  function ContentValues(node: NodeRecord): (Option<Bytes>, ContentStatus) {
    var content :=
      if node.kind.File? && node.size == Some(0) && node.content.None? then Some([]) else node.content;
    if node.kind.Directory? then (content, NotApplicable)
    else if content.Some? then (content, Present)
    else (content, Missing)
  }

  // ------------------------------------------------- names and joined paths

  /** A name a mounted tree may hold. */
  predicate MountedName(name: Bytes) {
    && Utf8Decode(name).Decoded?
    && name != [] && name != [DOT] && name != [DOT, DOT]
    && 0 !in name && SLASH !in name
    && |name| <= MAX_MOUNTED_NAME_BYTES
  }

  function JoinNames(names: seq<Bytes>): Bytes {
    if names == [] then []
    else if |names| == 1 then names[0]
    else names[0] + [SLASH] + JoinNames(names[1..])
  }

  lemma ComponentMounts(c: Text)
    requires ComponentFault(c).None?
    ensures MountedName(Utf8Encode(c))
  {
    Utf8RoundTrip(c);
    Utf8EncodeAscii(c, 0);
    Utf8EncodeAscii(c, SLASH);
    assert Utf8Decode([DOT]) == Decoded([DOT]);
    assert Utf8Decode([DOT, DOT]) == Decoded([DOT, DOT]) by {
      assert [DOT, DOT][1..] == [DOT];
    }
  }

  /** Different components have different mounted names. */
  lemma MountedNamesInjective(p: seq<Text>, q: seq<Text>)
    requires forall i :: 0 <= i < |p| ==> ComponentFault(p[i]).None?
    requires forall i :: 0 <= i < |q| ==> ComponentFault(q[i]).None?
    ensures MountedNames(p) <= MountedNames(q) <==> p <= q
    ensures MountedNames(p) == MountedNames(q) <==> p == q
  {
    if MountedNames(p) <= MountedNames(q) {
      forall i | 0 <= i < |p| ensures p[i] == q[i] {
        assert MountedNames(p)[i] == MountedNames(q)[i];
        Utf8EncodeInjective(p[i], q[i]);
      }
    }
    if p <= q {
      assert forall i :: 0 <= i < |p| ==> MountedNames(p)[i] == MountedNames(q)[i];
    }
  }

  /** The joined path of a valid path encodes to its mounted names, joined. */
  lemma {:induction false} JoinEncodes(path: seq<Text>)
    requires forall i :: 0 <= i < |path| ==> ComponentFault(path[i]).None?
    ensures Encodable(JoinText(path))
    ensures Utf8Encode(JoinText(path)) == JoinNames(MountedNames(path))
  {
    var names := MountedNames(path);
    if |path| > 1 {
      JoinEncodes(path[1..]);
      assert MountedNames(path[1..]) == names[1..];
      Utf8EncodeConcat(path[0] + [SLASH], JoinText(path[1..]));
      Utf8EncodeConcat(path[0], [SLASH]);
      assert Utf8Encode([SLASH]) == [SLASH];
    }
  }

  /** The bytes between slashes. */
  function SplitNames(s: Bytes): (names: seq<Bytes>)
    ensures names != []
  {
    if s == [] then [[]]
    else if s[0] == SLASH then [[]] + SplitNames(s[1..])
    else var rest := SplitNames(s[1..]); [[s[0]] + rest[0]] + rest[1..]
  }

  lemma {:induction false} SplitAfterSlash(name: Bytes, rest: Bytes)
    requires SLASH !in name
    ensures SplitNames(name) == [name]
    ensures SplitNames(name + [SLASH] + rest) == [name] + SplitNames(rest)
  {
    var s := name + [SLASH] + rest;
    if name == [] {
      assert s[1..] == rest;
    } else {
      SplitAfterSlash(name[1..], rest);
      assert s[1..] == name[1..] + [SLASH] + rest;
      assert [s[0]] + name[1..] == name;
    }
  }

  /** Names hold no slash, so splitting a joined path gives them back. */
  lemma {:induction false} SplitJoin(names: seq<Bytes>)
    requires names != []
    requires forall i :: 0 <= i < |names| ==> SLASH !in names[i]
    ensures SplitNames(JoinNames(names)) == names
  {
    SplitAfterSlash(names[0], if |names| == 1 then [] else JoinNames(names[1..]));
    if |names| > 1 {
      SplitJoin(names[1..]);
    }
  }

  lemma JoinInjective(a: seq<Bytes>, b: seq<Bytes>)
    requires a != [] && b != []
    requires forall i :: 0 <= i < |a| ==> SLASH !in a[i]
    requires forall i :: 0 <= i < |b| ==> SLASH !in b[i]
    ensures JoinNames(a) == JoinNames(b) <==> a == b
  {
    SplitJoin(a);
    SplitJoin(b);
  }
}
