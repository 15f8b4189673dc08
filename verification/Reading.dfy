/** The read policy of mounted files, and what reading a file piece by piece gives. */
module Reading {
  import opened Core
  import opened Building
  import opened Tree
  import opened Stores

  datatype ReadError = IsADirectory | InvalidArgument | NoData

  /** `read_node` */
  function ReadNode(node: Node, offset: int, size: int, simulate: bool): Result<Bytes, ReadError> {
    if node.kind.Directory? then Failure(IsADirectory)
    else if offset < 0 || size < 0 then Failure(InvalidArgument)
    else if size == 0 then Success([])
    else if node.size.Some? && offset >= node.size.value then Success([])
    else if node.content.Some? then Success(Slice(node.content.value, offset, size))
    else if simulate && node.status.Missing? && node.size.Some? then
      Success(Zeros(if size < node.size.value - offset then size else node.size.value - offset))
    else Failure(NoData)
  }

  /** Python's `s[offset:offset + size]`, for an offset and a size that are not negative. */
  function Slice(s: Bytes, offset: nat, size: nat): Bytes {
    if offset >= |s| then [] else if offset + size > |s| then s[offset..] else s[offset..offset + size]
  }

  function Zeros(n: nat): Bytes {
    seq(n, _ => 0)
  }

  /** The bytes a file stands for: its content, or as many zeros as it is long if missing
      content is simulated. */
  function Stands(node: Node, simulate: bool): Option<Bytes> {
    if node.content.Some? then node.content
    else if simulate && node.status.Missing? && node.size.Some? then Some(Zeros(node.size.value))
    else None
  }

  /** Every read is a slice of those bytes, and fails for want of them exactly when it would
      have to give some. */
  lemma ReadIsSlice(node: Node, offset: nat, size: nat, simulate: bool)
    requires node.Invariant() && node.kind.File?
    ensures ReadNode(node, offset, size, simulate) ==
      match Stands(node, simulate)
      case Some(all) => Success(Slice(all, offset, size))
      case None =>
        if size == 0 || (node.size.Some? && offset >= node.size.value) then Success([]) else Failure(NoData)
  {
    if Stands(node, simulate).Some? {
      var all := Stands(node, simulate).value;
      if size == 0 {
        assert Slice(all, offset, size) == [];
      } else if node.content.None? && offset < node.size.value {
        assert Slice(all, offset, size) ==
          Zeros(if size < node.size.value - offset then size else node.size.value - offset);
      }
    }
  }

  /** Reads one after the other, each where the last one ended, joined; None if one fails. */
  function ReadOn(node: Node, offset: nat, sizes: seq<nat>, simulate: bool): Option<Bytes>
    decreases |sizes|
  {
    if sizes == [] then Some([])
    else
      match ReadNode(node, offset, sizes[0], simulate)
      case Failure(_) => None
      case Success(piece) =>
        match ReadOn(node, offset + |piece|, sizes[1..], simulate)
        case None => None
        case Some(rest) => Some(piece + rest)
  }

  function Sum(sizes: seq<nat>): nat {
    if sizes == [] then 0 else sizes[0] + Sum(sizes[1..])
  }

  lemma {:induction false} ReadOnIsSlice(node: Node, offset: nat, sizes: seq<nat>, simulate: bool)
    requires node.Invariant() && node.kind.File? && Stands(node, simulate).Some?
    requires offset <= |Stands(node, simulate).value|
    ensures ReadOn(node, offset, sizes, simulate) == Some(Slice(Stands(node, simulate).value, offset, Sum(sizes)))
    decreases |sizes|
  {
    var all := Stands(node, simulate).value;
    if sizes == [] {
      assert Slice(all, offset, 0) == [];
    } else {
      ReadIsSlice(node, offset, sizes[0], simulate);
      hide ReadNode, Stands;
      var piece := Slice(all, offset, sizes[0]);
      ReadOnIsSlice(node, offset + |piece|, sizes[1..], simulate);
      SlicesMeet(all, offset, sizes[0], Sum(sizes[1..]));
    }
  }

  lemma SlicesMeet(s: Bytes, offset: nat, n: nat, m: nat)
    requires offset <= |s|
    ensures var first := Slice(s, offset, n);
      offset + |first| <= |s| && first + Slice(s, offset + |first|, m) == Slice(s, offset, n + m)
  {
  }

  /** Reading from the start in pieces of any sizes, together no less than the file, gives the
      whole file. */
  lemma ReadsWholeFile(node: Node, sizes: seq<nat>, simulate: bool)
    requires node.Invariant() && node.kind.File? && Stands(node, simulate).Some?
    requires Sum(sizes) >= |Stands(node, simulate).value|
    ensures ReadOn(node, 0, sizes, simulate) == Stands(node, simulate)
    ensures node.size == Some(|Stands(node, simulate).value|)
  {
    ReadOnIsSlice(node, 0, sizes, simulate);
    var all := Stands(node, simulate).value;
    assert all[0..] == all && all[..|all|] == all;
  }

  /** What a finished file stands for: what was observed of it, nothing if it is empty, and
      otherwise zeros of its size, if they are wanted. */
  lemma FinishedStands(r: NodeRecord, node: Node, simulate: bool)
    requires RecordOk(r) && Keeps(node, r) && r.kind.File?
    ensures node.Invariant()
    ensures Stands(node, simulate) ==
      if r.content.Some? then r.content
      else if r.size == Some(0) then Some([])
      else if simulate && r.size.Some? then Some(Zeros(r.size.value))
      else None
  {
  }
}
