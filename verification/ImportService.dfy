/**
 All-or-nothing import: entries are fed to a builder until it refuses one, and a store is
 published only if neither the parser nor the builder found a fault.
 */
module ImportService {
  import opened Core
  import opened Building
  import opened Tree
  import opened Stores
  import opened Compatibility
  import opened PathMaps
  import opened Diagnostics
  import P = WindowsDirParser
  import M = MemoryBuilder
  import S = SqliteBuilder
  import V = Validation
  import F = Forest

  datatype Outcome =
    | Published(store: MemoryStore, diagnostics: seq<Diagnostic>, count: nat)
    | ImportFailure(diagnostics: seq<Diagnostic>, count: nat)
    | Broken                                // an exception that is not an import failure

  /** The diagnostic a build error carries. */
  function DiagnosticOf(error: BuildError): Diagnostic {
    match error
    case InvalidPath(_, line) => Diagnostic(Error, Code.InvalidPath, line)
    case EntryConflict(_, _, _, line) => Diagnostic(Error, Code.EntryConflict, line)
  }

  // --------------------------------------------------- which one to drop

  /** The last warning, or else the last diagnostic. */
  predicate IsReplaced(items: seq<Diagnostic>, index: nat) {
    && index < |items|
    && if items[index].severity.Warning? then forall k :: index < k < |items| ==> !items[k].severity.Warning?
       else index == |items| - 1 && forall k :: 0 <= k < |items| ==> !items[k].severity.Warning?
  }

  method FindReplaced(items: seq<Diagnostic>) returns (index: nat)
    requires items != []
    ensures IsReplaced(items, index)
  {
    var k := |items|;
    while k > 0
      invariant 0 <= k <= |items|
      invariant forall j :: k <= j < |items| ==> !items[j].severity.Warning?
    {
      k := k - 1;
      if items[k].severity.Warning? {
        return k;
      }
    }
    return |items| - 1;
  }

  function ErrorsAmong(ds: seq<Diagnostic>): nat {
    if ds == [] then 0
    else ErrorsAmong(ds[..|ds| - 1]) + if ds[|ds| - 1].severity.Error? then 1 else 0
  }

  lemma {:induction false} ErrorsConcat(a: seq<Diagnostic>, b: seq<Diagnostic>)
    ensures ErrorsAmong(a + b) == ErrorsAmong(a) + ErrorsAmong(b)
  {
    if b == [] {
      assert a + b == a;
    } else {
      ErrorsConcat(a, b[..|b| - 1]);
      assert (a + b)[..|a + b| - 1] == a + b[..|b| - 1];
    }
  }

  lemma OneError(d: Diagnostic)
    ensures ErrorsAmong([d]) == if d.severity.Error? then 1 else 0
  {
    assert [d][..0] == [];
  }

  lemma ErrorsAfterReplacement(ds: seq<Diagnostic>, k: nat, d: Diagnostic)
    requires k < |ds| && d.severity.Error?
    ensures ErrorsAmong(ds[k := d]) == ErrorsAmong(ds) + if ds[k].severity.Error? then 0 else 1
  {
    assert ds == ds[..k] + [ds[k]] + ds[k + 1..];
    assert ds[k := d] == ds[..k] + [d] + ds[k + 1..];
    ErrorsConcat(ds[..k] + [ds[k]], ds[k + 1..]);
    ErrorsConcat(ds[..k], [ds[k]]);
    ErrorsConcat(ds[..k] + [d], ds[k + 1..]);
    ErrorsConcat(ds[..k], [d]);
    OneError(d);
    OneError(ds[k]);
  }

  /** What is kept when the builder's diagnostic joins the parser's: no more than the bound,
      the newcomer among them, every other one in its place, and errors never outnumbered. */
  ghost predicate Joins(kept: seq<Diagnostic>, items: seq<Diagnostic>, d: Diagnostic) {
    && |kept| <= MAX_DIAGNOSTICS
    && d in kept
    && ErrorsAmong(kept) >= ErrorsAmong(items)
    && if |items| < MAX_DIAGNOSTICS then kept == items + [d]
       else exists k: nat :: IsReplaced(items, k) && kept == items[k := d]
  }

  method Join(items: seq<Diagnostic>, d: Diagnostic) returns (kept: seq<Diagnostic>)
    requires |items| <= MAX_DIAGNOSTICS && d.severity.Error?
    ensures Joins(kept, items, d)
  {
    if |items| < MAX_DIAGNOSTICS {
      kept := items + [d];
      ErrorsConcat(items, [d]);
      assert kept[|items|] == d;
    } else {
      var k := FindReplaced(items);
      kept := items[k := d];
      ErrorsAfterReplacement(items, k, d);
      assert kept[k] == d;
    }
  }

  // ------------------------------------------------------------ the import

  /** The whole outcome, from everything the parser reported and yielded. */
  ghost predicate Imports(outcome: Outcome, reported: seq<Diagnostic>, entries: seq<ParsedEntry>)
    requires IndexOk(EMPTY_TREE)
  {
    var (tree, error) := AddAll(EMPTY_TREE, entries);
    var items := Take(reported, MAX_DIAGNOSTICS);
    match outcome
    case Published(store, diagnostics, count) =>
      && !HasError(reported) && error.None?
      && store == FinishedMemory(tree) && diagnostics == items && count == |reported|
    case ImportFailure(diagnostics, count) =>
      && (HasError(reported) || error.Some?)
      && count == |reported| + (if error.Some? then 1 else 0)
      && if error.Some? then Joins(diagnostics, items, DiagnosticOf(error.value)) else diagnostics == items
    case Broken => false
  }

  /** The loop over entries: nothing is added after the first refusal. */
  method Feed(builder: M.InMemorySnapshotBuilder, entries: seq<ParsedEntry>) returns (refused: Option<Diagnostic>)
    requires builder.Valid() && !builder.finished && builder.State() == EMPTY_TREE
    requires forall e :: e in entries ==> e.Wellformed()
    modifies builder, builder.nodes.Values
    ensures builder.Valid() && !builder.finished
    ensures fresh(builder.nodes.Values - old(builder.nodes.Values))
    ensures IndexOk(EMPTY_TREE)
    ensures var (tree, error) := AddAll(EMPTY_TREE, entries);
      && refused == (if error.Some? then Some(DiagnosticOf(error.value)) else None)
      && (error.None? ==> builder.State() == tree)
  {
    hide TreeOk;
    refused := None;
    var k := 0;
    ghost var whole := AddAll(EMPTY_TREE, entries);
    assert entries[0..] == entries;
    while k < |entries|
      invariant 0 <= k <= |entries|
      invariant builder.Valid() && !builder.finished
      invariant fresh(builder.nodes.Values - old(builder.nodes.Values))
      invariant IndexOk(builder.State())
      invariant refused.None? ==> AddAll(builder.State(), entries[k..]) == whole
      invariant refused.Some? ==> whole.1.Some? && refused == Some(DiagnosticOf(whole.1.value))
    {
      if refused.None? {
        assert entries[k..][0] == entries[k] && entries[k..][1..] == entries[k + 1..];
        ghost var before := builder.State();
        var added := builder.Add(entries[k]);
        AddKeepsIndex(before, entries[k]);
        if added.Rejected? {
          refused := Some(DiagnosticOf(added.error));
        }
      }
      k := k + 1;
    }
  }

  /** `_create_store`, from the decoded lines of a stream: the parser's entries go to the
      builder while its diagnostics are collected. */
  method CreateStore(lines: seq<P.Numbered>, decodeError: Option<nat>) returns (outcome: Outcome)
    requires forall e :: e in P.After(lines).emits ==> e.Wellformed()
    ensures IndexOk(EMPTY_TREE)
    ensures Imports(outcome, P.Reports(lines, decodeError), P.After(lines).emits)
  {
    hide P.Reports, P.After, TreeOk, AddAll, FinishedMemory, HasError, Joins, IndexOk;
    var collector := new DiagnosticCollector(MAX_DIAGNOSTICS);
    var entries := P.Parse(lines, decodeError, collector);
    assert collector.all == P.Reports(lines, decodeError);
    var builder := new M.InMemorySnapshotBuilder();
    var refused := Feed(builder, entries);
    var diagnostics, count := collector.items, collector.total;
    if refused.Some? {
      count := count + 1;
      diagnostics := Join(diagnostics, refused.value);
    }
    if collector.hasErrors || refused.Some? {
      builder.Abort();
      return ImportFailure(diagnostics, count);
    }
    ghost var result := AddAll(EMPTY_TREE, entries);
    assert result == (builder.State(), None);
    var finished := builder.Finish();
    match finished {
      case Finished(store) => outcome := Published(store, diagnostics, count);
      case _ => outcome := Broken;
    }
  }

  // ------------------------------------------------------ what is refused

  lemma {:induction false} AddFromErrorTells(t: TreeState, e: ParsedEntry, names: seq<Bytes>, i: nat, parent: nat)
    requires |names| == |e.path| && i <= |names| && IndexOk(t)
    ensures var error := AddFrom(t, e, names, i, parent).1;
      error.Some? ==> error.value.EntryConflict? && error.value.line == e.line
    decreases |names| - i
  {
    hide IndexOk, JoinText;
    if i < |names| {
      EnterKeepsIndex(t, e, names, i, parent);
      var (t', id, error) := Enter(t, e, names, i, parent);
      if error.None? && i < |names| - 1 {
        AddFromErrorTells(t', e, names, i + 1, id);
      }
    }
  }

  /** A refusal says which of the two it was, an unusable path or a conflict, and where. */
  lemma AddErrorTells(t: TreeState, e: ParsedEntry)
    requires IndexOk(t)
    ensures var error := Add(t, e).1;
      error.Some? ==>
        DiagnosticOf(error.value) ==
          Diagnostic(Error, if ValidPath(e.path) then Code.EntryConflict else Code.InvalidPath, e.line)
  {
    hide AddFrom;
    if ValidPath(e.path) {
      AddFromErrorTells(t, e, MountedNames(e.path), 0, 1);
    }
  }

  lemma {:induction false} AddAllStops(t: TreeState, es: seq<ParsedEntry>) returns (k: nat)
    requires IndexOk(t) && AddAll(t, es).1.Some?
    ensures k < |es| && AddAll(t, es[..k]).1.None? && AddAll(t, es[..k + 1]).1.Some?
    ensures DiagnosticOf(AddAll(t, es).1.value) ==
      Diagnostic(Error, if ValidPath(es[k].path) then Code.EntryConflict else Code.InvalidPath, es[k].line)
    decreases |es|
  {
    hide DiagnosticOf, Add, IndexOk, ValidPath;
    AddErrorTells(t, es[0]);
    AddKeepsIndex(t, es[0]);
    if Add(t, es[0]).1.Some? {
      k := 0;
      assert AddAll(t, es[..1]) == Add(t, es[0]);
    } else {
      var j := AddAllStops(Add(t, es[0]).0, es[1..]);
      k := j + 1;
      assert es[..k][1..] == es[1..][..j] && es[..k + 1][1..] == es[1..][..j + 1];
    }
  }

  /** The one diagnostic that a builder adds names the first entry that is unusable or
      contradicts one before it. */
  lemma RefusalTells(es: seq<ParsedEntry>) returns (k: nat)
    requires AllShaped(es) && IndexOk(EMPTY_TREE) && AddAll(EMPTY_TREE, es).1.Some?
    ensures k < |es|
    ensures forall i, j :: 0 <= i <= j < k ==> ValidPath(es[i].path) && Compatible(es[i], es[j])
    ensures ValidPath(es[k].path) ==> exists j :: 0 <= j < k && !(Compatible(es[j], es[k]) && Compatible(es[k], es[j]))
    ensures DiagnosticOf(AddAll(EMPTY_TREE, es).1.value) ==
      Diagnostic(Error, if ValidPath(es[k].path) then Code.EntryConflict else Code.InvalidPath, es[k].line)
  {
    hide DiagnosticOf, AddAll, ValidPath, Compatible, TreeOk, Abs, Describes;
    k := AddAllStops(EMPTY_TREE, es);
    var before, upto := es[..k], es[..k + 1];
    BuildsIffCompatible(before);
    BuildsIffCompatible(upto);
    forall i, j | 0 <= i <= j < k ensures ValidPath(es[i].path) && Compatible(es[i], es[j]) {
      assert before[i] == es[i] && before[j] == es[j];
    }
    assert upto == before + [es[k]];
    if ValidPath(es[k].path) {
      SelfCompatible(es[k]);
      if forall j :: 0 <= j < k ==> Compatible(es[j], es[k]) && Compatible(es[k], es[j]) {
        forall x | x in before ensures Compatible(x, es[k]) && Compatible(es[k], x) {
          var j :| 0 <= j < k && es[j] == x;
        }
      }
    }
  }

  // ------------------------------------------------- the SQLite builder

  datatype ArtifactOutcome =
    | Stored(rows: seq<Row>, diagnostics: seq<Diagnostic>, count: nat)
    | Refused(diagnostics: seq<Diagnostic>, count: nat)
    | Overflow                              // a number that SQLite cannot bind
    | Invalid                               // the finished table failed validation

  predicate SizesFit(es: seq<ParsedEntry>) {
    forall e :: e in es ==> S.OptionFits(e.size)
  }

  predicate LinesFit(es: seq<ParsedEntry>) {
    forall e :: e in es ==> S.OptionFits(e.line)
  }

  /** The loop over entries; a number that cannot be bound ends it with an exception. */
  method FeedTable(builder: S.SqliteSnapshotBuilder, entries: seq<ParsedEntry>)
    returns (refused: Option<Diagnostic>, overflowed: bool)
    requires builder.Valid() && !builder.finished && builder.connected && builder.tree == EMPTY_TREE
    requires forall e :: e in entries ==> e.Wellformed()
    modifies builder, builder.table
    ensures builder.Valid() && builder.connected && !builder.finished
    ensures IndexOk(EMPTY_TREE)
    ensures overflowed ==> !(SizesFit(entries) && LinesFit(entries))
    ensures !overflowed ==>
      var (tree, error) := AddAll(EMPTY_TREE, entries);
      && refused == (if error.Some? then Some(DiagnosticOf(error.value)) else None)
      && (error.None? ==> builder.tree == tree)
  {
    hide TreeOk, S.AllFit, S.AllButMerged;
    refused := None;
    overflowed := false;
    var k := 0;
    ghost var whole := AddAll(EMPTY_TREE, entries);
    assert entries[0..] == entries;
    while k < |entries|
      invariant 0 <= k <= |entries|
      invariant builder.Valid() && !builder.finished && builder.connected
      invariant IndexOk(builder.tree)
      invariant refused.None? ==> AddAll(builder.tree, entries[k..]) == whole
      invariant refused.Some? ==> whole.1.Some? && refused == Some(DiagnosticOf(whole.1.value))
    {
      if refused.None? {
        assert entries[k..][0] == entries[k] && entries[k..][1..] == entries[k + 1..];
        ghost var before := builder.tree;
        AddKeepsIndex(before, entries[k]);
        var added := builder.Add(entries[k]);
        if added.Overflowed? {
          if S.EntryFits(entries[k]) {
            S.AddFits(before, entries[k]);
          }
          overflowed := true;
          return;
        }
        if added.Rejected? {
          refused := Some(DiagnosticOf(added.error));
        }
      }
      k := k + 1;
    }
  }

  /** A series that builds has its sizes in the tree. */
  lemma BuiltSizesFit(es: seq<ParsedEntry>)
    requires AllShaped(es) && IndexOk(EMPTY_TREE)
    requires AddAll(EMPTY_TREE, es).1.None? && S.AllFit(AddAll(EMPTY_TREE, es).0)
    ensures SizesFit(es)
  {
    hide AddAll, Abs, TreeOk;
    BuildsIffCompatible(es);
    var t := AddAll(EMPTY_TREE, es).0;
    forall e | e in es ensures S.OptionFits(e.size) {
      if e.kind.File? {
        assert e in SetOf(es) && Covers(e, NamesOf(e));
        var id := NodeAt(t, NamesOf(e));
      }
    }
  }

  /** The whole outcome of an import into an artifact whose publication goes well. */
  ghost predicate ImportsTable(outcome: ArtifactOutcome, reported: seq<Diagnostic>, entries: seq<ParsedEntry>)
    requires IndexOk(EMPTY_TREE)
  {
    var (tree, error) := AddAll(EMPTY_TREE, entries);
    var items := Take(reported, MAX_DIAGNOSTICS);
    match outcome
    case Stored(rows, diagnostics, count) =>
      && !HasError(reported) && error.None? && SizesFit(entries)
      && (forall k :: 0 <= k < |tree.order| ==> tree.order[k] in tree.nodes)
      && rows == FinishedTable(tree) && V.ValidTable(rows)
      && diagnostics == items && count == |reported|
    case Refused(diagnostics, count) =>
      && (HasError(reported) || error.Some?)
      && count == |reported| + (if error.Some? then 1 else 0)
      && if error.Some? then Joins(diagnostics, items, DiagnosticOf(error.value)) else diagnostics == items
    case Overflow => !(SizesFit(entries) && LinesFit(entries))
    case Invalid => false
  }

  /** `_create_store` with the SQLite builder, up to the point where its validated artifact
      is published. */
  method CreateArtifact(lines: seq<P.Numbered>, decodeError: Option<nat>) returns (outcome: ArtifactOutcome)
    requires AllShaped(P.After(lines).emits)
    ensures IndexOk(EMPTY_TREE)
    ensures ImportsTable(outcome, P.Reports(lines, decodeError), P.After(lines).emits)
    ensures LinesFit(P.After(lines).emits) ==>
      (outcome.Stored? <==>
        && !HasError(P.Reports(lines, decodeError))
        && AddAll(EMPTY_TREE, P.After(lines).emits).1.None?
        && SizesFit(P.After(lines).emits))
  {
    hide P.Reports, P.After, TreeOk, AddAll, HasError, Joins, IndexOk;
    hide S.AllFit, FinishedTable, V.ValidTable, V.ParentsOf;
    var collector := new DiagnosticCollector(MAX_DIAGNOSTICS);
    var entries := P.Parse(lines, decodeError, collector);
    assert collector.all == P.Reports(lines, decodeError);
    var builder := new S.SqliteSnapshotBuilder();
    var refused, overflowed := FeedTable(builder, entries);
    if overflowed {
      builder.Abort();
      return Overflow;
    }
    var diagnostics, count := collector.items, collector.total;
    if refused.Some? {
      count := count + 1;
      diagnostics := Join(diagnostics, refused.value);
    }
    if collector.hasErrors || refused.Some? {
      builder.Abort();
      return Refused(diagnostics, count);
    }
    ghost var tree := builder.tree;
    BuiltSizesFit(entries);
    builder.AssignStatuses();
    FinishedCanBeChecked(tree);
    var valid := V.ValidateRecords(builder.table.rows);
    outcome := if valid then Stored(builder.table.rows, diagnostics, count) else Invalid;
  }

  lemma FinishedCanBeChecked(t: TreeState)
    requires TreeOk(t)
    ensures (forall k :: 0 <= k < |t.order| ==> t.order[k] in t.nodes)
    ensures var rows := FinishedTable(t);
      && V.Keyed(rows) && 1 in V.ParentsOf(rows) && !F.OwnAncestor(V.ParentsOf(rows), 1)
      && V.ValidTable(rows)
  {
    V.FinishedKeyed(t);
    V.FinishedTableIsValid(t);
    F.RootIsTop(V.ParentsOf(FinishedTable(t)));
  }
}
