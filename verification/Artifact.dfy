/**
 Publication of SQLite artifacts.  Any number of writers build temporary files in one
 directory and then link or rename them to the destination, each system call of each
 writer interleaving with the others and failing at will.
 */
module Artifact {
  type WriterId = nat

  /** Names in the destination directory.  `mkstemp` never hands out a name twice, so each
      writer's temporary name, and the side files derived from it, are its own. */
  datatype Name = Destination | Temporary(owner: WriterId) | SideFile(owner: WriterId, suffix: Suffix)

  datatype Suffix = Wal | Shm | Journal

  /** What a name can be bound to: after `link` two names are bound to one file. */
  datatype File = Original | ArtifactOf(owner: WriterId)

  /** What a file holds: nothing yet, something, or a complete artifact. */
  datatype Content = Empty | Partial | Complete

  datatype Disk = Disk(bindings: map<Name, File>, files: map<File, Content>) {

    /** Bind one more name to a file, or an old one anew. */
    function Bind(name: Name, file: File): Disk {
      this.(bindings := bindings[name := file])
    }

    function Unbind(name: Name): Disk {
      this.(bindings := bindings - {name})
    }

    /** Write the file that a name is bound to. */
    function Write(name: Name, content: Content): Disk
      requires name in bindings
    {
      this.(files := files[bindings[name] := content])
    }

    /** Does the name lead to a complete artifact? */
    predicate HoldsComplete(name: Name) {
      name in bindings && bindings[name] in files && files[bindings[name]].Complete?
    }
  }

  datatype Error =
    DestinationExistsError | PersistenceError | PublicationError | DurabilityError | SchemaError | OtherError

  datatype Call = NotCalled | Running | Returned | Raised(error: Error)

  /** The next thing a writer does. */
  datatype Pc =
    | Creating        // the constructor: existence check, then the temporary file
    | Building        // add entries, any number of times; then finalise, commit, close
    | Checking        // reopen the temporary artifact and validate it
    | Syncing         // publish: fsync the file
    | Binding         // publish: link or replace
    | Unlinking       // publish: unlink the temporary link
    | SyncingFolder   // publish: fsync the directory
    | Reopening       // open the published destination
    | Cleaning(step: nat)
    | Done

  datatype Writer = Writer(overwrite: bool, pc: Pc, publish: Call, outcome: Call)

  datatype System = System(
    disk: Disk,
    writers: map<WriterId, Writer>,
    /** Writers that bound the destination, in order. */
    history: seq<WriterId>)

  /** How the writer's next call goes; `More` is one more entry while building. */
  datatype Choice = Proceed | More | OsFailure | Refuse | Interrupt

  // ------------------------------------------------------------ one step

  /** The four names that cleanup removes. */
  function CleanupNames(w: WriterId): (names: seq<Name>)
    ensures |names| == 4 && Destination !in names
  {
    [Temporary(w), SideFile(w, Wal), SideFile(w, Shm), SideFile(w, Journal)]
  }

  function ErrorOf(choice: Choice): Error {
    match choice
    case OsFailure => PersistenceError
    case Refuse => SchemaError
    case _ => OtherError
  }

  /** Give up: the builder aborts, cleans up and re-raises. */
  function Fail(me: Writer, error: Error): Writer {
    me.(pc := Cleaning(0), outcome := Raised(error))
  }

  function FailPublish(me: Writer, error: Error): Writer {
    Fail(me, error).(publish := Raised(error))
  }

  /** One call of writer `w`: what it does to the disk, the writer and the history. */
  function Move(disk: Disk, w: WriterId, me: Writer, choice: Choice): (Disk, Writer, seq<WriterId>) {
    match me.pc
    case Creating =>
      if choice.Proceed? then
        if Destination in disk.bindings && !me.overwrite then
          (disk, me.(pc := Done, outcome := Raised(DestinationExistsError)), [])
        else
          (disk.Bind(Temporary(w), ArtifactOf(w)).Write(Temporary(w), Empty), me.(pc := Building), [])
      else (disk, me.(pc := Done, outcome := Raised(ErrorOf(choice))), [])
    case Building =>
      if Temporary(w) !in disk.bindings then (disk, Fail(me, PersistenceError), [])
      else if choice.Proceed? then (disk.Write(Temporary(w), Complete), me.(pc := Checking), [])
      else if choice.More? then (disk.Write(Temporary(w), Partial), me, [])
      else (disk.Write(Temporary(w), Partial), Fail(me, ErrorOf(choice)), [])
    case Checking =>
      (disk,
       if !choice.Proceed? then Fail(me, ErrorOf(choice))
       else if disk.HoldsComplete(Temporary(w)) then me.(pc := Syncing, publish := Running)
       else Fail(me, SchemaError),
       [])
    case Syncing =>
      (disk, if choice.Proceed? then me.(pc := Binding) else FailPublish(me, ErrorOf(choice)), [])
    case Binding =>
      if !choice.Proceed? || Temporary(w) !in disk.bindings then
        (disk, FailPublish(me, if choice.Proceed? then PersistenceError else ErrorOf(choice)), [])
      else if me.overwrite then
        (disk.Bind(Destination, disk.bindings[Temporary(w)]).Unbind(Temporary(w)), me.(pc := SyncingFolder), [w])
      else if Destination in disk.bindings then
        (disk, FailPublish(me, DestinationExistsError), [])
      else
        (disk.Bind(Destination, disk.bindings[Temporary(w)]), me.(pc := Unlinking), [w])
    case Unlinking =>
      if choice.Proceed? then (disk.Unbind(Temporary(w)), me.(pc := SyncingFolder), [])
      else (disk, FailPublish(me, if choice.OsFailure? then PublicationError else OtherError), [])
    case SyncingFolder =>
      (disk,
       if choice.Proceed? then me.(pc := Reopening, publish := Returned)
       else FailPublish(me, if choice.OsFailure? then DurabilityError else OtherError),
       [])
    case Reopening =>
      (disk, me.(pc := Done, outcome := if choice.Proceed? then Returned else Raised(ErrorOf(choice))), [])
    case Cleaning(step) =>
      if step >= 4 then (disk, me.(pc := Done), [])
      else if choice.Interrupt? then (disk, me.(pc := Done, outcome := Raised(OtherError)), [])
      else
        (if choice.Proceed? then disk.Unbind(CleanupNames(w)[step]) else disk, me.(pc := Cleaning(step + 1)), [])
    case Done => (disk, me, [])
  }

  function Advance(s: System, w: WriterId, choice: Choice): System {
    if w !in s.writers then s
    else
      var (disk, me, bound) := Move(s.disk, w, s.writers[w], choice);
      System(disk, s.writers[w := me], s.history + bound)
  }

  /** An interleaving: who moves, and how the call goes. */
  type Schedule = seq<(WriterId, Choice)>

  function Execute(s: System, schedule: Schedule): System
    decreases |schedule|
  {
    if schedule == [] then s else Execute(Advance(s, schedule[0].0, schedule[0].1), schedule[1..])
  }

  function NewWriter(overwrite: bool): Writer {
    Writer(overwrite, Creating, NotCalled, Running)
  }

  /** Before any writer has started; the destination may exist or not. */
  ghost predicate Initial(s: System) {
    && s.history == []
    && (s.disk.bindings == map[] || s.disk.bindings == map[Destination := Original])
    && forall w :: w in s.writers ==> s.writers[w] == NewWriter(s.writers[w].overwrite)
  }

  // ----------------------------------------------------------- invariants

  /** Writers that have bound the destination and not left `publish` by another way. */
  predicate HasBound(me: Writer) {
    || me.pc in {Unlinking, SyncingFolder, Reopening}
    || me.publish in {Returned, Raised(PublicationError), Raised(DurabilityError)}
  }

  predicate HasNotBound(me: Writer) {
    || me.pc in {Creating, Building, Checking, Syncing, Binding}
    || me.publish in {NotCalled, Raised(DestinationExistsError), Raised(PersistenceError), Raised(SchemaError)}
  }

  /** Where a writer stands agrees with what it has called. */
  predicate WriterOk(me: Writer) {
    && (me.pc in {Creating, Building, Checking} ==> me.publish.NotCalled?)
    && (me.pc in {Syncing, Binding, Unlinking, SyncingFolder} ==> me.publish.Running?)
    && (me.pc.Reopening? ==> me.publish.Returned?)
    && (me.pc.Cleaning? ==> !me.publish.Running? && !me.publish.Returned? && me.outcome.Raised?)
    && (me.pc.Done? ==> !me.publish.Running?)
    && (me.outcome.Returned? ==> me.publish.Returned? && me.pc.Done?)
    && (me.publish.Raised? && me.pc.Cleaning? ==> me.outcome == me.publish)
    && (me.publish.Raised? && me.pc.Done? ==> me.outcome == me.publish || me.outcome == Raised(OtherError))
  }

  ghost predicate WriterIn(s: System, w: WriterId)
    requires w in s.writers
  {
    && WriterOk(s.writers[w])
    && (HasBound(s.writers[w]) ==> w in s.history)
    && (HasNotBound(s.writers[w]) ==> w !in s.history)
  }

  ghost predicate IsComplete(disk: Disk, w: WriterId) {
    ArtifactOf(w) in disk.files && disk.files[ArtifactOf(w)].Complete?
  }

  /** A complete artifact, validated and bound by its writer. */
  ghost predicate Published(s: System, f: File) {
    f.ArtifactOf? && f.owner in s.history && f.owner in s.writers && IsComplete(s.disk, f.owner)
  }

  /** Temporary names lead to their owners' files. */
  ghost predicate TemporaryOwn(disk: Disk) {
    forall w :: Temporary(w) in disk.bindings ==> disk.bindings[Temporary(w)] == ArtifactOf(w)
  }

  /** What has been validated, and what has been bound, is complete. */
  ghost predicate CompleteOnes(s: System) {
    && (forall w :: w in s.writers && s.writers[w].pc in {Syncing, Binding} ==> IsComplete(s.disk, w))
    && (forall w :: w in s.history ==> w in s.writers && IsComplete(s.disk, w))
  }

  ghost predicate Inv(s: System) {
    && (forall w {:trigger WriterIn(s, w)} :: w in s.writers ==> WriterIn(s, w))
    && CompleteOnes(s)
    && (forall i, j :: 0 <= i < j < |s.history| ==> s.history[i] != s.history[j])
    && TemporaryOwn(s.disk)
    && (s.history != [] ==>
          && Destination in s.disk.bindings
          && s.disk.bindings[Destination] == ArtifactOf(s.history[|s.history| - 1]))
    && (s.history == [] && Destination in s.disk.bindings ==> s.disk.bindings[Destination] == Original)
  }

  lemma InitialInv(s: System)
    requires Initial(s)
    ensures Inv(s)
  {
    forall w | w in s.writers ensures WriterIn(s, w) {
    }
  }

  /** One call keeps its writer's record straight, and binds at most once. */
  lemma MoveKeeps(disk: Disk, w: WriterId, me: Writer, choice: Choice, bound: bool)
    requires WriterOk(me) && (HasBound(me) ==> bound) && (HasNotBound(me) ==> !bound)
    ensures var (_, me', binds) := Move(disk, w, me, choice);
      && WriterOk(me')
      && (binds == [] || (binds == [w] && !bound))
      && (HasBound(me') ==> bound || binds == [w])
      && (HasNotBound(me') ==> !bound && binds == [])
      && me'.overwrite == me.overwrite
      && (me.publish.Returned? || me.publish.Raised? ==> me'.publish == me.publish)
  {
  }

  /** What one call may do to the names. */
  lemma MoveBindings(disk: Disk, w: WriterId, me: Writer, choice: Choice)
    requires TemporaryOwn(disk)
    ensures var (disk', _, binds) := Move(disk, w, me, choice);
      && TemporaryOwn(disk')
      && (binds != [] ==> Destination in disk'.bindings && disk'.bindings[Destination] == ArtifactOf(w))
      && (binds != [] && !me.overwrite ==> Destination !in disk.bindings)
      && (binds == [] ==>
            && (Destination in disk'.bindings <==> Destination in disk.bindings)
            && (Destination in disk.bindings ==> disk'.bindings[Destination] == disk.bindings[Destination]))
  {
  }

  /** What one call may do to the files: a writer writes its own, and only while it creates
      and builds it; and it binds a file that it has found complete. */
  lemma MoveFiles(disk: Disk, w: WriterId, me: Writer, choice: Choice)
    requires TemporaryOwn(disk) && (me.pc in {Syncing, Binding} ==> IsComplete(disk, w))
    ensures var (disk', me', binds) := Move(disk, w, me, choice);
      && (forall f :: f in disk.files ==>
            f in disk'.files && (f != ArtifactOf(w) ==> disk'.files[f] == disk.files[f]))
      && (!(me.pc in {Creating, Building}) ==> disk'.files == disk.files)
      && (me'.pc in {Syncing, Binding} || binds != [] ==> IsComplete(disk', w))
  {
  }

  lemma AdvanceWriters(s: System, w: WriterId, choice: Choice)
    requires Inv(s) && w in s.writers
    ensures var s' := Advance(s, w, choice);
      && (forall v {:trigger WriterIn(s', v)} :: v in s'.writers ==> WriterIn(s', v))
      && CompleteOnes(s')
      && (forall i, j :: 0 <= i < j < |s'.history| ==> s'.history[i] != s'.history[j])
  {
    hide Move;
    hide WriterOk;
    var s' := Advance(s, w, choice);
    assert WriterIn(s, w);
    MoveKeeps(s.disk, w, s.writers[w], choice, w in s.history);
    MoveFiles(s.disk, w, s.writers[w], choice);
    if s.writers[w].pc in {Creating, Building} {
      NotBoundYet(s, w);
    }
    hide HasBound;
    hide HasNotBound;
    forall v | v in s'.writers ensures WriterIn(s', v) {
      assert WriterIn(s, v);
    }
    forall v | v in s.writers && v != w && IsComplete(s.disk, v) ensures IsComplete(s'.disk, v) {
      assert ArtifactOf(v) != ArtifactOf(w);
    }
  }

  /** While a writer builds its file, the file is not bound. */
  lemma NotBoundYet(s: System, w: WriterId)
    requires Inv(s) && w in s.writers && s.writers[w].pc in {Creating, Building}
    ensures w !in s.history
  {
    assert WriterIn(s, w);
  }

  lemma AdvanceInv(s: System, w: WriterId, choice: Choice)
    requires Inv(s)
    ensures Inv(Advance(s, w, choice))
  {
    hide Move;
    if w in s.writers {
      AdvanceWriters(s, w, choice);
      assert WriterIn(s, w);
      MoveKeeps(s.disk, w, s.writers[w], choice, w in s.history);
      MoveBindings(s.disk, w, s.writers[w], choice);
    }
  }

  lemma {:induction false} ExecuteInv(s: System, schedule: Schedule)
    requires Inv(s)
    ensures Inv(Execute(s, schedule))
    decreases |schedule|
  {
    if schedule != [] {
      AdvanceInv(s, schedule[0].0, schedule[0].1);
      ExecuteInv(Advance(s, schedule[0].0, schedule[0].1), schedule[1..]);
    }
  }

  // -------------------------------------------------------------- safety

  /** In every interleaving the destination is bound to its original file or to a complete
      validated artifact, that of the last writer to bind it. */
  lemma DestinationAlwaysComplete(s: System, schedule: Schedule)
    requires Initial(s)
    ensures var s' := Execute(s, schedule);
      Destination in s'.disk.bindings ==>
        || (s'.disk.bindings[Destination] == Original && Destination in s.disk.bindings && s'.history == [])
        || Published(s', s'.disk.bindings[Destination])
  {
    InitialInv(s);
    ExecuteInv(s, schedule);
    OriginalOnlyInitially(s, schedule);
  }

  /** No step unbinds the destination, and one that rebinds it binds it to its own writer's
      artifact. */
  lemma StepNeverUnlinks(s: System, w: WriterId, choice: Choice)
    requires Inv(s)
    ensures var s' := Advance(s, w, choice);
      && (Destination in s.disk.bindings ==> Destination in s'.disk.bindings)
      && (s'.history == s.history ==>
            (Destination in s'.disk.bindings <==> Destination in s.disk.bindings)
            && (Destination in s.disk.bindings ==> s'.disk.bindings[Destination] == s.disk.bindings[Destination]))
      && (s'.history != s.history ==> s'.history == s.history + [w] && s'.disk.bindings[Destination] == ArtifactOf(w))
  {
    hide Move;
    if w in s.writers {
      assert WriterIn(s, w);
      MoveKeeps(s.disk, w, s.writers[w], choice, w in s.history);
      MoveBindings(s.disk, w, s.writers[w], choice);
    }
  }

  /** No step writes to the file that the destination is bound to, before or after it. */
  lemma StepWritesUnbound(s: System, w: WriterId, choice: Choice, f: File)
    requires Inv(s) && f in s.disk.files
    ensures var s' := Advance(s, w, choice);
      && f in s'.disk.files
      && (s'.disk.files[f] != s.disk.files[f] ==>
            && (Destination in s.disk.bindings ==> s.disk.bindings[Destination] != f)
            && (Destination in s'.disk.bindings ==> s'.disk.bindings[Destination] != f))
  {
    hide Move;
    if w in s.writers {
      MoveFiles(s.disk, w, s.writers[w], choice);
      if s.writers[w].pc in {Creating, Building} {
        NotBoundYet(s, w);
        BuildingBindsNothing(s.disk, w, s.writers[w], choice);
        MoveBindings(s.disk, w, s.writers[w], choice);
      }
    }
  }

  lemma BuildingBindsNothing(disk: Disk, w: WriterId, me: Writer, choice: Choice)
    requires me.pc in {Creating, Building}
    ensures Move(disk, w, me, choice).2 == []
  {
  }

  /** The file that was there at first is never written. */
  lemma {:induction false} OriginalKeepsContent(s: System, schedule: Schedule)
    requires Inv(s) && Original in s.disk.files
    ensures Original in Execute(s, schedule).disk.files
    ensures Execute(s, schedule).disk.files[Original] == s.disk.files[Original]
    decreases |schedule|
  {
    hide Move;
    if schedule != [] {
      var (w, choice) := schedule[0];
      if w in s.writers {
        MoveFiles(s.disk, w, s.writers[w], choice);
      }
      AdvanceInv(s, w, choice);
      OriginalKeepsContent(Advance(s, w, choice), schedule[1..]);
    }
  }

  lemma {:induction false} OriginalOnlyInitially(s: System, schedule: Schedule)
    requires Inv(s)
    ensures var s' := Execute(s, schedule);
      && s.history <= s'.history
      && (Destination in s.disk.bindings ==> Destination in s'.disk.bindings)
      && (s'.history == s.history ==> (Destination in s'.disk.bindings <==> Destination in s.disk.bindings))
    decreases |schedule|
  {
    if schedule != [] {
      var s1 := Advance(s, schedule[0].0, schedule[0].1);
      AdvanceInv(s, schedule[0].0, schedule[0].1);
      StepNeverUnlinks(s, schedule[0].0, schedule[0].1);
      OriginalOnlyInitially(s1, schedule[1..]);
    }
  }

  /** Nobody overwrites. */
  ghost predicate NoOverwrite(s: System) {
    forall w :: w in s.writers ==> !s.writers[w].overwrite
  }

  /** The destination is bound at most once, and never if it existed at the start. */
  ghost predicate BoundOnce(s: System, existed: bool) {
    |s.history| <= (if existed then 0 else 1) && (existed ==> Destination in s.disk.bindings)
  }

  lemma {:induction false} NoOverwriteBindsOnceFrom(s: System, schedule: Schedule, existed: bool)
    requires Inv(s) && NoOverwrite(s) && BoundOnce(s, existed)
    ensures NoOverwrite(Execute(s, schedule)) && BoundOnce(Execute(s, schedule), existed)
    decreases |schedule|
  {
    hide Move;
    if schedule != [] {
      var (w, choice) := schedule[0];
      if w in s.writers {
        assert WriterIn(s, w);
        MoveKeeps(s.disk, w, s.writers[w], choice, w in s.history);
        MoveBindings(s.disk, w, s.writers[w], choice);
      }
      AdvanceInv(s, w, choice);
      StepNeverUnlinks(s, w, choice);
      NoOverwriteBindsOnceFrom(Advance(s, w, choice), schedule[1..], existed);
    }
  }

  /** If no writer overwrites, at most one writer ever binds the destination, so at most one
      `publish` returns; an original file is never replaced. */
  lemma NoOverwriteBindsOnce(s: System, schedule: Schedule)
    requires Initial(s) && NoOverwrite(s)
    ensures var s' := Execute(s, schedule);
      && |s'.history| <= 1
      && (Destination in s.disk.bindings ==>
            s'.history == [] && Destination in s'.disk.bindings && s'.disk.bindings[Destination] == Original)
      && forall v, w :: v in s'.writers && w in s'.writers && HasBound(s'.writers[v]) && HasBound(s'.writers[w])
           ==> v == w
  {
    InitialInv(s);
    ExecuteInv(s, schedule);
    NoOverwriteBindsOnceFrom(s, schedule, Destination in s.disk.bindings);
    var s' := Execute(s, schedule);
    OriginalOnlyInitially(s, schedule);
    forall v, w | v in s'.writers && w in s'.writers && HasBound(s'.writers[v]) && HasBound(s'.writers[w])
      ensures v == w
    {
      assert WriterIn(s', v) && WriterIn(s', w);
    }
  }

  /** What an error of `publish` says about the destination: one that says it exists, or a
      plain persistence error, means this writer did not bind it; a publication or a
      durability error means it did.  Later cleanup changes neither. */
  lemma PublishErrorsTell(s: System, schedule: Schedule, w: WriterId)
    requires Initial(s) && w in s.writers
    ensures var s' := Execute(s, schedule);
      && w in s'.writers
      && (s'.writers[w].publish in {Raised(DestinationExistsError), Raised(PersistenceError)} ==> w !in s'.history)
      && (s'.writers[w].publish in {Raised(PublicationError), Raised(DurabilityError), Returned} ==> w in s'.history)
  {
    InitialInv(s);
    ExecuteInv(s, schedule);
    ExecuteKeepsWriters(s, schedule);
    assert WriterIn(Execute(s, schedule), w);
  }

  lemma {:induction false} ExecuteKeepsWriters(s: System, schedule: Schedule)
    ensures Execute(s, schedule).writers.Keys == s.writers.Keys
    decreases |schedule|
  {
    if schedule != [] {
      var s1 := Advance(s, schedule[0].0, schedule[0].1);
      ExecuteKeepsWriters(s1, schedule[1..]);
      if schedule[0].0 in s.writers {
        assert s1.writers.Keys == s.writers.Keys;
      }
    }
  }

  /** Once `publish` has returned or raised, its result never changes again. */
  lemma {:induction false} PublishResultIsFinal(s: System, schedule: Schedule, w: WriterId)
    requires Inv(s) && w in s.writers && (s.writers[w].publish.Returned? || s.writers[w].publish.Raised?)
    ensures w in Execute(s, schedule).writers && Execute(s, schedule).writers[w].publish == s.writers[w].publish
    decreases |schedule|
  {
    hide Move;
    if schedule != [] {
      var s1 := Advance(s, schedule[0].0, schedule[0].1);
      AdvanceInv(s, schedule[0].0, schedule[0].1);
      if schedule[0].0 in s.writers {
        var v := schedule[0].0;
        assert WriterIn(s, v);
        MoveKeeps(s.disk, v, s.writers[v], schedule[0].1, v in s.history);
      }
      PublishResultIsFinal(s1, schedule[1..], w);
    }
  }

  /** The error of `finish` tells less: a plain persistence error leaves the destination as
      it was, unless `publish` had returned and only reopening the result failed. */
  lemma FinishErrorTellsLess(s: System, schedule: Schedule, w: WriterId)
    requires Initial(s) && w in s.writers
    ensures var s' := Execute(s, schedule);
      && w in s'.writers
      && (s'.writers[w].outcome == Raised(PersistenceError) && s'.writers[w].pc.Done? ==>
            (w in s'.history <==> s'.writers[w].publish.Returned?))
  {
    InitialInv(s);
    ExecuteInv(s, schedule);
    ExecuteKeepsWriters(s, schedule);
    assert WriterIn(Execute(s, schedule), w);
  }

  /** A disk with one writer. */
  function Lone(disk: Disk, me: Writer, history: seq<WriterId>): System {
    System(disk, map[0 := me], history)
  }

  /** All goes well for `n` calls, and the one after them fails. */
  function WellThenFailure(n: nat): Schedule {
    if n == 0 then [(0, OsFailure)] else [(0, Proceed)] + WellThenFailure(n - 1)
  }

  lemma LoneStep(disk: Disk, me: Writer, history: seq<WriterId>, n: nat,
                 disk': Disk, me': Writer, history': seq<WriterId>)
    requires n > 0
    requires var (d, m, bound) := Move(disk, 0, me, Proceed); d == disk' && m == me' && history' == history + bound
    ensures Execute(Lone(disk, me, history), WellThenFailure(n)) ==
      Execute(Lone(disk', me', history'), WellThenFailure(n - 1))
  {
    var schedule := WellThenFailure(n);
    assert schedule[0] == (0, Proceed) && schedule[1..] == WellThenFailure(n - 1);
    assert map[0 := me][0 := me'] == map[0 := me'];
  }

  lemma LastFails(disk: Disk, me: Writer, history: seq<WriterId>)
    requires me.pc.Reopening?
    ensures Execute(Lone(disk, me, history), WellThenFailure(0)) ==
      Lone(disk, me.(pc := Done, outcome := Raised(PersistenceError)), history)
  {
    var me' := me.(pc := Done, outcome := Raised(PersistenceError));
    assert map[0 := me][0 := me'] == map[0 := me'];
    assert Move(disk, 0, me, OsFailure) == (disk, me', []);
    assert history + [] == history;
    assert Execute(Lone(disk, me', history), []) == Lone(disk, me', history);
  }

  function At(pc: Pc, publish: Call): Writer {
    Writer(false, pc, publish, Running)
  }

  const NO_FILES: Disk := Disk(map[], map[])

  function OnlyTemporary(content: Content): Disk {
    Disk(map[Temporary(0) := ArtifactOf(0)], map[ArtifactOf(0) := content])
  }

  function OnlyPublished(): Disk {
    Disk(map[Destination := ArtifactOf(0)], map[ArtifactOf(0) := Complete])
  }

  lemma Built()
    ensures NO_FILES.Bind(Temporary(0), ArtifactOf(0)).Write(Temporary(0), Empty) == OnlyTemporary(Empty)
    ensures OnlyTemporary(Empty).Write(Temporary(0), Complete) == OnlyTemporary(Complete)
    ensures OnlyTemporary(Complete).HoldsComplete(Temporary(0))
    ensures OnlyTemporary(Complete).Bind(Destination, ArtifactOf(0)).Unbind(Temporary(0)) == OnlyPublished()
  {
  }

  lemma UntilPublishing()
    ensures Execute(Lone(NO_FILES, At(Creating, NotCalled), []), WellThenFailure(7)) ==
      Execute(Lone(OnlyTemporary(Complete), At(Syncing, Running), []), WellThenFailure(4))
  {
    hide Execute, Lone, WellThenFailure;
    Built();
    var empty, complete := OnlyTemporary(Empty), OnlyTemporary(Complete);
    LoneStep(NO_FILES, At(Creating, NotCalled), [], 7, empty, At(Building, NotCalled), []);
    LoneStep(empty, At(Building, NotCalled), [], 6, complete, At(Checking, NotCalled), []);
    LoneStep(complete, At(Checking, NotCalled), [], 5, complete, At(Syncing, Running), []);
  }

  lemma UntilReopening()
    ensures Execute(Lone(OnlyTemporary(Complete), At(Syncing, Running), []), WellThenFailure(4)) ==
      Execute(Lone(OnlyPublished(), At(Reopening, Returned), [0]), WellThenFailure(0))
  {
    hide Execute, Lone, WellThenFailure;
    Built();
    var temporary := OnlyTemporary(Complete);
    var both := temporary.Bind(Destination, ArtifactOf(0));
    LoneStep(temporary, At(Syncing, Running), [], 4, temporary, At(Binding, Running), []);
    LoneStep(temporary, At(Binding, Running), [], 3, both, At(Unlinking, Running), [0]);
    LoneStep(both, At(Unlinking, Running), [0], 2, OnlyPublished(), At(SyncingFolder, Running), [0]);
    LoneStep(OnlyPublished(), At(SyncingFolder, Running), [0], 1, OnlyPublished(), At(Reopening, Returned), [0]);
  }

  /** So `finish` can raise a plain persistence error although its artifact is published:
      when all goes well until the published file is reopened. */
  lemma PersistenceErrorAfterPublication()
    ensures Initial(Lone(NO_FILES, NewWriter(false), []))
    ensures Execute(Lone(NO_FILES, NewWriter(false), []), WellThenFailure(7)) ==
      Lone(OnlyPublished(), Writer(false, Done, Returned, Raised(PersistenceError)), [0])
  {
    LoneStarts();
    hide Execute, WellThenFailure, Lone, Move, Initial;
    UntilPublishing();
    UntilReopening();
    LastFails(OnlyPublished(), At(Reopening, Returned), [0]);
    assert At(Creating, NotCalled) == NewWriter(false);
  }

  lemma LoneStarts()
    ensures Initial(Lone(NO_FILES, NewWriter(false), []))
  {
  }

  // --------------------------------------------- the two functions as code

  /** The directory, as the functions below change it. */
  class Folder {
    var disk: Disk

    constructor (disk: Disk)
      ensures this.disk == disk
    {
      this.disk := disk;
    }

    /** `Path.unlink`; what fails leaves the name bound. */
    method Unlink(name: Name, choice: Choice) returns (failed: bool)
      modifies this
      ensures failed <==> !choice.Proceed?
      ensures disk == if failed then old(disk) else old(disk).Unbind(name)
    {
      failed := !choice.Proceed?;
      if !failed {
        disk := disk.(bindings := disk.bindings - {name});
      }
    }
  }

  /** Consecutive calls of one writer inside `publish`, with nobody in between. */
  function Alone(disk: Disk, w: WriterId, me: Writer, choices: seq<Choice>): (Disk, Writer)
    decreases |choices|
  {
    if choices == [] || !me.publish.Running? then (disk, me)
    else
      var (disk', me', _) := Move(disk, w, me, choices[0]);
      Alone(disk', w, me', choices[1..])
  }

  /** A writer that has just called `publish`. */
  function Publishing(overwrite: bool): Writer {
    Writer(overwrite, Syncing, Running, Running)
  }

  /** What an operating system call that fails turns into, unless something else interrupts it. */
  function Failed(choice: Choice, error: Error): Call {
    Raised(match choice case OsFailure => error case Refuse => SchemaError case _ => OtherError)
  }

  /** The destination bound to the writer's file, its temporary name kept or gone, every other
      name and every file as before. */
  ghost predicate Bound(before: Disk, after: Disk, w: WriterId, keepsTemporary: bool) {
    && Temporary(w) in before.bindings
    && Destination in after.bindings && after.bindings[Destination] == before.bindings[Temporary(w)]
    && (Temporary(w) in after.bindings <==> keepsTemporary)
    && (keepsTemporary ==> after.bindings[Temporary(w)] == before.bindings[Temporary(w)])
    && (forall n :: n != Destination && n != Temporary(w) ==>
          && (n in after.bindings <==> n in before.bindings)
          && (n in before.bindings ==> after.bindings[n] == before.bindings[n]))
    && after.files == before.files
  }

  /** How `publish` ends.  It may install the artifact if its file is synced, the call that
      installs it goes through and it may have the name. */
  ghost predicate Ends(before: Disk, after: Disk, result: Call, w: WriterId, overwrite: bool,
                 fsync: Choice, bind: Choice, unlink: Choice, syncFolder: Choice)
  {
    if !fsync.Proceed? then after == before && result == Failed(fsync, PersistenceError)
    else if !bind.Proceed? then after == before && result == Failed(bind, PersistenceError)
    else if Temporary(w) !in before.bindings then after == before && result == Raised(PersistenceError)
    else if !overwrite && Destination in before.bindings then
      after == before && result == Raised(DestinationExistsError)
    else if !overwrite && !unlink.Proceed? then
      Bound(before, after, w, true)
      && result == Raised(if unlink.OsFailure? then PublicationError else OtherError)
    else
      Bound(before, after, w, false)
      && result == (if syncFolder.Proceed? then Returned
                    else Raised(if syncFolder.OsFailure? then DurabilityError else OtherError))
  }

  /** The steps of `publish`, with nobody in between, install the artifact and say so. */
  lemma AloneEnds(disk: Disk, w: WriterId, overwrite: bool,
                  fsync: Choice, bind: Choice, unlink: Choice, syncFolder: Choice)
    ensures var choices := [fsync, bind] + (if overwrite then [] else [unlink]) + [syncFolder];
      var (after, me) := Alone(disk, w, Publishing(overwrite), choices);
      Ends(disk, after, me.publish, w, overwrite, fsync, bind, unlink, syncFolder)
  {
    hide Alone;
    var choices := [fsync, bind] + (if overwrite then [] else [unlink]) + [syncFolder];
    var (disk1, me1, _) := Move(disk, w, Publishing(overwrite), fsync);
    AloneStep(disk, w, Publishing(overwrite), choices);
    if fsync.Proceed? {
      var (disk2, me2, _) := Move(disk1, w, me1, bind);
      AloneStep(disk1, w, me1, choices[1..]);
      assert choices[1..][1..] == choices[2..];
      if me2.pc.Unlinking? {
        var (disk3, me3, _) := Move(disk2, w, me2, unlink);
        AloneStep(disk2, w, me2, choices[2..]);
        if unlink.Proceed? {
          assert choices[2..][1..] == [syncFolder];
          AloneStep(disk3, w, me3, [syncFolder]);
        }
      } else if me2.pc.SyncingFolder? {
        assert choices[2..] == [syncFolder];
        AloneStep(disk2, w, me2, [syncFolder]);
      }
    }
  }

  /** `publish`, run undisturbed: the protocol's own steps, and what they come to. */
  method Publish(folder: Folder, w: WriterId, overwrite: bool,
                 fsync: Choice, bind: Choice, unlink: Choice, syncFolder: Choice)
    returns (result: Call)
    modifies folder
    ensures var choices := [fsync, bind] + (if overwrite then [] else [unlink]) + [syncFolder];
      var (disk, me) := Alone(old(folder.disk), w, Publishing(overwrite), choices);
      folder.disk == disk && result == me.publish
    ensures Ends(old(folder.disk), folder.disk, result, w, overwrite, fsync, bind, unlink, syncFolder)
  {
    AloneEnds(folder.disk, w, overwrite, fsync, bind, unlink, syncFolder);
    hide Ends;
    ghost var choices := [fsync, bind] + (if overwrite then [] else [unlink]) + [syncFolder];
    ghost var me := Publishing(overwrite);
    AloneStep(folder.disk, w, me, choices);
    if !fsync.Proceed? {
      return Raised(ErrorOf(fsync));
    }
    me := me.(pc := Binding);
    AloneStep(folder.disk, w, me, choices[1..]);
    if !bind.Proceed? {
      return Raised(ErrorOf(bind));
    }
    if Temporary(w) !in folder.disk.bindings {
      return Raised(PersistenceError);
    }
    var file := folder.disk.bindings[Temporary(w)];
    if overwrite {
      folder.disk := folder.disk.(bindings := folder.disk.bindings[Destination := file] - {Temporary(w)});
    } else {
      if Destination in folder.disk.bindings {
        return Raised(DestinationExistsError);
      }
      folder.disk := folder.disk.(bindings := folder.disk.bindings[Destination := file]);
      me := me.(pc := Unlinking);
      AloneStep(folder.disk, w, me, choices[2..]);
      var failed := folder.Unlink(Temporary(w), unlink);
      if failed {
        return Raised(if unlink.OsFailure? then PublicationError else OtherError);
      }
    }
    me := me.(pc := SyncingFolder);
    AloneStep(folder.disk, w, me, [syncFolder]);
    assert choices[|choices| - 1..] == [syncFolder];
    if !syncFolder.Proceed? {
      return Raised(if syncFolder.OsFailure? then DurabilityError else OtherError);
    }
    return Returned;
  }

  lemma AloneStep(disk: Disk, w: WriterId, me: Writer, choices: seq<Choice>)
    requires choices != [] && me.publish.Running?
    ensures var (disk', me', _) := Move(disk, w, me, choices[0]);
      Alone(disk, w, me, choices) ==
        if choices[1..] == [] || !me'.publish.Running? then (disk', me') else Alone(disk', w, me', choices[1..])
  {
  }

  /** The call that removes a name goes through. */
  predicate Removed(w: WriterId, n: Name, choices: seq<Choice>)
    requires |choices| == 4
  {
    match n
    case Temporary(v) => v == w && choices[0].Proceed?
    case SideFile(v, suffix) =>
      v == w && (match suffix case Wal => choices[1] case Shm => choices[2] case Journal => choices[3]).Proceed?
    case Destination => false
  }

  /** `cleanup`: removes what it can of the four temporary names, and never the destination. */
  method Cleanup(folder: Folder, w: WriterId, choices: seq<Choice>)
    requires |choices| == 4
    modifies folder
    ensures forall n :: n in folder.disk.bindings <==> n in old(folder.disk.bindings) && !Removed(w, n, choices)
    ensures forall n :: n in folder.disk.bindings ==> folder.disk.bindings[n] == old(folder.disk.bindings)[n]
    ensures Destination in old(folder.disk.bindings) ==> Destination in folder.disk.bindings
    ensures folder.disk.files == old(folder.disk.files)
  {
    var names := CleanupNames(w);
    var k := 0;
    while k < 4
      invariant 0 <= k <= 4 && folder.disk.files == old(folder.disk.files)
      invariant forall n :: n in folder.disk.bindings <==>
        n in old(folder.disk.bindings) && !exists j :: 0 <= j < k && names[j] == n && choices[j].Proceed?
      invariant forall n :: n in folder.disk.bindings ==> folder.disk.bindings[n] == old(folder.disk.bindings)[n]
    {
      var failed := folder.Unlink(names[k], choices[k]);
      k := k + 1;
    }
  }
}
