/**
 What writers achieve: one whose own calls all go through finishes whatever the others do,
 and publishes unless the name was taken; undisturbed, it leaves the directory as it was but
 for the destination.
 */
module Progress {
  import opened Artifact

  // ------------------------------------------------------ among other writers

  /** Every call of the writer in the schedule goes through; while it builds it may add any
      number of entries. */
  ghost predicate GoesWell(s: System, schedule: Schedule, w: WriterId)
    requires w in s.writers
    decreases |schedule|
  {
    schedule != [] ==>
      var (v, choice) := schedule[0];
      && (v == w ==> choice.Proceed? || (choice.More? && s.writers[w].pc.Building?))
      && w in Advance(s, v, choice).writers
      && GoesWell(Advance(s, v, choice), schedule[1..], w)
  }

  /** How many calls the writer makes, adding entries apart. */
  function Calls(schedule: Schedule, w: WriterId): nat {
    if schedule == [] then 0
    else (if schedule[0].0 == w && schedule[0].1.Proceed? then 1 else 0) + Calls(schedule[1..], w)
  }

  /** How many more calls it may take. */
  function Remaining(pc: Pc): nat {
    match pc
    case Creating => 10
    case Building => 9
    case Checking => 8
    case Syncing => 7
    case Binding => 6
    case Unlinking => 3
    case SyncingFolder => 2
    case Reopening => 1
    case Cleaning(step) => if step <= 4 then 5 - step else 1
    case Done => 0
  }

  /** Where a writer stands of which every call has gone through. */
  ghost predicate OnTrack(s: System, w: WriterId)
    requires w in s.writers
  {
    var me := s.writers[w];
    && (me.pc.Creating? ==> Temporary(w) !in s.disk.bindings)
    && (me.pc in {Building, Checking, Syncing, Binding} ==> Temporary(w) in s.disk.bindings)
    && (me.pc.Checking? ==> IsComplete(s.disk, w))
    && (me.pc in {SyncingFolder, Reopening} ==> Temporary(w) !in s.disk.bindings)
    && (me.pc.Done? ==> Temporary(w) !in s.disk.bindings && (me.outcome.Returned? || GaveWay(s, me)))
    && (me.pc.Cleaning? ==> GaveWay(s, me) && (me.pc.step > 0 ==> Temporary(w) !in s.disk.bindings))
  }

  /** The one way not to publish. */
  ghost predicate GaveWay(s: System, me: Writer) {
    && !me.overwrite && Destination in s.disk.bindings
    && me.outcome == Raised(DestinationExistsError)
    && me.publish in {NotCalled, Raised(DestinationExistsError)}
  }

  lemma OwnStep(disk: Disk, w: WriterId, me: Writer, choice: Choice, history: seq<WriterId>)
    requires choice.Proceed? || (choice.More? && me.pc.Building?)
    requires TemporaryOwn(disk) && WriterOk(me)
    requires OnTrack(System(disk, map[w := me], history), w)
    ensures var (disk', me', binds) := Move(disk, w, me, choice);
      && OnTrack(System(disk', map[w := me'], history + binds), w)
      && Remaining(me'.pc) <= Remaining(me.pc)
      && (choice.Proceed? ==> Remaining(me'.pc) < Remaining(me.pc) || me.pc.Done?)
  {
    var (disk', me', binds) := Move(disk, w, me, choice);
    if me.pc.Checking? {
      assert disk.HoldsComplete(Temporary(w));
    }
    if me.pc.Cleaning? && me.pc.step < 4 {
      assert CleanupNames(w)[0] == Temporary(w);
      assert CleanupNames(w)[me.pc.step] != Destination;
    }
  }

  /** What others do leaves a writer's temporary name alone. */
  lemma OthersLeaveName(disk: Disk, v: WriterId, other: Writer, choice: Choice, w: WriterId)
    requires v != w
    ensures var disk' := Move(disk, v, other, choice).0;
      Temporary(w) in disk'.bindings <==> Temporary(w) in disk.bindings
  {
  }

  lemma StepStaysOnTrack(s: System, w: WriterId, v: WriterId, choice: Choice)
    requires Inv(s) && w in s.writers && OnTrack(s, w)
    requires v == w ==> choice.Proceed? || (choice.More? && s.writers[w].pc.Building?)
    ensures var s' := Advance(s, v, choice);
      && w in s'.writers
      && OnTrack(s', w)
      && s'.writers[w].overwrite == s.writers[w].overwrite
      && Remaining(s'.writers[w].pc) <= Remaining(s.writers[w].pc)
      && (v == w && choice.Proceed? ==>
            Remaining(s'.writers[w].pc) < Remaining(s.writers[w].pc) || s.writers[w].pc.Done?)
  {
    hide Move, Remaining, WriterOk, HasBound, HasNotBound;
    assert WriterIn(s, w);
    if v == w {
      OwnStep(s.disk, w, s.writers[w], choice, s.history);
      MoveKeeps(s.disk, w, s.writers[w], choice, w in s.history);
      StepNeverUnlinks(s, w, choice);
    } else if v in s.writers {
      OthersLeaveName(s.disk, v, s.writers[v], choice, w);
      MoveFiles(s.disk, v, s.writers[v], choice);
      StepNeverUnlinks(s, v, choice);
    }
  }

  lemma {:induction false} StaysOnTrack(s: System, schedule: Schedule, w: WriterId)
    requires Inv(s) && w in s.writers && OnTrack(s, w) && GoesWell(s, schedule, w)
    ensures var s' := Execute(s, schedule);
      && w in s'.writers
      && OnTrack(s', w)
      && s'.writers[w].overwrite == s.writers[w].overwrite
      && var left := Remaining(s'.writers[w].pc);
      && (left == 0 || left + Calls(schedule, w) <= Remaining(s.writers[w].pc))
    decreases |schedule|
  {
    hide OnTrack, Advance, Inv;
    if schedule != [] {
      var (v, choice) := schedule[0];
      AdvanceInv(s, v, choice);
      StepStaysOnTrack(s, w, v, choice);
      StaysOnTrack(Advance(s, v, choice), schedule[1..], w);
    }
  }

  /** However the others interleave and fail, a writer whose own calls go through has finished
      after ten of them.  It has published, or it may not overwrite and the destination exists;
      its temporary name is gone either way. */
  lemma WellWriterFinishes(s: System, schedule: Schedule, w: WriterId)
    requires Initial(s) && w in s.writers && GoesWell(s, schedule, w) && Calls(schedule, w) >= 10
    ensures var s' := Execute(s, schedule);
      && w in s'.writers
      && s'.writers[w].pc.Done?
      && Temporary(w) !in s'.disk.bindings
      && (s'.writers[w].outcome == Returned <==> w in s'.history)
      && (s'.writers[w].outcome != Returned ==>
            && s'.writers[w].outcome == Raised(DestinationExistsError)
            && !s.writers[w].overwrite
            && Destination in s'.disk.bindings && s'.disk.bindings[Destination] != ArtifactOf(w))
  {
    InitialInv(s);
    assert OnTrack(s, w);
    StaysOnTrack(s, schedule, w);
    ExecuteInv(s, schedule);
    assert WriterIn(Execute(s, schedule), w);
  }

  // --------------------------------------------------------------- undisturbed

  /** One writer makes `n` calls in a row, and all go through. */
  function AllWell(w: WriterId, n: nat): Schedule {
    seq(n, _ => (w, Proceed))
  }

  /** The system once the writer has come so far. */
  function Come(s: System, w: WriterId, disk: Disk, me: Writer, history: seq<WriterId>): System {
    System(disk, s.writers[w := me], history)
  }

  lemma CallGoes(s: System, w: WriterId, n: nat, disk: Disk, me: Writer, history: seq<WriterId>,
                 disk': Disk, me': Writer, bound: seq<WriterId>)
    requires n > 0 && Move(disk, w, me, Proceed) == (disk', me', bound)
    ensures Execute(Come(s, w, disk, me, history), AllWell(w, n)) ==
      Execute(Come(s, w, disk', me', history + bound), AllWell(w, n - 1))
  {
    assert AllWell(w, n)[1..] == AllWell(w, n - 1);
    assert s.writers[w := me][w := me'] == s.writers[w := me'];
  }

  /** The directory with the writer's complete artifact under its temporary name. */
  function WithTemporary(disk: Disk, w: WriterId, content: Content): Disk {
    Disk(disk.bindings[Temporary(w) := ArtifactOf(w)], disk.files[ArtifactOf(w) := content])
  }

  lemma BuildsAlone(s: System, w: WriterId, n: nat, overwrite: bool)
    requires n >= 4 && (overwrite || Destination !in s.disk.bindings)
    ensures Execute(Come(s, w, s.disk, NewWriter(overwrite), s.history), AllWell(w, n)) ==
      Execute(Come(s, w, WithTemporary(s.disk, w, Complete), Writer(overwrite, Binding, Running, Running), s.history),
              AllWell(w, n - 4))
  {
    hide Execute, AllWell, Come;
    var empty, complete := WithTemporary(s.disk, w, Empty), WithTemporary(s.disk, w, Complete);
    var me := NewWriter(overwrite);
    assert s.history + [] == s.history;
    CallGoes(s, w, n, s.disk, me, s.history, empty, me.(pc := Building), []);
    assert empty.files[ArtifactOf(w) := Complete] == complete.files;
    CallGoes(s, w, n - 1, empty, me.(pc := Building), s.history, complete, me.(pc := Checking), []);
    var publishing := Writer(overwrite, Syncing, Running, Running);
    CallGoes(s, w, n - 2, complete, me.(pc := Checking), s.history, complete, publishing, []);
    CallGoes(s, w, n - 3, complete, publishing, s.history, complete, publishing.(pc := Binding), []);
  }

  /** The directory once the artifact is published. */
  function WithArtifact(disk: Disk, w: WriterId): Disk {
    Disk(disk.bindings[Destination := ArtifactOf(w)] - {Temporary(w)}, disk.files[ArtifactOf(w) := Complete])
  }

  lemma BindsAlone(s: System, w: WriterId, overwrite: bool)
    requires overwrite || Destination !in s.disk.bindings
    ensures Execute(Come(s, w, WithTemporary(s.disk, w, Complete), Writer(overwrite, Binding, Running, Running),
                         s.history), AllWell(w, if overwrite then 3 else 4)) ==
      Execute(Come(s, w, WithArtifact(s.disk, w), Writer(overwrite, SyncingFolder, Running, Running),
                   s.history + [w]), AllWell(w, 2))
  {
    hide Execute, AllWell, Come;
    var complete, published := WithTemporary(s.disk, w, Complete), WithArtifact(s.disk, w);
    var me := Writer(overwrite, Binding, Running, Running);
    var both := complete.Bind(Destination, ArtifactOf(w));
    assert both.Unbind(Temporary(w)).bindings == published.bindings;
    assert s.history + [w] + [] == s.history + [w];
    if overwrite {
      CallGoes(s, w, 3, complete, me, s.history, published, me.(pc := SyncingFolder), [w]);
    } else {
      CallGoes(s, w, 4, complete, me, s.history, both, me.(pc := Unlinking), [w]);
      CallGoes(s, w, 3, both, me.(pc := Unlinking), s.history + [w], published, me.(pc := SyncingFolder), []);
    }
  }

  lemma EndsAlone(s: System, w: WriterId, overwrite: bool, disk: Disk, history: seq<WriterId>)
    ensures Execute(Come(s, w, disk, Writer(overwrite, SyncingFolder, Running, Running), history), AllWell(w, 2)) ==
      Come(s, w, disk, Writer(overwrite, Done, Returned, Returned), history)
  {
    var me := Writer(overwrite, SyncingFolder, Running, Running);
    var reopening := Writer(overwrite, Reopening, Returned, Running);
    assert history + [] == history;
    CallGoes(s, w, 2, disk, me, history, disk, reopening, []);
    CallGoes(s, w, 1, disk, reopening, history, disk, reopening.(pc := Done, outcome := Returned), []);
  }

  /** Undisturbed, a writer of which every call goes through publishes if it may overwrite or
      the destination is free: the destination leads to its complete artifact, no temporary
      name is left, and nothing else has changed.  Otherwise nothing changes at all. */
  lemma FinishAlone(s: System, w: WriterId)
    requires w in s.writers && s.writers[w] == NewWriter(s.writers[w].overwrite)
    ensures var overwrite := s.writers[w].overwrite;
      var s' := Execute(s, AllWell(w, if overwrite then 7 else 8));
      if overwrite || Destination !in s.disk.bindings then
        && s'.writers == s.writers[w := Writer(overwrite, Done, Returned, Returned)]
        && s'.history == s.history + [w]
        && s'.disk.bindings == s.disk.bindings[Destination := ArtifactOf(w)] - {Temporary(w)}
        && s'.disk.files == s.disk.files[ArtifactOf(w) := Complete]
      else
        && s'.writers == s.writers[w := Writer(overwrite, Done, NotCalled, Raised(DestinationExistsError))]
        && s'.history == s.history
        && s'.disk == s.disk
  {
    hide AllWell, Move;
    var overwrite := s.writers[w].overwrite;
    assert s == Come(s, w, s.disk, NewWriter(overwrite), s.history) by {
      assert s.writers[w := s.writers[w]] == s.writers;
    }
    if overwrite || Destination !in s.disk.bindings {
      hide Execute;
      BuildsAlone(s, w, if overwrite then 7 else 8, overwrite);
      BindsAlone(s, w, overwrite);
      EndsAlone(s, w, overwrite, WithArtifact(s.disk, w), s.history + [w]);
    } else {
      RefusedAlone(s, w);
    }
  }

  lemma RefusedAlone(s: System, w: WriterId)
    requires w in s.writers && s.writers[w] == NewWriter(false) && Destination in s.disk.bindings
    ensures Execute(s, AllWell(w, 8)) ==
      s.(writers := s.writers[w := Writer(false, Done, NotCalled, Raised(DestinationExistsError))])
  {
    hide Execute, AllWell;
    var me := Writer(false, Done, NotCalled, Raised(DestinationExistsError));
    assert s.history + [] == s.history;
    assert s.writers[w := s.writers[w]] == s.writers;
    CallGoes(s, w, 8, s.disk, NewWriter(false), s.history, s.disk, me, []);
    StaysDone(s, w, me, 7);
  }

  lemma {:induction false} StaysDone(s: System, w: WriterId, me: Writer, n: nat)
    requires me.pc.Done?
    ensures Execute(Come(s, w, s.disk, me, s.history), AllWell(w, n)) == Come(s, w, s.disk, me, s.history)
  {
    if n > 0 {
      assert s.history + [] == s.history;
      CallGoes(s, w, n, s.disk, me, s.history, s.disk, me, []);
      StaysDone(s, w, me, n - 1);
    }
  }
}
