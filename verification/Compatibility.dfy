/**
 When a series of entries builds, and what it builds.  Success is pairwise compatibility
 of the entries, and the outcome depends on nothing but the set of entries.
 */
module Compatibility {
  import opened Core
  import opened Building
  import opened Tree
  import opened PathMaps

  /** Can both entries be true of one file system?  A file has nothing below it and shares
      its path with no directory; repeated files agree on size, time and content; repeated
      explicit directories agree on time. */
  predicate Compatible(x: ParsedEntry, y: ParsedEntry) {
    && !(x.kind.File? && Above(x.path, y.path))
    && !(y.kind.File? && Above(y.path, x.path))
    && (x.path == y.path ==>
          && x.kind == y.kind
          && (x.kind.File? ==> x.size == y.size && x.modified == y.modified && x.content == y.content)
          && (x.observation.DirectoryEntry? && y.observation.DirectoryEntry? ==> x.modified == y.modified))
  }

  ghost predicate AllCompatible(s: set<ParsedEntry>) {
    forall x, y :: x in s && y in s ==> Compatible(x, y)
  }

  ghost predicate AllUsable(s: set<ParsedEntry>) {
    forall e :: e in s ==> e.ParserShaped() && ValidPath(e.path)
  }

  function NamesOf(e: ParsedEntry): seq<Bytes> {
    if ValidPath(e.path) then MountedNames(e.path) else []
  }

  lemma NamesFollowPaths(x: ParsedEntry, y: ParsedEntry)
    requires ValidPath(x.path) && ValidPath(y.path)
    ensures NamesOf(x) == NamesOf(y) <==> x.path == y.path
    ensures Above(NamesOf(x), NamesOf(y)) <==> Above(x.path, y.path)
    ensures NamesOf(x) != []
  {
    MountedNamesInjective(x.path, y.path);
    if |x.path| < |y.path| {
      assert x.path <= y.path <==> x.path == y.path[..|x.path|];
    }
  }

  /** Does an entry make a path exist? */
  predicate Covers(e: ParsedEntry, p: seq<Bytes>) {
    p == NamesOf(e) || Above(p, NamesOf(e))
  }

  /** `info` takes nothing away from an observation of its path. */
  predicate Absorbs(info: Info, e: ParsedEntry) {
    && info.observation.Some?
    && info.kind == e.kind
    && (e.kind.File? || e.observation.DirectoryEntry? ==> info == Observed(e))
  }

  /** What is recorded at `p` is one of its observations, and absorbs them all. */
  ghost predicate InfoDescribes(info: Info, p: seq<Bytes>, s: set<ParsedEntry>) {
    && (info.observation.None? ==> info == Unobserved(Directory))
    && (info.observation.Some? ==> exists e :: e in s && NamesOf(e) == p && info == Observed(e))
    && forall e :: e in s && NamesOf(e) == p ==> Absorbs(info, e)
  }

  /** The map that a set of entries describes: the root, every path the entries make
      exist, and what they say there. */
  ghost predicate Describes(pm: PathMap, s: set<ParsedEntry>) {
    && (forall p :: p in pm <==> p == [] || exists e :: e in s && Covers(e, p))
    && forall p :: p in pm ==> InfoDescribes(pm[p], p, s)
  }

  lemma InfoUnique(a: Info, b: Info, p: seq<Bytes>, s: set<ParsedEntry>)
    requires AllUsable(s)
    requires InfoDescribes(a, p, s) && InfoDescribes(b, p, s)
    ensures a == b
  {
  }

  /** A set of entries describes at most one map. */
  lemma DescribesUnique(a: PathMap, b: PathMap, s: set<ParsedEntry>)
    requires AllUsable(s) && Describes(a, s) && Describes(b, s)
    ensures a == b
  {
    forall p | p in a ensures p in b && a[p] == b[p] {
      InfoUnique(a[p], b[p], p, s);
    }
    assert a.Keys == b.Keys;
  }

  // ------------------------------------------------------------ one step

  /** A file in the map was observed there. */
  lemma FileWasObserved(pm: PathMap, s: set<ParsedEntry>, p: seq<Bytes>) returns (y: ParsedEntry)
    requires Describes(pm, s) && p in pm && pm[p].kind.File?
    ensures y in s && NamesOf(y) == p && y.kind.File? && pm[p] == Observed(y)
  {
    y :| y in s && NamesOf(y) == p && pm[p] == Observed(y);
  }

  lemma CompatibleFits(pm: PathMap, s: set<ParsedEntry>, e: ParsedEntry)
    requires Describes(pm, s) && AllUsable(s) && e.ParserShaped() && ValidPath(e.path)
    requires forall x :: x in s ==> Compatible(x, e)
    ensures Fits(pm, NamesOf(e), e)
  {
    var names := NamesOf(e);
    forall p | p in pm && Above(p, names) ensures pm[p].kind.Directory? {
      if pm[p].kind.File? {
        var y := FileWasObserved(pm, s, p);
        NamesFollowPaths(y, e);
      }
    }
    if names in pm {
      NamesFollowPaths(e, e);
      var x :| x in s && Covers(x, names);
      NamesFollowPaths(x, e);
      NamesFollowPaths(e, x);
      if pm[names].observation.Some? {
        var y :| y in s && NamesOf(y) == names && pm[names] == Observed(y);
        NamesFollowPaths(y, e);
      }
    }
  }

  lemma CompatibleReconciles(pm: PathMap, s: set<ParsedEntry>, e: ParsedEntry)
    requires Describes(pm, s) && AllUsable(s) && e.ParserShaped() && ValidPath(e.path)
    requires forall x :: x in s ==> Compatible(x, e)
    requires NamesOf(e) in pm && pm[NamesOf(e)].kind == e.kind
    ensures Reconcile(pm[NamesOf(e)], e).Some?
  {
    var info := pm[NamesOf(e)];
    if info.observation.Some? {
      var y :| y in s && NamesOf(y) == NamesOf(e) && info == Observed(y);
      NamesFollowPaths(y, e);
    }
  }

  lemma CompatiblePair(s: set<ParsedEntry>, x: ParsedEntry, y: ParsedEntry)
    requires AllCompatible(s) && x in s && y in s
    ensures Compatible(x, y)
  {
  }

  /** What is above an added path is a directory ... */
  lemma AboveAdded(pm: PathMap, s: set<ParsedEntry>, e: ParsedEntry, x: ParsedEntry)
    requires Describes(pm, s) && PathAdd(pm, NamesOf(e), e).Some?
    requires x in s && Above(NamesOf(x), NamesOf(e))
    ensures x.kind.Directory?
  {
    assert Covers(x, NamesOf(x));
    assert InfoDescribes(pm[NamesOf(x)], NamesOf(x), s);
  }

  /** ... and so is a path with something below it. */
  lemma AddedAbove(pm: PathMap, s: set<ParsedEntry>, e: ParsedEntry, x: ParsedEntry)
    requires Describes(pm, s) && AllUsable(s) && AllCompatible(s) && PathAdd(pm, NamesOf(e), e).Some?
    requires x in s && Above(NamesOf(e), NamesOf(x))
    ensures e.kind.Directory?
  {
    assert Covers(x, NamesOf(e));
    if pm[NamesOf(e)].kind.File? {
      var y := FileWasObserved(pm, s, NamesOf(e));
      NamesFollowPaths(y, x);
      CompatiblePair(s, y, x);
    }
  }

  lemma SamePathAdded(pm: PathMap, s: set<ParsedEntry>, e: ParsedEntry, x: ParsedEntry)
    requires Describes(pm, s) && AllUsable(s) && PathAdd(pm, NamesOf(e), e).Some?
    requires x in s && NamesOf(x) == NamesOf(e)
    ensures x.kind == e.kind
    ensures x.kind.File? ==> x.size == e.size && x.modified == e.modified && x.content == e.content
    ensures x.observation.DirectoryEntry? && e.observation.DirectoryEntry? ==> x.modified == e.modified
  {
    assert Covers(x, NamesOf(e));
    assert InfoDescribes(pm[NamesOf(e)], NamesOf(e), s);
    assert Absorbs(pm[NamesOf(e)], x);
  }

  lemma AddedIsCompatible(pm: PathMap, s: set<ParsedEntry>, e: ParsedEntry, x: ParsedEntry)
    requires Describes(pm, s) && AllUsable(s) && AllCompatible(s) && e.ParserShaped() && ValidPath(e.path)
    requires PathAdd(pm, NamesOf(e), e).Some?
    requires x in s
    ensures Compatible(x, e)
  {
    hide Describes;
    hide PathAdd;
    NamesFollowPaths(x, e);
    NamesFollowPaths(e, x);
    if Above(x.path, e.path) {
      AboveAdded(pm, s, e, x);
    }
    if Above(e.path, x.path) {
      AddedAbove(pm, s, e, x);
    }
    if x.path == e.path {
      SamePathAdded(pm, s, e, x);
    }
  }

  /** A path is added exactly when it is compatible with everything before it. */
  lemma AddIffCompatible(pm: PathMap, s: set<ParsedEntry>, e: ParsedEntry)
    requires Describes(pm, s) && AllUsable(s) && AllCompatible(s) && e.ParserShaped() && ValidPath(e.path)
    ensures PathAdd(pm, NamesOf(e), e).Some? <==> forall x :: x in s ==> Compatible(x, e)
  {
    hide InfoDescribes;
    if PathAdd(pm, NamesOf(e), e).Some? {
      forall x | x in s ensures Compatible(x, e) {
        AddedIsCompatible(pm, s, e, x);
      }
    } else if forall x :: x in s ==> Compatible(x, e) {
      CompatibleFits(pm, s, e);
      if NamesOf(e) in pm {
        CompatibleReconciles(pm, s, e);
      }
    }
  }

  /** What was said of another path is still what is said of it. */
  lemma InfoElsewhere(info: Info, p: seq<Bytes>, s: set<ParsedEntry>, e: ParsedEntry)
    requires InfoDescribes(info, p, s) && p != NamesOf(e)
    ensures InfoDescribes(info, p, s + {e})
  {
    if info.observation.Some? {
      var x :| x in s && NamesOf(x) == p && info == Observed(x);
      assert x in s + {e};
    }
  }

  lemma InfoAt(before: Info, s: set<ParsedEntry>, e: ParsedEntry, info: Info)
    requires AllUsable(s) && e.ParserShaped() && ValidPath(e.path)
    requires before.observation.Some? ==> InfoDescribes(before, NamesOf(e), s)
    requires before.observation.None? ==> forall x :: x in s ==> NamesOf(x) != NamesOf(e)
    requires before.kind == e.kind && Reconcile(before, e) == Some(info)
    ensures InfoDescribes(info, NamesOf(e), s + {e})
  {
    if info != Observed(e) {
      var x :| x in s && NamesOf(x) == NamesOf(e) && before == Observed(x);
      assert x in s + {e};
    } else {
      assert e in s + {e};
    }
  }

  lemma DescribesNothingNew(pm: PathMap, s: set<ParsedEntry>, p: seq<Bytes>)
    requires Describes(pm, s) && p !in pm
    ensures forall x :: x in s ==> NamesOf(x) != p
  {
    if x :| x in s && NamesOf(x) == p {
      assert Covers(x, p);
    }
  }

  /** The map with the entry added describes the set with the entry added. */
  lemma AddDescribes(pm: PathMap, s: set<ParsedEntry>, e: ParsedEntry)
    requires Describes(pm, s) && AllUsable(s) && e.ParserShaped() && ValidPath(e.path)
    requires PathAdd(pm, NamesOf(e), e).Some?
    ensures Describes(PathAdd(pm, NamesOf(e), e).value, s + {e})
  {
    var names := NamesOf(e);
    var pm' := PathAdd(pm, names, e).value;
    forall p ensures p in Ancestors(names) <==> Above(p, names) {
      AncestorIsProperPrefix(names, p);
    }
    forall p ensures p in pm' <==> p == [] || exists x :: x in s + {e} && Covers(x, p) {
      if p in pm' {
        if p in pm && p != [] {
          var x :| x in s && Covers(x, p);
          assert x in s + {e};
        } else if p != [] {
          assert e in s + {e} && Covers(e, p);
        }
      } else {
        assert !Covers(e, p);
      }
    }
    forall p | p in pm' ensures InfoDescribes(pm'[p], p, s + {e}) {
      if p == names {
        if names in pm {
          assert pm[names].observation.None? ==> forall x :: x in s ==> NamesOf(x) != names;
          InfoAt(pm[names], s, e, pm'[p]);
        } else {
          DescribesNothingNew(pm, s, names);
          InfoAt(Unobserved(e.kind), s, e, pm'[p]);
        }
      } else if p in pm {
        InfoElsewhere(pm[p], p, s, e);
      } else {
        DescribesNothingNew(pm, s, p);
        assert InfoDescribes(pm'[p], p, s);
        InfoElsewhere(pm'[p], p, s, e);
      }
    }
  }

  // ------------------------------------------------------- whole series

  /** Adding entries one after the other, up to the first failure. */
  function AddAll(t: TreeState, es: seq<ParsedEntry>): (TreeState, Option<BuildError>)
    requires IndexOk(t)
    decreases |es|
  {
    if es == [] then (t, None)
    else
      var (t', error) := Add(t, es[0]);
      AddKeepsIndex(t, es[0]);
      if error.Some? then (t', error) else AddAll(t', es[1..])
  }

  lemma {:induction false} AddFromKeepsIndex(t: TreeState, e: ParsedEntry, names: seq<Bytes>, i: nat, parent: nat)
    requires |names| == |e.path| && i <= |names| && IndexOk(t)
    ensures IndexOk(AddFrom(t, e, names, i, parent).0)
    decreases |names| - i
  {
    if i < |names| {
      EnterKeepsIndex(t, e, names, i, parent);
      var (t', id, error) := Enter(t, e, names, i, parent);
      if error.None? && i < |names| - 1 {
        AddFromKeepsIndex(t', e, names, i + 1, id);
      }
    }
  }

  lemma AddKeepsIndex(t: TreeState, e: ParsedEntry)
    requires IndexOk(t)
    ensures IndexOk(Add(t, e).0)
  {
    if Components(e).Success? {
      AddFromKeepsIndex(t, e, MountedNames(e.path), 0, 1);
    }
  }

  ghost function SetOf(es: seq<ParsedEntry>): set<ParsedEntry> {
    set e | e in es
  }

  ghost predicate AllShaped(es: seq<ParsedEntry>) {
    forall e :: e in es ==> e.ParserShaped()
  }

  /** The tree built so far and the entries it was built from. */
  ghost predicate BuiltFrom(t: TreeState, s: set<ParsedEntry>) {
    TreeOk(t) && AllUsable(s) && AllCompatible(s) && Describes(Abs(t), s)
  }

  lemma EmptyTreeDescribes()
    ensures BuiltFrom(EMPTY_TREE, {})
  {
    EmptyTreeOk();
    AbsAt(EMPTY_TREE, 1);
    forall p | p in Abs(EMPTY_TREE) ensures p == [] {
      var id := NodeAt(EMPTY_TREE, p);
    }
  }

  /** One call on a tree built so far. */
  lemma AddStep(t: TreeState, s: set<ParsedEntry>, e: ParsedEntry)
    requires BuiltFrom(t, s) && e.ParserShaped()
    ensures IndexOk(t) && TreeOk(Add(t, e).0)
    ensures Add(t, e).1.None? <==> ValidPath(e.path) && AllCompatible(s + {e})
    ensures Add(t, e).1.None? ==> BuiltFrom(Add(t, e).0, s + {e})
  {
    hide Describes;
    hide Abs;
    hide PathAdd;
    TreeIsIndexed(t);
    AddKeepsTree(t, e);
    if ValidPath(e.path) {
      AddRefines(t, e);
      AddIffCompatible(Abs(t), s, e);
      SelfCompatible(e);
      assert AllCompatible(s + {e}) <==> forall x :: x in s ==> Compatible(x, e) by {
        if AllCompatible(s + {e}) {
          forall x | x in s ensures Compatible(x, e) {
            assert x in s + {e} && e in s + {e};
          }
        }
      }
      if Add(t, e).1.None? {
        AddDescribes(Abs(t), s, e);
      }
    }
  }

  lemma SelfCompatible(e: ParsedEntry)
    ensures Compatible(e, e)
  {
  }

  lemma {:induction false} AddAllFrom(t: TreeState, s: set<ParsedEntry>, es: seq<ParsedEntry>)
    requires BuiltFrom(t, s) && AllShaped(es)
    ensures IndexOk(t) && TreeOk(AddAll(t, es).0)
    ensures AddAll(t, es).1.None? <==>
      (forall e :: e in es ==> ValidPath(e.path)) && AllCompatible(s + SetOf(es))
    ensures AddAll(t, es).1.None? ==> BuiltFrom(AddAll(t, es).0, s + SetOf(es))
    decreases |es|
  {
    hide Describes;
    hide Compatible;
    TreeIsIndexed(t);
    if es == [] {
      assert s + SetOf(es) == s;
    } else {
      var e := es[0];
      AddStep(t, s, e);
      assert es == [e] + es[1..];
      assert s + SetOf(es) == s + {e} + SetOf(es[1..]);
      if Add(t, e).1.None? {
        AddAllFrom(Add(t, e).0, s + {e}, es[1..]);
      } else if AllCompatible(s + SetOf(es)) {
        assert AllCompatible(s + {e});
      }
    }
  }

  /** A series of entries builds exactly when every path is valid and the entries are
      pairwise compatible; the tree then describes exactly the set of entries. */
  lemma BuildsIffCompatible(es: seq<ParsedEntry>)
    requires AllShaped(es)
    ensures IndexOk(EMPTY_TREE)
    ensures AddAll(EMPTY_TREE, es).1.None? <==>
      && (forall e :: e in es ==> ValidPath(e.path))
      && (forall x, y :: x in es && y in es ==> Compatible(x, y))
    ensures TreeOk(AddAll(EMPTY_TREE, es).0)
    ensures AddAll(EMPTY_TREE, es).1.None? ==> Describes(Abs(AddAll(EMPTY_TREE, es).0), SetOf(es))
  {
    EmptyTreeDescribes();
    AddAllFrom(EMPTY_TREE, {}, es);
    assert {} + SetOf(es) == SetOf(es);
    assert AllCompatible(SetOf(es)) <==> forall x, y :: x in es && y in es ==> Compatible(x, y) by {
      assert forall e :: e in SetOf(es) <==> e in es;
    }
  }

  /** Order and repetition do not matter: the same entries build, or fail to build, alike,
      and what they build has the same paths with the same kind, size, time, content and
      observation. */
  lemma SameEntriesSameTree(es: seq<ParsedEntry>, fs: seq<ParsedEntry>)
    requires AllShaped(es) && (forall e :: e in es <==> e in fs)
    ensures IndexOk(EMPTY_TREE)
    ensures AddAll(EMPTY_TREE, es).1.None? <==> AddAll(EMPTY_TREE, fs).1.None?
    ensures AddAll(EMPTY_TREE, es).1.None? ==>
      && TreeOk(AddAll(EMPTY_TREE, es).0) && TreeOk(AddAll(EMPTY_TREE, fs).0)
      && Abs(AddAll(EMPTY_TREE, es).0) == Abs(AddAll(EMPTY_TREE, fs).0)
  {
    hide Describes;
    hide Compatible;
    BuildsIffCompatible(es);
    BuildsIffCompatible(fs);
    assert SetOf(es) == SetOf(fs);
    if AddAll(EMPTY_TREE, es).1.None? {
      DescribesUnique(Abs(AddAll(EMPTY_TREE, es).0), Abs(AddAll(EMPTY_TREE, fs).0), SetOf(es));
    }
  }

  /** In particular, every permutation gives the same outcome. */
  lemma PermutationSameTree(es: seq<ParsedEntry>, fs: seq<ParsedEntry>)
    requires AllShaped(es) && multiset(es) == multiset(fs)
    ensures IndexOk(EMPTY_TREE)
    ensures AddAll(EMPTY_TREE, es).1.None? <==> AddAll(EMPTY_TREE, fs).1.None?
    ensures AddAll(EMPTY_TREE, es).1.None? ==>
      && TreeOk(AddAll(EMPTY_TREE, es).0) && TreeOk(AddAll(EMPTY_TREE, fs).0)
      && Abs(AddAll(EMPTY_TREE, es).0) == Abs(AddAll(EMPTY_TREE, fs).0)
  {
    forall e ensures e in es <==> e in fs {
      assert e in multiset(es) <==> e in multiset(fs);
    }
    SameEntriesSameTree(es, fs);
  }
}
