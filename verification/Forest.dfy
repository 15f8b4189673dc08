/** Parent chains in a table where every key has at most one parent. */
module Forest {
  import opened Core

  /** Each identifier with its parent, if it has one. */
  type Parents = map<nat, Option<nat>>

  /** The `n`-th ancestor of `v`, itself being the 0th. */
  function Ancestor(p: Parents, v: nat, n: nat): Option<nat>
    decreases n
  {
    if v !in p then None
    else if n == 0 then Some(v)
    else if p[v].None? then None
    else Ancestor(p, p[v].value, n - 1)
  }

  /** The parent chain of `v` passes through the root. */
  ghost predicate ReachesRoot(p: Parents, v: nat) {
    exists n :: Ancestor(p, v, n) == Some(1)
  }

  ghost predicate OwnAncestor(p: Parents, v: nat) {
    exists n: nat :: n > 0 && Ancestor(p, v, n) == Some(v)
  }

  lemma {:induction false} AncestorAdds(p: Parents, v: nat, m: nat, n: nat)
    requires Ancestor(p, v, m).Some?
    ensures Ancestor(p, v, m + n) == Ancestor(p, Ancestor(p, v, m).value, n)
    decreases m
  {
    if m > 0 {
      AncestorAdds(p, p[v].value, m - 1, n);
    }
  }

  lemma {:induction false} AncestorsBelow(p: Parents, v: nat, m: nat, n: nat)
    requires m <= n && Ancestor(p, v, n).Some?
    ensures Ancestor(p, v, m).Some? && Ancestor(p, v, m).value in p
    decreases m
  {
    if m > 0 {
      AncestorsBelow(p, p[v].value, m - 1, n - 1);
    }
  }

  /** A node is at one depth only, unless the root is on a cycle. */
  lemma DepthUnique(p: Parents, v: nat, m: nat, n: nat)
    requires !OwnAncestor(p, 1)
    requires Ancestor(p, v, m) == Some(1) && Ancestor(p, v, n) == Some(1)
    ensures m == n
  {
    DepthNotLess(p, v, m, n);
    DepthNotLess(p, v, n, m);
  }

  lemma DepthNotLess(p: Parents, v: nat, m: nat, n: nat)
    requires !OwnAncestor(p, 1)
    requires Ancestor(p, v, m) == Some(1) && Ancestor(p, v, n) == Some(1)
    ensures m >= n
  {
    if m < n {
      AncestorAdds(p, v, m, n - m);
    }
  }

  ghost predicate OnTheWay(p: Parents, v: nat, n: nat, u: nat) {
    exists k: nat :: k < n && Ancestor(p, v, k) == Some(u)
  }

  /** The nodes met on the way up from `v` in fewer than `n` steps. */
  ghost function Chain(p: Parents, v: nat, n: nat): set<nat>
    requires Ancestor(p, v, n).Some?
    decreases n
  {
    if n == 0 then {} else Chain(p, p[v].value, n - 1) + {v}
  }

  lemma {:induction false} ChainMembers(p: Parents, v: nat, n: nat)
    requires Ancestor(p, v, n).Some?
    ensures Chain(p, v, n) <= p.Keys
    ensures forall u :: u in Chain(p, v, n) ==> OnTheWay(p, v, n, u)
    decreases n
  {
    if n > 0 {
      ChainMembers(p, p[v].value, n - 1);
      forall u | u in Chain(p, v, n) ensures OnTheWay(p, v, n, u) {
        if u == v {
          var z: nat := 0;
          assert z < n && Ancestor(p, v, z) == Some(u);
        } else {
          var k: nat :| k < n - 1 && Ancestor(p, p[v].value, k) == Some(u);
          var j: nat := k + 1;
          assert j < n && Ancestor(p, v, j) == Some(u);
        }
      }
    }
  }

  /** On the way up to the root no node is met twice. */
  lemma {:induction false} ChainLength(p: Parents, v: nat, n: nat)
    requires !OwnAncestor(p, 1) && Ancestor(p, v, n) == Some(1)
    ensures |Chain(p, v, n)| == n && 1 !in Chain(p, v, n)
    decreases n
  {
    ChainMembers(p, v, n);
    if 1 in Chain(p, v, n) {
      var k: nat :| k < n && Ancestor(p, v, k) == Some(1);
      DepthUnique(p, v, k, n);
    }
    if n > 0 {
      var u := p[v].value;
      ChainLength(p, u, n - 1);
      ChainMembers(p, u, n - 1);
      if v in Chain(p, u, n - 1) {
        var k: nat :| k < n - 1 && Ancestor(p, u, k) == Some(v);
        AncestorAdds(p, u, k, n);
        DepthUnique(p, u, k + n, n - 1);
      }
    }
  }

  lemma SubsetSize<T>(a: set<T>, b: set<T>)
    requires a <= b
    ensures |a| <= |b|
    ensures |a| == |b| ==> a == b
  {
    assert b == a + (b - a);
    assert |b| == |a| + |b - a|;
  }

  /** Depths are less than the number of nodes. */
  lemma DepthBound(p: Parents, v: nat, n: nat)
    requires !OwnAncestor(p, 1) && Ancestor(p, v, n) == Some(1)
    ensures n < |p|
  {
    ChainLength(p, v, n);
    ChainMembers(p, v, n);
    AncestorsBelow(p, v, n, n);
    SubsetSize(Chain(p, v, n) + {1}, p.Keys);
  }

  /** A root without a parent is not its own ancestor. */
  lemma RootIsTop(p: Parents)
    requires 1 in p ==> p[1].None?
    ensures !OwnAncestor(p, 1)
  {
  }
}
