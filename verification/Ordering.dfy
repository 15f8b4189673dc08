/** Byte order of names, and the sorted sequences it determines. */
module Ordering {
  import opened Core

  /** Lexicographic order of byte strings: `bytes.__lt__`, and COLLATE BINARY on blobs. */
  predicate Less(a: Bytes, b: Bytes) {
    b != [] && (a == [] || a[0] < b[0] || (a[0] == b[0] && Less(a[1..], b[1..])))
  }

  /** `n` is where two strings first differ. */
  predicate DifferAt(a: Bytes, b: Bytes, n: nat) {
    && n <= |a| && n <= |b| && a[..n] == b[..n]
    && (n == |a| || n == |b| || a[n] != b[n])
  }

  /** The first difference decides: a missing byte comes before every byte. */
  lemma {:induction false} LessIs(a: Bytes, b: Bytes, n: nat)
    requires DifferAt(a, b, n)
    ensures Less(a, b) <==> n < |b| && (n == |a| || a[n] < b[n])
  {
    if n > 0 {
      assert a[1..][..n - 1] == a[..n][1..] && b[1..][..n - 1] == b[..n][1..];
      assert a[0] == a[..n][0] && b[0] == b[..n][0];
      LessIs(a[1..], b[1..], n - 1);
    }
  }

  lemma {:induction false} LessTotal(a: Bytes, b: Bytes)
    ensures Less(a, b) || a == b || Less(b, a)
    ensures !(Less(a, b) && Less(b, a))
    ensures !Less(a, a)
  {
    if a != [] && b != [] {
      LessTotal(a[1..], b[1..]);
      assert a == [a[0]] + a[1..] && b == [b[0]] + b[1..];
    } else if a != [] {
      LessTotal(a[1..], []);
    }
  }

  lemma {:induction false} LessTransitive(a: Bytes, b: Bytes, c: Bytes)
    requires Less(a, b) && Less(b, c)
    ensures Less(a, c)
  {
    if a != [] && a[0] == b[0] && b[0] == c[0] {
      LessTransitive(a[1..], b[1..], c[1..]);
    }
  }

  predicate Ascending(names: seq<Bytes>) {
    forall i, j :: 0 <= i < j < |names| ==> Less(names[i], names[j])
  }

  ghost function Elements<T>(s: seq<T>): set<T> {
    set x | x in s
  }

  lemma NoElements<T>(s: seq<T>)
    ensures Elements(s) == {} <==> s == []
  {
    if s != [] {
      assert s[0] in Elements(s);
    }
  }

  lemma ElementsCons<T>(x: T, s: seq<T>)
    ensures Elements([x] + s) == {x} + Elements(s)
  {
    assert ([x] + s)[0] == x;
    forall y | y in s ensures y in [x] + s { }
  }

  /** An ascending sequence is determined by its elements. */
  lemma {:induction false} AscendingUnique(a: seq<Bytes>, b: seq<Bytes>)
    requires Ascending(a) && Ascending(b) && Elements(a) == Elements(b)
    ensures a == b
  {
    NoElements(a);
    NoElements(b);
    if a != [] {
      FirstIsLeast(a, b);
      FirstIsLeast(b, a);
      LessTotal(a[0], b[0]);
      TailElements(a);
      TailElements(b);
      AscendingUnique(a[1..], b[1..]);
      assert a == [a[0]] + a[1..] && b == [b[0]] + b[1..];
    }
  }

  lemma FirstIsLeast(a: seq<Bytes>, b: seq<Bytes>)
    requires a != [] && b != [] && Ascending(a) && Elements(a) == Elements(b)
    ensures a[0] == b[0] || Less(a[0], b[0])
  {
    assert b[0] in Elements(b);
    var i :| 0 <= i < |a| && a[i] == b[0];
  }

  lemma TailElements(a: seq<Bytes>)
    requires a != [] && Ascending(a)
    ensures Elements(a[1..]) == Elements(a) - {a[0]}
  {
    LessTotal(a[0], a[0]);
    forall x | x in Elements(a) - {a[0]} ensures x in Elements(a[1..]) {
      var i :| 0 <= i < |a| && a[i] == x;
      assert a[1..][i - 1] == x;
    }
    forall x | x in Elements(a[1..]) ensures x in a && x != a[0] {
      var i :| 0 <= i < |a| - 1 && a[1..][i] == x;
      assert a[i + 1] == x;
      LessTotal(a[0], x);
    }
  }

  lemma AscendingCons(least: Bytes, rest: seq<Bytes>)
    requires Ascending(rest)
    requires forall x :: x in Elements(rest) ==> Less(least, x)
    ensures Ascending([least] + rest)
  {
    var s := [least] + rest;
    forall i, j | 0 <= i < j < |s| ensures Less(s[i], s[j]) {
      assert s[j] == rest[j - 1];
      if i == 0 {
        assert rest[j - 1] in Elements(rest);
      } else {
        assert s[i] == rest[i - 1];
      }
    }
  }

  /** `sorted` on a set of names. */
  ghost function Sorted(names: set<Bytes>): (s: seq<Bytes>)
    ensures Ascending(s) && Elements(s) == names && |s| == |names|
    decreases |names|
  {
    if names == {} then []
    else
      var least := Least(names);
      var rest := Sorted(names - {least});
      AscendingCons(least, rest);
      ElementsCons(least, rest);
      [least] + rest
  }

  ghost function Least(names: set<Bytes>): (m: Bytes)
    requires names != {}
    ensures m in names && forall x :: x in names && x != m ==> Less(m, x)
    decreases |names|
  {
    var x :| x in names;
    if names == {x} then x
    else
      var m := Least(names - {x});
      LessTotal(x, m);
      if Less(x, m) then
        assert forall y :: y in names && y != x && y != m ==> Less(x, y) by {
          forall y | y in names && y != x && y != m ensures Less(x, y) {
            LessTransitive(x, m, y);
          }
        }
        x
      else
        m
  }
}
