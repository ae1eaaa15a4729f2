/**
 * Paths as strings, ordered the way the registry's ordered set orders its
 * entries: lexicographically on the path text.
 */
module Paths {

  /** A filesystem path; identity and ordering are those of its text. */
  type Path = string

  /** The elements of a sequence, as a set. */
  ghost function Elems(s: seq<Path>): set<Path>
  {
    set x | x in s
  }

  /** Lexicographic order on path strings (a proper prefix comes first). */
  predicate PathLess(a: Path, b: Path)
    decreases |a|
  {
    if a == [] then b != []
    else if b == [] then false
    else if a[0] != b[0] then a[0] < b[0]
    else PathLess(a[1..], b[1..])
  }

  lemma {:induction false} PathLessIrreflexive(a: Path)
    ensures !PathLess(a, a)
    decreases |a|
  {
    if a != [] {
      PathLessIrreflexive(a[1..]);
    }
  }

  lemma {:induction false} PathLessTransitive(a: Path, b: Path, c: Path)
    requires PathLess(a, b) && PathLess(b, c)
    ensures PathLess(a, c)
    decreases |a|
  {
    if a != [] && a[0] == b[0] && b[0] == c[0] {
      PathLessTransitive(a[1..], b[1..], c[1..]);
    }
  }

  lemma {:induction false} PathLessTotal(a: Path, b: Path)
    requires a != b
    ensures PathLess(a, b) || PathLess(b, a)
    decreases |a|
  {
    if a != [] && b != [] && a[0] == b[0] {
      assert a == [a[0]] + a[1..] && b == [b[0]] + b[1..];
      PathLessTotal(a[1..], b[1..]);
    }
  }

  lemma PathLessAsymmetric(a: Path, b: Path)
    requires PathLess(a, b)
    ensures !PathLess(b, a)
  {
    if PathLess(b, a) {
      PathLessTransitive(a, b, a);
      PathLessIrreflexive(a);
    }
  }

  /** Strictly increasing under PathLess, hence free of repeats. */
  ghost predicate StrictlySorted(s: seq<Path>)
  {
    forall i, j :: 0 <= i < j < |s| ==> PathLess(s[i], s[j])
  }

  /** Inserts `k` at its place in a strictly sorted sequence. */
  ghost function InsertSorted(k: Path, s: seq<Path>): seq<Path>
  {
    if s == [] then [k]
    else if PathLess(k, s[0]) then [k] + s
    else [s[0]] + InsertSorted(k, s[1..])
  }

  lemma {:induction false} InsertSortedCorrect(k: Path, s: seq<Path>)
    requires StrictlySorted(s) && k !in s
    ensures StrictlySorted(InsertSorted(k, s))
    ensures Elems(InsertSorted(k, s)) == Elems(s) + {k}
  {
    if s == [] {
    } else if PathLess(k, s[0]) {
      var r := [k] + s;
      forall i, j | 0 <= i < j < |r| ensures PathLess(r[i], r[j]) {
        if i == 0 && j > 1 {
          PathLessTransitive(k, s[0], s[j - 1]);
        }
      }
      assert Elems(r) == Elems(s) + {k};
    } else {
      PathLessTotal(k, s[0]);
      InsertSortedCorrect(k, s[1..]);
      var t := InsertSorted(k, s[1..]);
      var r := [s[0]] + t;
      assert s == [s[0]] + s[1..];
      assert Elems(s) == {s[0]} + Elems(s[1..]);
      forall i, j | 0 <= i < j < |r| ensures PathLess(r[i], r[j]) {
        if i == 0 {
          assert r[j] in Elems(t);
          if r[j] != k {
            assert r[j] in Elems(s[1..]);
            var m :| 0 <= m < |s[1..]| && s[1..][m] == r[j];
            assert s[m + 1] == r[j];
          }
        }
      }
      assert Elems(r) == {s[0]} + Elems(t);
    }
  }

  /** The paths of a finite set, in increasing order. */
  ghost function SortedPaths(s: set<Path>): seq<Path>
    decreases s
  {
    if s == {} then []
    else
      var k := Pick(s);
      InsertSorted(k, SortedPaths(s - {k}))
  }

  /** Some element of a non-empty set. */
  ghost function Pick(s: set<Path>): (k: Path)
    requires s != {}
    ensures k in s
  {
    var k :| k in s; k
  }

  lemma {:induction false} SortedPathsCorrect(s: set<Path>)
    ensures StrictlySorted(SortedPaths(s)) && Elems(SortedPaths(s)) == s
    decreases s
  {
    if s != {} {
      var k := Pick(s);
      assert SortedPaths(s) == InsertSorted(k, SortedPaths(s - {k}));
      SortedPathsCorrect(s - {k});
      assert k !in Elems(SortedPaths(s - {k}));
      InsertSortedCorrect(k, SortedPaths(s - {k}));
    }
  }

  /** A set has exactly one strictly sorted enumeration. */
  lemma {:induction false} SortedUnique(a: seq<Path>, b: seq<Path>)
    requires StrictlySorted(a) && StrictlySorted(b) && Elems(a) == Elems(b)
    ensures a == b
    decreases |a|
  {
    if a == [] {
      assert forall i :: 0 <= i < |b| ==> b[i] in Elems(b);
    } else {
      assert a[0] in Elems(a);
      assert b != [];
      assert b[0] in Elems(b);
      if a[0] != b[0] {
        var i :| 0 <= i < |a| && a[i] == b[0];
        var j :| 0 <= j < |b| && b[j] == a[0];
        assert PathLess(a[0], b[0]);
        assert PathLess(b[0], a[0]);
        PathLessAsymmetric(a[0], b[0]);
      }
      assert a == [a[0]] + a[1..] && b == [b[0]] + b[1..];
      forall x ensures x in Elems(a[1..]) <==> x in Elems(b[1..]) {
        if x in Elems(a[1..]) {
          var i :| 0 <= i < |a[1..]| && a[1..][i] == x;
          assert PathLess(a[0], a[i + 1]);
          PathLessIrreflexive(x);
          assert x in Elems(b);
        }
        if x in Elems(b[1..]) {
          var i :| 0 <= i < |b[1..]| && b[1..][i] == x;
          assert PathLess(b[0], b[i + 1]);
          PathLessIrreflexive(x);
          assert x in Elems(a);
        }
      }
      SortedUnique(a[1..], b[1..]);
    }
  }

  /** A strictly sorted enumeration of a set is as long as the set is large. */
  lemma {:induction false} DistinctLength(ks: seq<Path>, s: set<Path>)
    requires StrictlySorted(ks) && Elems(ks) == s
    ensures |ks| == |s|
    decreases |ks|
  {
    if ks != [] {
      assert ks == [ks[0]] + ks[1..];
      PathLessIrreflexive(ks[0]);
      assert ks[0] !in ks[1..] by {
        forall i | 0 <= i < |ks[1..]| ensures ks[1..][i] != ks[0] {
          assert PathLess(ks[0], ks[i + 1]);
        }
      }
      assert Elems(ks[1..]) == s - {ks[0]};
      DistinctLength(ks[1..], s - {ks[0]});
    } else {
      assert s != {} ==> exists x :: x in s;
    }
  }

  /** The least path of a non-empty set, found by one pass over it. */
  method LeastPath(s: set<Path>) returns (k: Path)
    requires s != {}
    ensures k in s
    ensures forall j :: j in s && j != k ==> PathLess(k, j)
  {
    k :| k in s;
    var rest := s - {k};
    while rest != {}
      invariant k in s && rest <= s && k !in rest
      invariant forall j :: j in s - rest && j != k ==> PathLess(k, j)
      decreases rest
    {
      var x :| x in rest;
      if PathLess(x, k) {
        forall j | j in s - rest && j != x ensures PathLess(x, j) {
          if j != k {
            PathLessTransitive(x, k, j);
          }
        }
        k := x;
      } else {
        PathLessTotal(x, k);
      }
      rest := rest - {x};
    }
  }

  /** The paths of a set in increasing order, found by repeatedly taking the least one left. */
  method SortedKeys(s: set<Path>) returns (ks: seq<Path>)
    ensures ks == SortedPaths(s)
  {
    ks := [];
    var rest := s;
    while rest != {}
      invariant rest <= s
      invariant Elems(ks) == s - rest
      invariant StrictlySorted(ks)
      invariant forall i, x :: 0 <= i < |ks| && x in rest ==> PathLess(ks[i], x)
      decreases rest
    {
      var k := LeastPath(rest);
      assert Elems(ks + [k]) == Elems(ks) + {k};
      ks := ks + [k];
      rest := rest - {k};
    }
    SortedPathsCorrect(s);
    SortedUnique(ks, SortedPaths(s));
  }
}
