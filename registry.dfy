/**
 * The page registry as a value: a map from page path to page record, the
 * invariants every registry keeps, how the store's records are loaded into
 * it, and the order in which it is written back.
 */
module Registry {
  import opened Wrappers
  import opened Paths
  import opened Pages

  /** The tracked pages, keyed by page path. */
  type PageMap = map<Path, PageInfo>

  /** Why loading the store, or tracking a page, was refused. */
  datatype RegistryError =
    | StoreMissing
    | SelfReferential(page: PageInfo)
    | DuplicateEntry(existing: PageInfo, incoming: PageInfo)

  /**
   * Every entry sits under its own page path (so page paths are unique), and
   * no page uses one file as both content and template.
   */
  ghost predicate Invariant(m: PageMap)
  {
    forall k :: k in m ==> m[k].pagePath == k && m[k].contentPath != m[k].templatePath
  }

  /** The records in a sequence are acceptable together: none self-referential, no page path twice. */
  ghost predicate Clean(recs: seq<PageInfo>)
  {
    && (forall i :: 0 <= i < |recs| ==> recs[i].contentPath != recs[i].templatePath)
    && (forall i, j :: 0 <= i < j < |recs| ==> recs[i].pagePath != recs[j].pagePath)
  }

  /** Clean, and also not clashing with anything already loaded. */
  ghost predicate CleanOnto(acc: PageMap, recs: seq<PageInfo>)
  {
    Clean(recs) && forall i :: 0 <= i < |recs| ==> recs[i].pagePath !in acc
  }

  /** Inserting a page under a new path adds its record and keeps the invariant. */
  lemma InsertAddsRecord(m: PageMap, page: PageInfo)
    requires Invariant(m) && page.pagePath !in m && page.contentPath != page.templatePath
    ensures Invariant(m[page.pagePath := page])
    ensures m[page.pagePath := page].Values == m.Values + {page}
  {
    var m' := m[page.pagePath := page];
    forall q ensures q in m'.Values <==> q in m.Values + {page} {
      if q in m.Values {
        var k :| k in m && m[k] == q;
        assert m'[k] == q;
      }
      if q in m'.Values && q != page {
        var k :| k in m' && m'[k] == q;
        assert k != page.pagePath && m[k] == q;
      }
      if q == page {
        assert m'[page.pagePath] == q;
      }
    }
  }

  /** Where a load stops: the registry built so far and the error, if any. */
  datatype LoadState = LoadState(pages: PageMap, err: Option<RegistryError>)

  /**
   * Inserting records one at a time into `acc`, stopping at the first one
   * that is self-referential or whose page path is already present.
   */
  function Load(acc: PageMap, recs: seq<PageInfo>): (r: LoadState)
    ensures forall k :: k in acc ==> k in r.pages && r.pages[k] == acc[k]
    ensures r.err == None || r.err.value.SelfReferential? || r.err.value.DuplicateEntry?
    decreases |recs|
  {
    if recs == [] then LoadState(acc, None)
    else
      var r := recs[0];
      if r.contentPath == r.templatePath then LoadState(acc, Some(SelfReferential(r)))
      else if r.pagePath in acc then LoadState(acc, Some(DuplicateEntry(acc[r.pagePath], r)))
      else Load(acc[r.pagePath := r], recs[1..])
  }

  /** Whatever a load stops at, what it has inserted keeps the invariant. */
  lemma {:induction false} LoadKeepsInvariant(acc: PageMap, recs: seq<PageInfo>)
    requires Invariant(acc)
    ensures Invariant(Load(acc, recs).pages)
    decreases |recs|
  {
    if recs != [] {
      var r := recs[0];
      if r.contentPath != r.templatePath && r.pagePath !in acc {
        LoadKeepsInvariant(acc[r.pagePath := r], recs[1..]);
      }
    }
  }

  /** The page paths of a sequence of records. */
  ghost function PagePaths(recs: seq<PageInfo>): set<Path>
    decreases |recs|
  {
    if recs == [] then {} else {recs[0].pagePath} + PagePaths(recs[1..])
  }

  lemma {:induction false} PagePathsAt(recs: seq<PageInfo>, x: Path)
    ensures x in PagePaths(recs) <==> exists i :: 0 <= i < |recs| && recs[i].pagePath == x
    decreases |recs|
  {
    if recs != [] {
      PagePathsAt(recs[1..], x);
      if x in PagePaths(recs[1..]) {
        var i :| 0 <= i < |recs[1..]| && recs[1..][i].pagePath == x;
        assert recs[i + 1].pagePath == x;
      }
      if exists i :: 0 <= i < |recs| && recs[i].pagePath == x {
        var i :| 0 <= i < |recs| && recs[i].pagePath == x;
        if i > 0 { assert recs[1..][i - 1].pagePath == x; }
      }
    }
  }

  /** A clean load succeeds and holds exactly the old entries plus every record, under its page path. */
  lemma {:induction false} LoadClean(acc: PageMap, recs: seq<PageInfo>)
    requires CleanOnto(acc, recs)
    ensures Load(acc, recs).err == None
    ensures Load(acc, recs).pages.Keys == acc.Keys + PagePaths(recs)
    ensures forall k :: k in acc ==> Load(acc, recs).pages[k] == acc[k]
    ensures forall i :: 0 <= i < |recs| ==>
      recs[i].pagePath in Load(acc, recs).pages && Load(acc, recs).pages[recs[i].pagePath] == recs[i]
    decreases |recs|
  {
    if recs != [] {
      var r := recs[0];
      var acc' := acc[r.pagePath := r];
      assert CleanOnto(acc', recs[1..]) by {
        forall i | 0 <= i < |recs[1..]| ensures recs[1..][i].pagePath !in acc' {
          assert recs[1..][i] == recs[i + 1];
        }
      }
      LoadClean(acc', recs[1..]);
      var res := Load(acc', recs[1..]);
      assert Load(acc, recs) == res;
      forall i | 0 <= i < |recs| ensures recs[i].pagePath in res.pages && res.pages[recs[i].pagePath] == recs[i] {
        if i > 0 { assert recs[1..][i - 1] == recs[i]; }
      }
    }
  }

  /** A load that meets a bad record or clash fails. */
  lemma {:induction false} LoadDirty(acc: PageMap, recs: seq<PageInfo>)
    requires !CleanOnto(acc, recs)
    ensures Load(acc, recs).err != None
    decreases |recs|
  {
    var r := recs[0];
    if r.contentPath != r.templatePath && r.pagePath !in acc {
      var acc' := acc[r.pagePath := r];
      if CleanOnto(acc', recs[1..]) {
        assert CleanOnto(acc, recs) by {
          forall i, j | 0 <= i < j < |recs| ensures recs[i].pagePath != recs[j].pagePath {
            assert recs[j] == recs[1..][j - 1];
            if i > 0 { assert recs[i] == recs[1..][i - 1]; }
          }
          forall i | 0 <= i < |recs| ensures recs[i].contentPath != recs[i].templatePath && recs[i].pagePath !in acc {
            if i > 0 { assert recs[i] == recs[1..][i - 1]; }
          }
        }
      }
      LoadDirty(acc', recs[1..]);
    }
  }

  /** Loading into an empty registry succeeds exactly when the records are clean. */
  lemma LoadSucceedsIffClean(recs: seq<PageInfo>)
    ensures Load(map[], recs).err == None <==> Clean(recs)
    ensures Clean(recs) ==>
      && Load(map[], recs).pages.Keys == PagePaths(recs)
      && forall i :: 0 <= i < |recs| ==>
        recs[i].pagePath in Load(map[], recs).pages && Load(map[], recs).pages[recs[i].pagePath] == recs[i]
  {
    if Clean(recs) {
      LoadClean(map[], recs);
    } else {
      LoadDirty(map[], recs);
    }
  }

  /** A load that gets through `a` continues with `b` from where it stood. */
  lemma {:induction false} LoadSplit(acc: PageMap, a: seq<PageInfo>, b: seq<PageInfo>)
    requires Load(acc, a).err == None
    ensures Load(acc, a + b) == Load(Load(acc, a).pages, b)
    decreases |a|
  {
    if a == [] {
      assert a + b == b;
    } else {
      assert (a + b)[0] == a[0] && (a + b)[1..] == a[1..] + b;
      var r := a[0];
      LoadSplit(acc[r.pagePath := r], a[1..], b);
    }
  }

  /**
   * A load stops at the first offending record `recs[i]`: the registry then
   * holds exactly the records before it, and the error names the record, or
   * the earlier record with the same page path together with it.
   */
  lemma LoadStopsAtFirstViolation(recs: seq<PageInfo>, i: nat)
    requires i < |recs| && Clean(recs[..i]) && !Clean(recs[..i + 1])
    ensures Load(map[], recs).pages == Load(map[], recs[..i]).pages
    ensures recs[i].contentPath == recs[i].templatePath ==>
      Load(map[], recs).err == Some(SelfReferential(recs[i]))
    ensures recs[i].contentPath != recs[i].templatePath ==>
      exists j :: 0 <= j < i && recs[j].pagePath == recs[i].pagePath &&
        Load(map[], recs).err == Some(DuplicateEntry(recs[j], recs[i]))
  {
    var pre := recs[..i];
    LoadClean(map[], pre);
    var p := Load(map[], pre).pages;
    assert recs == pre + recs[i..];
    LoadSplit(map[], pre, recs[i..]);
    assert Load(map[], recs) == Load(p, recs[i..]);
    var r := recs[i];
    assert recs[i..][0] == r;
    if r.contentPath != r.templatePath {
      var j := FirstClash(recs, i);
      assert pre[j] == recs[j];
      assert p[r.pagePath] == recs[j];
      assert Load(p, recs[i..]).err == Some(DuplicateEntry(recs[j], r));
    }
  }

  /** An earlier record with the same page path as `recs[i]`, when `recs[i]` is what spoils the prefix. */
  lemma FirstClash(recs: seq<PageInfo>, i: nat) returns (j: nat)
    requires i < |recs| && Clean(recs[..i]) && !Clean(recs[..i + 1])
    requires recs[i].contentPath != recs[i].templatePath
    ensures j < i && recs[j].pagePath == recs[i].pagePath
  {
    var q := recs[..i + 1];
    assert forall a :: 0 <= a < i ==> recs[..i][a] == q[a] == recs[a];
    assert q[i] == recs[i];
    assert forall a :: 0 <= a < |q| ==> q[a].contentPath != q[a].templatePath;
    var a, b :| 0 <= a < b < |q| && q[a].pagePath == q[b].pagePath;
    assert b == i;
    j := a;
  }

  /** The entries of a registry, in increasing page-path order. */
  ghost function Listing(m: PageMap): (ps: seq<PageInfo>)
  {
    var ks := SortedPaths(m.Keys);
    assert forall i :: 0 <= i < |ks| ==> ks[i] in m by {
      SortedPathsCorrect(m.Keys);
      assert forall i :: 0 <= i < |ks| ==> ks[i] in Elems(ks);
    }
    seq(|ks|, i requires 0 <= i < |ks| => m[ks[i]])
  }

  /** The listing looks up the sorted page paths one by one, and has one entry per page. */
  lemma ListingShape(m: PageMap)
    ensures |Listing(m)| == |SortedPaths(m.Keys)| == |m|
    ensures forall i :: 0 <= i < |Listing(m)| ==> SortedPaths(m.Keys)[i] in m && Listing(m)[i] == m[SortedPaths(m.Keys)[i]]
  {
    var ks := SortedPaths(m.Keys);
    SortedPathsCorrect(m.Keys);
    DistinctLength(ks, m.Keys);
    assert |m| == |m.Keys|;
    assert forall i :: 0 <= i < |ks| ==> ks[i] in Elems(ks);
  }

  /** The listing holds every entry once, in page-path order, each under its own path. */
  lemma ListingCorrect(m: PageMap)
    requires Invariant(m)
    ensures Clean(Listing(m))
    ensures PagePaths(Listing(m)) == m.Keys
    ensures forall i :: 0 <= i < |Listing(m)| ==> Listing(m)[i].pagePath in m && m[Listing(m)[i].pagePath] == Listing(m)[i]
    ensures forall i, j :: 0 <= i < j < |Listing(m)| ==> PathLess(Listing(m)[i].pagePath, Listing(m)[j].pagePath)
  {
    var ks := SortedPaths(m.Keys);
    SortedPathsCorrect(m.Keys);
    ListingShape(m);
    var ps := Listing(m);
    assert forall i :: 0 <= i < |ps| ==> ps[i].pagePath == ks[i];
    forall i, j | 0 <= i < j < |ps| ensures ps[i].pagePath != ps[j].pagePath {
      PathLessIrreflexive(ks[i]);
    }
    forall x ensures x in PagePaths(ps) <==> x in m {
      PagePathsAt(ps, x);
      if x in m {
        assert x in Elems(ks);
        var i :| 0 <= i < |ks| && ks[i] == x;
        assert ps[i].pagePath == x;
      }
    }
  }

  /** Writing a registry out and loading it back gives the same registry, with no error. */
  lemma SaveThenLoad(m: PageMap)
    requires Invariant(m)
    requires forall k :: k in m ==> Writable(m[k])
    ensures Load(map[], Parse(Serialize(Listing(m)))) == LoadState(m, None)
  {
    var ps := Listing(m);
    ListingCorrect(m);
    ParseSerialize(ps);
    LoadClean(map[], ps);
    var loaded := Load(map[], ps).pages;
    assert loaded.Keys == m.Keys;
    forall k | k in m ensures loaded[k] == m[k] {
      PagePathsAt(ps, k);
      var i :| 0 <= i < |ps| && ps[i].pagePath == k;
    }
  }
}
