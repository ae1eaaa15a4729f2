/**
 * Deciding whether a tracked page must be rebuilt, over a snapshot of the
 * filesystem: the first-match check used before rebuilding, and the full
 * scan used for reporting status.
 */
module Staleness {
  import opened Wrappers
  import opened Paths
  import opened Pages

  /** What a page's info file records about its last successful build. */
  datatype BuildRecord = BuildRecord(title: string, contentPath: Path, templatePath: Path, deps: seq<Path>)

  /**
   * What the check observes of the filesystem: which paths can be opened,
   * their modification times, the records held in info files, and where each
   * page's info file lives.
   */
  datatype Snapshot = Snapshot(
    files: set<Path>,
    mtime: map<Path, nat>,
    records: map<Path, BuildRecord>,
    infoPathOf: Path -> Path)

  /** The record read from an info file; one the snapshot does not hold reads as empty. */
  function ReadRecord(fs: Snapshot, info: Path): BuildRecord
  {
    if info in fs.records then fs.records[info] else BuildRecord("", "", "", [])
  }

  /** `a` was modified strictly after `b`; false when either has no known time. */
  predicate ModifiedAfter(fs: Snapshot, a: Path, b: Path): (r: bool)
    ensures r ==> a in fs.mtime && b in fs.mtime && a != b
  {
    a in fs.mtime && b in fs.mtime && fs.mtime[a] > fs.mtime[b]
  }

  /** A dependency that calls for a rebuild: gone, or newer than the info file. */
  predicate DepStale(fs: Snapshot, info: Path, dep: Path)
  {
    dep !in fs.files || ModifiedAfter(fs, dep, info)
  }

  datatype Reason =
    | ContentMissing
    | TemplateMissing
    | NeverBuilt
    | TitleChanged
    | ContentPathChanged
    | TemplatePathChanged
    | DepRemoved(dep: Path)
    | DepModified(dep: Path)

  /** A problem page is not rebuilt; a stale one is. */
  datatype Verdict = Problem(reason: Reason) | Stale(reason: Reason) | UpToDate

  /** Why a stale dependency is stale, with removal taking precedence. */
  function DepReason(fs: Snapshot, dep: Path): Reason
  {
    if dep !in fs.files then DepRemoved(dep) else DepModified(dep)
  }

  /** The reason given by the first stale dependency, in stored order. */
  function FirstStaleDep(fs: Snapshot, info: Path, deps: seq<Path>): (r: Option<Reason>)
    ensures r.Some? ==> (r.value.DepRemoved? || r.value.DepModified?) && r.value.dep in deps
    decreases |deps|
  {
    if deps == [] then None
    else if DepStale(fs, info, deps[0]) then Some(DepReason(fs, deps[0]))
    else FirstStaleDep(fs, info, deps[1..])
  }

  /** The first-match verdict on one page. */
  function Check(page: PageInfo, fs: Snapshot): (v: Verdict)
    ensures v.Problem? <==> page.contentPath !in fs.files || page.templatePath !in fs.files
    ensures v.Problem? ==> v.reason == ContentMissing || v.reason == TemplateMissing
    ensures v == Stale(NeverBuilt) <==> !v.Problem? && fs.infoPathOf(page.pagePath) !in fs.files
    ensures v.Stale? && (v.reason.DepRemoved? || v.reason.DepModified?) ==>
      v.reason.dep in ReadRecord(fs, fs.infoPathOf(page.pagePath)).deps
  {
    if page.contentPath !in fs.files then Problem(ContentMissing)
    else if page.templatePath !in fs.files then Problem(TemplateMissing)
    else
      var info := fs.infoPathOf(page.pagePath);
      if info !in fs.files then Stale(NeverBuilt)
      else
        var prev := ReadRecord(fs, info);
        if page.title != prev.title then Stale(TitleChanged)
        else if page.contentPath != prev.contentPath then Stale(ContentPathChanged)
        else if page.templatePath != prev.templatePath then Stale(TemplatePathChanged)
        else
          match FirstStaleDep(fs, info, prev.deps)
          case Some(r) => Stale(r)
          case None => UpToDate
  }

  /** The page's content or template file is missing. */
  ghost predicate IsProblem(page: PageInfo, fs: Snapshot)
  {
    page.contentPath !in fs.files || page.templatePath !in fs.files
  }

  /** Some dependency is stale. */
  ghost predicate AnyDepStale(fs: Snapshot, info: Path, deps: seq<Path>)
  {
    exists i :: 0 <= i < |deps| && DepStale(fs, info, deps[i])
  }

  /** The full-scan flag: every condition is tested and any one of them sets it. */
  ghost predicate NeedsUpdating(page: PageInfo, fs: Snapshot): (r: bool)
    ensures IsProblem(page, fs) ==> r
    ensures fs.infoPathOf(page.pagePath) !in fs.files ==> r
  {
    var info := fs.infoPathOf(page.pagePath);
    var prev := ReadRecord(fs, info);
    || IsProblem(page, fs)
    || info !in fs.files
    || (&& info in fs.files
        && (|| page.title != prev.title
            || page.contentPath != prev.contentPath
            || page.templatePath != prev.templatePath
            || AnyDepStale(fs, info, prev.deps)))
  }

  /** The dependencies the full scan reports as removed (only read when the info file exists). */
  ghost function RemovedDeps(page: PageInfo, fs: Snapshot): set<Path>
  {
    var info := fs.infoPathOf(page.pagePath);
    if info !in fs.files then {}
    else set d | d in ReadRecord(fs, info).deps && d !in fs.files
  }

  /** The dependencies the full scan reports as modified since the last build. */
  ghost function ModifiedDeps(page: PageInfo, fs: Snapshot): set<Path>
  {
    var info := fs.infoPathOf(page.pagePath);
    if info !in fs.files then {}
    else set d | d in ReadRecord(fs, info).deps && d in fs.files && ModifiedAfter(fs, d, info)
  }

  /**
   * The dependency scan reports the first stale dependency and no other:
   * nothing when none is stale, else the reason of `deps[i]` for the least
   * stale index `i`.
   */
  lemma {:induction false} FirstStaleDepIsFirst(fs: Snapshot, info: Path, deps: seq<Path>)
    ensures FirstStaleDep(fs, info, deps) == None <==> !AnyDepStale(fs, info, deps)
    ensures FirstStaleDep(fs, info, deps) != None ==>
      exists i :: 0 <= i < |deps| && DepStale(fs, info, deps[i])
        && (forall j :: 0 <= j < i ==> !DepStale(fs, info, deps[j]))
        && FirstStaleDep(fs, info, deps) == Some(DepReason(fs, deps[i]))
    decreases |deps|
  {
    if deps != [] {
      FirstStaleDepIsFirst(fs, info, deps[1..]);
      if !DepStale(fs, info, deps[0]) {
        if AnyDepStale(fs, info, deps) {
          var i :| 0 <= i < |deps| && DepStale(fs, info, deps[i]);
          assert deps[1..][i - 1] == deps[i];
        }
        if AnyDepStale(fs, info, deps[1..]) {
          var i :| 0 <= i < |deps[1..]| && DepStale(fs, info, deps[1..][i]);
          assert deps[i + 1] == deps[1..][i];
        }
        if FirstStaleDep(fs, info, deps) != None {
          var i :| 0 <= i < |deps[1..]| && DepStale(fs, info, deps[1..][i])
            && (forall j :: 0 <= j < i ==> !DepStale(fs, info, deps[1..][j]))
            && FirstStaleDep(fs, info, deps[1..]) == Some(DepReason(fs, deps[1..][i]));
          forall j | 0 <= j < i + 1 ensures !DepStale(fs, info, deps[j]) {
            if j > 0 { assert deps[j] == deps[1..][j - 1]; }
          }
          assert deps[i + 1] == deps[1..][i];
        }
      }
    }
  }

  /**
   * The first-match check and the full scan agree: a page is a problem page
   * exactly when its content or template is missing, and it is stale exactly
   * when the full scan flags it and it is not a problem page.
   */
  lemma CheckAgreesWithFullScan(page: PageInfo, fs: Snapshot)
    ensures Check(page, fs).Problem? <==> IsProblem(page, fs)
    ensures Check(page, fs).Stale? <==> NeedsUpdating(page, fs) && !IsProblem(page, fs)
  {
    var info := fs.infoPathOf(page.pagePath);
    FirstStaleDepIsFirst(fs, info, ReadRecord(fs, info).deps);
  }

  /** The first-match check as a sequence of tests with an early exit, and a dependency loop that stops at the first stale one. */
  method CheckPage(page: PageInfo, fs: Snapshot) returns (v: Verdict)
    ensures v == Check(page, fs)
  {
    if page.contentPath !in fs.files {
      return Problem(ContentMissing);
    }
    if page.templatePath !in fs.files {
      return Problem(TemplateMissing);
    }
    var info := fs.infoPathOf(page.pagePath);
    if info !in fs.files {
      return Stale(NeverBuilt);
    }
    var prev := ReadRecord(fs, info);
    if page.title != prev.title {
      return Stale(TitleChanged);
    }
    if page.contentPath != prev.contentPath {
      return Stale(ContentPathChanged);
    }
    if page.templatePath != prev.templatePath {
      return Stale(TemplatePathChanged);
    }
    v := UpToDate;
    var i := 0;
    while i < |prev.deps|
      invariant 0 <= i <= |prev.deps|
      invariant FirstStaleDep(fs, info, prev.deps) == FirstStaleDep(fs, info, prev.deps[i..])
      invariant v == UpToDate
    {
      var dep := prev.deps[i];
      assert prev.deps[i..][0] == dep && prev.deps[i..][1..] == prev.deps[i + 1..];
      if dep !in fs.files {
        v := Stale(DepRemoved(dep));
        break;
      } else if ModifiedAfter(fs, dep, info) {
        v := Stale(DepModified(dep));
        break;
      }
      i := i + 1;
    }
  }

  /**
   * The full scan of one page: every test runs, every dependency is visited,
   * and each stale dependency is collected as removed or modified.
   */
  method ScanPage(page: PageInfo, fs: Snapshot) returns (needsUpdating: bool, problem: bool, removed: set<Path>, modified: set<Path>)
    ensures needsUpdating == NeedsUpdating(page, fs)
    ensures problem == IsProblem(page, fs)
    ensures removed == RemovedDeps(page, fs)
    ensures modified == ModifiedDeps(page, fs)
  {
    needsUpdating, problem := false, false;
    removed, modified := {}, {};
    if page.contentPath !in fs.files {
      needsUpdating, problem := true, true;
    }
    if page.templatePath !in fs.files {
      needsUpdating, problem := true, true;
    }
    var info := fs.infoPathOf(page.pagePath);
    if info !in fs.files {
      needsUpdating := true;
    } else {
      var prev := ReadRecord(fs, info);
      if page.title != prev.title {
        needsUpdating := true;
      }
      if page.contentPath != prev.contentPath {
        needsUpdating := true;
      }
      if page.templatePath != prev.templatePath {
        needsUpdating := true;
      }
      ghost var before := needsUpdating;
      var i := 0;
      while i < |prev.deps|
        invariant 0 <= i <= |prev.deps|
        invariant needsUpdating == (before || exists j :: 0 <= j < i && DepStale(fs, info, prev.deps[j]))
        invariant removed == set d | d in prev.deps[..i] && d !in fs.files
        invariant modified == set d | d in prev.deps[..i] && d in fs.files && ModifiedAfter(fs, d, info)
      {
        var dep := prev.deps[i];
        assert prev.deps[..i + 1] == prev.deps[..i] + [dep];
        if dep !in fs.files {
          removed := removed + {dep};
          needsUpdating := true;
        } else if ModifiedAfter(fs, dep, info) {
          modified := modified + {dep};
          needsUpdating := true;
        }
        i := i + 1;
      }
      assert prev.deps[..i] == prev.deps;
    }
  }

  /** Observing path `x` gives the same answers in both snapshots. */
  ghost predicate SameAt(fs: Snapshot, fs': Snapshot, x: Path)
  {
    && (x in fs.files <==> x in fs'.files)
    && (x in fs.mtime <==> x in fs'.mtime)
    && (x in fs.mtime && x in fs'.mtime ==> fs.mtime[x] == fs'.mtime[x])
    && (x in fs.records <==> x in fs'.records)
    && (x in fs.records && x in fs'.records ==> fs.records[x] == fs'.records[x])
  }

  /** Every path the check of `page` may consult. */
  ghost function Inputs(page: PageInfo, fs: Snapshot): set<Path>
  {
    var info := fs.infoPathOf(page.pagePath);
    {page.contentPath, page.templatePath, info} + Elems(ReadRecord(fs, info).deps)
  }

  lemma {:induction false} FirstStaleDepFrame(fs: Snapshot, fs': Snapshot, info: Path, deps: seq<Path>)
    requires SameAt(fs, fs', info)
    requires forall i :: 0 <= i < |deps| ==> SameAt(fs, fs', deps[i])
    ensures FirstStaleDep(fs, info, deps) == FirstStaleDep(fs', info, deps)
    ensures AnyDepStale(fs, info, deps) == AnyDepStale(fs', info, deps)
    decreases |deps|
  {
    if deps != [] {
      assert SameAt(fs, fs', deps[0]);
      FirstStaleDepFrame(fs, fs', info, deps[1..]);
      FirstStaleDepIsFirst(fs, info, deps);
      FirstStaleDepIsFirst(fs', info, deps);
    }
  }

  /**
   * The verdict on a page depends only on the files it names, its info file
   * and its recorded dependencies: a snapshot that agrees on those, and
   * places the info file in the same spot, yields the same verdict and the
   * same full-scan flag.
   */
  lemma CheckDependsOnlyOnInputs(page: PageInfo, fs: Snapshot, fs': Snapshot)
    requires fs.infoPathOf(page.pagePath) == fs'.infoPathOf(page.pagePath)
    requires forall x :: x in Inputs(page, fs) ==> SameAt(fs, fs', x)
    ensures Check(page, fs) == Check(page, fs')
    ensures NeedsUpdating(page, fs) == NeedsUpdating(page, fs')
  {
    var info := fs.infoPathOf(page.pagePath);
    var deps := ReadRecord(fs, info).deps;
    assert SameAt(fs, fs', info) && SameAt(fs, fs', page.contentPath) && SameAt(fs, fs', page.templatePath);
    assert ReadRecord(fs, info) == ReadRecord(fs', info);
    forall i | 0 <= i < |deps| ensures SameAt(fs, fs', deps[i]) {
      assert deps[i] in Elems(deps);
    }
    FirstStaleDepFrame(fs, fs', info, deps);
  }

  /** The snapshot after a page's info file has been deleted. */
  function RemoveInfo(fs: Snapshot, pagePath: Path): (fs': Snapshot)
    ensures fs.infoPathOf(pagePath) !in fs'.files
  {
    var info := fs.infoPathOf(pagePath);
    fs.(files := fs.files - {info}, mtime := fs.mtime - {info}, records := fs.records - {info})
  }

  /**
   * Deleting the info file of one page leaves the verdict on any other page
   * alone, provided the deleted file is none of that page's inputs (which
   * include its own info file).
   */
  lemma RemoveInfoLeavesOthersAlone(fs: Snapshot, pagePath: Path, page: PageInfo)
    requires fs.infoPathOf(pagePath) !in Inputs(page, fs)
    ensures Check(page, RemoveInfo(fs, pagePath)) == Check(page, fs)
  {
    var fs' := RemoveInfo(fs, pagePath);
    forall x | x in Inputs(page, fs) ensures SameAt(fs, fs', x) {
    }
    CheckDependsOnlyOnInputs(page, fs, fs');
  }

  /** With its info file deleted, a page is a problem page or waits to be built. */
  lemma RemoveInfoMeansNeverBuilt(fs: Snapshot, page: PageInfo)
    ensures Check(page, RemoveInfo(fs, page.pagePath)).Problem?
         || Check(page, RemoveInfo(fs, page.pagePath)) == Stale(NeverBuilt)
  {
  }

  /** The pages the first-match check sends to the builder. */
  ghost function RebuildSet(pages: map<Path, PageInfo>, fs: Snapshot): set<Path>
  {
    set k | k in pages && Check(pages[k], fs).Stale?
  }

  /** The pages whose content or template file is missing. */
  ghost function ProblemSet(pages: map<Path, PageInfo>, fs: Snapshot): set<Path>
  {
    set k | k in pages && IsProblem(pages[k], fs)
  }

  /** The pages the full scan reports as needing a build. */
  ghost function StatusSet(pages: map<Path, PageInfo>, fs: Snapshot): set<Path>
  {
    set k | k in pages && NeedsUpdating(pages[k], fs) && !IsProblem(pages[k], fs)
  }

  /**
   * Over one snapshot, the status report and the rebuild agree: the pages
   * status lists as needing a build are exactly those the rebuild builds,
   * and none of them is a problem page.
   */
  lemma StatusMatchesRebuild(pages: map<Path, PageInfo>, fs: Snapshot)
    ensures StatusSet(pages, fs) == RebuildSet(pages, fs)
    ensures ProblemSet(pages, fs) == set k | k in pages && Check(pages[k], fs).Problem?
    ensures RebuildSet(pages, fs) !! ProblemSet(pages, fs)
  {
    forall k | k in pages
      ensures (Check(pages[k], fs).Stale? <==> NeedsUpdating(pages[k], fs) && !IsProblem(pages[k], fs))
      ensures (Check(pages[k], fs).Problem? <==> IsProblem(pages[k], fs))
    {
      CheckAgreesWithFullScan(pages[k], fs);
    }
  }
}
