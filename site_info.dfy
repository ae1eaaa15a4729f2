/**
 * The site's page registry object: it holds the tracked pages, loads and
 * saves them, tracks and untracks pages, and runs the build routines over
 * them with the builder as an oracle.
 */
module Site {
  import opened Wrappers
  import opened Paths
  import opened Pages
  import opened Registry
  import opened Staleness

  /** A non-fatal notice from tracking a page whose files do not exist yet. */
  datatype Warning = MissingContent(path: Path) | MissingTemplate(path: Path)

  /** The notices tracking `page` gives over the files in `fs`. */
  function TrackWarnings(page: PageInfo, fs: Snapshot): (ws: set<Warning>)
    ensures MissingContent(page.contentPath) in ws <==> page.contentPath !in fs.files
    ensures MissingTemplate(page.templatePath) in ws <==> page.templatePath !in fs.files
    ensures ws <= {MissingContent(page.contentPath), MissingTemplate(page.templatePath)}
    ensures |ws| <= 2
  {
    (if page.contentPath !in fs.files then {MissingContent(page.contentPath)} else {})
    + (if page.templatePath !in fs.files then {MissingTemplate(page.templatePath)} else {})
  }

  class SiteInfo {
    /** The tracked pages, keyed by page path. */
    var pages: PageMap

    ghost predicate Valid()
      reads this
    {
      Invariant(pages)
    }

    /** The tracked records, as a set of records ordered by page path holds them. */
    ghost function Records(): set<PageInfo>
      reads this
    {
      pages.Values
    }

    constructor ()
      ensures Valid() && pages == map[]
    {
      pages := map[];
    }

    /**
     * Loads the registry from the store's lines (None: the store file does
     * not exist). The registry is cleared first; records are inserted until
     * the first self-referential or duplicate one, which fails the load.
     */
    method Open(store: Option<seq<string>>) returns (err: Option<RegistryError>)
      modifies this
      ensures Valid()
      ensures store.None? ==> pages == map[] && err == Some(StoreMissing)
      ensures store.Some? ==> LoadState(pages, err) == Load(map[], Parse(store.value))
    {
      pages := map[];
      if store.None? {
        return Some(StoreMissing);
      }
      var recs := Parse(store.value);
      var i := 0;
      while i < |recs|
        invariant 0 <= i <= |recs|
        invariant Load(map[], recs) == Load(pages, recs[i..])
        invariant Invariant(pages)
      {
        var inPage := recs[i];
        assert recs[i..][0] == inPage && recs[i..][1..] == recs[i + 1..];
        if inPage.contentPath == inPage.templatePath {
          return Some(SelfReferential(inPage));
        }
        if inPage.pagePath in pages {
          return Some(DuplicateEntry(pages[inPage.pagePath], inPage));
        }
        pages := pages[inPage.pagePath := inPage];
        i := i + 1;
      }
      return None;
    }

    /** The store's lines for the registry: five per page, in page-path order. */
    method Save() returns (store: seq<string>)
      requires Valid()
      ensures store == Serialize(Listing(pages))
      ensures |store| == 5 * |pages|
    {
      store := [];
      var keys := SortedKeys(pages.Keys);
      ghost var listing := Listing(pages);
      ListingShape(pages);
      for i := 0 to |keys|
        invariant store == Serialize(listing[..i])
      {
        var page := pages[keys[i]];
        assert listing[..i + 1] == listing[..i] + [page];
        SerializeAppend(listing[..i], page);
        store := store + Block(page);
      }
      assert listing[..|keys|] == listing;
    }

    /** Whether a page with the same page path as `page` is tracked. */
    function TrackingPage(page: PageInfo): (r: bool)
      reads this
      requires Valid()
      ensures r <==> exists q :: q in Records() && q.pagePath == page.pagePath
    {
      Tracking(page.pagePath)
    }

    /** Whether a page with this page path is tracked. */
    function Tracking(pagePath: Path): (r: bool)
      reads this
      requires Valid()
      ensures r <==> exists q :: q in Records() && q.pagePath == pagePath
    {
      assert pagePath in pages ==> pages[pagePath] in Records();
      pagePath in pages
    }

    /** The tracked record with this page path; callers check Tracking first. */
    function GetTracked(pagePath: Path): (r: PageInfo)
      reads this
      requires Valid() && Tracking(pagePath)
      ensures r in Records() && r.pagePath == pagePath
    {
      pages[pagePath]
    }

    /**
     * Starts tracking `newPage` and rewrites the store. Refused, with the
     * registry unchanged, when its content and template are one file or its
     * page path is already tracked; missing files only give warnings.
     */
    method Track(newPage: PageInfo, fs: Snapshot) returns (err: Option<RegistryError>, warnings: set<Warning>, store: Option<seq<string>>)
      requires Valid()
      modifies this
      ensures Valid()
      ensures newPage.contentPath == newPage.templatePath ==>
        err == Some(SelfReferential(newPage)) && pages == old(pages) && store == None
      ensures newPage.contentPath != newPage.templatePath && newPage.pagePath in old(pages) ==>
        err == Some(DuplicateEntry(old(pages)[newPage.pagePath], newPage)) && pages == old(pages) && store == None
      ensures newPage.contentPath != newPage.templatePath && newPage.pagePath !in old(pages) ==>
        err == None && pages == old(pages)[newPage.pagePath := newPage] && Records() == old(Records()) + {newPage}
      ensures newPage.contentPath != newPage.templatePath && newPage.pagePath !in old(pages) ==>
        Tracking(newPage.pagePath) && GetTracked(newPage.pagePath) == newPage
      ensures newPage.contentPath != newPage.templatePath && newPage.pagePath !in old(pages) ==>
        warnings == TrackWarnings(newPage, fs) && store == Some(Serialize(Listing(pages)))
    {
      if newPage.contentPath == newPage.templatePath {
        return Some(SelfReferential(newPage)), {}, None;
      }
      if newPage.pagePath in pages {
        return Some(DuplicateEntry(pages[newPage.pagePath], newPage)), {}, None;
      }
      warnings := TrackWarnings(newPage, fs);
      pages := pages[newPage.pagePath := newPage];
      InsertAddsRecord(old(pages), newPage);
      var lines := Save();
      return None, warnings, Some(lines);
    }

    /**
     * Stops tracking `pagePath`: deletes its info file (a missing one is no
     * error), removes the entry and rewrites the store. An untracked path
     * changes nothing and writes nothing.
     */
    method Untrack(pagePath: Path, fs: Snapshot) returns (fs': Snapshot, store: Option<seq<string>>)
      requires Valid()
      modifies this
      ensures Valid()
      ensures pagePath !in old(pages) ==>
        pages == old(pages) && store == None && fs' == fs
      ensures pagePath in old(pages) ==>
        && pages == old(pages) - {pagePath}
        && !Tracking(pagePath)
        && fs' == RemoveInfo(fs, pagePath)
        && store == Some(Serialize(Listing(pages)))
    {
      if pagePath !in pages {
        return fs, None;
      }
      fs' := RemoveInfo(fs, pagePath);
      pages := pages - {pagePath};
      var lines := Save();
      store := Some(lines);
    }

    /**
     * Builds the listed pages in turn. A path that is not tracked is
     * collected as untracked; a tracked page the builder fails on is
     * collected as failed; no failure stops the batch.
     */
    method Build(pagePathsToBuild: seq<Path>, buildOk: PageInfo -> bool) returns (failedPages: set<Path>, untrackedPages: set<Path>)
      requires Valid()
      ensures untrackedPages == set p | p in pagePathsToBuild && p !in pages
      ensures failedPages == set p | p in pagePathsToBuild && p in pages && !buildOk(pages[p])
      ensures failedPages !! untrackedPages
    {
      failedPages, untrackedPages := {}, {};
      for i := 0 to |pagePathsToBuild|
        invariant untrackedPages == set p | p in pagePathsToBuild[..i] && p !in pages
        invariant failedPages == set p | p in pagePathsToBuild[..i] && p in pages && !buildOk(pages[p])
      {
        var pagePath := pagePathsToBuild[i];
        assert pagePathsToBuild[..i + 1] == pagePathsToBuild[..i] + [pagePath];
        if Tracking(pagePath) {
          if !buildOk(GetTracked(pagePath)) {
            failedPages := failedPages + {pagePath};
          }
        } else {
          untrackedPages := untrackedPages + {pagePath};
        }
      }
      assert pagePathsToBuild[..|pagePathsToBuild|] == pagePathsToBuild;
    }

    /** Builds every tracked page, whatever its state; the failures are collected. */
    method BuildAll(buildOk: PageInfo -> bool) returns (failedPages: set<Path>)
      requires Valid()
      ensures failedPages == set k | k in pages && !buildOk(pages[k])
    {
      failedPages := {};
      if |pages| == 0 {
        return;
      }
      var rest := pages.Keys;
      while rest != {}
        invariant rest <= pages.Keys
        invariant failedPages == set k | k in pages.Keys - rest && !buildOk(pages[k])
        decreases rest
      {
        var k :| k in rest;
        if !buildOk(pages[k]) {
          failedPages := failedPages + {pages[k].pagePath};
        }
        rest := rest - {k};
      }
    }

    /**
     * Rebuilds the stale pages. Every page gets the first-match check;
     * problem pages are set aside, stale ones are collected together with the
     * dependency that made them stale, and only the stale ones go to the
     * builder, each ending up built or failed.
     */
    method BuildUpdated(fs: Snapshot, buildOk: PageInfo -> bool)
      returns (updatedPages: set<Path>, problemPages: set<Path>, removedFiles: set<Path>, modifiedFiles: set<Path>,
               builtPages: set<Path>, failedPages: set<Path>)
      requires Valid()
      ensures updatedPages == RebuildSet(pages, fs)
      ensures problemPages == ProblemSet(pages, fs)
      ensures updatedPages !! problemPages
      ensures removedFiles == set k | k in pages && Check(pages[k], fs).Stale? && Check(pages[k], fs).reason.DepRemoved? :: Check(pages[k], fs).reason.dep
      ensures modifiedFiles == set k | k in pages && Check(pages[k], fs).Stale? && Check(pages[k], fs).reason.DepModified? :: Check(pages[k], fs).reason.dep
      ensures builtPages == set k | k in updatedPages && buildOk(pages[k])
      ensures failedPages == set k | k in updatedPages && !buildOk(pages[k])
      ensures builtPages + failedPages == updatedPages && builtPages !! failedPages
    {
      updatedPages, problemPages, removedFiles, modifiedFiles := CheckAll(fs);
      StatusMatchesRebuild(pages, fs);
      // the source clears its problem set here and reuses it for the pages that fail to build
      builtPages, failedPages := BuildEach(updatedPages, buildOk);
    }

    /** The first pass of BuildUpdated: the first-match check on every page, bucketed. */
    method CheckAll(fs: Snapshot)
      returns (updatedPages: set<Path>, problemPages: set<Path>, removedFiles: set<Path>, modifiedFiles: set<Path>)
      requires Valid()
      ensures updatedPages == RebuildSet(pages, fs)
      ensures problemPages == set k | k in pages && Check(pages[k], fs).Problem?
      ensures removedFiles == set k | k in pages && Check(pages[k], fs).Stale? && Check(pages[k], fs).reason.DepRemoved? :: Check(pages[k], fs).reason.dep
      ensures modifiedFiles == set k | k in pages && Check(pages[k], fs).Stale? && Check(pages[k], fs).reason.DepModified? :: Check(pages[k], fs).reason.dep
    {
      updatedPages, problemPages, removedFiles, modifiedFiles := {}, {}, {}, {};
      var rest := pages.Keys;
      ghost var done: set<Path> := {};
      while rest != {}
        invariant rest <= pages.Keys && done == pages.Keys - rest
        invariant updatedPages == set k | k in done && Check(pages[k], fs).Stale?
        invariant problemPages == set k | k in done && Check(pages[k], fs).Problem?
        invariant removedFiles == set k | k in done && Check(pages[k], fs).Stale? && Check(pages[k], fs).reason.DepRemoved? :: Check(pages[k], fs).reason.dep
        invariant modifiedFiles == set k | k in done && Check(pages[k], fs).Stale? && Check(pages[k], fs).reason.DepModified? :: Check(pages[k], fs).reason.dep
        decreases rest
      {
        var k :| k in rest;
        var page := pages[k];
        var v := CheckPage(page, fs);
        if v.Problem? {
          problemPages := problemPages + {page.pagePath};
        } else if v.Stale? {
          if v.reason.DepRemoved? {
            removedFiles := removedFiles + {v.reason.dep};
          } else if v.reason.DepModified? {
            modifiedFiles := modifiedFiles + {v.reason.dep};
          }
          updatedPages := updatedPages + {page.pagePath};
        }
        rest := rest - {k};
        done := done + {k};
      }
    }

    /** The second pass of BuildUpdated: the builder runs on each page to rebuild, and each lands in one bucket. */
    method BuildEach(toBuild: set<Path>, buildOk: PageInfo -> bool) returns (builtPages: set<Path>, failedPages: set<Path>)
      requires Valid() && toBuild <= pages.Keys
      ensures builtPages == set k | k in toBuild && buildOk(pages[k])
      ensures failedPages == set k | k in toBuild && !buildOk(pages[k])
    {
      builtPages, failedPages := {}, {};
      var rest := toBuild;
      while rest != {}
        invariant rest <= toBuild
        invariant builtPages == set k | k in toBuild - rest && buildOk(pages[k])
        invariant failedPages == set k | k in toBuild - rest && !buildOk(pages[k])
        decreases rest
      {
        var k :| k in rest;
        if buildOk(pages[k]) {
          builtPages := builtPages + {pages[k].pagePath};
        } else {
          failedPages := failedPages + {pages[k].pagePath};
        }
        rest := rest - {k};
      }
    }

    /**
     * Reports, without building anything, what a rebuild would do: every
     * page gets the full scan; problem pages, pages needing a build (and not
     * a problem), and all removed and modified dependencies are collected.
     */
    method Status(fs: Snapshot)
      returns (updatedPages: set<Path>, problemPages: set<Path>, removedFiles: set<Path>, updatedFiles: set<Path>)
      requires Valid()
      ensures updatedPages == StatusSet(pages, fs)
      ensures problemPages == ProblemSet(pages, fs)
      ensures removedFiles == set k, d | k in pages && d in RemovedDeps(pages[k], fs) :: d
      ensures updatedFiles == set k, d | k in pages && d in ModifiedDeps(pages[k], fs) :: d
    {
      updatedPages, problemPages, removedFiles, updatedFiles := {}, {}, {}, {};
      var rest := pages.Keys;
      ghost var done: set<Path> := {};
      while rest != {}
        invariant rest <= pages.Keys && done == pages.Keys - rest
        invariant updatedPages == set k | k in done && NeedsUpdating(pages[k], fs) && !IsProblem(pages[k], fs)
        invariant problemPages == set k | k in done && IsProblem(pages[k], fs)
        invariant removedFiles == set k, d | k in done && d in RemovedDeps(pages[k], fs) :: d
        invariant updatedFiles == set k, d | k in done && d in ModifiedDeps(pages[k], fs) :: d
        decreases rest
      {
        var k :| k in rest;
        var page := pages[k];
        var needsUpdating, problem, removed, modified := ScanPage(page, fs);
        if problem {
          problemPages := problemPages + {page.pagePath};
        }
        removedFiles := removedFiles + removed;
        updatedFiles := updatedFiles + modified;
        if needsUpdating && page.pagePath !in problemPages {
          updatedPages := updatedPages + {page.pagePath};
        }
        rest := rest - {k};
        done := done + {k};
      }
    }
  }
}
