# nsm site registry, modelled in Dafny

This project models `SiteInfo`, the object at the centre of nsm (a static site
manager). A `SiteInfo` holds the registry of tracked pages. Each page is a
title, a page path, a content path and a template path, and pages are keyed by
page path. The object:

- loads the registry from `.siteinfo/pages.list` and saves it back;
- answers whether a page is tracked and returns its record;
- tracks and untracks pages, rewriting the store each time;
- builds pages in three ways: a chosen list, every page, or only the pages
  that changed since their last build;
- reports the status of every page without building anything.

Modules:

- `Paths` (`paths.dfy`): paths as strings and their lexicographic order. It
  also holds the ordered enumeration of a set of paths, which is the order in
  which the registry's ordered set is walked.
- `Pages` (`pages.dfy`): the page record, and the store's line format. The
  store is written as five lines per page (four fields and a blank separator)
  and read back by skipping blank lines and taking four fields at a time.
- `Registry` (`registry.dfy`): the registry invariant (every entry sits under
  its own page path, and its content and template differ) and the load
  routine as a function. It proves what a load produces, where it stops and
  why, and that saving then loading gives back the same registry.
- `Staleness` (`staleness.dfy`): the filesystem as a snapshot value, and the
  two ways a page is judged. `Check` is the first-match test used before
  rebuilding. `NeedsUpdating` and its companions are the full scan used by the
  status report. Both have method forms that mirror the source's loops, and
  lemmas show that the two judgments agree.
- `Site` (`site_info.dfy`): the `SiteInfo` class. Its `pages` field is the
  registry, and its methods correspond to the source's member functions.

The filesystem is a `Snapshot` value passed as a parameter. It holds the paths
that can be opened, their modification times, the build records kept in info
files, and the mapping from a page path to its info file. The page builder is
an oracle `buildOk: PageInfo -> bool`. The store file is an
`Option<seq<string>>` of lines, where `None` means the file does not exist.

Two behaviours of the source are worth stating outright:

- A trailing partial record ends the reading: `while(ifs >> inPage)`
  (SiteInfo.cpp:17) just stops, so `Parse` drops it and `Open` reports no
  error for it.
- `status` also sets its needs-updating flag for problem pages
  (SiteInfo.cpp:449,455), but line 509 keeps them out of the pages to build;
  `StatusSet` does the same.

## Model

| member | source | states |
|---|---|---|
| Site.SiteInfo.Open | SiteInfo.cpp:4-57 | The registry is cleared first. A missing store leaves it empty and reports that. Otherwise the resulting registry and error are exactly those of `Load` on the parsed records, and the registry invariant holds either way. |
| Site.SiteInfo.Save | SiteInfo.cpp:59-73 | The lines written are five per page: the registry's entries serialized in increasing page-path order. |
| Site.SiteInfo.TrackingPage | SiteInfo.cpp:75-78 | True exactly when some tracked record has the same page path as the given page; the other fields are not compared. |
| Site.SiteInfo.Tracking | SiteInfo.cpp:80-85 | True exactly when some tracked record has this page path. |
| Site.SiteInfo.GetTracked | SiteInfo.cpp:87-92 | Returns a tracked record with the requested page path; callers must check that the path is tracked first. |
| Site.TrackWarnings | SiteInfo.cpp:148-158 | A missing-content warning is given exactly when the content file does not exist, and likewise for the template; no other warning is given. |
| Site.SiteInfo.Track | SiteInfo.cpp:123-174 | A page whose content and template are the same file is refused, with the registry unchanged. So is a page whose path is already tracked, and the error names the current record. Otherwise the page is added, the records grow by exactly it, it becomes tracked and retrievable, the warnings are given, and the store is rewritten in order. |
| Site.SiteInfo.Untrack | SiteInfo.cpp:176-207 | An untracked path changes nothing and writes nothing. Otherwise the page's info file is deleted, the entry is removed, the path is no longer tracked, and the store is rewritten. |
| Site.SiteInfo.Build | SiteInfo.cpp:209-246 | Untracked paths are exactly the requested paths not in the registry. Failed paths are exactly the requested tracked paths the builder fails on. The two sets are disjoint. |
| Site.SiteInfo.BuildAll | SiteInfo.cpp:248-281 | The failed pages are exactly the tracked pages the builder fails on; an empty registry fails nothing. |
| Site.SiteInfo.BuildUpdated | SiteInfo.cpp:283-435 | The pages rebuilt are exactly the stale ones. The problem pages are exactly those with a missing content or template file, and none of them is rebuilt. The removed and modified files are the dependencies that made each stale page stale. Each rebuilt page ends up built or failed, never both. |
| Site.SiteInfo.CheckAll | SiteInfo.cpp:293-365 | Classifies every page by the first-match check: stale, problem, and the removed or modified dependency that decided it. |
| Site.SiteInfo.BuildEach | SiteInfo.cpp:404-410 | Splits the pages to rebuild into those the builder succeeds on and those it fails on. |
| Site.SiteInfo.Status | SiteInfo.cpp:437-511 | The pages listed as needing a build are those flagged by the full scan that are not problem pages. The problem pages are those missing content or template. The removed and updated files are every stale dependency of every page. |
| Staleness.ModifiedAfter | SiteInfo.cpp:356 | A path counts as modified after another only when both have known times and they are different paths (the comparison is strict). |
| Staleness.FirstStaleDep | SiteInfo.cpp:346-363 | A reported reason is a removed or modified dependency, and that dependency is one of the recorded ones. |
| Staleness.Check | SiteInfo.cpp:295-363 | The verdict is a problem exactly when the content or template file is missing, with that as its reason. It is never-built exactly when it is not a problem and the info file is missing. A dependency it names is one of the recorded ones. |
| Staleness.NeedsUpdating | SiteInfo.cpp:444-507 | The full-scan flag is set for every problem page and for every page without an info file. |
| Staleness.CheckPage | SiteInfo.cpp:295-363 | The early-exit sequence of tests, with the dependency loop stopping at the first stale dependency, computes the verdict `Check`. |
| Staleness.ScanPage | SiteInfo.cpp:444-507 | The full scan of one page computes the flag `NeedsUpdating`, the problem flag, and the sets of removed and modified dependencies. |
| Staleness.FirstStaleDepIsFirst | SiteInfo.cpp:346-363 | The dependency loop reports nothing exactly when no dependency is stale. Otherwise it reports the reason of the earliest stale dependency, with removal taking precedence over modification. |
| Staleness.CheckAgreesWithFullScan | SiteInfo.cpp:444-510 | The full scan and the first-match check agree on one page. It is a problem page exactly when content or template is missing, and stale exactly when flagged by the full scan and not a problem page. |
| Staleness.StatusMatchesRebuild | SiteInfo.cpp:509-510 | Over one snapshot, the status report's pages-to-build equal the rebuild's, its problem pages equal the rebuild's, and the two sets are disjoint. |
| Staleness.FirstStaleDepFrame | SiteInfo.cpp:346-363 | The dependency loop's outcome depends only on the info file and the listed dependencies. |
| Staleness.CheckDependsOnlyOnInputs | SiteInfo.cpp:295-363 | The verdict and the full-scan flag depend only on the page's content, template, info file and recorded dependencies. |
| Staleness.RemoveInfo | SiteInfo.cpp:190-192 | After the deletion, the page's info file no longer exists. |
| Staleness.RemoveInfoLeavesOthersAlone | SiteInfo.cpp:190-192 | Deleting one page's info file does not change the verdict on another page, provided that file is not among the other page's inputs. |
| Staleness.RemoveInfoMeansNeverBuilt | SiteInfo.cpp:312-318 | Once its info file is deleted, a page is either a problem page or waits to be built. |
| Registry.Load | SiteInfo.cpp:15-54 | A load never drops or changes an entry it started from, and its only errors are a self-referential record or a duplicate entry. |
| Registry.LoadKeepsInvariant | SiteInfo.cpp:17-54 | Wherever a load stops, the registry it has built keeps the invariant. |
| Registry.LoadClean | SiteInfo.cpp:17-54 | A load over records free of self-reference and clashes succeeds. It keeps every earlier entry and adds every record under its own page path, and nothing else. |
| Registry.LoadDirty | SiteInfo.cpp:19-51 | A load that meets a self-referential record or a clash fails. |
| Registry.LoadSucceedsIffClean | SiteInfo.cpp:17-54 | Loading into an empty registry succeeds exactly when the records are clean. It then holds exactly their page paths, each mapped to its record. |
| Registry.LoadSplit | SiteInfo.cpp:17-54 | A load that gets through a prefix continues with the rest from the registry built so far. |
| Registry.LoadStopsAtFirstViolation | SiteInfo.cpp:19-51 | A load stops at the first offending record. The registry holds exactly the records before it. The error names the record if it is self-referential; otherwise it names the earlier record with the same page path, together with the offending one. |
| Registry.FirstClash | SiteInfo.cpp:28-34 | When the offending record is not self-referential, an earlier record has its page path. |
| Registry.InsertAddsRecord | SiteInfo.cpp:160-161 | Inserting a valid page under a new path keeps the invariant and adds exactly that record. |
| Registry.ListingShape | SiteInfo.cpp:63-70 | The ordered listing has one entry per tracked page, each looked up under the sorted page paths. |
| Registry.ListingCorrect | SiteInfo.cpp:63-70 | The listing has no repeated page path, covers exactly the tracked paths with their own records, and is strictly increasing by page path. |
| Registry.SaveThenLoad | SiteInfo.cpp:59-73 | Loading what save wrote gives back the same registry with no error, provided every field is a non-empty single line. |
| Pages.Serialize | SiteInfo.cpp:63-70 | Writing a sequence of pages produces five lines per page. |
| Pages.SerializeAppend | SiteInfo.cpp:63-70 | Writing one more page appends exactly its block of lines. |
| Pages.Parse | SiteInfo.cpp:15-17 | Reading yields one record per four non-blank lines; a trailing partial record is dropped. |
| Pages.ParseSerialize | SiteInfo.cpp:59-73 | Reading back what was written yields the same pages in the same order, when every field is a non-empty single line. |
| Paths.LeastPath | SiteInfo.cpp:63 | Returns the least path of a non-empty set: it belongs to the set and precedes every other element. |
| Paths.SortedKeys | SiteInfo.cpp:63 | Enumerates a set of paths in increasing order: the unique strictly sorted sequence of exactly its elements. |

## Left out

- Console output (error messages, reports, listings) is not modelled. The
  errors it announces appear as `RegistryError` values and result sets instead.
- Real filesystem access is not modelled. Existence, modification times and
  info-file contents come from the `Snapshot` parameter.
- `Path::getInfoPath` is the snapshot's `infoPathOf` function, left
  uninterpreted. `Path.cpp` is not part of this model.
- `Path::modified_after` is a strict comparison of modification times, false
  when either time is unknown.
- The `PageInfo` stream operators are not part of this model. Reading is
  assumed to be line-based with blank lines skipped; a field that is empty or
  contains a newline does not round-trip (see `Pages.ParseSerialize`).
- An info file that exists but has no record in the snapshot reads as an
  empty record, as a failed stream read leaves a default-constructed record.
- `PageBuilder::build` is the oracle `buildOk`. The info files and output it
  writes are not modelled, so the snapshot does not change across a build.
- The `rm -f` process spawned by untrack becomes `Staleness.RemoveInfo`.
  Process failures are not modelled.
- Site.SiteInfo.Untrack, Site.SiteInfo.Build, Site.SiteInfo.BuildUpdated and
  Site.SiteInfo.Status do not model their C++ return values. The source falls
  off the end of these non-void functions, and their effects are modelled
  instead.
- Site.SiteInfo.BuildUpdated returns the pages that fail to build as a
  separate `failedPages` set. The source clears its problem set and reuses it
  for them; the reported contents are the same.
- The batch loops visit pages in an arbitrary order rather than in page-path
  order. The builder oracle has no side effects here, so the resulting sets do
  not depend on the order.
- Path order is taken to be lexicographic on the path text, comparing
  characters by code point (as `std::string` does for ASCII paths).
- `tracked` and `tracked_paths` only print the registry and are not modelled.
