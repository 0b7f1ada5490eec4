# linux-iso-torrent-finder, modelled in Dafny

`linux-iso-torrent-finder` walks the HTML directory listings of a Linux
distribution's release server. It starts at a root URL and collects every
link to an `.iso.torrent` or `.img.torrent` file. It then downloads each
torrent file into a target directory, unless a file with that name is
already there. This project models the crawler `find_torrents_recursively`,
the status-gated write of `download_file` and the download loop of the
script's `main`, and proves what they guarantee.

Three files, one module each:

- `utility.dfy` (`Utility`) models `src/utility.py`.
  - The site is a finite map from a page URL to the hrefs of the anchors on
    that page. A URL missing from the map is a fetch that raises.
  - Reference resolution (`urljoin`) is a function the caller supplies.
  - The three CSS selectors become the predicates `IsDirectoryHref`,
    `IsTorrentHref` and `IsSubDirectoryOf`. `Links` is the joined-link list
    comprehension, `SubDirectoriesOf` the prefix filter, and the method
    `Deduplicate` is `list(set(...))`.
  - The ghost functions `Visited` and `Torrents` say, as a fold over the
    sub-directory list, which pages a complete crawl fetches and which
    torrent URLs it gathers. `Crawlable` holds when every one of those
    pages can be fetched.
  - The method `FindTorrentsRecursively` keeps the original's loop, which
    extends the torrent list one sub-directory at a time. It is proved to
    succeed exactly when the site is `Crawlable`. On success it returns
    `Torrents` without duplicates. On failure it names a visited URL that
    could not be fetched.
  - Recursion terminates because every descent moves to a strict string
    extension of the current URL. The number of site pages strictly below
    the current URL therefore goes down.
  - `FileSystem` is a class holding the file state: a map from path to
    contents. `DownloadFile` writes the response body only when the status
    is 200.
- `crawl_properties.dfy` (`CrawlProperties`) proves properties of the
  crawl:
  - it only descends, and never re-enters the root;
  - it follows only directory hrefs;
  - its result is exactly the union of the torrent links of the visited
    pages, and every result comes from a torrent href;
  - a leaf page contributes only its own links;
  - a worked two-page site yields both of its torrent URLs.
- `find_iso_torrents.dfy` (`FindIsoTorrents`) models
  `scripts/find-iso-torrents.py`.
  - `Basename` and `JoinPath` are `os.path.basename` and `os.path.join`.
  - `Replay` is a fold that gives the file state and the two counters after
    a prefix of the URL list.
  - `DownloadAll` is the loop, proved against `Replay`. `FindAndDownload` is
    `main` without its logging.
  - The lemmas about `Replay` state the counting, skipping and
    never-overwrite guarantees, and that a second run after an all-200 run
    changes nothing.

Where the code's behaviour is easy to misread, the model follows the code:

- A download succeeds only on status 200 exactly, not on any 2xx status.
- The status of a listing page is not checked. Whatever hrefs the body
  holds are followed.
- There is no `try`/`except`. A sub-directory whose fetch raises ends the
  whole crawl, and nothing is downloaded.
- `downloaded` counts download attempts. A URL whose response is not 200
  still counts as downloaded, although no file is written.
- A second run is sure to skip everything when every response of the
  first run was 200. A URL whose download was not 200 is tried again,
  unless another URL with the same file name has written that destination.

## Model

| member | source | states |
|---|---|---|
| Utility.Links | src/utility.py:18-19 | the joined-link list holds exactly `join(base, h)` for the hrefs `h` the selector keeps, and is no longer than the href list |
| Utility.SubDirectoriesOf | src/utility.py:23 | keeps exactly the URLs that strictly extend the current URL as a string, and keeps a duplicate-free list duplicate-free |
| Utility.Deduplicate | src/utility.py:35 | `list(set(xs))` has no duplicates and the same elements as `xs` |
| Utility.SameSubDirs | src/utility.py:18-23 | dropping duplicates before the prefix filter does not change which sub-directories are followed |
| Utility.DescentShrinks | src/utility.py:32-33 | the number of site pages strictly below the URL goes down on every descent into a listed page, so the recursion ends |
| Utility.VisitedBelowMembers | src/utility.py:32-33 | a page is visited below the current one exactly when the crawl of some followed sub-directory visits it |
| Utility.TorrentsBelowMembers | src/utility.py:32-33 | a torrent URL is gathered from the sub-directories exactly when the crawl of one of them gathers it |
| Utility.CrawlableUnfold | src/utility.py:12-33 | a crawl succeeds exactly when every sub-directory crawl it starts succeeds |
| Utility.FindTorrentsRecursively | src/utility.py:10-35 | succeeds exactly when every visited page can be fetched; then returns, without duplicates, the torrent links of the page united with those of every sub-directory; otherwise reports a visited URL that is not fetchable |
| Utility.FileSystem.Write | src/utility.py:42-44 | writing sets the path to the data and leaves every other path as it was |
| Utility.AfterDownload | src/utility.py:41-44 | with status 200 the path holds the body; with any other status nothing changes; other paths never change |
| Utility.DownloadFile | src/utility.py:38-44 | the file state after the call is `AfterDownload` of the state before it and the server's response |
| CrawlProperties.HrefKindsDisjoint | src/utility.py:18-28 | no href is both a directory href and a torrent href |
| CrawlProperties.VisitedStaysUnderRoot | src/utility.py:23-33 | every URL the crawl fetches has the root URL as a prefix |
| CrawlProperties.NoSelfReentry | src/utility.py:23-33 | no sub-directory crawl fetches the root page again |
| CrawlProperties.FollowsOnlyDirectoryHrefs | src/utility.py:18-33 | every non-root page fetched is `join(p, h)` for a visited page `p` and a directory href `h` on it, and strictly extends `p` |
| CrawlProperties.TorrentsOneLevel | src/utility.py:27-35 | the result is this page's torrent links united with the results of the sub-directories it follows |
| CrawlProperties.TorrentListedOnVisitedPage | src/utility.py:27-35 | every result is a torrent link of some visited page |
| CrawlProperties.VisitedPageTorrentFound | src/utility.py:27-35 | every torrent link of every visited page is in the result |
| CrawlProperties.TorrentsAreUnionOfPages | src/utility.py:27-35 | the result is exactly the union of the torrent links of the visited pages |
| CrawlProperties.TorrentsComeFromTorrentHrefs | src/utility.py:27-28 | every result is an href ending in `.iso.torrent` or `.img.torrent`, joined onto a visited page |
| CrawlProperties.LeafListing | src/utility.py:18-35 | a page with no link into a sub-directory is fetched alone and always succeeds; its result is its own torrent links, and it is empty when it has none |
| CrawlProperties.HrefNames | src/utility.py:18-28 | `s/` is a directory href; `a.iso.torrent` and `b.img.torrent` are torrent hrefs |
| CrawlProperties.RootLinks | src/utility.py:18-28 | on a root page listing `s/` and `a.iso.torrent`, the directory links are `[r/s/]` and the torrent links are `[r/a.iso.torrent]` |
| CrawlProperties.LeafLinks | src/utility.py:18-28 | on a page listing only `b.img.torrent`, there are no directory links and one torrent link |
| CrawlProperties.NestedRootDirectories | src/utility.py:18-23 | in the worked site, the root page leads to the single sub-directory `r/s/` |
| CrawlProperties.NestedRootTorrents | src/utility.py:27-28 | in the worked site, the root page lists the torrent `r/a.iso.torrent` |
| CrawlProperties.NestedLeaf | src/utility.py:18-35 | in the worked site, the crawl of `r/s/` succeeds and yields `r/s/b.img.torrent` |
| CrawlProperties.NestedListingCrawlable | src/utility.py:10-35 | the crawl of the worked site succeeds |
| CrawlProperties.NestedListingTorrents | src/utility.py:10-35 | the crawl of the worked site yields the torrent URLs of both of its pages |
| FindIsoTorrents.BasenameIsLastSegment | scripts/find-iso-torrents.py:17 | the file name has no `/`, ends the path, and is either the whole path or follows a `/` |
| FindIsoTorrents.JoinPath | scripts/find-iso-torrents.py:18 | an absolute name replaces the directory; otherwise the result starts with the directory and ends with the name |
| FindIsoTorrents.BasenameAfterSlash | scripts/find-iso-torrents.py:17-18 | the file name of a directory ending in `/` followed by a name without `/` is that name |
| FindIsoTorrents.DestinationKeepsFileName | scripts/find-iso-torrents.py:17-18 | the destination path lies in the target directory and has the URL's file name |
| FindIsoTorrents.DownloadAll | scripts/find-iso-torrents.py:15-25 | the loop leaves the file state and both counters equal to `Replay` of the URL list, and `downloaded + skipped` is the number of URLs |
| FindIsoTorrents.FindAndDownload | scripts/find-iso-torrents.py:10-28 | fails exactly when the crawl does, without touching any file; otherwise it handles every found torrent URL once, in some order, as `Replay` says |
| FindIsoTorrents.ReplayCountsEveryUrl | scripts/find-iso-torrents.py:15-25 | every URL is counted once, as downloaded or as skipped |
| FindIsoTorrents.SkippedExactlyWhenPresent | scripts/find-iso-torrents.py:19-25 | a URL is skipped exactly when its destination exists at that moment, and downloaded exactly when it does not; only a download can change the files |
| FindIsoTorrents.StepKeepsFiles | scripts/find-iso-torrents.py:19-22 | handling one more URL never removes a file |
| FindIsoTorrents.PrefixKeepsFiles | scripts/find-iso-torrents.py:16-25 | a file present after some URLs is still present after more of them |
| FindIsoTorrents.ReplayNeverOverwrites | scripts/find-iso-torrents.py:19-21 | existing files keep their contents; every new file holds the 200 body of a URL with that destination |
| FindIsoTorrents.PresentAfterSuccess | scripts/find-iso-torrents.py:19-22 | once a URL is handled with status 200, its destination exists |
| FindIsoTorrents.SameNameSkippedLater | scripts/find-iso-torrents.py:17-25 | a later URL with the same file name as an earlier one fetched with status 200 is skipped |
| FindIsoTorrents.AllDestinationsPresent | scripts/find-iso-torrents.py:16-22 | when every response is 200, every destination exists after the loop |
| FindIsoTorrents.AllPresentAllSkipped | scripts/find-iso-torrents.py:19-25 | when every destination already exists, the loop skips everything and changes nothing |
| FindIsoTorrents.SecondRunDownloadsNothing | scripts/find-iso-torrents.py:15-25 | after a run in which every response was 200, a second run over the same URLs, in any order or only some of them, downloads nothing and changes no file |
| FindIsoTorrents.FailedDownloadsStillCounted | scripts/find-iso-torrents.py:19-22 | when no response is 200, no file is written, yet every URL without a file counts as downloaded |

## Left out

- Network I/O: the aiohttp sessions, GET requests and the reading of response bodies. A page fetch and parse is a lookup in the site map. A download response is a total function from URL to status and body.
- Network errors during `download_file`: the response function never raises, so a download always completes.
- HTML parsing with BeautifulSoup and CSS selector evaluation. Only the string tests the selectors express are kept, applied to the list of anchor hrefs of a page.
- The exact reference resolution of `urljoin` (section 5.2 of RFC 3986): it is a function the caller supplies. The properties rest on the prefix filter, not on `urljoin`.
- `async`/`await` and `asyncio.run`: the recursive calls are awaited one after another, so there is no concurrency to model.
- Argument parsing, logging configuration, `os.path.realpath` and all logging calls in the script.
- The iteration order of `list(set(...))`: `Deduplicate` and `FindAndDownload` promise an order-free result. Which unfetchable URL a failed crawl reports depends on that order, so the model only says it is a visited URL missing from the site.
- Non-regular files: `os.path.isfile` is modelled as "the path is in the file map". Directories, symbolic links and permission errors at a destination path are not modelled.
- The contents of files written by `aiofiles`: a write stores the whole body at once; partial writes and failures to open the file are not modelled.
