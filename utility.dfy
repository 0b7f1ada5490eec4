/**
 * The crawler and the downloader of src/utility.py.
 *
 * A web site is a finite map from a directory-listing URL to the `href`
 * values of the anchors on that page; fetching a page and parsing its HTML
 * is a lookup in that map, and a URL the map does not hold is a fetch that
 * raised. Reference resolution (`urljoin`) is a function the caller supplies.
 */
module Utility {

  type Url = string

  /** Resolves an href against the URL of the page it appears on. */
  type Join = (Url, string) -> Url

  /** Every listing page the server can deliver, with the hrefs on it. */
  type SiteMap = map<Url, seq<string>>

  type Bytes = seq<bv8>

  /** The local file system: each regular file's path and contents. */
  type Files = map<string, Bytes>

  /** An HTTP response to a GET of a torrent file. */
  datatype Response = Response(status: int, body: Bytes)

  /** A crawl either succeeds or stops at the first page it could not fetch. */
  datatype Result<T> = Success(value: T) | FetchError(url: Url)

  // ---------------------------------------------------------------------
  // Strings and sequences

  predicate StartsWith(s: string, prefix: string) {
    prefix <= s
  }

  predicate EndsWith(s: string, suffix: string) {
    |suffix| <= |s| && s[|s| - |suffix|..] == suffix
  }

  function Elements<T>(xs: seq<T>): set<T> {
    set x | x in xs
  }

  lemma ElementsAppend<T>(xs: seq<T>, ys: seq<T>)
    ensures Elements(xs + ys) == Elements(xs) + Elements(ys)
  {
  }

  predicate NoDuplicates<T(==)>(xs: seq<T>) {
    forall i, j :: 0 <= i < j < |xs| ==> xs[i] != xs[j]
  }

  /** A list without duplicates has as many elements as its set. */
  lemma {:induction false} DistinctElements<T>(xs: seq<T>)
    requires NoDuplicates(xs)
    ensures |Elements(xs)| == |xs|
  {
    if xs != [] {
      var init := xs[..|xs| - 1];
      DistinctElements(init);
      assert xs == init + [xs[|xs| - 1]];
      assert Elements(xs) == Elements(init) + {xs[|xs| - 1]};
    }
  }

  // ---------------------------------------------------------------------
  // Link classification (the CSS selectors of find_torrents_recursively)

  /** `a[href$="/"]:not([href^="http"]):not([href="/"])` */
  predicate IsDirectoryHref(href: string) {
    EndsWith(href, "/") && !StartsWith(href, "http") && href != "/"
  }

  /** `a[href$=".iso.torrent"], a[href$=".img.torrent"]`, case-sensitive. */
  predicate IsTorrentHref(href: string) {
    EndsWith(href, ".iso.torrent") || EndsWith(href, ".img.torrent")
  }

  /** `u.startswith(root_url) and u != root_url` */
  predicate IsSubDirectoryOf(u: Url, parent: Url) {
    StartsWith(u, parent) && u != parent
  }

  /**
   * The list comprehension `[urljoin(base, h) for h in hrefs if keep(h)]`:
   * it holds exactly the joined hrefs that the selector keeps.
   */
  function Links(join: Join, base: Url, hrefs: seq<string>, keep: string -> bool): (urls: seq<Url>)
    ensures |urls| <= |hrefs|
    ensures forall u :: u in urls <==> exists h :: h in hrefs && keep(h) && u == join(base, h)
  {
    if hrefs == [] then []
    else
      var rest := Links(join, base, hrefs[1..], keep);
      if keep(hrefs[0]) then [join(base, hrefs[0])] + rest else rest
  }

  /**
   * The list comprehension that keeps the directory URLs leading below
   * `url`: exactly the listed ones that strictly extend it, in order.
   */
  function SubDirectoriesOf(url: Url, dirUrls: seq<Url>): (subs: seq<Url>)
    ensures forall u :: u in subs <==> u in dirUrls && IsSubDirectoryOf(u, url)
    ensures NoDuplicates(dirUrls) ==> NoDuplicates(subs)
  {
    if dirUrls == [] then []
    else
      var rest := SubDirectoriesOf(url, dirUrls[1..]);
      if IsSubDirectoryOf(dirUrls[0], url) then [dirUrls[0]] + rest else rest
  }

  /**
   * `list(set(xs))`: a list of the distinct elements of `xs`, in no
   * particular order.
   */
  method Deduplicate(xs: seq<Url>) returns (ys: seq<Url>)
    ensures NoDuplicates(ys)
    ensures Elements(ys) == Elements(xs)
  {
    var rest := Elements(xs);
    ys := [];
    while rest != {}
      invariant Elements(ys) + rest == Elements(xs)
      invariant Elements(ys) !! rest
      invariant NoDuplicates(ys)
      decreases |rest|
    {
      var x :| x in rest;
      ys := ys + [x];
      rest := rest - {x};
    }
  }

  // ---------------------------------------------------------------------
  // What one page contributes

  /**
   * The sub-directories the crawler descends into from the page at `url`,
   * before duplicates are dropped.
   */
  function SubDirs(join: Join, url: Url, hrefs: seq<string>): seq<Url> {
    SubDirectoriesOf(url, Links(join, url, hrefs, IsDirectoryHref))
  }

  /** The torrent URLs listed on the page at `url` itself. */
  function PageTorrents(join: Join, url: Url, hrefs: seq<string>): set<Url> {
    Elements(Links(join, url, hrefs, IsTorrentHref))
  }

  // ---------------------------------------------------------------------
  // Termination: the site map is finite, and every descent moves to a
  // strict extension of the current URL.

  /** The listing pages of the site that lie strictly below `url`. */
  ghost function Pending(site: SiteMap, url: Url): set<Url> {
    set k | k in site && IsSubDirectoryOf(k, url)
  }

  lemma DescentShrinks(site: SiteMap, url: Url, sub: Url)
    requires url in site && IsSubDirectoryOf(sub, url)
    ensures |Pending(site, sub)| <= |Pending(site, url)|
    ensures sub in site ==> |Pending(site, sub)| < |Pending(site, url)|
  {
    var below, above := Pending(site, sub), Pending(site, url);
    assert below <= above;
    assert above == below + (above - below) && below * (above - below) == {};
    if sub in site {
      assert sub in above - below;
    }
  }

  // ---------------------------------------------------------------------
  // The complete crawl, as a specification

  /** Every URL a complete crawl starting at `url` fetches. */
  ghost function Visited(site: SiteMap, join: Join, url: Url): set<Url>
    decreases |Pending(site, url)|, if url in site then 1 else 0, 1, 0
  {
    if url !in site then {url}
    else {url} + VisitedBelow(site, join, url, SubDirs(join, url, site[url]))
  }

  /** The URLs visited by complete crawls of each of `subs`, united. */
  ghost function VisitedBelow(site: SiteMap, join: Join, parent: Url, subs: seq<Url>): set<Url>
    requires parent in site
    requires forall s :: s in subs ==> IsSubDirectoryOf(s, parent)
    decreases |Pending(site, parent)|, 1, 0, |subs|
  {
    if subs == [] then {}
    else
      var last := subs[|subs| - 1];
      DescentShrinks(site, parent, last);
      VisitedBelow(site, join, parent, subs[..|subs| - 1]) + Visited(site, join, last)
  }

  /** The crawl succeeds exactly when every page it visits can be fetched. */
  ghost predicate Crawlable(site: SiteMap, join: Join, url: Url) {
    Visited(site, join, url) <= site.Keys
  }

  /** This page's torrent URLs united with those of every sub-directory. */
  ghost function Torrents(site: SiteMap, join: Join, url: Url): set<Url>
    decreases |Pending(site, url)|, if url in site then 1 else 0, 1, 0
  {
    if url !in site then {}
    else PageTorrents(join, url, site[url]) + TorrentsBelow(site, join, url, SubDirs(join, url, site[url]))
  }

  /** The torrent URLs found by complete crawls of each of `subs`, united. */
  ghost function TorrentsBelow(site: SiteMap, join: Join, parent: Url, subs: seq<Url>): set<Url>
    requires parent in site
    requires forall s :: s in subs ==> IsSubDirectoryOf(s, parent)
    decreases |Pending(site, parent)|, 1, 0, |subs|
  {
    if subs == [] then {}
    else
      var last := subs[|subs| - 1];
      DescentShrinks(site, parent, last);
      TorrentsBelow(site, join, parent, subs[..|subs| - 1]) + Torrents(site, join, last)
  }

  /** A page reached from one of `subs` is reached from the list. */
  lemma {:induction false} VisitedBelowHas(site: SiteMap, join: Join, parent: Url, subs: seq<Url>, s: Url, v: Url)
    requires parent in site
    requires forall s :: s in subs ==> IsSubDirectoryOf(s, parent)
    requires s in subs && v in Visited(site, join, s)
    ensures v in VisitedBelow(site, join, parent, subs)
  {
    var init, last := subs[..|subs| - 1], subs[|subs| - 1];
    assert VisitedBelow(site, join, parent, subs) == VisitedBelow(site, join, parent, init) + Visited(site, join, last);
    if s != last {
      assert s in init by { assert subs == init + [last]; }
      VisitedBelowHas(site, join, parent, init, s, v);
    }
  }

  /** Whatever the list reaches, one of `subs` reaches. */
  lemma {:induction false} VisitedBelowFrom(site: SiteMap, join: Join, parent: Url, subs: seq<Url>, v: Url)
    requires parent in site
    requires forall s :: s in subs ==> IsSubDirectoryOf(s, parent)
    requires v in VisitedBelow(site, join, parent, subs)
    ensures exists s :: s in subs && v in Visited(site, join, s)
  {
    var init, last := subs[..|subs| - 1], subs[|subs| - 1];
    assert VisitedBelow(site, join, parent, subs) == VisitedBelow(site, join, parent, init) + Visited(site, join, last);
    if v !in Visited(site, join, last) {
      VisitedBelowFrom(site, join, parent, init, v);
      var s :| s in init && v in Visited(site, join, s);
      assert s in subs;
    }
  }

  lemma VisitedBelowMembers(site: SiteMap, join: Join, parent: Url, subs: seq<Url>)
    requires parent in site
    requires forall s :: s in subs ==> IsSubDirectoryOf(s, parent)
    ensures forall v :: v in VisitedBelow(site, join, parent, subs) <==> exists s :: s in subs && v in Visited(site, join, s)
  {
    forall v ensures v in VisitedBelow(site, join, parent, subs) <==> exists s :: s in subs && v in Visited(site, join, s) {
      if v in VisitedBelow(site, join, parent, subs) {
        VisitedBelowFrom(site, join, parent, subs, v);
      }
      if exists s :: s in subs && v in Visited(site, join, s) {
        var s :| s in subs && v in Visited(site, join, s);
        VisitedBelowHas(site, join, parent, subs, s, v);
      }
    }
  }

  /** A page reached from one of `subs` is reached from the list. */
  lemma {:induction false} TorrentsBelowHas(site: SiteMap, join: Join, parent: Url, subs: seq<Url>, s: Url, t: Url)
    requires parent in site
    requires forall s :: s in subs ==> IsSubDirectoryOf(s, parent)
    requires s in subs && t in Torrents(site, join, s)
    ensures t in TorrentsBelow(site, join, parent, subs)
  {
    var init, last := subs[..|subs| - 1], subs[|subs| - 1];
    assert TorrentsBelow(site, join, parent, subs) == TorrentsBelow(site, join, parent, init) + Torrents(site, join, last);
    if s != last {
      assert s in init by { assert subs == init + [last]; }
      TorrentsBelowHas(site, join, parent, init, s, t);
    }
  }

  /** Whatever the list reaches, one of `subs` reaches. */
  lemma {:induction false} TorrentsBelowFrom(site: SiteMap, join: Join, parent: Url, subs: seq<Url>, t: Url)
    requires parent in site
    requires forall s :: s in subs ==> IsSubDirectoryOf(s, parent)
    requires t in TorrentsBelow(site, join, parent, subs)
    ensures exists s :: s in subs && t in Torrents(site, join, s)
  {
    var init, last := subs[..|subs| - 1], subs[|subs| - 1];
    assert TorrentsBelow(site, join, parent, subs) == TorrentsBelow(site, join, parent, init) + Torrents(site, join, last);
    if t !in Torrents(site, join, last) {
      TorrentsBelowFrom(site, join, parent, init, t);
      var s :| s in init && t in Torrents(site, join, s);
      assert s in subs;
    }
  }

  lemma TorrentsBelowMembers(site: SiteMap, join: Join, parent: Url, subs: seq<Url>)
    requires parent in site
    requires forall s :: s in subs ==> IsSubDirectoryOf(s, parent)
    ensures forall t :: t in TorrentsBelow(site, join, parent, subs) <==> exists s :: s in subs && t in Torrents(site, join, s)
  {
    forall t ensures t in TorrentsBelow(site, join, parent, subs) <==> exists s :: s in subs && t in Torrents(site, join, s) {
      if t in TorrentsBelow(site, join, parent, subs) {
        TorrentsBelowFrom(site, join, parent, subs, t);
      }
      if exists s :: s in subs && t in Torrents(site, join, s) {
        var s :| s in subs && t in Torrents(site, join, s);
        TorrentsBelowHas(site, join, parent, subs, s, t);
      }
    }
  }

  /** One level of Crawlable. */
  lemma CrawlableUnfold(site: SiteMap, join: Join, url: Url)
    requires url in site
    ensures Crawlable(site, join, url) <==>
      forall s :: s in SubDirs(join, url, site[url]) ==> Crawlable(site, join, s)
  {
    var children := SubDirs(join, url, site[url]);
    VisitedBelowMembers(site, join, url, children);
    assert Visited(site, join, url) == {url} + VisitedBelow(site, join, url, children);
    if forall s :: s in children ==> Crawlable(site, join, s) {
      forall v | v in VisitedBelow(site, join, url, children)
        ensures v in site
      {
        var s :| s in children && v in Visited(site, join, s);
        assert Crawlable(site, join, s);
      }
    }
  }

  /** Dropping duplicates first does not change which sub-directories are kept. */
  lemma SameSubDirs(url: Url, xs: seq<Url>, ys: seq<Url>)
    requires Elements(xs) == Elements(ys)
    ensures forall u :: u in SubDirectoriesOf(url, xs) <==> u in SubDirectoriesOf(url, ys)
  {
    forall u ensures u in xs <==> u in ys {
      assert u in xs <==> u in Elements(xs);
      assert u in ys <==> u in Elements(ys);
    }
  }

  // ---------------------------------------------------------------------
  // find_torrents_recursively

  method FindTorrentsRecursively(site: SiteMap, join: Join, url: Url) returns (r: Result<seq<Url>>)
    ensures r.Success? <==> Crawlable(site, join, url)
    ensures r.Success? ==> NoDuplicates(r.value) && Elements(r.value) == Torrents(site, join, url)
    ensures r.FetchError? ==> r.url in Visited(site, join, url) && r.url !in site
    decreases |Pending(site, url)|, if url in site then 1 else 0, 1, 0
  {
    if url !in site {
      return FetchError(url);
    }
    var hrefs := site[url];
    var dirUrls := Deduplicate(Links(join, url, hrefs, IsDirectoryHref));
    var subDirUrls := SubDirectoriesOf(url, dirUrls);
    ghost var children := SubDirs(join, url, hrefs);
    SameSubDirs(url, dirUrls, Links(join, url, hrefs, IsDirectoryHref));
    var torrents := Deduplicate(Links(join, url, hrefs, IsTorrentHref));
    var i := 0;
    while i < |subDirUrls|
      invariant 0 <= i <= |subDirUrls|
      invariant forall j :: 0 <= j < i ==> Crawlable(site, join, subDirUrls[j])
      invariant Elements(torrents) == PageTorrents(join, url, hrefs) + TorrentsBelow(site, join, url, subDirUrls[..i])
    {
      DescentShrinks(site, url, subDirUrls[i]);
      var sub := FindTorrentsRecursively(site, join, subDirUrls[i]);
      if sub.FetchError? {
        assert subDirUrls[i] in children;
        VisitedBelowMembers(site, join, url, children);
        assert sub.url in VisitedBelow(site, join, url, children);
        return FetchError(sub.url);
      }
      ElementsAppend(torrents, sub.value);
      assert subDirUrls[..i + 1][..i] == subDirUrls[..i];
      assert TorrentsBelow(site, join, url, subDirUrls[..i + 1])
        == TorrentsBelow(site, join, url, subDirUrls[..i]) + Torrents(site, join, subDirUrls[i]);
      torrents := torrents + sub.value;
      i := i + 1;
    }
    assert subDirUrls[..i] == subDirUrls;
    CrawlableUnfold(site, join, url);
    TorrentsBelowMembers(site, join, url, subDirUrls);
    TorrentsBelowMembers(site, join, url, children);
    var found := Deduplicate(torrents);
    return Success(found);
  }

  // ---------------------------------------------------------------------
  // The file system and download_file

  class FileSystem {
    var files: Files

    constructor (initial: Files)
      ensures files == initial
    {
      files := initial;
    }

    /** `os.path.isfile` */
    predicate IsFile(path: string)
      reads this
    {
      path in files
    }

    /** Opens `path` for binary writing and writes `data` to it. */
    method Write(path: string, data: Bytes)
      modifies this
      ensures files == old(files)[path := data]
    {
      files := files[path := data];
    }
  }

  /**
   * The file state after `download_file` wrote `resp` to `path`: the path
   * holds the body when the status is exactly 200, and nothing changes
   * otherwise.
   */
  function AfterDownload(files: Files, path: string, resp: Response): (after: Files)
    ensures resp.status == 200 ==> path in after && after[path] == resp.body
    ensures resp.status != 200 ==> after == files
    ensures forall p :: p != path ==> (p in after <==> p in files)
    ensures forall p :: p != path && p in files ==> after[p] == files[p]
  {
    if resp.status == 200 then files[path := resp.body] else files
  }

  /** `download_file`: the server's answer to a GET of `url` is `server(url)`. */
  method DownloadFile(fs: FileSystem, server: Url -> Response, url: Url, path: string)
    modifies fs
    ensures fs.files == AfterDownload(old(fs.files), path, server(url))
  {
    var resp := server(url);
    if resp.status == 200 {
      fs.Write(path, resp.body);
    }
  }
}
