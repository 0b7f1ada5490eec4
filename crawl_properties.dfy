/**
 * What the crawl of src/utility.py guarantees: it only descends, never
 * comes back to the page it started from, follows only directory hrefs,
 * and returns exactly the torrent links of the pages it visits.
 */
module CrawlProperties {
  import opened Utility

  /** No href is classified both as a directory and as a torrent file. */
  lemma HrefKindsDisjoint(href: string)
    ensures !(IsDirectoryHref(href) && IsTorrentHref(href))
  {
    if IsDirectoryHref(href) {
      assert href[|href| - 1] == '/';
    }
  }

  /** Every URL a crawl rooted at `root` fetches has `root` as a prefix. */
  lemma {:induction false} VisitedStaysUnderRoot(site: SiteMap, join: Join, root: Url)
    ensures forall v :: v in Visited(site, join, root) ==> StartsWith(v, root)
    decreases |Pending(site, root)|, if root in site then 1 else 0
  {
    if root in site {
      var children := SubDirs(join, root, site[root]);
      VisitedBelowMembers(site, join, root, children);
      assert Visited(site, join, root) == {root} + VisitedBelow(site, join, root, children);
      forall v | v in Visited(site, join, root) && v != root
        ensures StartsWith(v, root)
      {
        var s :| s in children && v in Visited(site, join, s);
        DescentShrinks(site, root, s);
        VisitedStaysUnderRoot(site, join, s);
      }
    }
  }

  /**
   * The crawl fetches its root page once: no sub-directory's crawl comes
   * back to it.
   */
  lemma NoSelfReentry(site: SiteMap, join: Join, root: Url)
    requires root in site
    ensures forall s :: s in SubDirs(join, root, site[root]) ==> root !in Visited(site, join, s)
  {
    forall s | s in SubDirs(join, root, site[root])
      ensures root !in Visited(site, join, s)
    {
      VisitedStaysUnderRoot(site, join, s);
    }
  }

  /**
   * Every page other than the root is reached from a visited page through
   * a directory href that resolves to a strict extension of that page.
   */
  lemma {:induction false} FollowsOnlyDirectoryHrefs(site: SiteMap, join: Join, root: Url)
    ensures forall v :: v in Visited(site, join, root) && v != root ==>
      exists p, h :: (p in Visited(site, join, root) && p in site && h in site[p]
        && IsDirectoryHref(h) && v == join(p, h) && IsSubDirectoryOf(v, p))
    decreases |Pending(site, root)|, if root in site then 1 else 0
  {
    if root in site {
      var children := SubDirs(join, root, site[root]);
      VisitedBelowMembers(site, join, root, children);
      assert Visited(site, join, root) == {root} + VisitedBelow(site, join, root, children);
      forall v | v in Visited(site, join, root) && v != root
        ensures exists p, h :: (p in Visited(site, join, root) && p in site && h in site[p]
          && IsDirectoryHref(h) && v == join(p, h) && IsSubDirectoryOf(v, p))
      {
        var s :| s in children && v in Visited(site, join, s);
        assert Visited(site, join, s) <= Visited(site, join, root);
        if v == s {
          var h :| h in site[root] && IsDirectoryHref(h) && s == join(root, h);
          assert root in Visited(site, join, root);
        } else {
          DescentShrinks(site, root, s);
          FollowsOnlyDirectoryHrefs(site, join, s);
          var p, h :| p in Visited(site, join, s) && p in site && h in site[p]
            && IsDirectoryHref(h) && v == join(p, h) && IsSubDirectoryOf(v, p);
          assert p in Visited(site, join, root);
        }
      }
    }
  }

  /**
   * One level of the result: this page's torrent links united with the
   * results of every sub-directory it descends into.
   */
  lemma TorrentsOneLevel(site: SiteMap, join: Join, url: Url)
    requires url in site
    ensures forall t :: t in Torrents(site, join, url) <==>
      t in PageTorrents(join, url, site[url]) || exists s :: s in SubDirs(join, url, site[url]) && t in Torrents(site, join, s)
  {
    TorrentsBelowMembers(site, join, url, SubDirs(join, url, site[url]));
  }

  /** Each torrent URL of the crawl is listed on some page it visits. */
  lemma {:induction false} TorrentListedOnVisitedPage(site: SiteMap, join: Join, root: Url, t: Url)
    requires t in Torrents(site, join, root)
    ensures exists p :: p in Visited(site, join, root) && p in site && t in PageTorrents(join, p, site[p])
    decreases |Pending(site, root)|, if root in site then 1 else 0
  {
    var children := SubDirs(join, root, site[root]);
    if t !in PageTorrents(join, root, site[root]) {
      TorrentsBelowMembers(site, join, root, children);
      var s :| s in children && t in Torrents(site, join, s);
      DescentShrinks(site, root, s);
      TorrentListedOnVisitedPage(site, join, s, t);
      var p :| p in Visited(site, join, s) && p in site && t in PageTorrents(join, p, site[p]);
      VisitedBelowMembers(site, join, root, children);
      assert p in Visited(site, join, root);
    } else {
      assert root in Visited(site, join, root);
    }
  }

  /** Each torrent link on a page the crawl visits is in its result. */
  lemma {:induction false} VisitedPageTorrentFound(site: SiteMap, join: Join, root: Url, p: Url, t: Url)
    requires p in Visited(site, join, root) && p in site && t in PageTorrents(join, p, site[p])
    ensures t in Torrents(site, join, root)
    decreases |Pending(site, root)|, if root in site then 1 else 0
  {
    if p != root {
      var children := SubDirs(join, root, site[root]);
      VisitedBelowMembers(site, join, root, children);
      var s :| s in children && p in Visited(site, join, s);
      DescentShrinks(site, root, s);
      VisitedPageTorrentFound(site, join, s, p, t);
      TorrentsBelowMembers(site, join, root, children);
    }
  }

  /**
   * Union completeness: the crawl's torrent URLs are exactly the torrent
   * links of the pages it visits, gathered from every level.
   */
  lemma TorrentsAreUnionOfPages(site: SiteMap, join: Join, root: Url)
    ensures forall t :: t in Torrents(site, join, root) <==>
      exists p :: p in Visited(site, join, root) && p in site && t in PageTorrents(join, p, site[p])
  {
    forall t ensures t in Torrents(site, join, root) <==>
      exists p :: p in Visited(site, join, root) && p in site && t in PageTorrents(join, p, site[p])
    {
      if t in Torrents(site, join, root) {
        TorrentListedOnVisitedPage(site, join, root, t);
      }
      if exists p :: p in Visited(site, join, root) && p in site && t in PageTorrents(join, p, site[p]) {
        var p :| p in Visited(site, join, root) && p in site && t in PageTorrents(join, p, site[p]);
        VisitedPageTorrentFound(site, join, root, p, t);
      }
    }
  }

  /**
   * Every URL the crawl returns is an href ending in `.iso.torrent` or
   * `.img.torrent`, resolved against a visited page.
   */
  lemma TorrentsComeFromTorrentHrefs(site: SiteMap, join: Join, root: Url)
    ensures forall t :: t in Torrents(site, join, root) ==>
      exists p, h :: (p in Visited(site, join, root) && p in site && h in site[p]
        && IsTorrentHref(h) && t == join(p, h))
  {
    TorrentsAreUnionOfPages(site, join, root);
    forall t | t in Torrents(site, join, root)
      ensures exists p, h :: (p in Visited(site, join, root) && p in site && h in site[p]
        && IsTorrentHref(h) && t == join(p, h))
    {
      var p :| p in Visited(site, join, root) && p in site && t in PageTorrents(join, p, site[p]);
      assert t in Links(join, p, site[p], IsTorrentHref);
    }
  }

  /**
   * A page with no link into a sub-directory is a leaf of the crawl: only
   * its own torrent links are found, and with none of those the result is
   * empty.
   */
  lemma LeafListing(site: SiteMap, join: Join, url: Url)
    requires url in site
    requires forall h :: h in site[url] && IsDirectoryHref(h) ==> !IsSubDirectoryOf(join(url, h), url)
    ensures Visited(site, join, url) == {url}
    ensures Crawlable(site, join, url)
    ensures Torrents(site, join, url) == PageTorrents(join, url, site[url])
    ensures (forall h :: h in site[url] ==> !IsTorrentHref(h)) ==> Torrents(site, join, url) == {}
  {
    NoSubDirectories(url, Links(join, url, site[url], IsDirectoryHref));
  }

  lemma {:induction false} NoSubDirectories(url: Url, dirUrls: seq<Url>)
    requires forall u :: u in dirUrls ==> !IsSubDirectoryOf(u, url)
    ensures SubDirectoriesOf(url, dirUrls) == []
  {
    if dirUrls != [] {
      NoSubDirectories(url, dirUrls[1..]);
    }
  }

  /** The urljoin of a page ending in `/` with a relative href. */
  function Append(base: Url, href: string): Url {
    base + href
  }

  /**
   * A root listing `s/` and `a.iso.torrent`, where `s/` lists
   * `b.img.torrent`.
   */
  const NESTED_SITE: SiteMap := map[
    "r/" := ["s/", "a.iso.torrent"],
    "r/s/" := ["b.img.torrent"]]

  lemma LinksCons(join: Join, base: Url, h: string, rest: seq<string>, keep: string -> bool)
    ensures Links(join, base, [h] + rest, keep)
      == (if keep(h) then [join(base, h)] else []) + Links(join, base, rest, keep)
  {
  }

  lemma HrefNames()
    ensures IsDirectoryHref("s/") && !IsTorrentHref("s/")
    ensures IsTorrentHref("a.iso.torrent") && !IsDirectoryHref("a.iso.torrent")
    ensures IsTorrentHref("b.img.torrent") && !IsDirectoryHref("b.img.torrent")
  {
    assert "s/"[0] != "http"[0] && "s/"[1..] == "/";
    assert "s/"[1..] != ".iso.torrent"[11..] && "s/"[1..] != ".img.torrent"[11..];
    assert "a.iso.torrent"[1..] == ".iso.torrent" && "a.iso.torrent"[12..] != "/";
    assert "b.img.torrent"[1..] == ".img.torrent" && "b.img.torrent"[12..] != "/";
  }

  lemma RootLinks()
    ensures Links(Append, "r/", ["s/", "a.iso.torrent"], IsDirectoryHref) == ["r/s/"]
    ensures Links(Append, "r/", ["s/", "a.iso.torrent"], IsTorrentHref) == ["r/a.iso.torrent"]
  {
    HrefNames();
    assert Append("r/", "s/") == "r/s/" && Append("r/", "a.iso.torrent") == "r/a.iso.torrent";
    assert ["s/", "a.iso.torrent"] == ["s/"] + (["a.iso.torrent"] + []);
    LinksCons(Append, "r/", "a.iso.torrent", [], IsDirectoryHref);
    LinksCons(Append, "r/", "s/", ["a.iso.torrent"] + [], IsDirectoryHref);
    LinksCons(Append, "r/", "a.iso.torrent", [], IsTorrentHref);
    LinksCons(Append, "r/", "s/", ["a.iso.torrent"] + [], IsTorrentHref);
  }

  lemma LeafLinks()
    ensures Links(Append, "r/s/", ["b.img.torrent"], IsDirectoryHref) == []
    ensures Links(Append, "r/s/", ["b.img.torrent"], IsTorrentHref) == ["r/s/b.img.torrent"]
  {
    HrefNames();
    assert Append("r/s/", "b.img.torrent") == "r/s/b.img.torrent";
    assert ["b.img.torrent"] == ["b.img.torrent"] + [];
    LinksCons(Append, "r/s/", "b.img.torrent", [], IsTorrentHref);
    LinksCons(Append, "r/s/", "b.img.torrent", [], IsDirectoryHref);
  }

  lemma NestedRootDirectories()
    ensures SubDirs(Append, "r/", NESTED_SITE["r/"]) == ["r/s/"]
  {
    RootLinks();
    assert NESTED_SITE["r/"] == ["s/", "a.iso.torrent"];
    assert IsSubDirectoryOf("r/s/", "r/") && ["r/s/"][1..] == [];
  }

  lemma NestedRootTorrents()
    ensures PageTorrents(Append, "r/", NESTED_SITE["r/"]) == {"r/a.iso.torrent"}
  {
    RootLinks();
    assert NESTED_SITE["r/"] == ["s/", "a.iso.torrent"];
  }

  lemma NestedLeaf()
    ensures Crawlable(NESTED_SITE, Append, "r/s/")
    ensures Torrents(NESTED_SITE, Append, "r/s/") == {"r/s/b.img.torrent"}
  {
    LeafLinks();
    assert NESTED_SITE["r/s/"] == ["b.img.torrent"];
    LeafListing(NESTED_SITE, Append, "r/s/");
  }

  /** The crawl of the nested listing fetches both pages successfully... */
  lemma NestedListingCrawlable()
    ensures Crawlable(NESTED_SITE, Append, "r/")
  {
    NestedRootDirectories();
    NestedLeaf();
    CrawlableUnfold(NESTED_SITE, Append, "r/");
  }

  /** ...and yields the torrent URLs of both. */
  lemma NestedListingTorrents()
    ensures Torrents(NESTED_SITE, Append, "r/") == {"r/a.iso.torrent", "r/s/b.img.torrent"}
  {
    NestedRootDirectories();
    NestedRootTorrents();
    NestedLeaf();
    var subs := ["r/s/"];
    assert Torrents(NESTED_SITE, Append, "r/")
      == PageTorrents(Append, "r/", NESTED_SITE["r/"]) + TorrentsBelow(NESTED_SITE, Append, "r/", subs);
    assert subs[..0] == [];
    assert TorrentsBelow(NESTED_SITE, Append, "r/", subs)
      == TorrentsBelow(NESTED_SITE, Append, "r/", []) + Torrents(NESTED_SITE, Append, "r/s/");
  }
}
