/**
 * The script scripts/find-iso-torrents.py: crawl once from the root URL,
 * then fetch every torrent URL found into the target directory unless a
 * file of that name is already there, counting downloads and skips.
 */
module FindIsoTorrents {
  import opened Utility

  // ---------------------------------------------------------------------
  // Destination paths

  /** `os.path.basename`: what follows the last `/` of `path`. */
  function Basename(path: string): string {
    if path == [] || path[|path| - 1] == '/' then []
    else Basename(path[..|path| - 1]) + [path[|path| - 1]]
  }

  /**
   * The file name is the longest suffix of the path without a `/`: it has
   * no `/`, ends the path, and is either all of it or follows a `/`.
   */
  lemma {:induction false} BasenameIsLastSegment(path: string)
    ensures '/' !in Basename(path)
    ensures |Basename(path)| <= |path| && path[|path| - |Basename(path)|..] == Basename(path)
    ensures |Basename(path)| < |path| ==> path[|path| - |Basename(path)| - 1] == '/'
  {
    if path != [] && path[|path| - 1] != '/' {
      var init, c := path[..|path| - 1], path[|path| - 1];
      SplitLast(path);
      BasenameIsLastSegment(init);
      var rest := Basename(init);
      assert Basename(path) == rest + [c];
      NoSlashAppended(rest, c);
      SuffixOfSnoc(init, c, |init| - |rest|);
      if |rest| < |init| {
        assert path[|path| - |rest| - 2] == init[|init| - |rest| - 1];
      }
    }
  }

  lemma SplitLast(s: string)
    requires s != []
    ensures s == s[..|s| - 1] + [s[|s| - 1]]
  {
  }

  lemma NoSlashAppended(s: string, c: char)
    requires '/' !in s && c != '/'
    ensures '/' !in s + [c]
  {
    assert forall x :: x in s + [c] ==> x in s || x == c;
  }

  lemma SuffixOfSnoc(init: string, c: char, k: nat)
    requires k <= |init|
    ensures (init + [c])[k..] == init[k..] + [c]
  {
    assert |(init + [c])[k..]| == |init[k..] + [c]|;
    forall i | 0 <= i < |init[k..] + [c]|
      ensures (init + [c])[k..][i] == (init[k..] + [c])[i]
    {
    }
  }

  /** `os.path.join` of two POSIX path components. */
  function JoinPath(directory: string, name: string): (path: string)
    ensures StartsWith(name, "/") ==> path == name
    ensures !StartsWith(name, "/") ==> StartsWith(path, directory) && EndsWith(path, name)
  {
    if StartsWith(name, "/") then name
    else if directory == [] || EndsWith(directory, "/") then directory + name
    else directory + "/" + name
  }

  /** Where the torrent at `url` is stored under `targetDir`. */
  function Destination(targetDir: string, url: Url): string {
    JoinPath(targetDir, Basename(url))
  }

  lemma {:induction false} BasenameAfterSlash(directory: string, name: string)
    requires directory == [] || directory[|directory| - 1] == '/'
    requires '/' !in name
    ensures Basename(directory + name) == name
  {
    if name != [] {
      var init := name[..|name| - 1];
      assert (directory + name)[..|directory + name| - 1] == directory + init;
      BasenameAfterSlash(directory, init);
      assert name == init + [name[|name| - 1]];
    } else {
      assert directory + name == directory;
    }
  }

  /**
   * The destination lies in the target directory and has the URL's file
   * name as its own.
   */
  lemma DestinationKeepsFileName(targetDir: string, url: Url)
    ensures StartsWith(Destination(targetDir, url), targetDir)
    ensures Basename(Destination(targetDir, url)) == Basename(url)
  {
    var name := Basename(url);
    BasenameIsLastSegment(url);
    if name != [] {
      assert name[0] != '/' by { assert name[0] in name; }
    }
    if targetDir == [] || EndsWith(targetDir, "/") {
      if targetDir != [] {
        assert targetDir[|targetDir| - 1] == targetDir[|targetDir| - 1..][0];
      }
      BasenameAfterSlash(targetDir, name);
    } else {
      assert targetDir + "/" + name == (targetDir + "/") + name;
      BasenameAfterSlash(targetDir + "/", name);
    }
  }

  // ---------------------------------------------------------------------
  // The download loop, as a specification

  /** The file state and the two counters after a prefix of the URLs. */
  datatype Tally = Tally(files: Files, downloaded: nat, skipped: nat)

  /**
   * The loop of `main` over `urls`: each URL's destination is checked
   * against the files present at that moment; an existing one is skipped,
   * a missing one is downloaded and counted whatever the status.
   */
  function Replay(files: Files, urls: seq<Url>, targetDir: string, server: Url -> Response): Tally {
    if urls == [] then Tally(files, 0, 0)
    else
      var before := Replay(files, urls[..|urls| - 1], targetDir, server);
      var url := urls[|urls| - 1];
      var path := Destination(targetDir, url);
      if path in before.files then Tally(before.files, before.downloaded, before.skipped + 1)
      else Tally(AfterDownload(before.files, path, server(url)), before.downloaded + 1, before.skipped)
  }

  // ---------------------------------------------------------------------
  // main

  method DownloadAll(fs: FileSystem, urls: seq<Url>, targetDir: string, server: Url -> Response)
    returns (downloaded: nat, skipped: nat)
    modifies fs
    ensures Tally(fs.files, downloaded, skipped) == Replay(old(fs.files), urls, targetDir, server)
    ensures downloaded + skipped == |urls|
  {
    downloaded, skipped := 0, 0;
    for i := 0 to |urls|
      invariant Tally(fs.files, downloaded, skipped) == Replay(old(fs.files), urls[..i], targetDir, server)
    {
      var url := urls[i];
      var filename := Basename(url);
      var path := JoinPath(targetDir, filename);
      assert urls[..i + 1][..i] == urls[..i];
      if !fs.IsFile(path) {
        DownloadFile(fs, server, url, path);
        downloaded := downloaded + 1;
      } else {
        skipped := skipped + 1;
      }
    }
    assert urls[..|urls|] == urls;
    ReplayCountsEveryUrl(old(fs.files), urls, targetDir, server);
  }

  datatype Summary = Summary(downloaded: nat, skipped: nat)

  /**
   * `main`: crawl from `rootUrl`, then download what was found. A fetch
   * that raises during the crawl ends the run before anything is written.
   */
  method FindAndDownload(fs: FileSystem, site: SiteMap, join: Join, rootUrl: Url, targetDir: string,
                         server: Url -> Response)
    returns (r: Result<Summary>)
    modifies fs
    ensures r.FetchError? <==> !Crawlable(site, join, rootUrl)
    ensures r.FetchError? ==> r.url !in site && fs.files == old(fs.files)
    ensures r.Success? ==> r.value.downloaded + r.value.skipped == |Torrents(site, join, rootUrl)|
    ensures r.Success? ==> exists urls ::
      Elements(urls) == Torrents(site, join, rootUrl) && NoDuplicates(urls)
      && Replay(old(fs.files), urls, targetDir, server) == Tally(fs.files, r.value.downloaded, r.value.skipped)
  {
    var found := FindTorrentsRecursively(site, join, rootUrl);
    if found.FetchError? {
      return FetchError(found.url);
    }
    var urls := found.value;
    var downloaded, skipped := DownloadAll(fs, urls, targetDir, server);
    DistinctElements(urls);
    r := Success(Summary(downloaded, skipped));
  }

  // ---------------------------------------------------------------------
  // What the loop guarantees

  /** Every URL is counted once, as downloaded or as skipped. */
  lemma {:induction false} ReplayCountsEveryUrl(files: Files, urls: seq<Url>, targetDir: string, server: Url -> Response)
    ensures Replay(files, urls, targetDir, server).downloaded + Replay(files, urls, targetDir, server).skipped == |urls|
  {
    if urls != [] {
      ReplayCountsEveryUrl(files, urls[..|urls| - 1], targetDir, server);
    }
  }

  /**
   * The URL at position `i` is skipped exactly when its destination exists
   * once the URLs before it have been handled; otherwise it is downloaded,
   * and only then can the files change.
   */
  lemma SkippedExactlyWhenPresent(files: Files, urls: seq<Url>, targetDir: string, server: Url -> Response, i: nat)
    requires i < |urls|
    ensures var before := Replay(files, urls[..i], targetDir, server);
      var after := Replay(files, urls[..i + 1], targetDir, server);
      (after.skipped == before.skipped + 1 <==> Destination(targetDir, urls[i]) in before.files)
      && (after.downloaded == before.downloaded + 1 <==> Destination(targetDir, urls[i]) !in before.files)
      && (Destination(targetDir, urls[i]) in before.files ==> after.files == before.files)
  {
    assert urls[..i + 1][..i] == urls[..i];
  }

  /** One more URL never removes a file. */
  lemma StepKeepsFiles(files: Files, urls: seq<Url>, targetDir: string, server: Url -> Response, n: nat)
    requires n < |urls|
    ensures Replay(files, urls[..n], targetDir, server).files.Keys <= Replay(files, urls[..n + 1], targetDir, server).files.Keys
  {
    assert urls[..n + 1][..n] == urls[..n];
  }

  /** Files present after the first `k` URLs are still present after the first `m`. */
  lemma {:induction false} PrefixKeepsFiles(files: Files, urls: seq<Url>, targetDir: string, server: Url -> Response, k: nat, m: nat)
    requires k <= m <= |urls|
    ensures Replay(files, urls[..k], targetDir, server).files.Keys <= Replay(files, urls[..m], targetDir, server).files.Keys
    decreases m - k
  {
    if k < m {
      StepKeepsFiles(files, urls, targetDir, server, k);
      PrefixKeepsFiles(files, urls, targetDir, server, k + 1, m);
    }
  }

  /**
   * A file that existed before the run keeps its contents, and every new
   * file holds the body of a 200 response for a URL with that destination.
   */
  lemma {:induction false} ReplayNeverOverwrites(files: Files, urls: seq<Url>, targetDir: string, server: Url -> Response)
    ensures forall p :: p in files ==>
      p in Replay(files, urls, targetDir, server).files && Replay(files, urls, targetDir, server).files[p] == files[p]
    ensures forall p :: p in Replay(files, urls, targetDir, server).files && p !in files ==>
      exists u :: (u in urls && Destination(targetDir, u) == p && server(u).status == 200
        && Replay(files, urls, targetDir, server).files[p] == server(u).body)
  {
    if urls != [] {
      var init, last := urls[..|urls| - 1], urls[|urls| - 1];
      ReplayNeverOverwrites(files, init, targetDir, server);
      var before := Replay(files, init, targetDir, server).files;
      var after := Replay(files, urls, targetDir, server).files;
      forall p | p in after && p !in files
        ensures exists u ::
          u in urls && Destination(targetDir, u) == p && server(u).status == 200 && after[p] == server(u).body
      {
        if p == Destination(targetDir, last) && p !in before {
          assert last in urls;
        } else {
          var u :| u in init && Destination(targetDir, u) == p && server(u).status == 200 && before[p] == server(u).body;
          assert u in urls;
        }
      }
    }
  }

  /** Once a URL has been handled with status 200, its destination exists. */
  lemma PresentAfterSuccess(files: Files, urls: seq<Url>, targetDir: string, server: Url -> Response, i: nat)
    requires i < |urls| && server(urls[i]).status == 200
    ensures Destination(targetDir, urls[i]) in Replay(files, urls[..i + 1], targetDir, server).files
  {
  }

  /**
   * A later URL whose file name matches an earlier one that was fetched
   * with status 200 in the same run is skipped.
   */
  lemma SameNameSkippedLater(files: Files, urls: seq<Url>, targetDir: string, server: Url -> Response, i: nat, j: nat)
    requires i < j < |urls|
    requires Basename(urls[i]) == Basename(urls[j])
    requires server(urls[i]).status == 200
    ensures Replay(files, urls[..j + 1], targetDir, server).skipped == Replay(files, urls[..j], targetDir, server).skipped + 1
  {
    var path := Destination(targetDir, urls[i]);
    assert path == Destination(targetDir, urls[j]);
    var mid := Replay(files, urls[..i + 1], targetDir, server).files;
    var before := Replay(files, urls[..j], targetDir, server).files;
    PresentAfterSuccess(files, urls, targetDir, server, i);
    assert path in mid;
    PrefixKeepsFiles(files, urls, targetDir, server, i + 1, j);
    assert mid.Keys <= before.Keys;
    assert path in before;
    SkippedExactlyWhenPresent(files, urls, targetDir, server, j);
  }

  /** After a run in which every response was 200, every destination exists. */
  lemma {:induction false} AllDestinationsPresent(files: Files, urls: seq<Url>, targetDir: string, server: Url -> Response)
    requires forall u :: u in urls ==> server(u).status == 200
    ensures forall u :: u in urls ==> Destination(targetDir, u) in Replay(files, urls, targetDir, server).files
  {
    if urls != [] {
      var init, last := urls[..|urls| - 1], urls[|urls| - 1];
      assert forall u :: u in urls <==> u in init || u == last by { assert urls == init + [last]; }
      AllDestinationsPresent(files, init, targetDir, server);
      var before := Replay(files, init, targetDir, server).files;
      var after := Replay(files, urls, targetDir, server).files;
      var path := Destination(targetDir, last);
      assert after == if path in before then before else AfterDownload(before, path, server(last));
      assert before.Keys <= after.Keys && path in after;
    }
  }

  /** When every destination already exists, the loop only skips. */
  lemma {:induction false} AllPresentAllSkipped(files: Files, urls: seq<Url>, targetDir: string, server: Url -> Response)
    requires forall u :: u in urls ==> Destination(targetDir, u) in files
    ensures Replay(files, urls, targetDir, server) == Tally(files, 0, |urls|)
  {
    if urls != [] {
      var init := urls[..|urls| - 1];
      assert forall u :: u in init ==> u in urls;
      AllPresentAllSkipped(files, init, targetDir, server);
    }
  }

  /**
   * A second run downloads nothing and changes no file, provided the first
   * run got status 200 each time. The second crawl may list the same URLs
   * in another order, or only some of them: `urls2` is any such list.
   */
  lemma SecondRunDownloadsNothing(files: Files, urls: seq<Url>, urls2: seq<Url>, targetDir: string, server: Url -> Response)
    requires forall u :: u in urls ==> server(u).status == 200
    requires forall u :: u in urls2 ==> u in urls
    ensures var first := Replay(files, urls, targetDir, server);
      Replay(first.files, urls2, targetDir, server) == Tally(first.files, 0, |urls2|)
  {
    AllDestinationsPresent(files, urls, targetDir, server);
    AllPresentAllSkipped(Replay(files, urls, targetDir, server).files, urls2, targetDir, server);
  }

  /** How many of `urls` have no file at their destination in `files`. */
  function CountAbsent(files: Files, urls: seq<Url>, targetDir: string): nat {
    if urls == [] then 0
    else
      CountAbsent(files, urls[..|urls| - 1], targetDir)
        + (if Destination(targetDir, urls[|urls| - 1]) in files then 0 else 1)
  }

  /**
   * `downloaded` counts attempts: when no response is 200, no file is
   * written, yet every URL without a file counts as downloaded.
   */
  lemma {:induction false} FailedDownloadsStillCounted(files: Files, urls: seq<Url>, targetDir: string, server: Url -> Response)
    requires forall u :: u in urls ==> server(u).status != 200
    ensures Replay(files, urls, targetDir, server).files == files
    ensures Replay(files, urls, targetDir, server).downloaded == CountAbsent(files, urls, targetDir)
  {
    if urls != [] {
      var init, last := urls[..|urls| - 1], urls[|urls| - 1];
      assert last in urls && forall u :: u in init ==> u in urls;
      FailedDownloadsStillCounted(files, init, targetDir, server);
      var before := Replay(files, init, targetDir, server);
      var path := Destination(targetDir, last);
      assert before.files == files;
      assert AfterDownload(files, path, server(last)) == files;
      assert Replay(files, urls, targetDir, server) == if path in files
        then Tally(files, before.downloaded, before.skipped + 1)
        else Tally(AfterDownload(files, path, server(last)), before.downloaded + 1, before.skipped);
      assert CountAbsent(files, urls, targetDir) == CountAbsent(files, init, targetDir) + if path in files then 0 else 1;
    }
  }
}
