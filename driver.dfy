/**
  The scraper's top level (scrape.py:36-103): fetch the start page, collect the sidebar links,
  keep the first four, and for each one save the page with its stylesheets and scripts.
*/
module Driver {
  import opened Options
  import opened PosixPath
  import opened Html
  import opened Fetch
  import opened Config
  import Assets
  import PageMap
  import Rewrite

  /** How a run ends: after the last link, at an `exit()`, or by an uncaught exception. */
  datatype Ending = Completed | Exited | Crashed

  /** An HTML file the run writes: its path and the page's tags after rewriting. */
  datatype SavedPage = SavedPage(path: string, tags: seq<Tag>)

  /** What a run leaves behind: how it ended, and the pages and asset files it wrote, in order. */
  datatype Log = Log(ending: Ending, pages: seq<SavedPage>, assets: seq<string>)

  /**
    One iteration of the page loop: the page is skipped (`continue`), written, or an exception
    escapes after the assets already downloaded for it.
  */
  datatype PageResult = Skipped | Written(page: SavedPage, saved: seq<string>) | Raised(saved: seq<string>)

  /** `[urljoin(start_url, a['href']) for a in nav.find_all("a", href=True)]` */
  function NavLinks(web: Web, anchors: seq<Anchor>): (r: seq<Url>)
    ensures |r| <= |anchors|
  {
    if anchors == [] then []
    else
      var rest := NavLinks(web, anchors[1..]);
      match anchors[0].href
      case None => rest
      case Some(h) => [web.resolve(StartUrl, h)] + rest
  }

  /** `links[:4]`: the first four links, or all of them when there are fewer, in order. */
  function Capped(links: seq<Url>): (r: seq<Url>)
    ensures |r| <= LinkLimit && |r| <= |links|
    ensures |r| == LinkLimit || |r| == |links|
    ensures r == links[..|r|]
  {
    if |links| <= LinkLimit then links else links[..LinkLimit]
  }

  /** The body of the page loop (scrape.py:63-101) for one link. */
  function ScrapePage(web: Web, cwd: seq<string>, link: Url): PageResult {
    if link.text !in web.responses then Raised([])
    else if web.responses[link.text].status != 200 then Skipped
    else match PageMap.PagePath(link.path, cwd)
      case Failure(_) => Raised([])
      case Success(htmlPath) =>
        var offset := PageMap.RootOffset(htmlPath, cwd);
        var tags := web.responses[link.text].page.tags;
        var saved := Rewrite.RewriteSaved(web, link.text, offset, tags);
        if Assets.NamesDirectory(Basename(htmlPath)) || htmlPath in web.unwritable then Raised(saved)
        else Written(SavedPage(htmlPath, Rewrite.RewriteAll(web, link.text, offset, tags)), saved)
  }

  /** The log after one more iteration. */
  function Step(log: Log, res: PageResult): Log {
    match res
    case Skipped => log
    case Written(p, a) => Log(log.ending, log.pages + [p], log.assets + a)
    case Raised(a) => Log(Crashed, log.pages, log.assets + a)
  }

  /** The iteration results for each link, in order; each iteration depends only on its own link. */
  function Results(web: Web, cwd: seq<string>, links: seq<Url>): (r: seq<PageResult>)
    ensures |r| == |links|
  {
    seq(|links|, i requires 0 <= i < |links| => ScrapePage(web, cwd, links[i]))
  }

  /** The page loop over the iterations' results, from the log so far; it stops at the first exception. */
  function Crawl(results: seq<PageResult>, log: Log): Log
    decreases |results|
  {
    if results == [] || log.ending != Completed then log
    else Crawl(results[1..], Step(log, results[0]))
  }

  /** The whole run (scrape.py:36-103). */
  function RunSpec(web: Web, cwd: seq<string>): Log {
    if StartUrl !in web.responses then Log(Crashed, [], [])
    else if web.responses[StartUrl].status != 200 then Log(Exited, [], [])
    else match web.responses[StartUrl].page.sidebar
      case None => Log(Exited, [], [])
      case Some(anchors) => Crawl(Results(web, cwd, Capped(NavLinks(web, anchors))), Log(Completed, [], []))
  }

  /** scrape.py:63-101 for one link: fetch, map the path, rewrite the tags in place, save. */
  method ScrapeOne(web: Web, cwd: seq<string>, link: Url) returns (res: PageResult)
    ensures res == ScrapePage(web, cwd, link)
  {
    if link.text !in web.responses {
      return Raised([]);
    }
    var response := web.responses[link.text];
    if response.status != 200 {
      return Skipped;
    }
    var htmlFilePath := PageMap.PagePath(link.path, cwd);
    if htmlFilePath.Failure? {
      return Raised([]);
    }
    var htmlPath := htmlFilePath.value;
    var relativeToRoot := PageMap.RootOffset(htmlPath, cwd);
    var tags, saved := RewriteParsed(web, link.text, relativeToRoot, response.page.tags);
    if Assets.NamesDirectory(Basename(htmlPath)) || htmlPath in web.unwritable {
      return Raised(saved);
    }
    res := Written(SavedPage(htmlPath, tags), saved);
  }

  /** scrape.py:83-97: parse the page into a fresh tree of tags and run both rewrite loops on it. */
  method RewriteParsed(web: Web, page: string, offset: string, ts: seq<Tag>) returns (tags: seq<Tag>, saved: seq<string>)
    ensures tags == Rewrite.RewriteAll(web, page, offset, ts)
    ensures saved == Rewrite.RewriteSaved(web, page, offset, ts)
  {
    var soup := new Tag[|ts|](i requires 0 <= i < |ts| => ts[i]);
    assert soup[..] == ts;
    saved := Rewrite.RewritePage(soup, web, page, offset);
    tags := soup[..];
  }

  /** The scraper run: the start page, the sidebar, and the loop over the capped links. */
  method Run(web: Web, cwd: seq<string>) returns (log: Log)
    ensures log == RunSpec(web, cwd)
  {
    if StartUrl !in web.responses {
      return Log(Crashed, [], []);
    }
    var response := web.responses[StartUrl];
    if response.status != 200 {
      return Log(Exited, [], []);
    }
    if response.page.sidebar.None? {
      return Log(Exited, [], []);
    }
    var links := Capped(NavLinks(web, response.page.sidebar.value));
    ghost var results := Results(web, cwd, links);
    log := Log(Completed, [], []);
    var i := 0;
    while i < |links|
      invariant 0 <= i <= |links| && log.ending == Completed
      invariant Crawl(results[i..], log) == RunSpec(web, cwd)
      decreases |links| - i
    {
      assert results[i..][1..] == results[i + 1..];
      var res := ScrapeOne(web, cwd, links[i]);
      assert res == results[i];
      match res {
        case Skipped =>
        case Written(p, a) =>
          log := Log(Completed, log.pages + [p], log.assets + a);
        case Raised(a) =>
          return Log(Crashed, log.pages, log.assets + a);
      }
      i := i + 1;
    }
  }

  // ---------------------------------------------------------------------------
  // Properties

  /** The links of two runs of anchors are the links of the first followed by those of the second. */
  lemma {:induction false} NavLinksConcat(web: Web, a: seq<Anchor>, b: seq<Anchor>)
    ensures NavLinks(web, a + b) == NavLinks(web, a) + NavLinks(web, b)
  {
    if a != [] {
      assert (a + b)[0] == a[0];
      assert (a + b)[1..] == a[1..] + b;
      NavLinksConcat(web, a[1..], b);
    } else {
      assert a + b == b;
    }
  }

  /** Anchors that all carry an href give one link each, resolved against the start URL, in order. */
  lemma {:induction false} NavLinksOfHrefs(web: Web, anchors: seq<Anchor>)
    requires forall i :: 0 <= i < |anchors| ==> anchors[i].href.Some?
    ensures |NavLinks(web, anchors)| == |anchors|
    ensures forall i :: 0 <= i < |anchors| ==> NavLinks(web, anchors)[i] == web.resolve(StartUrl, anchors[i].href.value)
  {
    if anchors != [] {
      var rest := anchors[1..];
      assert forall i :: 0 <= i < |rest| ==> rest[i] == anchors[i + 1];
      NavLinksOfHrefs(web, rest);
    }
  }

  /** An anchor without an href contributes nothing. */
  lemma NavLinksSkipsBare(web: Web, a: seq<Anchor>, b: seq<Anchor>)
    ensures NavLinks(web, a + [Anchor(None)] + b) == NavLinks(web, a) + NavLinks(web, b)
  {
    NavLinksConcat(web, a + [Anchor(None)], b);
    NavLinksConcat(web, a, [Anchor(None)]);
    assert NavLinks(web, [Anchor(None)]) == [];
  }

  /** The loop only adds pages after those written before, at most one per iteration. */
  lemma {:induction false} CrawlExtendsPages(results: seq<PageResult>, log: Log)
    decreases |results|
    ensures log.pages <= Crawl(results, log).pages
    ensures |Crawl(results, log).pages| <= |log.pages| + |results|
  {
    if results != [] && log.ending == Completed {
      CrawlExtendsPages(results[1..], Step(log, results[0]));
    }
  }

  /** The loop only adds asset files after those written before. */
  lemma {:induction false} CrawlExtendsAssets(results: seq<PageResult>, log: Log)
    decreases |results|
    ensures log.assets <= Crawl(results, log).assets
  {
    if results != [] && log.ending == Completed {
      CrawlExtendsAssets(results[1..], Step(log, results[0]));
    }
  }

  /** A run writes at most four HTML pages (scrape.py:57). */
  lemma RunWritesAtMostFourPages(web: Web, cwd: seq<string>)
    ensures |RunSpec(web, cwd).pages| <= LinkLimit
  {
    if StartUrl in web.responses && web.responses[StartUrl].status == 200 {
      match web.responses[StartUrl].page.sidebar {
        case None =>
        case Some(anchors) =>
          CrawlExtendsPages(Results(web, cwd, Capped(NavLinks(web, anchors))), Log(Completed, [], []));
      }
    }
  }

  /** Every asset file in the log lies directly in scraped_site/css or scraped_site/js. */
  predicate AssetsInFolders(log: Log) {
    forall p :: p in log.assets ==> Rewrite.InFolder(p, Rewrite.Stylesheet) || Rewrite.InFolder(p, Rewrite.Script)
  }

  /** The files an iteration saved all lie in css/ or js/. */
  predicate ResultInFolders(res: PageResult) {
    res.Skipped? || forall p :: p in res.saved ==> Rewrite.InFolder(p, Rewrite.Stylesheet) || Rewrite.InFolder(p, Rewrite.Script)
  }

  /** One iteration saves asset files only in css/ and js/. */
  lemma ScrapePageInFolders(web: Web, cwd: seq<string>, link: Url)
    ensures ResultInFolders(ScrapePage(web, cwd, link))
  {
    if link.text in web.responses && web.responses[link.text].status == 200 && PageMap.PagePath(link.path, cwd).Success? {
      var htmlPath := PageMap.PagePath(link.path, cwd).value;
      Rewrite.RewriteSavedInFolders(web, link.text, PageMap.RootOffset(htmlPath, cwd), web.responses[link.text].page.tags);
    }
  }

  /**
    A page whose path resolves to /docs/0.53.13 itself is to be written at scraped_site/.,
    a directory: the open raises after its assets were saved, and the run crashes there.
  */
  lemma DocsRootPageRaises(web: Web, cwd: seq<string>, link: Url)
    requires link.text in web.responses && web.responses[link.text].status == 200
    requires link.path != "" && Resolved(link.path, cwd) == DocsRootComps
    ensures var htmlPath := OutputDir + [Sep] + CurDir;
      ScrapePage(web, cwd, link) == Raised(Rewrite.RewriteSaved(web, link.text, PageMap.RootOffset(htmlPath, cwd), web.responses[link.text].page.tags))
  {
    PageMap.PagePathOfDocsRoot(link.path, cwd);
    PageMap.OutputDirIsOrdinary();
    DirnameBasenameOfSepConcat(OutputDir, CurDir);
  }

  /** When every iteration keeps its files in css/ and js/, so does the whole loop. */
  lemma {:induction false} CrawlInFolders(results: seq<PageResult>, log: Log)
    requires AssetsInFolders(log)
    requires forall r :: r in results ==> ResultInFolders(r)
    decreases |results|
    ensures AssetsInFolders(Crawl(results, log))
  {
    if results != [] && log.ending == Completed {
      assert results[0] in results;
      CrawlInFolders(results[1..], Step(log, results[0]));
    }
  }

  /** Every asset file a run writes lies directly in scraped_site/css or scraped_site/js. */
  lemma RunAssetsInFolders(web: Web, cwd: seq<string>)
    ensures AssetsInFolders(RunSpec(web, cwd))
  {
    if StartUrl in web.responses && web.responses[StartUrl].status == 200 {
      match web.responses[StartUrl].page.sidebar {
        case None =>
        case Some(anchors) =>
          var links := Capped(NavLinks(web, anchors));
          var results := Results(web, cwd, links);
          forall r | r in results
            ensures ResultInFolders(r)
          {
            var j :| 0 <= j < |results| && results[j] == r;
            ScrapePageInFolders(web, cwd, links[j]);
          }
          CrawlInFolders(results, Log(Completed, [], []));
      }
    }
  }

  /**
    The loop, started normally, never ends by `exit()`, and ends by an exception exactly when
    one of the iterations raises.
  */
  lemma {:induction false} CrawlCrashesIff(results: seq<PageResult>, log: Log)
    requires log.ending == Completed
    decreases |results|
    ensures Crawl(results, log).ending != Exited
    ensures Crawl(results, log).ending == Crashed <==> exists r :: r in results && r.Raised?
  {
    if results != [] {
      if results[0].Raised? {
        assert results[0] in results;
      } else {
        CrawlCrashesIff(results[1..], Step(log, results[0]));
        assert results == [results[0]] + results[1..];
      }
    }
  }

  /**
    A run ends by `exit()` exactly when the start page is fetched with a non-200 status or has no
    sidebar, and then it has written nothing.
  */
  lemma RunExitsIff(web: Web, cwd: seq<string>)
    ensures RunSpec(web, cwd).ending == Exited <==>
      StartUrl in web.responses && (web.responses[StartUrl].status != 200 || web.responses[StartUrl].page.sidebar.None?)
    ensures RunSpec(web, cwd).ending == Exited ==> RunSpec(web, cwd).pages == [] && RunSpec(web, cwd).assets == []
  {
    if StartUrl in web.responses && web.responses[StartUrl].status == 200 {
      match web.responses[StartUrl].page.sidebar {
        case None =>
        case Some(anchors) =>
          CrawlCrashesIff(Results(web, cwd, Capped(NavLinks(web, anchors))), Log(Completed, [], []));
      }
    }
  }

  /** The page one iteration writes, if any. */
  function PagesOf(res: PageResult): (r: seq<SavedPage>)
    ensures |r| <= 1
  {
    if res.Written? then [res.page] else []
  }

  /** The pages the iterations write, in order. */
  function WrittenPages(results: seq<PageResult>): (r: seq<SavedPage>)
    decreases |results|
    ensures |r| <= |results|
  {
    if results == [] then [] else PagesOf(results[0]) + WrittenPages(results[1..])
  }

  /** An iteration that does not raise keeps the loop going and appends its page. */
  lemma StepContinues(log: Log, res: PageResult)
    requires log.ending == Completed && !res.Raised?
    ensures Step(log, res).ending == Completed
    ensures Step(log, res).pages == log.pages + PagesOf(res)
  {
  }

  /** When no iteration raises, the loop runs to the end and writes every written page, in order. */
  lemma {:induction false} CrawlWritesAll(results: seq<PageResult>, log: Log)
    requires log.ending == Completed
    requires forall r :: r in results ==> !r.Raised?
    decreases |results|
    ensures Crawl(results, log).ending == Completed
    ensures Crawl(results, log).pages == log.pages + WrittenPages(results)
  {
    if results != [] {
      assert results[0] in results;
      StepContinues(log, results[0]);
      CrawlWritesAll(results[1..], Step(log, results[0]));
      assert WrittenPages(results) == PagesOf(results[0]) + WrittenPages(results[1..]);
      AppendAssoc(log.pages, PagesOf(results[0]), WrittenPages(results[1..]));
    }
  }

  /** When every iteration writes its page, the pages are those of the iterations, one each, in order. */
  lemma {:induction false} WrittenPagesAll(results: seq<PageResult>)
    requires forall j :: 0 <= j < |results| ==> results[j].Written?
    decreases |results|
    ensures |WrittenPages(results)| == |results|
    ensures forall j :: 0 <= j < |results| ==> WrittenPages(results)[j] == results[j].page
  {
    if results != [] {
      var rest := results[1..];
      assert forall j :: 0 <= j < |rest| ==> rest[j] == results[j + 1];
      WrittenPagesAll(rest);
    }
  }
}
