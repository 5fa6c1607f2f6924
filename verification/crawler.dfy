/** The crawler: the feed fetcher, the web-page fetcher and the orchestrator
    that runs them over the configured sources (scripts/crawler/crawler.ts).
    Everything fetched from the network, the DOM lookups on it, the clock and
    `new URL` are inputs, gathered in `Web`. */
module Crawler {
  import opened Wrappers
  import opened Seqs
  import opened Text
  import opened Filters
  import opened Links

  /** `CrawlerConfig`. JavaScript numbers are modelled as unbounded integers. */
  datatype Config = Config(
    sources: seq<string>,
    categories: seq<string>,
    keywords: seq<string>,
    excludeKeywords: seq<string>,
    minWordCount: int,
    maxArticlesPerRun: int)

  datatype SourceRef = SourceRef(name: string, url: string)

  /** An article as the crawler emits it. */
  datatype RawArticle = RawArticle(
    title: string,
    link: string,
    pubDate: string,
    content: string,
    categories: seq<string>,
    source: SourceRef)

  /** One feed `<item>`: the text of its `title`, `link`, `pubDate` and
      `description` children, `""` for a missing child. */
  datatype FeedItem = FeedItem(title: string, link: string, pubDate: string, description: string)

  /** One `<a>` of a web page: its `href` (`""` when missing), what
      `new URL(href, page)` gives (None when it throws), and its text. */
  datatype Anchor = Anchor(href: string, resolved: Option<string>, text: string)

  /** A fetched source document, read as a feed (its items) or as a web page
      (its anchors), whichever the dispatcher chose. */
  datatype SourceDoc = SourceDoc(items: seq<FeedItem>, anchors: seq<Anchor>)

  /** A fetched article page after DOM extraction: the `h1` (else `title`)
      text, the extracted body text, and the publish date found in it
      (`""` when none). */
  datatype ArticlePage = ArticlePage(title: string, content: string, publishDate: string)

  /** What the network and the runtime answer during one run. A URL missing
      from `sources` or `pages` is one whose fetch or parse throws; a URL
      missing from `hostnames` is one `new URL` rejects; `now` is
      `new Date().toISOString()`. */
  datatype Web = Web(
    sources: map<string, SourceDoc>,
    pages: map<string, ArticlePage>,
    hostnames: map<string, string>,
    now: string)

  /** `fetchArticleContent`: the extracted body, or `""` when the fetch fails. */
  function FetchArticleContent(web: Web, url: string): (content: string)
    ensures url !in web.pages ==> content == ""
    ensures url in web.pages ==> content == web.pages[url].content
  {
    if url in web.pages then web.pages[url].content else ""
  }

  /** The source descriptor of an article: the display name derived from
      the source URL's hostname, and the URL itself. */
  function SourceOf(web: Web, url: string): (s: SourceRef)
    ensures s.url == url
    ensures url in web.hostnames ==> s.name == ExtractSourceName(url, Some(web.hostnames[url]))
    ensures url !in web.hostnames ==> s.name == url
  {
    var host := if url in web.hostnames then Some(web.hostnames[url]) else None;
    SourceRef(ExtractSourceName(url, host), url)
  }

  /** What every emitted article satisfies, whichever fetcher produced it:
      its body is long enough and its categories are the vocabulary entries
      found in its title and body. */
  ghost predicate Emittable(a: RawArticle, cfg: Config) {
    && CountWords(a.content) >= cfg.minWordCount
    && a.categories == CategorizeContent(a.title + " " + a.content, cfg.categories)
  }

  /** Both keyword filters: some include keyword occurs and no exclude
      keyword does. */
  predicate KeywordsPass(text: string, cfg: Config) {
    MatchesKeywords(text, cfg.keywords) && !ContainsExcludeKeywords(text, cfg.excludeKeywords)
  }

  /** The article a fetcher pushes once the filters passed: categorised on
      its title and body, attributed to the source it came from. */
  function Emit(title: string, link: string, pubDate: string, content: string,
                cfg: Config, web: Web, url: string): (a: RawArticle)
    ensures CountWords(content) >= cfg.minWordCount ==> Emittable(a, cfg)
    ensures a.title == title && a.link == link && a.pubDate == pubDate && a.content == content
    ensures a.source == SourceOf(web, url)
  {
    RawArticle(title, link, pubDate, content, CategorizeContent(title + " " + content, cfg.categories), SourceOf(web, url))
  }

  /** One iteration of the item loop of `crawlRssSource`. The keyword filters
      look at the title and description; the word count looks at the full
      page body, which is fetched only once both keyword filters passed. */
  function FeedCandidate(item: FeedItem, url: string, cfg: Config, web: Web): (r: Option<RawArticle>)
    ensures r.Some? <==>
      && MatchesKeywords(item.title + " " + item.description, cfg.keywords)
      && !ContainsExcludeKeywords(item.title + " " + item.description, cfg.excludeKeywords)
      && CountWords(FetchArticleContent(web, item.link)) >= cfg.minWordCount
    ensures r.Some? ==>
      && Emittable(r.value, cfg)
      && r.value.title == item.title
      && r.value.link == item.link
      && r.value.pubDate == item.pubDate
      && r.value.content == FetchArticleContent(web, item.link)
      && r.value.source == SourceOf(web, url)
  {
    var text := item.title + " " + item.description;
    if KeywordsPass(text, cfg) && CountWords(FetchArticleContent(web, item.link)) >= cfg.minWordCount then
      Some(Emit(item.title, item.link, item.pubDate, FetchArticleContent(web, item.link), cfg, web, url))
    else None
  }

  /** The filters of the article loop of `crawlWebSource` applied to one
      fetched page: the keyword filters and the categoriser look at the
      title and body; a missing publish date becomes the current time. */
  function PageCandidate(page: ArticlePage, link: string, url: string, cfg: Config, web: Web): (r: Option<RawArticle>)
    ensures r.Some? <==>
      && MatchesKeywords(page.title + " " + page.content, cfg.keywords)
      && !ContainsExcludeKeywords(page.title + " " + page.content, cfg.excludeKeywords)
      && CountWords(page.content) >= cfg.minWordCount
    ensures r.Some? ==>
      && Emittable(r.value, cfg)
      && r.value.title == page.title
      && r.value.content == page.content
      && r.value.link == link
      && (page.publishDate != "" ==> r.value.pubDate == page.publishDate)
      && (page.publishDate == "" ==> r.value.pubDate == web.now)
      && r.value.source == SourceOf(web, url)
  {
    if KeywordsPass(page.title + " " + page.content, cfg) && CountWords(page.content) >= cfg.minWordCount then
      var pubDate := if page.publishDate != "" then page.publishDate else web.now;
      Some(Emit(page.title, link, pubDate, page.content, cfg, web, url))
    else None
  }

  /** One iteration of the article loop of `crawlWebSource`: a page that
      cannot be fetched is skipped. */
  function WebCandidate(link: string, url: string, cfg: Config, web: Web): (r: Option<RawArticle>)
    ensures link !in web.pages ==> r.None?
    ensures link in web.pages ==> r == PageCandidate(web.pages[link], link, url, cfg, web)
  {
    if link !in web.pages then None else PageCandidate(web.pages[link], link, url, cfg, web)
  }

  /** The most articles one fetcher call returns: the loop stops right after
      the push that reaches the cap, so at least one article always fits. */
  function Limit(cap: int): (n: nat)
    ensures cap >= 1 ==> n == cap
    ensures cap < 1 ==> n == 1
  {
    if cap < 1 then 1 else cap
  }

  /** The push-then-check loop shared by both fetchers: keep each candidate
      that passed, and stop as soon as the number kept reaches `cap`. The
      result is the first `Limit(cap)` candidates that passed. */
  function Collect<T>(cands: seq<Option<T>>, cap: int, acc: seq<T>): seq<T>
    decreases |cands|
  {
    if |cands| == 0 then acc
    else match cands[0]
      case None => Collect(cands[1..], cap, acc)
      case Some(x) =>
        var acc' := acc + [x];
        if |acc'| >= cap then acc' else Collect(cands[1..], cap, acc')
  }

  /** The loop keeps exactly the first `Limit(cap)` candidates that passed. */
  lemma {:induction false} CollectTakesFirst<T(!new)>(cands: seq<Option<T>>, cap: int, acc: seq<T>)
    requires |acc| < Limit(cap)
    ensures Collect(cands, cap, acc) == acc + Take(Somes(cands), Limit(cap) - |acc|)
    decreases |cands|
  {
    if |cands| == 0 {
      assert Take(Somes(cands), Limit(cap) - |acc|) == [];
    } else if cands[0].None? {
      SomesCons(cands);
      assert Collect(cands, cap, acc) == Collect(cands[1..], cap, acc);
      CollectTakesFirst(cands[1..], cap, acc);
    } else if |acc| + 1 < cap {
      CollectKeepsGoing(cands, cap, acc);
      CollectTakesFirst(cands[1..], cap, acc + [cands[0].value]);
    } else {
      CollectStops(cands, cap, acc);
    }
  }

  /** A passing candidate below the cap: the loop goes on with it kept. */
  lemma CollectKeepsGoing<T(!new)>(cands: seq<Option<T>>, cap: int, acc: seq<T>)
    requires |cands| > 0 && cands[0].Some? && |acc| + 1 < cap
    ensures Collect(cands, cap, acc) == Collect(cands[1..], cap, acc + [cands[0].value])
    ensures acc + Take(Somes(cands), Limit(cap) - |acc|)
      == (acc + [cands[0].value]) + Take(Somes(cands[1..]), Limit(cap) - |acc + [cands[0].value]|)
  {
    var x := cands[0].value;
    var rest := Somes(cands[1..]);
    var n := Limit(cap) - |acc|;
    SomesCons(cands);
    assert Somes(cands) == [x] + rest;
    TakeCons(x, rest, n);
    assert (acc + [x]) + Take(rest, n - 1) == acc + ([x] + Take(rest, n - 1));
  }

  /** A passing candidate that reaches the cap: the loop stops with it. */
  lemma CollectStops<T(!new)>(cands: seq<Option<T>>, cap: int, acc: seq<T>)
    requires |cands| > 0 && cands[0].Some? && |acc| < Limit(cap) && |acc| + 1 >= cap
    ensures Collect(cands, cap, acc) == acc + Take(Somes(cands), Limit(cap) - |acc|)
  {
    var x := cands[0].value;
    var rest := Somes(cands[1..]);
    SomesCons(cands);
    assert Somes(cands) == [x] + rest;
    assert Limit(cap) - |acc| == 1;
    TakeCons(x, rest, 1);
    assert Take(rest, 0) == [];
    assert Collect(cands, cap, acc) == acc + [x];
  }

  lemma SomesCons<T(!new)>(s: seq<Option<T>>)
    requires |s| > 0
    ensures Somes(s) == (if s[0].Some? then [s[0].value] else []) + Somes(s[1..])
  {
  }

  lemma TakeCons<T>(x: T, s: seq<T>, n: int)
    ensures n >= 1 ==> Take([x] + s, n) == [x] + Take(s, n - 1)
  {
  }

  /** Everything `Collect` keeps is a candidate that passed. */
  lemma CollectFromCandidates<T(!new)>(cands: seq<Option<T>>, cap: int)
    ensures |Collect(cands, cap, [])| <= Limit(cap)
    ensures forall x :: x in Collect(cands, cap, []) ==> Some(x) in cands
  {
    var r := Collect(cands, cap, []);
    CollectTakesFirst(cands, cap, []);
    assert r == Take(Somes(cands), Limit(cap));
    forall x | x in r
      ensures Some(x) in cands
    {
      assert x in Somes(cands);
    }
  }

  /** The item loop's verdict on each feed item, in feed order. */
  function FeedCandidates(items: seq<FeedItem>, url: string, cfg: Config, web: Web): (r: seq<Option<RawArticle>>)
    ensures |r| == |items|
  {
    seq(|items|, i requires 0 <= i < |items| => FeedCandidate(items[i], url, cfg, web))
  }

  /** The article loop's verdict on each gathered link, in link order. */
  function WebCandidates(links: seq<string>, url: string, cfg: Config, web: Web): (r: seq<Option<RawArticle>>)
    ensures |r| == |links|
  {
    seq(|links|, i requires 0 <= i < |links| => WebCandidate(links[i], url, cfg, web))
  }

  /** `crawlRssSource`: the feed's candidates, cut off at the cap; a source
      that cannot be fetched yields nothing. */
  function CrawlRssSource(url: string, cfg: Config, web: Web): (r: seq<RawArticle>)
    ensures url !in web.sources ==> r == []
    ensures |r| <= Limit(cfg.maxArticlesPerRun)
    ensures forall a :: a in r ==> Emittable(a, cfg) && a.source == SourceOf(web, url)
  {
    if url !in web.sources then []
    else
      var cands := FeedCandidates(web.sources[url].items, url, cfg, web);
      CollectFromCandidates(cands, cfg.maxArticlesPerRun);
      Collect(cands, cfg.maxArticlesPerRun, [])
  }

  /** A fetched feed yields exactly its first `Limit(cap)` items that pass
      the filters, in feed order. */
  lemma RssSourceTakesFirst(url: string, cfg: Config, web: Web)
    requires url in web.sources
    ensures CrawlRssSource(url, cfg, web)
      == Take(Somes(FeedCandidates(web.sources[url].items, url, cfg, web)), Limit(cfg.maxArticlesPerRun))
  {
    var cands := FeedCandidates(web.sources[url].items, url, cfg, web);
    RssSourceCollects(url, cfg, web);
    CollectTakesFirst(cands, cfg.maxArticlesPerRun, []);
  }

  lemma RssSourceCollects(url: string, cfg: Config, web: Web)
    requires url in web.sources
    ensures CrawlRssSource(url, cfg, web)
      == Collect(FeedCandidates(web.sources[url].items, url, cfg, web), cfg.maxArticlesPerRun, [])
  {
  }

  /** The link-gathering loop of `crawlWebSource`: the resolved URL of every
      anchor with an `href` that passes `isArticleLink`, in page order. An
      `href` that `new URL` rejects throws out of the whole source (None). */
  function ArticleLinks(anchors: seq<Anchor>): (r: Option<seq<string>>)
    ensures r.None? <==> exists i :: 0 <= i < |anchors| && anchors[i].href != "" && anchors[i].resolved.None?
    decreases |anchors|
  {
    if |anchors| == 0 then Some([])
    else
      var a := anchors[0];
      var rest := ArticleLinks(anchors[1..]);
      assert forall i :: 0 < i < |anchors| ==> anchors[i] == anchors[1..][i - 1];
      if a.href == "" then rest
      else if a.resolved.None? then None
      else if rest.None? then None
      else if IsArticleLink(a.resolved.value, a.text) then Some([a.resolved.value] + rest.value)
      else rest
  }

  /** The link one anchor contributes: its resolved URL when it has an
      `href` and passes `isArticleLink`. */
  function AnchorLink(a: Anchor): (l: Option<string>)
    ensures l.Some? <==> a.href != "" && a.resolved.Some? && IsArticleLink(a.resolved.value, a.text)
    ensures l.Some? ==> l == a.resolved
  {
    if a.href != "" && a.resolved.Some? && IsArticleLink(a.resolved.value, a.text) then a.resolved else None
  }

  /** Each anchor's contribution, in page order. */
  function AnchorLinks(anchors: seq<Anchor>): (r: seq<Option<string>>)
    ensures |r| == |anchors|
  {
    seq(|anchors|, i requires 0 <= i < |anchors| => AnchorLink(anchors[i]))
  }

  /** When no `href` fails to resolve, the gathered links are the anchors'
      contributions in page order, a link repeated on the page included. */
  lemma {:induction false} ArticleLinksInOrder(anchors: seq<Anchor>)
    requires ArticleLinks(anchors).Some?
    ensures ArticleLinks(anchors).value == Somes(AnchorLinks(anchors))
    decreases |anchors|
  {
    if |anchors| > 0 {
      var rest := anchors[1..];
      ArticleLinksStep(anchors);
      ArticleLinksInOrder(rest);
      AnchorLinksStep(anchors);
    }
  }

  /** One anchor of the link-gathering loop. */
  lemma ArticleLinksStep(anchors: seq<Anchor>)
    requires |anchors| > 0 && ArticleLinks(anchors).Some?
    ensures ArticleLinks(anchors[1..]).Some?
    ensures ArticleLinks(anchors).value
      == (if AnchorLink(anchors[0]).Some? then [AnchorLink(anchors[0]).value] else []) + ArticleLinks(anchors[1..]).value
  {
    var a, rest := anchors[0], ArticleLinks(anchors[1..]);
    assert ArticleLinks(anchors) == if a.href == "" then rest
      else if a.resolved.None? then None
      else if rest.None? then None
      else if IsArticleLink(a.resolved.value, a.text) then Some([a.resolved.value] + rest.value)
      else rest;
    if a.href == "" || !IsArticleLink(a.resolved.value, a.text) {
      assert [] + rest.value == rest.value;
    }
  }

  /** One anchor of the reference. */
  lemma AnchorLinksStep(anchors: seq<Anchor>)
    requires |anchors| > 0
    ensures Somes(AnchorLinks(anchors))
      == (if AnchorLink(anchors[0]).Some? then [AnchorLink(anchors[0]).value] else []) + Somes(AnchorLinks(anchors[1..]))
  {
    var c := AnchorLinks(anchors);
    assert c[0] == AnchorLink(anchors[0]);
    assert c[1..] == AnchorLinks(anchors[1..]);
  }

  /** `l` is the resolved URL of anchor `a`, which passes `isArticleLink`. */
  predicate LinksTo(a: Anchor, l: string) {
    a.href != "" && a.resolved == Some(l) && IsArticleLink(l, a.text)
  }

  /** The gathered links are exactly the resolved anchors that pass
      `isArticleLink`. */
  lemma {:induction false} ArticleLinksMembers(anchors: seq<Anchor>, l: string)
    requires ArticleLinks(anchors).Some?
    ensures l in ArticleLinks(anchors).value <==> exists i :: 0 <= i < |anchors| && LinksTo(anchors[i], l)
    decreases |anchors|
  {
    if |anchors| > 0 {
      ArticleLinksMembers(anchors[1..], l);
      LinksToSplit(anchors, l);
    }
  }

  lemma LinksToSplit(anchors: seq<Anchor>, l: string)
    requires |anchors| > 0
    ensures (exists i :: 0 <= i < |anchors| && LinksTo(anchors[i], l)) <==>
      LinksTo(anchors[0], l) || exists i :: 0 <= i < |anchors| - 1 && LinksTo(anchors[1..][i], l)
  {
    if exists i :: 0 <= i < |anchors| && LinksTo(anchors[i], l) {
      var i :| 0 <= i < |anchors| && LinksTo(anchors[i], l);
      if i > 0 {
        assert anchors[1..][i - 1] == anchors[i];
      }
    }
    if exists i :: 0 <= i < |anchors| - 1 && LinksTo(anchors[1..][i], l) {
      var i :| 0 <= i < |anchors| - 1 && LinksTo(anchors[1..][i], l);
      assert anchors[1..][i] == anchors[i + 1];
    }
  }

  /** `crawlWebSource`: gather the article links, then visit them in order,
      cut off at the cap; a source that cannot be fetched, or whose anchors
      include an unresolvable `href`, yields nothing. */
  function CrawlWebSource(url: string, cfg: Config, web: Web): (r: seq<RawArticle>)
    ensures url !in web.sources ==> r == []
    ensures url in web.sources && ArticleLinks(web.sources[url].anchors).None? ==> r == []
    ensures |r| <= Limit(cfg.maxArticlesPerRun)
    ensures forall a :: a in r ==>
      && Emittable(a, cfg) && a.source == SourceOf(web, url)
      && MatchesKeywords(a.title + " " + a.content, cfg.keywords)
      && !ContainsExcludeKeywords(a.title + " " + a.content, cfg.excludeKeywords)
  {
    if url !in web.sources then []
    else match ArticleLinks(web.sources[url].anchors)
      case None => []
      case Some(links) =>
        var cands := WebCandidates(links, url, cfg, web);
        CollectFromCandidates(cands, cfg.maxArticlesPerRun);
        Collect(cands, cfg.maxArticlesPerRun, [])
  }

  /** A fetched web page whose links all resolve yields exactly the first
      `Limit(cap)` linked pages that pass the filters, in link order. */
  lemma WebSourceTakesFirst(url: string, cfg: Config, web: Web)
    requires url in web.sources && ArticleLinks(web.sources[url].anchors).Some?
    ensures CrawlWebSource(url, cfg, web)
      == Take(Somes(WebCandidates(ArticleLinks(web.sources[url].anchors).value, url, cfg, web)),
              Limit(cfg.maxArticlesPerRun))
  {
    var cands := WebCandidates(ArticleLinks(web.sources[url].anchors).value, url, cfg, web);
    assert CrawlWebSource(url, cfg, web) == Collect(cands, cfg.maxArticlesPerRun, []);
    CollectTakesFirst(cands, cfg.maxArticlesPerRun, []);
  }

  /** The per-source step of `crawlContent`: dispatch on the URL's shape. */
  function CrawlSource(url: string, cfg: Config, web: Web): (r: seq<RawArticle>)
    ensures r == if IsRssSource(url) then CrawlRssSource(url, cfg, web) else CrawlWebSource(url, cfg, web)
    ensures url !in web.sources ==> r == []
    ensures |r| <= Limit(cfg.maxArticlesPerRun)
    ensures forall a :: a in r ==> Emittable(a, cfg) && a.source == SourceOf(web, url)
  {
    if IsRssSource(url) then CrawlRssSource(url, cfg, web) else CrawlWebSource(url, cfg, web)
  }

  /** The source loop of `crawlContent` from a given point on: append each
      source's articles, and stop after the first source that brings the
      total to the cap or beyond. */
  function CrawlFrom(sources: seq<string>, cfg: Config, web: Web, acc: seq<RawArticle>): (r: seq<RawArticle>)
    ensures |acc| <= |r| && r[..|acc|] == acc
    ensures |acc| < cfg.maxArticlesPerRun ==> |r| <= 2 * cfg.maxArticlesPerRun - 1
    ensures forall a :: a in r ==> a in acc || (Emittable(a, cfg) && a.source.url in sources && a.source == SourceOf(web, a.source.url))
    decreases |sources|
  {
    if |sources| == 0 then acc
    else
      var acc' := acc + CrawlSource(sources[0], cfg, web);
      if |acc'| >= cfg.maxArticlesPerRun then acc'
      else
        var r := CrawlFrom(sources[1..], cfg, web, acc');
        assert r[..|acc|] == r[..|acc'|][..|acc|];
        r
  }

  /** `crawlContent`. Only sources are checked against the cap, and each
      source may bring up to the cap by itself, so a run can return up to
      `2 * maxArticlesPerRun - 1` articles (one, when the cap is below one). */
  function CrawlContent(cfg: Config, web: Web): (r: seq<RawArticle>)
    ensures cfg.maxArticlesPerRun >= 1 ==> |r| <= 2 * cfg.maxArticlesPerRun - 1
    ensures cfg.maxArticlesPerRun < 1 ==> |r| <= 1
    ensures forall a :: a in r ==> Emittable(a, cfg) && a.source.url in cfg.sources && a.source == SourceOf(web, a.source.url)
  {
    CrawlFrom(cfg.sources, cfg, web, [])
  }

  /** Reference for the source loop: every source's articles, in source
      order, as if there were no cap. */
  function AllArticles(sources: seq<string>, cfg: Config, web: Web): seq<RawArticle>
    decreases |sources|
  {
    if |sources| == 0 then [] else CrawlSource(sources[0], cfg, web) + AllArticles(sources[1..], cfg, web)
  }

  /** One step of the source loop. */
  lemma CrawlFromStep(sources: seq<string>, cfg: Config, web: Web, acc: seq<RawArticle>)
    requires |sources| > 0
    ensures var acc' := acc + CrawlSource(sources[0], cfg, web);
      CrawlFrom(sources, cfg, web, acc)
      == if |acc'| >= cfg.maxArticlesPerRun then acc' else CrawlFrom(sources[1..], cfg, web, acc')
  {
  }

  /** One step of the reference, with the articles gathered so far in front. */
  lemma AllArticlesStep(sources: seq<string>, cfg: Config, web: Web, acc: seq<RawArticle>)
    requires |sources| > 0
    ensures acc + AllArticles(sources, cfg, web)
      == (acc + CrawlSource(sources[0], cfg, web)) + AllArticles(sources[1..], cfg, web)
  {
    AppendAssoc(acc, CrawlSource(sources[0], cfg, web), AllArticles(sources[1..], cfg, web));
  }

  /** The stop rule of the source loop, with `k` the number of sources it
      read: at least the first one, each read whole; every earlier source
      left the total below the cap; and it stopped either because the
      sources ran out or because the `k`-th source brought the total to
      the cap or beyond. */
  predicate WholeSourceStop(sources: seq<string>, cfg: Config, web: Web, acc: seq<RawArticle>, k: nat) {
    && k <= |sources|
    && (|sources| > 0 ==> k >= 1)
    && CrawlFrom(sources, cfg, web, acc) == acc + AllArticles(sources[..k], cfg, web)
    && (k == |sources| || |CrawlFrom(sources, cfg, web, acc)| >= cfg.maxArticlesPerRun)
    && forall j :: 1 <= j < k ==> |acc + AllArticles(sources[..j], cfg, web)| < cfg.maxArticlesPerRun
  }

  /** Reading the first `j` sources is reading the first one and then
      `j - 1` of the rest. */
  lemma AllArticlesTake(sources: seq<string>, cfg: Config, web: Web, acc: seq<RawArticle>, j: nat)
    requires 1 <= j <= |sources|
    ensures acc + AllArticles(sources[..j], cfg, web)
      == (acc + CrawlSource(sources[0], cfg, web)) + AllArticles(sources[1..][..j - 1], cfg, web)
  {
    var t := sources[..j];
    assert t[0] == sources[0] && t[1..] == sources[1..][..j - 1];
    AllArticlesStep(t, cfg, web, acc);
  }

  /** The loop reads no source in part: it stops right after the first
      source that brings the total to the cap or beyond. */
  lemma {:induction false} CrawlFromWholeSources(sources: seq<string>, cfg: Config, web: Web, acc: seq<RawArticle>)
    ensures exists k :: WholeSourceStop(sources, cfg, web, acc, k)
    decreases |sources|
  {
    if |sources| == 0 {
      assert sources[..0] == [];
      assert acc + AllArticles([], cfg, web) == acc;
      assert WholeSourceStop(sources, cfg, web, acc, 0);
    } else {
      CrawlFromStep(sources, cfg, web, acc);
      var acc' := acc + CrawlSource(sources[0], cfg, web);
      AllArticlesTake(sources, cfg, web, acc, 1);
      assert sources[1..][..0] == [];
      assert acc' + AllArticles([], cfg, web) == acc';
      if |acc'| >= cfg.maxArticlesPerRun {
        assert WholeSourceStop(sources, cfg, web, acc, 1);
      } else {
        CrawlFromWholeSources(sources[1..], cfg, web, acc');
        var k' :| WholeSourceStop(sources[1..], cfg, web, acc', k');
        CrawlFromWholeSourcesStep(sources, cfg, web, acc, k');
      }
    }
  }

  /** The inductive step of `CrawlFromWholeSources`: a stop after `k'` of the
      remaining sources is a stop after `k' + 1` sources. */
  lemma CrawlFromWholeSourcesStep(sources: seq<string>, cfg: Config, web: Web, acc: seq<RawArticle>, k': nat)
    requires |sources| > 0
    requires |acc + CrawlSource(sources[0], cfg, web)| < cfg.maxArticlesPerRun
    requires WholeSourceStop(sources[1..], cfg, web, acc + CrawlSource(sources[0], cfg, web), k')
    ensures WholeSourceStop(sources, cfg, web, acc, k' + 1)
  {
    CrawlFromStep(sources, cfg, web, acc);
    AllArticlesTake(sources, cfg, web, acc, k' + 1);
    assert k' + 1 - 1 == k';
    forall j | 1 <= j < k' + 1
      ensures |acc + AllArticles(sources[..j], cfg, web)| < cfg.maxArticlesPerRun
    {
      EarlierSourceBelowCap(sources, cfg, web, acc, k', j);
    }
  }

  /** In that step, every source before the last one read left the total
      below the cap. */
  lemma EarlierSourceBelowCap(sources: seq<string>, cfg: Config, web: Web, acc: seq<RawArticle>, k': nat, j: nat)
    requires |sources| > 0
    requires |acc + CrawlSource(sources[0], cfg, web)| < cfg.maxArticlesPerRun
    requires WholeSourceStop(sources[1..], cfg, web, acc + CrawlSource(sources[0], cfg, web), k')
    requires 1 <= j <= k'
    ensures |acc + AllArticles(sources[..j], cfg, web)| < cfg.maxArticlesPerRun
  {
    var acc' := acc + CrawlSource(sources[0], cfg, web);
    AllArticlesTake(sources, cfg, web, acc, j);
    var i := j - 1;
    if i == 0 {
      assert sources[1..][..0] == [];
      assert acc' + AllArticles([], cfg, web) == acc';
    } else {
      assert |acc' + AllArticles(sources[1..][..i], cfg, web)| < cfg.maxArticlesPerRun;
    }
  }

  /** The source loop neither drops nor reorders: it returns a prefix of what
      the sources yield, made of whole sources, and all of it unless the cap
      was reached. */
  lemma {:induction false} CrawlFromPrefix(sources: seq<string>, cfg: Config, web: Web, acc: seq<RawArticle>)
    ensures CrawlFrom(sources, cfg, web, acc) <= acc + AllArticles(sources, cfg, web)
    ensures |CrawlFrom(sources, cfg, web, acc)| < cfg.maxArticlesPerRun ==>
      CrawlFrom(sources, cfg, web, acc) == acc + AllArticles(sources, cfg, web)
    ensures exists k :: WholeSourceStop(sources, cfg, web, acc, k)
    decreases |sources|
  {
    CrawlFromWholeSources(sources, cfg, web, acc);
    if |sources| == 0 {
      assert acc + AllArticles(sources, cfg, web) == acc;
    } else {
      CrawlFromStep(sources, cfg, web, acc);
      AllArticlesStep(sources, cfg, web, acc);
      var acc' := acc + CrawlSource(sources[0], cfg, web);
      if |acc'| < cfg.maxArticlesPerRun {
        CrawlFromPrefix(sources[1..], cfg, web, acc');
      } else {
        assert acc' <= acc' + AllArticles(sources[1..], cfg, web);
      }
    }
  }

  /** `crawlContent` returns the sources' articles in source order, cut only
      at a source boundary, and all of them when the cap is never reached. */
  lemma CrawlContentPrefix(cfg: Config, web: Web)
    ensures CrawlContent(cfg, web) <= AllArticles(cfg.sources, cfg, web)
    ensures |CrawlContent(cfg, web)| < cfg.maxArticlesPerRun ==> CrawlContent(cfg, web) == AllArticles(cfg.sources, cfg, web)
    ensures exists k :: WholeSourceStop(cfg.sources, cfg, web, [], k)
  {
    CrawlFromPrefix(cfg.sources, cfg, web, []);
    assert [] + AllArticles(cfg.sources, cfg, web) == AllArticles(cfg.sources, cfg, web);
  }

  /** Two sources, the first under the cap: both are kept whole, so the run
      returns more than the cap whenever the second source brings enough. */
  lemma TwoSourcesOvershoot(cfg: Config, web: Web)
    requires |cfg.sources| == 2
    requires |CrawlSource(cfg.sources[0], cfg, web)| < cfg.maxArticlesPerRun
    ensures CrawlContent(cfg, web) == CrawlSource(cfg.sources[0], cfg, web) + CrawlSource(cfg.sources[1], cfg, web)
  {
    var a := CrawlSource(cfg.sources[0], cfg, web);
    var rest := cfg.sources[1..];
    assert [] + a == a;
    assert CrawlFrom(cfg.sources, cfg, web, []) == CrawlFrom(rest, cfg, web, a);
    assert rest[0] == cfg.sources[1] && rest[1..] == [];
    assert CrawlFrom(rest, cfg, web, a) == a + CrawlSource(cfg.sources[1], cfg, web);
  }

  /** A source that yields nothing (for instance one whose fetch fails)
      leaves the run exactly as if it were not configured, as long as the cap
      is at least one: the loop keeps what it had and moves on. */
  lemma {:induction false} FailedSourceIsSkipped(pre: seq<string>, s: string, post: seq<string>,
                                                 cfg: Config, web: Web, acc: seq<RawArticle>)
    requires cfg.maxArticlesPerRun >= 1 && |acc| < cfg.maxArticlesPerRun
    requires CrawlSource(s, cfg, web) == []
    ensures CrawlFrom(pre + [s] + post, cfg, web, acc) == CrawlFrom(pre + post, cfg, web, acc)
    decreases |pre|
  {
    if |pre| == 0 {
      var all := pre + [s] + post;
      assert all[0] == s && all[1..] == post;
      assert acc + CrawlSource(all[0], cfg, web) == acc;
      assert pre + post == post;
    } else {
      var acc' := acc + CrawlSource(pre[0], cfg, web);
      assert (pre + [s] + post)[1..] == pre[1..] + [s] + post;
      assert (pre + post)[1..] == pre[1..] + post;
      if |acc'| < cfg.maxArticlesPerRun {
        FailedSourceIsSkipped(pre[1..], s, post, cfg, web, acc');
      }
    }
  }

  /** With a cap below one the run stops after the first source, even one
      that failed. */
  lemma CapBelowOneStopsAfterFirstSource(cfg: Config, web: Web)
    requires cfg.maxArticlesPerRun < 1 && |cfg.sources| > 0
    ensures CrawlContent(cfg, web) == CrawlSource(cfg.sources[0], cfg, web)
  {
  }
}
