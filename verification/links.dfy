/** Link and source heuristics of the crawler: the article-link test, the
    display name derived from a source's hostname, and the feed/page dispatch
    (scripts/crawler/crawler.ts). */
module Links {
  import opened Wrappers
  import opened Seqs
  import opened Text

  /** Substrings of a lower-cased URL that mark it as not an article. */
  const ExcludePatterns: seq<string> := [
    "login", "signin", "signup", "register",
    "facebook", "twitter", "instagram", "linkedin",
    "contact", "about", "terms", "privacy",
    "javascript:", "mailto:", "tel:"
  ]

  /** Path fragments that mark a URL as an article. */
  const ArticlePatterns: seq<string> := [
    "/article/", "/post/", "/blog/", "/news/",
    "/20", "/read/", "/story/", "/content/"
  ]

  /** The lower-cased URL contains an exclusion pattern. */
  ghost predicate Excluded(url: string) {
    exists i :: 0 <= i < |ExcludePatterns| && Occurs(ExcludePatterns[i], Lower(url))
  }

  /** The URL, as written, contains an article path fragment. */
  ghost predicate HasArticlePath(url: string) {
    exists i :: 0 <= i < |ArticlePatterns| && Occurs(ArticlePatterns[i], url)
  }

  /** `isArticleLink`: an exclusion pattern always wins; otherwise an article
      path qualifies the link, and failing that a link text longer than 20
      code units does. */
  function IsArticleLink(url: string, linkText: string): (b: bool)
    ensures b <==> !Excluded(url) && (HasArticlePath(url) || |linkText| > 20)
  {
    if UrlExcluded(url) then false
    else if UrlHasArticlePath(url) then true
    else |linkText| > 20
  }

  function UrlExcluded(url: string): (b: bool)
    ensures b <==> Excluded(url)
  {
    IncludesAny(Lower(url), ExcludePatterns)
  }

  function UrlHasArticlePath(url: string): (b: bool)
    ensures b <==> HasArticlePath(url)
  {
    IncludesAny(url, ArticlePatterns)
  }

  /** `charAt(0).toUpperCase() + slice(1)`. */
  function Capitalize(w: string): (r: string)
    ensures |r| == |w|
    ensures |w| > 0 ==> r[0] == UpperChar(w[0]) && r[1..] == w[1..]
  {
    if |w| == 0 then "" else [UpperChar(w[0])] + w[1..]
  }

  /** `extractSourceName`, given what `new URL(url).hostname` yields (None
      when the constructor throws): the second-to-last dot-separated label of
      the hostname with its first letter upper-cased, the hostname itself when
      it has no dot, and the URL itself when it does not parse. */
  function ExtractSourceName(url: string, hostname: Option<string>): (r: string)
    ensures hostname.None? ==> r == url
    ensures hostname.Some? && '.' !in hostname.value ==> r == hostname.value
    ensures hostname.Some? && '.' in hostname.value ==> '.' !in r
  {
    match hostname
    case None => url
    case Some(h) =>
      var parts := SplitOn(h, '.');
      if |parts| >= 2 then
        assert '.' !in parts[|parts| - 2];
        Capitalize(parts[|parts| - 2])
      else h
  }

  /** For a hostname ending in `name.tld` (after any number of further
      labels), the source name is `name` capitalised: `www.openai.com` gives
      `Openai`, `blog.research.google` gives `Research`. */
  lemma SourceNameOfHost(url: string, pre: string, sld: string, tld: string)
    requires '.' !in sld && '.' !in tld
    requires pre == "" || pre[|pre| - 1] == '.'
    ensures ExtractSourceName(url, Some(pre + sld + "." + tld)) == Capitalize(sld)
  {
    var host := pre + sld + "." + tld;
    SplitOnPrefix(sld, '.', tld);
    assert SplitOn(tld, '.') == [tld];
    if pre == "" {
      assert host == sld + ['.'] + tld;
    } else {
      var p := pre[..|pre| - 1];
      assert host == p + ['.'] + (sld + ['.'] + tld);
      SplitOnConcat(p, '.', sld + ['.'] + tld);
    }
  }

  /** The dispatch test of `crawlContent`: a source goes to the feed fetcher
      when it contains `rss` or ends with `.xml` (both case-sensitive). */
  function IsRssSource(source: string): (b: bool)
    ensures b <==> Occurs("rss", source) || EndsWith(source, ".xml")
  {
    Includes(source, "rss") || EndsWith(source, ".xml")
  }
}
