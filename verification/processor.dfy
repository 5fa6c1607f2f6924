/** The article processor (processor.ts): tag generation, the cover-image
    path, and the assembly of the processed record. The HTML clean-up, the
    HTML-to-Markdown conversion, the cover-image selector search, the image
    download, `new URL`, the file write and `uuidv4` are inputs. */
module Processor {
  import opened Wrappers
  import opened Seqs
  import opened Text
  import opened Filters
  import opened Slugs
  import opened Markdown
  import opened Crawler

  /** The fixed tag vocabulary of `generateTags`, in its order. */
  const CommonTags: seq<string> := [
    "OpenAI", "GPT", "ChatGPT", "GPT-4", "GPT-5",
    "Gemini", "Claude", "Llama", "Mistral", "Anthropic",
    "AI", "人工智能", "機器學習", "深度學習", "神經網絡",
    "LLM", "大語言模型", "Transformer", "生成式AI",
    "NLP", "自然語言處理", "電腦視覺", "強化學習",
    "TensorFlow", "PyTorch", "Hugging Face", "NVIDIA",
    "AGI", "通用人工智能", "AI安全", "AI倫理"
  ]

  /** The most tags an article gets. */
  const MaxTags: nat := 5

  /** The excerpt length `processArticle` asks for (the default argument). */
  const ExcerptLength: nat := 200

  /** The tag selection of `generateTags` over any vocabulary: the entries
      whose lower-cased form occurs in the lower-cased text, deduplicated,
      in vocabulary order, at most `max` of them. */
  function SelectTags(text: string, vocabulary: seq<string>, max: nat): (r: seq<string>)
    ensures |r| <= max
    ensures Unique(r)
    ensures IsSubseq(r, vocabulary)
    ensures forall t :: t in r ==> t in vocabulary && Occurs(Lower(t), Lower(text))
  {
    var matched := CategorizeContent(text, vocabulary);
    var d := Distinct(matched);
    var r := Take(d, max);
    PrefixIsSubseq(d, |r|);
    SubseqTrans(r, d, matched);
    SubseqTrans(r, matched, vocabulary);
    assert forall t :: t in r ==> t in d;
    r
  }

  /** `slice(0, max)` keeps the FIRST matching entries: one that is left
      out finds all `max` places taken by entries met before it in the
      vocabulary. */
  lemma SelectTagsComplete(text: string, vocabulary: seq<string>, max: nat, t: string)
    requires t in vocabulary && Occurs(Lower(t), Lower(text))
    ensures var r := SelectTags(text, vocabulary, max);
      t in r || (|r| == max && forall u :: u in r ==> FirstIndex(vocabulary, u) < FirstIndex(vocabulary, t))
  {
    var m := CategorizeContent(text, vocabulary);
    var d := Distinct(m);
    var r := SelectTags(text, vocabulary, max);
    assert r == d[..|r|];
    if t !in r {
      assert t in d;
      var k :| 0 <= k < |d| && d[k] == t;
      assert k >= |r|;
      forall u | u in r
        ensures FirstIndex(vocabulary, u) < FirstIndex(vocabulary, t)
      {
        var i :| 0 <= i < |r| && r[i] == u;
        assert d[i] == u;
        DistinctFromOrder(m, {}, i, k);
        CategorizeContentOrder(text, vocabulary, u, t);
      }
    }
  }

  /** The tags come in the vocabulary's order of first occurrences. */
  lemma SelectTagsInOrder(text: string, vocabulary: seq<string>, max: nat, i: nat, j: nat)
    requires i < j < |SelectTags(text, vocabulary, max)|
    ensures FirstIndex(vocabulary, SelectTags(text, vocabulary, max)[i])
          < FirstIndex(vocabulary, SelectTags(text, vocabulary, max)[j])
  {
    var m := CategorizeContent(text, vocabulary);
    var d := Distinct(m);
    var r := SelectTags(text, vocabulary, max);
    assert r == d[..|r|];
    assert r[i] == d[i] && r[j] == d[j];
    DistinctFromOrder(m, {}, i, j);
    CategorizeContentOrder(text, vocabulary, d[i], d[j]);
  }

  /** `generateTags`: at most five tags of the fixed vocabulary, each one
      found in the text, without repeats, in vocabulary order. */
  function GenerateTags(text: string): (r: seq<string>)
    ensures |r| <= MaxTags
    ensures Unique(r)
    ensures IsSubseq(r, CommonTags)
    ensures forall t :: t in r ==> t in CommonTags && Occurs(Lower(t), Lower(text))
  {
    SelectTags(text, CommonTags, MaxTags)
  }

  /** A vocabulary tag found in the text is missing only when five tags
      that come before it in the vocabulary were taken. */
  lemma GenerateTagsComplete(text: string, t: string)
    requires t in CommonTags && Occurs(Lower(t), Lower(text))
    ensures var r := GenerateTags(text);
      t in r || (|r| == MaxTags && forall u :: u in r ==> FirstIndex(CommonTags, u) < FirstIndex(CommonTags, t))
  {
    SelectTagsComplete(text, CommonTags, MaxTags, t);
  }

  /** What `new URL(link)` gives for the article's own link. */
  datatype PageUrl = PageUrl(protocol: string, host: string)

  /** The URL-absolutisation step of `extractCoverImage`. A root-relative
      path gets the article's `protocol//host` in front (None when the
      article link does not parse); anything not starting with `http` is
      resolved against the article link (`resolved`, None when that
      throws); the rest is kept. */
  function AbsoluteImageUrl(imageUrl: string, page: Option<PageUrl>, resolved: Option<string>): (r: Option<string>)
    ensures StartsWith(imageUrl, "/") ==> (r.Some? <==> page.Some?)
    ensures StartsWith(imageUrl, "/") && page.Some? ==>
      r == Some(page.value.protocol + "//" + page.value.host + imageUrl)
    ensures !StartsWith(imageUrl, "/") && StartsWith(imageUrl, "http") ==> r == Some(imageUrl)
    ensures !StartsWith(imageUrl, "/") && !StartsWith(imageUrl, "http") ==> r == resolved
  {
    if StartsWith(imageUrl, "/") then
      match page
      case None => None
      case Some(p) =>
        Some(p.protocol + "//" + p.host + imageUrl)
    else if !StartsWith(imageUrl, "http") then resolved
    else Some(imageUrl)
  }

  /** A protocol-relative image URL (`//cdn.example/a.png`) starts with `/`,
      so it is treated as a path on the article's own host and gets that
      host prepended, not just the protocol. */
  lemma ProtocolRelativeGetsHostPrefix(p: PageUrl, rest: string, resolved: Option<string>)
    ensures AbsoluteImageUrl("//" + rest, Some(p), resolved) == Some(p.protocol + "//" + p.host + "//" + rest)
  {
    var u := "//" + rest;
    assert StartsWith(u, "/");
    assert p.protocol + "//" + p.host + u == p.protocol + "//" + p.host + "//" + rest;
  }

  /** The extension of the saved image: the second `/`-separated field of
      the `content-type` header, or the text `undefined` when it has no `/`
      (JavaScript renders the missing field that way in the template). */
  function ImageExtension(contentType: string): (ext: string)
    ensures '/' !in ext
    ensures '/' !in contentType ==> ext == "undefined"
  {
    var parts := SplitOn(contentType, '/');
    if |parts| >= 2 then parts[1]
    else
      assert forall i :: 0 <= i < |"undefined"| ==> "undefined"[i] != '/';
      "undefined"
  }

  /** A media type `type/subtype` gives its subtype back as the extension. */
  lemma MediaTypeExtension(mediaType: string, subtype: string)
    requires '/' !in mediaType && '/' !in subtype
    ensures ImageExtension(mediaType + "/" + subtype) == subtype
  {
    SplitOnPrefix(mediaType, '/', subtype);
    assert mediaType + "/" + subtype == mediaType + ['/'] + subtype;
    assert IndexOf(subtype, '/') == |subtype|;
  }

  /** What `extractCoverImage` reads from outside: the first non-empty image
      URL the selector search finds (`""` when none), `new URL(link)` for
      the article, `new URL(image, link).href` per image URL (missing when
      it throws), the `content-type` of each downloadable image URL
      (missing when the download fails or has no such header), the fresh
      uuid, and whether the file write succeeded. */
  datatype CoverInputs = CoverInputs(
    candidate: string,
    page: Option<PageUrl>,
    resolved: map<string, string>,
    contentTypes: map<string, string>,
    imageId: string,
    saved: bool)

  /** The public path the image is saved under. */
  function ImagePath(imageId: string, ext: string): (path: string)
    ensures StartsWith(path, "/images/posts/")
    ensures |path| == 15 + |imageId| + |ext|
    ensures path[14..14 + |imageId|] == imageId && path[14 + |imageId|] == '.'
    ensures path[15 + |imageId|..] == ext
  {
    var path := "/images/posts/" + imageId + "." + ext;
    assert path[..14] == "/images/posts/";
    assert path[14..14 + |imageId|] == imageId;
    assert path[15 + |imageId|..] == ext;
    path
  }

  /** `extractCoverImage`: None (`undefined`) when no image URL was found or
      any step after it throws; otherwise the public path of the saved
      image. */
  function CoverImage(inputs: CoverInputs): (r: Option<string>)
    ensures inputs.candidate == "" ==> r.None?
    ensures !inputs.saved ==> r.None?
    ensures r.Some? ==>
      exists abs ::
        && abs in inputs.contentTypes
        && AbsoluteImageUrl(inputs.candidate, inputs.page, LookUp(inputs.resolved, inputs.candidate)) == Some(abs)
        && r.value == ImagePath(inputs.imageId, ImageExtension(inputs.contentTypes[abs]))
    ensures forall abs ::
      && inputs.candidate != ""
      && AbsoluteImageUrl(inputs.candidate, inputs.page, LookUp(inputs.resolved, inputs.candidate)) == Some(abs)
      && abs in inputs.contentTypes
      && inputs.saved
      ==> r == Some(ImagePath(inputs.imageId, ImageExtension(inputs.contentTypes[abs])))
  {
    if inputs.candidate == "" then None
    else match AbsoluteImageUrl(inputs.candidate, inputs.page, LookUp(inputs.resolved, inputs.candidate))
      case None => None
      case Some(abs) =>
        if abs !in inputs.contentTypes || !inputs.saved then None
        else Some(ImagePath(inputs.imageId, ImageExtension(inputs.contentTypes[abs])))
  }

  function LookUp(m: map<string, string>, k: string): (r: Option<string>)
    ensures r.Some? <==> k in m
    ensures r.Some? ==> r.value == m[k]
  {
    if k in m then Some(m[k]) else None
  }

  /** `ProcessedArticle`; `coverImage` is None when undefined. */
  datatype ProcessedArticle = ProcessedArticle(
    title: string,
    slug: string,
    pubDate: string,
    excerpt: string,
    content: string,
    categories: seq<string>,
    tags: seq<string>,
    coverImage: Option<string>,
    source: SourceRef)

  /** `processArticle`, given the Markdown the converter produced from the
      cleaned body and what the cover-image search reads. */
  function ProcessArticle(a: RawArticle, markdown: string, cover: CoverInputs): (p: ProcessedArticle)
    ensures p.title == a.title && p.pubDate == a.pubDate
    ensures p.categories == a.categories && p.source == a.source
    ensures p.content == markdown
    ensures p.slug == Slug(a.title)
    ensures p.excerpt == ExtractExcerpt(markdown, ExcerptLength)
    ensures p.tags == GenerateTags(a.title + " " + markdown)
    ensures p.coverImage == CoverImage(cover)
    ensures |p.slug| <= 50 && p.slug <= NameSlug(a.title)
    ensures |p.excerpt| <= ExcerptLength + 3 && '*' !in p.excerpt && '\n' !in p.excerpt
    ensures |p.tags| <= MaxTags && Unique(p.tags) && IsSubseq(p.tags, CommonTags)
  {
    ProcessedArticle(
      a.title,
      Slug(a.title),
      a.pubDate,
      ExtractExcerpt(markdown, ExcerptLength),
      markdown,
      a.categories,
      GenerateTags(a.title + " " + markdown),
      CoverImage(cover),
      a.source)
  }
}
