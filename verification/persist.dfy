/** The persistence side of the crawler run (scripts/crawler/main.ts): the
    file name and front matter of each article, the per-article loop that
    skips an article whose processing throws, and the category and tag
    index update after each saved article. The file system, `uuidv4` and
    `new Date(...).toISOString()` are inputs: a `Store` holds what is on
    disk, an `ArticleIo` what the outside world answers for one article. */
module Persist {
  import opened Wrappers
  import opened Seqs
  import opened Text
  import opened Slugs
  import opened Crawler
  import opened Processor
  import opened ContentIndex

  /** The crawler configuration the run uses. */
  const RunConfig: Config := Config(
    [ "https://openai.com/blog",
      "https://blog.research.google",
      "https://ai.meta.com/blog/",
      "https://www.microsoft.com/en-us/ai/blog",
      "https://huggingface.co/blog",
      "https://www.deeplearning.ai/blog/",
      "https://pytorch.org/blog/",
      "https://www.tensorflow.org/blog",
      "https://aws.amazon.com/blogs/machine-learning/",
      "https://blogs.nvidia.com/blog/category/deep-learning/" ],
    ["AI", "機器學習", "深度學習", "大語言模型", "電腦視覺", "自然語言處理", "強化學習"],
    [ "AI", "人工智能", "機器學習", "LLM", "GPT", "深度學習",
      "神經網絡", "大模型", "Transformer", "生成式AI",
      "ChatGPT", "Gemini", "Claude", "Llama", "Mistral" ],
    ["廣告", "贊助", "招聘", "訂閱"],
    500,
    5)

  /** `toISOString().split('T')[0]`: the text before the first `T`. */
  function DatePart(iso: string): (d: string)
    ensures 'T' !in d
    ensures d <= iso
    ensures |d| < |iso| ==> iso[|d|] == 'T'
  {
    var k := IndexOf(iso, 'T');
    assert SplitOn(iso, 'T')[0] == iso[..k];
    SplitOn(iso, 'T')[0]
  }

  /** An ISO timestamp `date` + `T` + `time` gives its date back. */
  lemma DateOfTimestamp(date: string, time: string)
    requires 'T' !in date
    ensures DatePart(date + "T" + time) == date
  {
    assert date + "T" + time == date + ['T'] + time;
    IndexOfConcat(date, 'T', time);
  }

  /** The file name `${dateStr}-${slug}.md`. */
  function FileName(iso: string, title: string): (f: string)
    ensures StartsWith(f, DatePart(iso) + "-")
    ensures EndsWith(f, ".md")
    ensures |f| <= |iso| + 54
  {
    var d := DatePart(iso);
    var f := d + "-" + Slug(title) + ".md";
    assert f[..|d| + 1] == d + "-";
    assert f[|f| - 3..] == ".md";
    f
  }

  /** The slug in the file name is the slug the processor gave the article,
      since both are derived from the same title by the same transform. */
  lemma FileNameUsesProcessedSlug(iso: string, a: RawArticle, markdown: string, cover: CoverInputs)
    ensures FileName(iso, ProcessArticle(a, markdown, cover).title)
      == DatePart(iso) + "-" + ProcessArticle(a, markdown, cover).slug + ".md"
  {
  }

  /** `.replace(/"/g, '\\"')`: a backslash in front of every double quote. */
  function EscapeQuotes(s: string): (r: string)
    ensures |r| == |s| + multiset(s)['"']
    ensures |r| > 0 ==> r[0] != '"'
    ensures forall i :: 0 < i < |r| && r[i] == '"' ==> r[i - 1] == '\\'
    decreases |s|
  {
    if |s| == 0 then ""
    else
      var rest := EscapeQuotes(s[1..]);
      assert s == [s[0]] + s[1..];
      var head := if s[0] == '"' then "\\\"" else [s[0]];
      var r := head + rest;
      assert forall i :: |head| <= i < |r| ==> r[i] == rest[i - |head|];
      r
  }

  /** How a reader of a double-quoted value undoes the escaping: `\"`
      stands for `"`, every other character for itself. */
  function Unescape(t: string): (s: string)
    decreases |t|
  {
    if |t| == 0 then ""
    else if |t| >= 2 && t[0] == '\\' && t[1] == '"' then "\"" + Unescape(t[2..])
    else [t[0]] + Unescape(t[1..])
  }

  /** Escaping loses nothing: reading the escaped text gives the text back,
      backslashes included. */
  lemma {:induction false} UnescapeEscape(s: string)
    ensures Unescape(EscapeQuotes(s)) == s
    decreases |s|
  {
    if |s| > 0 {
      UnescapeEscape(s[1..]);
      var rest := EscapeQuotes(s[1..]);
      EscapeCons(s);
      if s[0] == '"' {
        UnescapeQuote(rest);
      } else {
        UnescapeChar(s[0], rest);
      }
      assert [s[0]] + s[1..] == s;
    }
  }

  lemma EscapeCons(s: string)
    requires |s| > 0
    ensures EscapeQuotes(s) == (if s[0] == '"' then "\\\"" else [s[0]]) + EscapeQuotes(s[1..])
  {
  }

  lemma UnescapeQuote(rest: string)
    ensures Unescape("\\\"" + rest) == "\"" + Unescape(rest)
  {
    assert ("\\\"" + rest)[2..] == rest;
  }

  lemma UnescapeChar(c: char, rest: string)
    requires c != '"'
    requires |rest| > 0 ==> rest[0] != '"'
    ensures Unescape([c] + rest) == [c] + Unescape(rest)
  {
    assert ([c] + rest)[1..] == rest;
  }

  /** `"${x}"`, without any escaping. */
  function Quote(x: string): string {
    "\"" + x + "\""
  }

  /** `xs.map(x => `"${x}"`)`. */
  function QuotedItems(xs: seq<string>): (qs: seq<string>)
    ensures |qs| == |xs|
    ensures forall i :: 0 <= i < |xs| ==> qs[i] == Quote(xs[i])
  {
    seq(|xs|, i requires 0 <= i < |xs| => Quote(xs[i]))
  }

  /** `[${xs.map(x => `"${x}"`).join(', ')}]`. */
  function ListLiteral(xs: seq<string>): (r: string)
    ensures StartsWith(r, "[") && EndsWith(r, "]")
  {
    var r := "[" + Join(QuotedItems(xs), ", ") + "]";
    assert r[..1] == "[" && r[|r| - 1..] == "]";
    r
  }

  /** The pieces between the double quotes of a list literal's items, from
      the first item on: each item followed by `, ` or, after the last one,
      by `]`. */
  function ItemPieces(xs: seq<string>): seq<string>
    decreases |xs|
  {
    if |xs| == 0 then []
    else if |xs| == 1 then [xs[0], "]"]
    else [xs[0], ", "] + ItemPieces(xs[1..])
  }

  /** Every other piece, starting with the first. */
  function EveryOther(ps: seq<string>): seq<string>
    decreases |ps|
  {
    if |ps| < 2 then [] else [ps[0]] + EveryOther(ps[2..])
  }

  /** A reader of a list literal: the texts between the first and second
      double quote, the third and fourth, and so on. */
  function ReadList(s: string): seq<string> {
    var pieces := SplitOn(s, '"');
    EveryOther(pieces[1..])
  }

  lemma {:induction false} EveryOtherPieces(xs: seq<string>)
    ensures EveryOther(ItemPieces(xs)) == xs
    decreases |xs|
  {
    if |xs| >= 2 {
      EveryOtherPieces(xs[1..]);
      assert ([xs[0], ", "] + ItemPieces(xs[1..]))[2..] == ItemPieces(xs[1..]);
    }
  }

  /** A quoted item after a quote-free prefix splits off as the prefix and
      the item. */
  lemma QuotedPieces(p: string, x: string, t: string)
    requires '"' !in p && '"' !in x
    ensures SplitOn(p + Quote(x) + t, '"') == [p, x] + SplitOn(t, '"')
  {
    assert p + Quote(x) + t == p + ['"'] + (x + ['"'] + t);
    SplitOnPrefix(p, '"', x + ['"'] + t);
    SplitOnPrefix(x, '"', t);
  }

  lemma JoinQuoted(xs: seq<string>)
    requires |xs| >= 2
    ensures Join(QuotedItems(xs), ", ") == Quote(xs[0]) + ", " + Join(QuotedItems(xs[1..]), ", ")
  {
    assert QuotedItems(xs)[1..] == QuotedItems(xs[1..]);
  }

  lemma JoinOneQuoted(x: string)
    ensures Join(QuotedItems([x]), ", ") == Quote(x)
  {
    assert QuotedItems([x]) == [Quote(x)];
  }

  lemma SplitClosing()
    ensures SplitOn("]", '"') == ["]"]
  {
    assert IndexOf("]", '"') == 1;
  }

  lemma SplitLastItem(p: string, x: string)
    requires '"' !in p && '"' !in x
    ensures SplitOn(p + Join(QuotedItems([x]), ", ") + "]", '"') == [p] + ItemPieces([x])
  {
    JoinOneQuoted(x);
    SplitClosing();
    QuotedPieces(p, x, "]");
    assert ItemPieces([x]) == [x, "]"];
  }

  lemma SplitItemsStep(p: string, xs: seq<string>)
    requires |xs| >= 2 && '"' !in p && '"' !in xs[0]
    ensures SplitOn(p + Join(QuotedItems(xs), ", ") + "]", '"')
      == [p, xs[0]] + SplitOn(", " + Join(QuotedItems(xs[1..]), ", ") + "]", '"')
  {
    var rest := Join(QuotedItems(xs[1..]), ", ");
    JoinQuoted(xs);
    assert p + Join(QuotedItems(xs), ", ") + "]" == p + Quote(xs[0]) + (", " + rest + "]");
    QuotedPieces(p, xs[0], ", " + rest + "]");
  }

  lemma {:induction false} SplitItems(p: string, xs: seq<string>)
    requires |xs| >= 1 && '"' !in p
    requires forall i :: 0 <= i < |xs| ==> '"' !in xs[i]
    ensures SplitOn(p + Join(QuotedItems(xs), ", ") + "]", '"') == [p] + ItemPieces(xs)
    decreases |xs|
  {
    if |xs| == 1 {
      assert xs == [xs[0]];
      SplitLastItem(p, xs[0]);
    } else {
      SplitItemsStep(p, xs);
      SplitItems(", ", xs[1..]);
      var ip := ItemPieces(xs[1..]);
      assert ItemPieces(xs) == [xs[0], ", "] + ip;
      assert [p, xs[0]] + ([", "] + ip) == [p] + ([xs[0], ", "] + ip);
    }
  }

  /** Items without double quotes are read back from the list literal as
      they were; an item holding one would not be, since the items are not
      escaped. */
  lemma ListRoundTrip(xs: seq<string>)
    requires forall i :: 0 <= i < |xs| ==> '"' !in xs[i]
    ensures ReadList(ListLiteral(xs)) == xs
  {
    if |xs| == 0 {
      assert ListLiteral(xs) == "[]";
      assert IndexOf("[]", '"') == 2;
    } else {
      SplitItems("[", xs);
      EveryOtherPieces(xs);
    }
  }

  /** The cover-image line: empty when the article has no cover image
      (`undefined`, or the empty text, which is falsy). */
  function CoverLine(coverImage: Option<string>): (line: string)
    ensures line != "" <==> coverImage.Some? && coverImage.value != ""
    ensures line != "" ==> StartsWith(line, "coverImage: ")
    ensures coverImage.Some? && coverImage.value != "" ==> line == "coverImage: " + Quote(coverImage.value)
  {
    if coverImage.Some? && coverImage.value != "" then
      var line := "coverImage: " + Quote(coverImage.value);
      assert line[..12] == "coverImage: ";
      line
    else ""
  }

  /** The lines of the front matter block, the blank line after it
      included. */
  function HeaderLines(id: string, p: ProcessedArticle, iso: string, slug: string): seq<string> {
    [ "---",
      "id: " + Quote(id),
      "title: " + Quote(EscapeQuotes(p.title)),
      "date: " + Quote(iso),
      "slug: " + Quote(slug),
      "excerpt: " + Quote(EscapeQuotes(p.excerpt)),
      "categories: " + ListLiteral(p.categories),
      "tags: " + ListLiteral(p.tags),
      CoverLine(p.coverImage),
      "source:",
      "  name: " + Quote(p.source.name),
      "  url: " + Quote(p.source.url),
      "language: \"zh-TW\"",
      "---",
      "" ]
  }

  /** The written file: the front matter, a blank line, the Markdown body
      and a final line break. */
  function Document(id: string, p: ProcessedArticle, iso: string, slug: string): (doc: string)
    ensures StartsWith(doc, "---\n")
  {
    var header := HeaderLines(id, p, iso, slug);
    var doc := Join(header, "\n") + "\n" + p.content + "\n";
    assert Join(header, "\n") == "---" + "\n" + Join(header[1..], "\n");
    assert doc[..4] == "---\n";
    doc
  }

  /** Read back line by line, the file starts with exactly the front matter
      lines, as long as no field brings a line break of its own; the body's
      lines follow. */
  lemma DocumentLines(id: string, p: ProcessedArticle, iso: string, slug: string)
    requires forall i :: 0 <= i < |HeaderLines(id, p, iso, slug)| ==> '\n' !in HeaderLines(id, p, iso, slug)[i]
    ensures SplitOn(Document(id, p, iso, slug), '\n')
      == HeaderLines(id, p, iso, slug) + SplitOn(p.content + "\n", '\n')
  {
    var header := HeaderLines(id, p, iso, slug);
    SplitOnJoin(header, '\n');
    assert Join(header, "\n") + "\n" + p.content + "\n" == Join(header, ['\n']) + ['\n'] + (p.content + "\n");
    SplitOnConcat(Join(header, ['\n']), '\n', p.content + "\n");
  }

  /** The title field of the front matter reads back as the title. */
  lemma TitleReadsBack(id: string, p: ProcessedArticle, iso: string, slug: string)
    ensures var line := HeaderLines(id, p, iso, slug)[2];
      StartsWith(line, "title: \"") && EndsWith(line, "\"") && Unescape(line[8..|line| - 1]) == p.title
  {
    var line := HeaderLines(id, p, iso, slug)[2];
    var e := EscapeQuotes(p.title);
    assert line == "title: \"" + e + "\"";
    assert line[8..|line| - 1] == e;
    assert line[..8] == "title: \"";
    UnescapeEscape(p.title);
  }

  /** What is on disk: the article files by name and the two indexes. */
  datatype Store = Store(files: map<string, string>, categories: seq<Entry>, tags: seq<Entry>)

  /** How far `updateCategoriesAndTags` gets before something throws: all
      the way, past the categories file only, or not to any write (the
      error is caught and logged either way). */
  datatype IndexOutcome = IndexUpdated | CategoriesOnly | IndexFailed

  /** What the outside world answers while one article is saved: the
      Markdown of its cleaned body (cleaning and converting fall back to
      their input instead of throwing, and the excerpt, tag and cover-image
      steps catch their own errors, so processing never fails), what the
      cover-image search reads, `toISOString()` of its
      date (None when the date is invalid and it throws), the fresh uuid,
      whether the article file was written, and how the index update
      went. */
  datatype ArticleIo = ArticleIo(
    markdown: string,
    cover: CoverInputs,
    isoDate: Option<string>,
    id: string,
    written: bool,
    index: IndexOutcome)

  /** Whether saving the article gets past the file write. */
  predicate Saved(io: ArticleIo) {
    io.isoDate.Some? && io.written
  }

  /** `updateCategoriesAndTags`; the article files are never touched. */
  function UpdateCategoriesAndTags(store: Store, categories: seq<string>, tags: seq<string>, outcome: IndexOutcome): (s: Store)
    ensures s.files == store.files
    ensures outcome == IndexFailed ==> s == store
    ensures outcome != IndexFailed ==> s.categories == UpdateIndex(store.categories, Categories, categories)
    ensures s.tags == if outcome == IndexUpdated then UpdateIndex(store.tags, Tags, tags) else store.tags
  {
    match outcome
    case IndexUpdated =>
      store.(categories := UpdateIndex(store.categories, Categories, categories),
             tags := UpdateIndex(store.tags, Tags, tags))
    case CategoriesOnly =>
      store.(categories := UpdateIndex(store.categories, Categories, categories))
    case IndexFailed => store
  }

  /** The processed record of a saved article. */
  function Processed(a: RawArticle, io: ArticleIo): ProcessedArticle
    requires Saved(io)
  {
    ProcessArticle(a, io.markdown, io.cover)
  }

  /** The name the article's file is written under. */
  function ArticleFile(a: RawArticle, io: ArticleIo): string
    requires Saved(io)
  {
    FileName(io.isoDate.value, a.title)
  }

  /** One iteration of the loop in `main`: an article whose date or file
      write throws is skipped and leaves the store as it was;
      otherwise its file is written (over any file of the same name) and
      the indexes are updated with its categories and tags. */
  function SaveArticle(store: Store, a: RawArticle, io: ArticleIo): (s: Store)
    ensures !Saved(io) ==> s == store
    ensures Saved(io) ==> s.files == store.files[ArticleFile(a, io) :=
      Document(io.id, Processed(a, io), io.isoDate.value, Slug(a.title))]
    ensures Saved(io) ==> s == UpdateCategoriesAndTags(store.(files := s.files), a.categories, Processed(a, io).tags, io.index)
  {
    if !Saved(io) then store
    else
      var p := Processed(a, io);
      var iso := io.isoDate.value;
      var slug := Slug(p.title);
      var doc := Document(io.id, p, iso, slug);
      UpdateCategoriesAndTags(store.(files := store.files[FileName(iso, p.title) := doc]), p.categories, p.tags, io.index)
  }

  /** The loop over the crawled articles from position `k` on; `env(j)` is
      what the outside world answers for the article at position `j`. */
  function SaveFrom(store: Store, articles: seq<RawArticle>, env: nat -> ArticleIo, k: nat): Store
    decreases |articles| - k
  {
    if k >= |articles| then store
    else SaveFrom(SaveArticle(store, articles[k], env(k)), articles, env, k + 1)
  }

  /** The names of the files the loop writes from position `k` on. */
  function WrittenNames(articles: seq<RawArticle>, env: nat -> ArticleIo, k: nat): set<string> {
    set j | k <= j < |articles| && Saved(env(j)) :: ArticleFile(articles[j], env(j))
  }

  lemma WrittenNamesStep(articles: seq<RawArticle>, env: nat -> ArticleIo, k: nat)
    requires k < |articles|
    ensures WrittenNames(articles, env, k)
      == (if Saved(env(k)) then {ArticleFile(articles[k], env(k))} else {}) + WrittenNames(articles, env, k + 1)
  {
  }

  /** After the loop the store holds the files it held before and one file
      for each saved article, and no other file. */
  lemma {:induction false} SaveFromFileNames(store: Store, articles: seq<RawArticle>, env: nat -> ArticleIo, k: nat)
    ensures SaveFrom(store, articles, env, k).files.Keys == store.files.Keys + WrittenNames(articles, env, k)
    decreases |articles| - k
  {
    if k < |articles| {
      var next := SaveArticle(store, articles[k], env(k));
      SaveFromFileNames(next, articles, env, k + 1);
      WrittenNamesStep(articles, env, k);
    } else {
      assert WrittenNames(articles, env, k) == {};
    }
  }

  /** Whatever happens to the index updates, the same article files get
      written with the same content: only the index outcomes differ
      between `env` and `env2`. */
  lemma {:induction false} FilesIgnoreIndexOutcome(store: Store, store2: Store, articles: seq<RawArticle>, env: nat -> ArticleIo, env2: nat -> ArticleIo, k: nat)
    requires store.files == store2.files
    requires forall j :: env2(j) == env(j).(index := env2(j).index)
    ensures SaveFrom(store, articles, env, k).files == SaveFrom(store2, articles, env2, k).files
    decreases |articles| - k
  {
    if k < |articles| {
      assert env2(k) == env(k).(index := env2(k).index);
      FilesIgnoreIndexOutcome(SaveArticle(store, articles[k], env(k)), SaveArticle(store2, articles[k], env2(k)),
        articles, env, env2, k + 1);
    }
  }

  /** The number of category references the loop adds from position `k`
      on: the categories of each saved article whose index update got past
      the categories file. */
  function CategoryRefs(articles: seq<RawArticle>, env: nat -> ArticleIo, k: nat): nat
    decreases |articles| - k
  {
    if k >= |articles| then 0
    else
      var here := if Saved(env(k)) && env(k).index != IndexFailed then |articles[k].categories| else 0;
      here + CategoryRefs(articles, env, k + 1)
  }

  /** The category counts grow by exactly the number of category
      references of the articles that were saved and indexed. */
  lemma {:induction false} SaveFromCategoryTotal(store: Store, articles: seq<RawArticle>, env: nat -> ArticleIo, k: nat)
    ensures Total(SaveFrom(store, articles, env, k).categories) == Total(store.categories) + CategoryRefs(articles, env, k)
    decreases |articles| - k
  {
    if k < |articles| {
      var next := SaveArticle(store, articles[k], env(k));
      SaveFromCategoryTotal(next, articles, env, k + 1);
      if Saved(env(k)) && env(k).index != IndexFailed {
        UpdateTotal(store.categories, Categories, articles[k].categories);
      }
    }
  }

  /** A store without repeated index names keeps that property through the
      whole run. */
  lemma {:induction false} SaveFromKeepsUnique(store: Store, articles: seq<RawArticle>, env: nat -> ArticleIo, k: nat)
    requires UniqueNames(store.categories) && UniqueNames(store.tags)
    ensures UniqueNames(SaveFrom(store, articles, env, k).categories)
    ensures UniqueNames(SaveFrom(store, articles, env, k).tags)
    decreases |articles| - k
  {
    if k < |articles| {
      var a, io := articles[k], env(k);
      if Saved(io) {
        UpdateKeepsUnique(store.categories, Categories, a.categories);
        UpdateKeepsUnique(store.tags, Tags, Processed(a, io).tags);
      }
      SaveFromKeepsUnique(SaveArticle(store, a, io), articles, env, k + 1);
    }
  }

  /** `main`: crawl with the run's configuration, stop when nothing was
      found, otherwise save the articles one by one. The store ends up
      with one new or replaced file per saved article and the category
      counts grow by the categories of the saved and indexed ones. */
  function Main(store: Store, web: Web, env: nat -> ArticleIo): (s: Store)
    ensures |CrawlContent(RunConfig, web)| == 0 ==> s == store
    ensures s.files.Keys == store.files.Keys + WrittenNames(CrawlContent(RunConfig, web), env, 0)
    ensures Total(s.categories) == Total(store.categories) + CategoryRefs(CrawlContent(RunConfig, web), env, 0)
    ensures UniqueNames(store.categories) && UniqueNames(store.tags) ==>
      UniqueNames(s.categories) && UniqueNames(s.tags)
  {
    var articles := CrawlContent(RunConfig, web);
    SaveFromFileNames(store, articles, env, 0);
    SaveFromCategoryTotal(store, articles, env, 0);
    var s := if |articles| == 0 then store else SaveFrom(store, articles, env, 0);
    if UniqueNames(store.categories) && UniqueNames(store.tags) then
      SaveFromKeepsUnique(store, articles, env, 0);
      s
    else s
  }
}
