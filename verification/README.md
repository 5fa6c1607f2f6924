# Content-ingestion core of moreyu-ai-news, modelled in Dafny

This project models the content-ingestion pipeline of the moreyu-ai-news site: the crawler that finds candidate AI news articles, the processor that turns each one into a processed record, and the run that writes the records to disk and keeps the category and tag indexes. The model is pure and functional. Anything the pipeline gets from outside becomes an explicit input:

- the network and the DOM (what each fetched feed, page and article yields);
- `new URL`, the clock and `uuidv4`;
- the HTML-to-Markdown converter;
- the file system.

The modules follow the pipeline:

- `Wrappers`, `Seqs` and `Text` are shared support: `Option`, sequence facts, and JavaScript string operations (`toLowerCase`, `includes`, `trim`, `split`, `\s`, `\w`).
- `Filters` covers the keyword filters, word counting and categorisation of the crawler.
- `Links` covers the article-link heuristic, the source display name and the feed/page dispatch.
- `Crawler` covers the feed fetcher, the web-page fetcher and the source loop of `crawlContent`. All of them run over a `Web` value that says what the network answers.
- `Slugs` derives slugs; the processor, the file name and the index entries all use it.
- `Markdown` holds the regular-expression pipeline of `extractExcerpt` and the fenced code-block rule given to the converter.
- `Processor` covers tag generation, cover-image resolution and `processArticle`.
- `ContentIndex` covers the category and tag index update of `updateCategoriesAndTags`.
- `Persist` covers the run configuration, the file name, the front matter, the per-article save loop of `main`, and the whole run.

`main.ts` imports the processor from `ai_news_website_fixed/scripts/processor/processor.ts`, which is not part of this model. The processor modelled here is `website_export/src/scripts/processor/processor.ts`.

Where the code does less than its own comments say (crawler.ts:51, processor.ts:169, crawler.ts:154), the model follows the code:

- The per-run cap is checked only after each fetcher returns, and each fetcher stops at the cap by itself. So a run can return up to `2 * maxArticlesPerRun - 1` articles, not at most `maxArticlesPerRun` (`Crawler.CrawlContent`, `Crawler.TwoSourcesOvershoot`).
- Images are not removed whole from the excerpt. The link rule runs before the image rule and turns `![alt](src)` into `!alt`, which the image rule then no longer matches (`Markdown.ImageLeavesBang`, `Markdown.ImageExcerpt`).
- A source page with one anchor whose `href` `new URL` rejects loses all of its articles. The exception leaves the link loop and is caught by the whole-source handler (`Crawler.ArticleLinks`, `Crawler.CrawlWebSource`).

## Model

| member | source | states |
|---|---|---|
| Filters.MatchesKeywords | ai_news_website_fixed/scripts/crawler/crawler.ts:282-285 | true exactly when some keyword, lower-cased, occurs in the lower-cased text; an empty keyword list never matches, an empty keyword always does |
| Filters.ContainsExcludeKeywords | ai_news_website_fixed/scripts/crawler/crawler.ts:290-293 | true exactly when some exclusion keyword, lower-cased, occurs in the lower-cased text |
| Filters.CategorizeContent | ai_news_website_fixed/scripts/crawler/crawler.ts:407-412 | the result is a subsequence of the vocabulary; an entry is in it iff it occurs (case-insensitively) in the text; each matching entry keeps its multiplicity and a non-matching one is absent |
| Filters.CategorizeContentOrder | ai_news_website_fixed/scripts/crawler/crawler.ts:407-412 | two found categories appear in the result in the same relative order as in the vocabulary |
| Filters.CountWords | ai_news_website_fixed/scripts/crawler/crawler.ts:298-300 | the number of pieces of the trimmed text split on whitespace runs equals the number of maximal non-whitespace runs, except that a text without any word counts as 1 |
| Filters.TrimKeepsWords | ai_news_website_fixed/scripts/crawler/crawler.ts:299 | trimming removes no word: the word count of the trimmed text equals that of the text |
| Filters.SplitWsRuns | ai_news_website_fixed/scripts/crawler/crawler.ts:299 | splitting on whitespace runs yields one piece more than there are whitespace runs |
| Links.IsArticleLink | ai_news_website_fixed/scripts/crawler/crawler.ts:323-352 | a link is an article link iff no exclusion pattern occurs in the lower-cased URL and either an article path occurs in the URL as written or the link text is longer than 20 |
| Links.Capitalize | ai_news_website_fixed/scripts/crawler/crawler.ts:311 | same length; the first character upper-cased and the rest unchanged |
| Links.ExtractSourceName | ai_news_website_fixed/scripts/crawler/crawler.ts:305-318 | an unparsable URL gives the URL itself; a hostname without a dot gives the hostname; otherwise the name holds no dot |
| Links.SourceNameOfHost | ai_news_website_fixed/scripts/crawler/crawler.ts:305-318 | for any hostname ending in `name.tld`, the source name is `name` capitalised, whatever labels come before it |
| Links.IsRssSource | ai_news_website_fixed/scripts/crawler/crawler.ts:43 | a source goes to the feed fetcher iff `rss` occurs in it or it ends with `.xml` |
| Crawler.SourceOf | ai_news_website_fixed/scripts/crawler/crawler.ts:117-120 | the source descriptor keeps the URL and is named by `extractSourceName` from the URL's hostname, or is the URL itself when `new URL` rejects it |
| Crawler.FetchArticleContent | ai_news_website_fixed/scripts/crawler/crawler.ts:230-241 | a fetched page yields its extracted body; a page that cannot be fetched yields the empty body |
| Crawler.Emit | ai_news_website_fixed/scripts/crawler/crawler.ts:109-121 | the emitted article keeps title, link, date and body; its categories are those found in title and body; its source is the descriptor of its source URL (`Crawler.SourceOf`) |
| Crawler.FeedCandidate | ai_news_website_fixed/scripts/crawler/crawler.ts:82-122 | a feed item is emitted iff its title and description pass both keyword filters and its fetched body reaches the word minimum; the emitted article carries the item's title, link and date and the fetched body |
| Crawler.PageCandidate | ai_news_website_fixed/scripts/crawler/crawler.ts:171-209 | a fetched page is emitted iff title and body pass both keyword filters and the body reaches the word minimum; a missing publish date becomes the current time |
| Crawler.WebCandidate | ai_news_website_fixed/scripts/crawler/crawler.ts:166-217 | a link whose page cannot be fetched is skipped; otherwise the page's filters decide |
| Crawler.Limit | ai_news_website_fixed/scripts/crawler/crawler.ts:123-125 | the loop bound is the cap when the cap is at least 1, and 1 otherwise (the check comes after the push) |
| Crawler.CollectTakesFirst | ai_news_website_fixed/scripts/crawler/crawler.ts:82-126 | the push-then-check loop returns what it had plus exactly the first passing candidates, up to the limit, in order |
| Crawler.CollectFromCandidates | ai_news_website_fixed/scripts/crawler/crawler.ts:82-126 | the loop returns at most the limit, and only candidates that passed |
| Crawler.CrawlRssSource | ai_news_website_fixed/scripts/crawler/crawler.ts:73-133 | an unfetchable feed yields nothing; at most the limit; every article passed the word minimum, has the categories found in it and names this source |
| Crawler.RssSourceTakesFirst | ai_news_website_fixed/scripts/crawler/crawler.ts:82-128 | a fetched feed yields exactly its first passing items, up to the limit, in feed order |
| Crawler.ArticleLinks | ai_news_website_fixed/scripts/crawler/crawler.ts:145-161 | link gathering fails iff some anchor has an `href` that does not resolve |
| Crawler.ArticleLinksMembers | ai_news_website_fixed/scripts/crawler/crawler.ts:148-161 | a URL is gathered iff it is the resolved `href` of an anchor that passes the article-link test |
| Crawler.ArticleLinksInOrder | ai_news_website_fixed/scripts/crawler/crawler.ts:148-161 | when every `href` resolves, the gathered links are each anchor's resolved, article-like URL in page order, repeats included |
| Crawler.CrawlWebSource | ai_news_website_fixed/scripts/crawler/crawler.ts:138-225 | an unfetchable page, or one with an unresolvable `href`, yields nothing; at most the limit; every article passed both keyword filters and the word minimum and names this source |
| Crawler.WebSourceTakesFirst | ai_news_website_fixed/scripts/crawler/crawler.ts:164-220 | a fetched page whose links all resolve yields exactly the first passing linked pages, up to the limit, in link order |
| Crawler.CrawlSource | ai_news_website_fixed/scripts/crawler/crawler.ts:42-49 | dispatch by URL shape; an unfetchable source yields nothing; at most the limit; every article is emittable and names this source |
| Crawler.CrawlFrom | ai_news_website_fixed/scripts/crawler/crawler.ts:38-60 | the articles gathered so far stay in front; below the cap the total stays at most `2 * cap - 1`; every added article comes from a configured source |
| Crawler.CrawlContent | ai_news_website_fixed/scripts/crawler/crawler.ts:31-68 | a run returns at most `2 * cap - 1` articles (1 with a cap below one), each emittable and from a configured source |
| Crawler.CrawlFromPrefix | ai_news_website_fixed/scripts/crawler/crawler.ts:38-60 | the source loop returns a prefix of all the sources' articles in source order, and all of them when it ends below the cap; it reads at least the first source and only whole sources, every source before the last it read left the total below the cap, and it stops only when the sources run out or the total reaches the cap |
| Crawler.CrawlFromWholeSources | ai_news_website_fixed/scripts/crawler/crawler.ts:38-60 | there is a number of sources read such that the result is exactly the articles so far plus those sources' articles, each earlier source left the total below the cap, and the loop ended because the sources ran out or the cap was reached |
| Crawler.CrawlContentPrefix | ai_news_website_fixed/scripts/crawler/crawler.ts:31-63 | a run returns a prefix of every source's articles in source order, all of them when it ends below the cap, and otherwise exactly the whole sources up to the first one that brings the total to the cap |
| Crawler.TwoSourcesOvershoot | ai_news_website_fixed/scripts/crawler/crawler.ts:43-55 | when the first of two sources stays below the cap, both are kept whole, so the run can exceed the cap |
| Crawler.FailedSourceIsSkipped | ai_news_website_fixed/scripts/crawler/crawler.ts:41-59 | a source that yields nothing leaves the run as if it were not configured |
| Crawler.CapBelowOneStopsAfterFirstSource | ai_news_website_fixed/scripts/crawler/crawler.ts:52-55 | with a cap below one the run stops after the first source |
| Slugs.KeepWordOrSpace | website_export/src/scripts/processor/processor.ts:78 | keeps, in order, exactly the word and whitespace characters |
| Slugs.HyphenateSpaces | website_export/src/scripts/processor/processor.ts:79 | every character of the result is a hyphen or a non-whitespace character of the text; the first character is kept when it is not whitespace |
| Slugs.HyphenateIsJoin | website_export/src/scripts/processor/processor.ts:79 | replacing whitespace runs with a hyphen is the same as splitting on them and joining with hyphens |
| Slugs.NameSlug | ai_news_website_fixed/scripts/crawler/main.ts:134-137 | every character of an index slug is a lower-case ASCII letter, digit, `_` or `-` |
| Slugs.NameSlugWords | ai_news_website_fixed/scripts/crawler/main.ts:134-137 | splitting the slug at its hyphens gives back the words of the filtered, lower-cased name |
| Slugs.Slug | website_export/src/scripts/processor/processor.ts:76-80 | an article slug is the name slug when that has at most 50 characters and otherwise its first 50 characters; only slug characters |
| Slugs.SlugNoDoubleHyphen | website_export/src/scripts/processor/processor.ts:76-80 | neither an index slug nor an article slug holds two adjacent hyphens |
| Slugs.NoWordCharsEmptySlug | website_export/src/scripts/processor/processor.ts:76-80 | a title without ASCII word characters or whitespace (all CJK, say) gets the empty slug |
| Markdown.HeadingAt | website_export/src/scripts/processor/processor.ts:165 | a heading match is a run of `#` and then a whole non-empty whitespace run (the character after it is not whitespace), at least two characters long, replaced by nothing |
| Markdown.HeadingFound | website_export/src/scripts/processor/processor.ts:165 | a run of `#` followed by a run of whitespace is matched whole, both runs being greedy |
| Markdown.LinkAt | website_export/src/scripts/processor/processor.ts:168 | a link match is `[`, a non-empty text without `]`, `](`, a non-empty target without `)`, and `)`; it is replaced by the text |
| Markdown.ImageAt | website_export/src/scripts/processor/processor.ts:169 | an image match is `!` followed by a link match, replaced by nothing |
| Markdown.FenceAt | website_export/src/scripts/processor/processor.ts:170 | a code-block match runs from an opening fence to a closing fence that does not overlap it, replaced by nothing |
| Markdown.FenceFound | website_export/src/scripts/processor/processor.ts:170 | a code block whose body (with the closing fence's first two backticks) holds no fence is matched whole, up to its closing fence |
| Markdown.InlineCodeAt | website_export/src/scripts/processor/processor.ts:171 | an inline-code match is a backtick, non-empty code without backticks, and a closing backtick; it is replaced by the code |
| Markdown.InlineCodeFound | website_export/src/scripts/processor/processor.ts:171 | inline code with a non-empty body free of backticks is matched whole and replaced by that body |
| Markdown.NewlinesAt | website_export/src/scripts/processor/processor.ts:172 | a line-feed run matches exactly at a line feed, takes the whole run, and becomes one space |
| Markdown.MatchAt | website_export/src/scripts/processor/processor.ts:165-172 | a match starts with the rule's key character, and its replacement uses only characters of the text (a space for line feeds) |
| Markdown.ReplaceAll | website_export/src/scripts/processor/processor.ts:164-172 | a global replacement adds no character (a space for line feeds); it leaves no `*` or line feed for those rules; a text without the key character is unchanged |
| Markdown.Clean | website_export/src/scripts/processor/processor.ts:164-173 | the cleaned text has no `*` and no line feed, and holds only characters of the input and spaces |
| Markdown.Ellipsize | website_export/src/scripts/processor/processor.ts:176-178 | the truncated excerpt is the trimmed first `maxLength` characters followed by `...`, at most `maxLength + 3` long |
| Markdown.ExtractExcerpt | website_export/src/scripts/processor/processor.ts:161-180 | the excerpt is at most `maxLength + 3` long with no `*` or line feed; it is the cleaned text when that fits, otherwise the trimmed cut plus `...` |
| Markdown.LinkBecomesText | website_export/src/scripts/processor/processor.ts:168 | a well-formed link `[text](target)` is matched whole and replaced by its text |
| Markdown.ImageLeavesBang | website_export/src/scripts/processor/processor.ts:168-169 | because links are replaced first, an image `![alt](src)` becomes `!alt` |
| Markdown.BangTextSurvivesImageRule | website_export/src/scripts/processor/processor.ts:169 | the image rule then finds nothing to remove in `!alt` |
| Markdown.ImageExcerpt | website_export/src/scripts/processor/processor.ts:164-178 | the excerpt of a short image is `!` followed by its alternative text |
| Markdown.ReplacementsKeep | website_export/src/scripts/processor/processor.ts:164-172 | a text without any of the rules' key characters passes all eight replacements unchanged |
| Markdown.PlainTextIsItsOwnExcerpt | website_export/src/scripts/processor/processor.ts:161-180 | a short, trimmed plain text is its own excerpt |
| Markdown.CodeLanguage | website_export/src/scripts/processor/processor.ts:19-21 | the language holds only word characters |
| Markdown.CodeLanguageMatches | website_export/src/scripts/processor/processor.ts:20-21 | the language is empty iff `language-` followed by a word character occurs nowhere; otherwise it is the whole word run after the leftmost such occurrence |
| Markdown.CodeBlock | website_export/src/scripts/processor/processor.ts:18-22 | the fenced block is exactly ten characters longer than its language and content |
| Markdown.CodeBlockRoundTrip | website_export/src/scripts/processor/processor.ts:16-23 | reading the fenced block back gives its language and its content unchanged |
| Processor.SelectTags | website_export/src/scripts/processor/processor.ts:203-209 | at most `max` tags, no repeats, in vocabulary order, each a vocabulary entry that occurs case-insensitively in the text |
| Processor.SelectTagsComplete | website_export/src/scripts/processor/processor.ts:203-209 | a matching vocabulary entry is left out only when all `max` places are taken by entries that come before it in the vocabulary, so the tags are the first `max` matching entries |
| Processor.SelectTagsInOrder | website_export/src/scripts/processor/processor.ts:203-209 | the selected tags appear in strictly increasing vocabulary position |
| Processor.GenerateTags | website_export/src/scripts/processor/processor.ts:190-209 | at most five tags of the fixed vocabulary, without repeats, in vocabulary order, each found in the text |
| Processor.GenerateTagsComplete | website_export/src/scripts/processor/processor.ts:193-209 | a vocabulary tag found in the text is missing only when five tags that come before it in the vocabulary were taken, so the tags are the first five found |
| Processor.AbsoluteImageUrl | website_export/src/scripts/processor/processor.ts:255-261 | a root-relative URL becomes the page's `protocol//host` followed by the URL, or fails when the page URL does not parse; a URL not starting with `http` is resolved against the page; the rest is kept |
| Processor.ProtocolRelativeGetsHostPrefix | website_export/src/scripts/processor/processor.ts:256-258 | a protocol-relative URL `//x` becomes `protocol//host//x` |
| Processor.ImageExtension | website_export/src/scripts/processor/processor.ts:265-266 | the extension holds no `/`; a content type without `/` gives `undefined` |
| Processor.MediaTypeExtension | website_export/src/scripts/processor/processor.ts:266 | a media type `type/subtype` gives the subtype as its extension |
| Processor.ImagePath | website_export/src/scripts/processor/processor.ts:268-279 | the public path is `/images/posts/`, the id, a dot and the extension, in that order |
| Processor.CoverImage | website_export/src/scripts/processor/processor.ts:219-284 | no cover without a candidate URL, an absolutised URL, a downloaded content type or a successful write; with all of them the cover is the saved path of the absolutised URL, named after the downloaded content type |
| Processor.ProcessArticle | website_export/src/scripts/processor/processor.ts:56-92 | title, date, categories and source pass through and the content is the Markdown; the slug is `Slugs.Slug` of the title; the excerpt is the 200-character excerpt of the Markdown; the tags are those generated from the title, a space and the Markdown; the cover image is the resolved cover |
| ContentIndex.FindEntry | ai_news_website_fixed/scripts/crawler/main.ts:126 | the lookup finds the first entry with the name, or reports there is none |
| ContentIndex.Bump | ai_news_website_fixed/scripts/crawler/main.ts:125-142 | an existing name keeps the index size and a new one appends its new entry; the name is then present; keys do not change; other entries are untouched; the count total grows by one |
| ContentIndex.BumpUnique | ai_news_website_fixed/scripts/crawler/main.ts:125-142 | on an index with unique names, names stay unique and exactly the entry with that name gains one |
| ContentIndex.BumpNameSet | ai_news_website_fixed/scripts/crawler/main.ts:125-142 | the names after a bump are the old names and the bumped one |
| ContentIndex.UpdateIndex | ai_news_website_fixed/scripts/crawler/main.ts:125-142 | the index grows by at most the number of referenced names |
| ContentIndex.UpdateKeepsUnique | ai_news_website_fixed/scripts/crawler/main.ts:125-142 | the update never creates two entries with one name, even when a name is referenced twice |
| ContentIndex.UpdateTotal | ai_news_website_fixed/scripts/crawler/main.ts:125-142 | each referenced name adds exactly one to the sum of the counts |
| ContentIndex.UpdateKeepsKeys | ai_news_website_fixed/scripts/crawler/main.ts:128-130 | existing entries keep their position, name, slug and description |
| ContentIndex.UpdateKeepsUnreferenced | ai_news_website_fixed/scripts/crawler/main.ts:125-142 | an entry whose name is not referenced is unchanged |
| ContentIndex.UpdateHasNames | ai_news_website_fixed/scripts/crawler/main.ts:125-142 | every referenced name, and every name already present, is in the index afterwards |
| ContentIndex.UpdateAppends | ai_news_website_fixed/scripts/crawler/main.ts:130-141 | the appended entries are the referenced names not already present, each once, in order of first reference |
| ContentIndex.UpdateNewKeys | ai_news_website_fixed/scripts/crawler/main.ts:131-140 | every appended entry has the slug and description of a new entry for its name |
| ContentIndex.UpdateCount | ai_news_website_fixed/scripts/crawler/main.ts:125-142 | on an index with unique names, each count becomes its old count (0 if new) plus the number of references to the name |
| ContentIndex.RepeatedNameCountsTwice | ai_news_website_fixed/scripts/crawler/main.ts:125-142 | a name referenced twice on an empty index gives one entry with count 2 |
| Persist.DatePart | ai_news_website_fixed/scripts/crawler/main.ts:57 | the date part holds no `T`, is a prefix of the timestamp, and is followed by `T` when shorter |
| Persist.DateOfTimestamp | ai_news_website_fixed/scripts/crawler/main.ts:57 | a timestamp `date` + `T` + `time` gives back its date |
| Persist.FileName | ai_news_website_fixed/scripts/crawler/main.ts:56-64 | the file name starts with the date and a hyphen, ends with `.md`, and is at most 54 characters longer than the timestamp |
| Persist.FileNameUsesProcessedSlug | ai_news_website_fixed/scripts/crawler/main.ts:58-64 | the file name built from the processed title uses the processor's own slug |
| Persist.EscapeQuotes | ai_news_website_fixed/scripts/crawler/main.ts:78 | one extra character per double quote; every double quote is preceded by a backslash |
| Persist.UnescapeEscape | ai_news_website_fixed/scripts/crawler/main.ts:78 | reading the escaped text back gives the text |
| Persist.ListLiteral | ai_news_website_fixed/scripts/crawler/main.ts:82-83 | a list field is bracketed |
| Persist.ListRoundTrip | ai_news_website_fixed/scripts/crawler/main.ts:82-83 | items without double quotes are read back from the list field exactly |
| Persist.CoverLine | ai_news_website_fixed/scripts/crawler/main.ts:84 | the cover line is empty iff there is no cover image or it is empty; otherwise it is `coverImage: ` followed by the quoted path |
| Persist.Document | ai_news_website_fixed/scripts/crawler/main.ts:76-92 | the file starts with the front-matter delimiter line |
| Persist.DocumentLines | ai_news_website_fixed/scripts/crawler/main.ts:76-92 | when no field brings a line break, the file's lines are the front-matter lines followed by the body's lines |
| Persist.TitleReadsBack | ai_news_website_fixed/scripts/crawler/main.ts:78 | the title field is double-quoted and reads back as the title |
| Persist.UpdateCategoriesAndTags | ai_news_website_fixed/scripts/crawler/main.ts:115-183 | article files are untouched; a failure before the first write changes nothing; the categories are updated unless it failed; the tags are updated only when everything got through |
| Persist.SaveArticle | ai_news_website_fixed/scripts/crawler/main.ts:47-104 | an article whose date or file write fails leaves the store unchanged; otherwise its file is written under its name and the indexes are updated with its categories and tags |
| Persist.Main | ai_news_website_fixed/scripts/crawler/main.ts:8-105 | a run with the configured sources crawls them; crawling nothing leaves the store unchanged; the files afterwards are the old ones plus one per saved article; the category counts grow by the categories of the saved and indexed articles; unique index names stay unique |
| Persist.SaveFromFileNames | ai_news_website_fixed/scripts/crawler/main.ts:47-105 | after the loop the store holds exactly the old files plus one file name per saved article |
| Persist.FilesIgnoreIndexOutcome | ai_news_website_fixed/scripts/crawler/main.ts:98-104 | index failures do not change which article files are written or their content |
| Persist.SaveFromCategoryTotal | ai_news_website_fixed/scripts/crawler/main.ts:47-142 | the category counts grow by exactly the number of category references of the saved and indexed articles |
| Persist.SaveFromKeepsUnique | ai_news_website_fixed/scripts/crawler/main.ts:47-142 | indexes without repeated names keep that property through the whole run |

## Left out

- Fetching, DOM parsing and `extractArticleContent`/`extractPublishDate` (crawler.ts 230-277, 357-402) are inputs, not models: `Web` gives each source's feed items or anchors and each article page's title, body and publish date. The selector order of those functions is not modelled.
- `cleanHtml`, the Turndown conversion and the cover-image selector search (processor.ts 99-156, 219-253) are inputs: `ArticleIo.markdown` is the converted Markdown and `CoverInputs.candidate` is the image URL found. Both `cleanHtml` and `convertToMarkdown` return their input instead of throwing, so the Markdown is always present. The code-block rule handed to the converter is modelled (`Markdown.CodeBlock`); the converter's other rules are not.
- `new URL`, `uuidv4`, `new Date().toISOString()`, the image download and all file-system reads and writes are inputs or outcomes in `Web`, `CoverInputs`, `ArticleIo` and `Store`.
- The `id` of index entries is not modelled, because nothing reads it. JSON serialisation of the indexes is not modelled.
- Logging is left out.
- `toLowerCase` and `toUpperCase` are modelled for ASCII only. The CJK text in the vocabularies has no case, but other scripts with case are treated as caseless. Two non-ASCII characters lower-case to ASCII word characters in JavaScript: U+212A KELVIN SIGN becomes `k`, and U+0130 becomes `i` followed by U+0307. The source keeps that `k` or `i` in the slug, while the model drops the character; so `Slugs.NoWordCharsEmptySlug` holds for the model's ASCII case mapping, not for titles holding those two characters.
- JavaScript strings are UTF-16; the model counts characters. Lengths agree for text without surrogate pairs.
- The catch branches of `extractExcerpt` and `generateTags` are not modelled, because their bodies cannot throw on a string. The outer catch of `crawlContent` and the outer catch of `main` with `process.exit(1)` are not modelled either, because everything inside them is already caught.
- `extractExcerpt` is modelled with a non-negative `maxLength` only. The processor always passes 200.
- Markdown.ExtractExcerpt: models JavaScript's regular expressions on their eight fixed patterns only, not regular expressions in general.
- Processor.AbsoluteImageUrl: the result of `new URL(image, link).href` is an input; URL resolution itself is not modelled.
- Processor.CoverImage: the `undefined` extension is kept as the text `undefined`, and a failed download is a missing content type.
- Persist.EscapeQuotes: backslashes are not escaped. The model reads the field back with a reader that only undoes `\"`; YAML's own escape rules are not modelled.
- Persist.ListLiteral: list items are not escaped. A category or tag holding a double quote would not read back; `Persist.ListRoundTrip` is stated for items without one.
- Persist.SaveArticle: two articles with the same file name overwrite each other. The model writes the later one over the earlier one and says nothing more.
- Persist.Main: the contents of the written files and the tag counts are stated per article (`Persist.SaveArticle`) and per loop (`Persist.FilesIgnoreIndexOutcome`), not for the run as a whole.
- `Web.now` is one timestamp for the whole run, while crawler.ts:194 calls `new Date()` once per article page without a publish date. Articles of one run that fall back to the current time therefore share one date in the model; in the source they may differ by the time between fetches.
- Concurrency: the run is sequential in the source, and so is the model.
