# A verified model of the drafts static-site generator

The generator turns a directory of markdown posts with `---`-delimited
`key: value` headers into a static site: a home page of post cards, one page
per post, and an RSS feed. This project models its content pipeline in Dafny
and proves what the pipeline does:

- **FrontMatter** (`build.js`): `parseFrontMatter` as a specification function
  `Parse` and as a method that fills `meta` line by line, `writeFrontMatter` as
  the text `Write` it stores, and the round trip between them. The `meta`
  object is a sequence of entries in insertion order, which is the order
  `Object.entries` lists them in.
- **Markdown** (`build.js`): `markdownToHtml` as a state machine (`Step`, `Run`
  over `State`). The class `BlockWriter` holds the closures' shared locals
  (`html`, `inList`, `inCode`, `codeLines`), and the method `MarkdownToHtml`
  loops over the lines. Both are proved to agree with the state machine.
- **Html** (`build.js`): `escapeHtml` and the four global regex replacements of
  `inlineMarkdown`, each written as a left-to-right scan with non-overlapping
  matches.
- **Slug**: `slugify`, of which build.js (151-156), fetch-cover.js (29-34) and
  new-review.js (6-11) hold character-for-character identical copies, modelled
  once as `Slug.Slugify`; the `Slug` lemmas hold for all three.
- **Posts** (`build.js`): `clampRating`, `renderStars`, the post record of
  `loadPosts`, the `ensureCovers` pass over an array of posts, and the sort
  callback.
- **Feed** (`build.js`): `SITE_URL`, permalinks, the lines of an RSS item and
  the rating block of a card or page.
- **FetchCover** (`fetch-cover.js`): its `parseFrontMatter` with `endIndex`,
  option parsing, and the decisions of `updateCover`.
- **NewReview** (`new-review.js`): `parseArgs`, the choice of slug and the
  template text of `createTemplate`, read back with build.js's parser.
- **Text** and **Wrappers**: the JavaScript string built-ins the code uses
  (`trim`, ASCII `toLowerCase`, `indexOf`, `split`, `join`, `repeat`, the `\s`
  class) and `Option`.

Effects and outside information become parameters:

- Reading a post file is `read: string -> Option<string>`.
- The book search is `lookup: string -> Option<string>`, returning the volume id.
- `Number()` on a non-blank string is `parse`.
- Date parsing is `time`, and `toUTCString` is `utc`.
- `localeCompare` is `collate`.
- Today's date is a `date` argument.
- Whether a file exists is `present`.

Behaviours of build.js and the two tools that are worth knowing:

- The header ends at the first `\n---` at position 3 or later. This does not have to
  be a whole line: `\n----` and `\n---x` close it too (`FrontMatter.ParseClosing`).
- A header line is dropped when it has no colon, and also when it starts with a
  colon (empty key). A line whose key is `__proto__` is dropped as well, because
  assigning a string to `meta['__proto__']` does nothing in JavaScript.
- Inside a code block a blank line is buffered, not a block break: the in-code
  test comes before the blank-line test.
- `rating:` with an empty value gives 0, not "no rating", because `Number('')`
  is 0. Only a missing key gives `null`.
- `renderStars(null)` writes five outline stars, not `''`, because
  `Number(null)` is 0 (`Posts.RenderStarsNull`). The callers test
  `post.rating !== null` first, so the pages never show this.
- The half-star glyph is the filled glyph, as in the code.
- The bold and italic passes of `inlineMarkdown` run after the link and code
  passes, over their output: `*…*` inside a code span, a link text or a url is
  still turned into `<em>`/`<strong>` (`` `a*b*c` `` gives
  `<code>a<em>b</em>c</code>`). This is why `Html.InlineLink` and
  `Html.InlineCode` exclude `*` inside the span.
- In new-review.js the title is the first non-empty argument that is not an
  option: an empty argument leaves `args.title` falsy.

## Model

| member | source | states |
|---|---|---|
| Html.EscapeHtmlIsPerChar | build.js:13-20 | The chain of five replacements, `&` first, equals escaping each character on its own, so no entity is escaped twice |
| Html.EscapeHtmlSafe | build.js:13-20 | Escaped text holds none of `<`, `>`, `"`, `'`, and a character in no entity appears in the output only if it was in the input |
| Html.InlinePlain | build.js:26-33 | Text without `[`, a backtick or `*` passes through inline processing unchanged, so raw HTML in prose is not escaped |
| Html.InlineLink | build.js:28-31 | `[label](url)` between text without `[`, backtick or `*`, with a label free of `]`, backtick and `*` and a url free of `)`, backtick and `*`, becomes an anchor whose href is the escaped url and whose text is the label as written; the text around it is unchanged |
| Html.InlineCode | build.js:29-31 | A backtick span whose code, like the text around it, holds no `[`, backtick or `*` becomes `<code>` around its HTML-escaped content; the text around it is unchanged |
| Html.InlineStrong | build.js:30 | `**x**` inside plain text becomes `<strong>x</strong>`; the italic pass that runs after it leaves the result alone |
| Html.InlineEmphasis | build.js:31 | `*x*` inside plain text becomes `<em>x</em>`; the bold pass that runs before it finds no `**` and changes nothing |
| Html.RunEnd | build.js:28-31 | The `[^c]+` run a pattern scans ends at the first `c` or at the end of the text |
| Markdown.BulletOf | build.js:73-79 | A line of indentation, a `-`/`*`/`+` marker, white space and a text is a list item whose text is exactly that text |
| Markdown.BulletText | build.js:73-79 | Removing the bullet pattern leaves a suffix of the line that starts with no white space |
| Markdown.HeadingOfForm | build.js:89-94 | A line of 1 to 6 `#`, white space and a single-line text is a heading of exactly that level with exactly that text |
| Markdown.HeadingOf | build.js:89 | A heading match has a `#` run of its level at the start of the line and a text free of line terminators |
| Markdown.QuoteText | build.js:98-101 | The quote pattern matches exactly the lines starting with `>`, and what it leaves is a suffix of the line |
| Markdown.Classify | build.js:57-107 | A line is classed as a fence exactly when its trimmed text starts with three backticks; blank lines trim to nothing; the rest are headings, quotes or paragraphs |
| Markdown.NormalizeNewlines | build.js:36 | Replacing `\r\n` never lengthens the text and leaves text without `\r` unchanged |
| Markdown.StepInv | build.js:57-108 | Each pass of the loop keeps the invariant: never in a list and in code at once, the code buffer empty outside code, and the emitted blocks well nested |
| Markdown.RunInv | build.js:57-108 | The invariant holds after any number of lines |
| Markdown.ConvertBalanced | build.js:35-114 | For every input, every `<ul>` is followed by exactly one `</ul>` before any block that is not an item, items occur only inside lists, and nothing is open after the final flush |
| Markdown.BothClosedInv | build.js:110-111 | After the final flush neither a list nor a code block is open |
| Markdown.SingleClosesList | build.js:105-107 | A heading, quote or paragraph line right after list items closes the list itself, with no blank line needed |
| Markdown.RunInCode | build.js:68-71 | Inside a code block every line that is not a fence, blank lines included, is buffered verbatim |
| Markdown.FencedCode | build.js:49-71 | Lines between two fence lines become one code block holding them joined by newlines, after any open list is closed, with both flags false afterwards |
| Markdown.RenderCode | build.js:51 | A code block is emitted HTML-escaped inside `<pre><code>`, with no inline substitution |
| Markdown.HeadingLine | build.js:89-95 | Outside code a heading line closes any open list and emits a heading block whose level is its count of `#` and whose text is the text after the white space, trimmed (trailing white space included) |
| Markdown.RenderHeading | build.js:93-94 | A heading block of level N renders as `<hN>` around the inline-processed text, N a digit from 1 to 6 |
| Markdown.MarkdownToHtml | build.js:35-114 | The loop with its closures returns the joined rendering of the state machine's blocks after the final flush |
| Markdown.BlockWriter.constructor | build.js:37-40 | The loop starts with no output, both flags false and an empty code buffer |
| Markdown.BlockWriter.Push | build.js:44 | `html.push` appends the rendering of one block |
| Markdown.BlockWriter.CloseList | build.js:42-47 | `closeList` emits `</ul>` and clears `inList` only when a list is open |
| Markdown.BlockWriter.CloseCode | build.js:49-55 | `closeCode` emits the buffered lines as one code block and empties the buffer in place only when in code |
| Markdown.BlockWriter.Feed | build.js:57-108 | One pass of the loop body, with its tests in the source's order, performs exactly one step of the state machine |
| Markdown.BlockWriter.ToggleCode | build.js:58-66 | A fence closes the open code block, or closes any list and opens a code block |
| Markdown.BlockWriter.BufferCode | build.js:68-71 | Inside code a non-fence line is appended to the buffer |
| Markdown.BlockWriter.AddItem | build.js:73-81 | A bullet opens a list when none is open, closing any code first, then emits the item |
| Markdown.BlockWriter.AddSingle | build.js:89-107 | A heading, quote or paragraph closes any list and code block, then is emitted |
| FrontMatter.ParseFrontMatter | build.js:116-141 | The method that assigns into `meta` line by line returns exactly the specification `Parse` |
| FrontMatter.CollectMeta | build.js:130-138 | The `forEach` over the header lines builds the metadata the specification `Collect` gives |
| FrontMatter.ParseUnclosed | build.js:116-124 | Without an opening `---`, or without any `\n---` from position 3 on, the metadata is empty and the body is the whole text trimmed |
| FrontMatter.ParseClosing | build.js:121-127 | The first `\n---` closes the header whatever follows it on its line, and the trimmed text after the three dashes is the body |
| FrontMatter.ParseAt | build.js:121-127 | With the closing marker at `end`, the header is the trimmed text between the markers and the body is the trimmed text after `end + 4` |
| FrontMatter.EmptyFirst | build.js:121-127 | A file whose opening `---` is followed at once by `\n---` has no metadata |
| FrontMatter.EntryAtColon | build.js:135-137 | A header line is split at its first colon: the key is the text before it, trimmed and lower-cased, the value is all text after it, trimmed; no colon or an empty key gives nothing |
| FrontMatter.HeaderLinesShape | build.js:130-133 | Every header line that is read is non-empty, trimmed and a single line |
| FrontMatter.HeaderLinesTrim | build.js:126 | Trimming the header before splitting it changes none of its lines |
| FrontMatter.EntryValid | build.js:135-137 | A header line yields, if anything, a lower-case trimmed key without colon or newline and a trimmed single-line value |
| FrontMatter.ParseValid | build.js:116-141 | Every parse yields distinct valid keys with valid values, and a trimmed body |
| FrontMatter.LastAssignmentWins | build.js:134-138 | A repeated key keeps the value of its last line |
| FrontMatter.NeverAssigned | build.js:134-138 | A key no header line assigns is absent from `meta` |
| FrontMatter.GetSet | build.js:137 | After `meta[k] = v`, `meta[k]` is `v` and every other key reads as before |
| FrontMatter.SetShape | build.js:137 | Assigning keeps keys distinct; a new key is appended and an existing key keeps its place |
| FrontMatter.GetEntry | build.js:137 | With distinct keys, `meta[k]` is `v` exactly when the entry `(k, v)` is present, and `undefined` exactly when no entry has key `k` |
| FrontMatter.ParseWrite | build.js:143-147 | For writable metadata (distinct valid keys, none starting with `---`, values without a newline) and a trimmed body, parsing the text `writeFrontMatter` builds gives back the entries in order with their values trimmed, and the body |
| FrontMatter.ParseWriteValid | build.js:143-147 | For valid metadata (distinct non-empty, trimmed, lower-case keys without a colon, and trimmed one-line values, as parsing produces them) with no key starting with `---`, and a trimmed body, write then parse is the identity |
| FrontMatter.DashKeyLost | build.js:143-147 | A first key starting with `---` makes its own line the closing marker, so every entry is lost; this is why the round trip excludes such keys |
| FrontMatter.WrittenMeta | build.js:144-146 | The header lines written for distinct valid entries read back as those entries with trimmed values |
| Slug.SlugifyIsSlug | build.js:151-156 | `slugify` always returns non-empty text over `[a-z0-9-]` with no hyphen at either end and no two hyphens in a row |
| Slug.SlugifyPost | build.js:155 | A value with no ASCII letter or digit, the empty value included, becomes `post` |
| Slug.SlugifyKeeps | build.js:152-154 | When there are letters or digits, the slug keeps exactly the letters and digits of the lower-cased value, in order |
| Slug.SlugifyIdempotent | build.js:151-156 | Slugifying a slug changes nothing |
| Slug.SlugFixed | build.js:151-156 | Every slug-shaped text is its own slug |
| Slug.Collapse | build.js:154 | Replacing each run of non-alphanumerics by `-` yields text over `[a-z0-9-]` with no double hyphen, keeping a leading letter or digit |
| Slug.AlnumsCollapse | build.js:154 | Collapsing runs keeps every letter and digit, in order |
| Slug.AlnumsStrip | build.js:155 | Stripping hyphens at the ends keeps every letter and digit, in order |
| Posts.Round | build.js:161 | `Math.round` yields the integer within half of its argument, a half going up |
| Posts.ClampNull | build.js:158-160 | The rating is null exactly when `Number(value)` is NaN: always for `undefined`, never for `''`, which gives 0 |
| Posts.ClampNearest | build.js:161 | A number in [0, 5] becomes the nearest count of halves, a tie going up |
| Posts.ClampOutside | build.js:161 | Numbers below 0 become 0 and numbers above 5 become 5 |
| Posts.ClampStable | build.js:158-162 | Clamping an already clamped rating gives it back |
| Posts.StarGlyphsCeil | build.js:214-220 | The whole stars, a half written as a filled glyph, then outline glyphs: ceil(r) filled glyphs followed by 5 - ceil(r) outline ones |
| Posts.StarsCount | build.js:214-220 | Exactly five glyphs in all, between 0 and 5 filled, and at least one filled exactly when the rating is above 0 |
| Posts.RenderStarsRating | build.js:211-221 | On a post's rating, `renderStars` writes ceil(r) filled glyphs and then outline glyphs |
| Posts.RenderStarsNull | build.js:212-213 | `renderStars(null)` does not return `''`: `Number(null)` is 0, so it writes five outline stars |
| Posts.LoadPostTitle | build.js:469 | The title is the header's when non-empty, otherwise the file name without `.md` |
| Posts.LoadPostSlug | build.js:470 | The slug is slug-shaped, and it is `slugify(meta.slug)` when that is set and otherwise `slugify(title)` |
| Posts.LoadPostRating | build.js:475 | The rating is null exactly when `Number(meta.rating)` is NaN: always without a `rating` key, never for an empty one |
| Posts.LoadPostDocument | build.js:468-489 | The record keeps the parsed header and body, with valid keys and a trimmed body |
| Posts.CoverUrlInjective | build.js:197-199 | The cover URL is a fixed prefix, the volume id and a fixed suffix, so it determines the id |
| Posts.NeedsCoverLoaded | build.js:496-497 | A loaded post is enriched exactly when its header has a `cover` key with an empty value |
| Posts.LookupTitleLoaded | build.js:498 | The search title of a loaded post is its title |
| Posts.CoverStepEffect | build.js:495-508 | A post changes exactly when it needs a cover and the search names a volume; then only `cover` changes, to that volume's URL, in place in the header, and the post no longer needs a cover |
| Posts.CoverStepIdempotent | build.js:495-508 | Running the enrichment again changes nothing |
| Posts.EnsureCover | build.js:495-512 | The loop body for one post yields the enriched post and the file text written for it, if any |
| Posts.EnsureCovers | build.js:494-514 | The array holds each post enriched in place, and the rewritten files come out in order |
| Posts.CoverStepsAt | build.js:495 | Enrichment treats each post on its own |
| Posts.CompareDated | build.js:518 | Of two dated posts the newer sorts first |
| Posts.CompareAntisymmetric | build.js:517-520 | The comparator is antisymmetric whenever `localeCompare` is |
| Posts.CompareCycle | build.js:517-520 | The comparator is not transitive: an older dated post, an undated one and a newer dated one can form a cycle |
| Feed.SiteUrl | build.js:9 | The site URL never ends in a slash |
| Feed.StripSlashesUnique | build.js:9 | Stripping removes exactly the trailing run of slashes |
| Feed.SiteUrlSlashes | build.js:9 | Slashes appended to the configured URL make no difference |
| Feed.SiteUrlIdempotent | build.js:9 | Stripping twice is stripping once |
| Feed.FeedAbsoluteUrlShape | build.js:227-230 | The absolute feed URL is empty exactly without a site URL, and otherwise the site URL and `rss.xml` joined by one slash |
| Feed.PermalinkShape | build.js:429 | The item link is the page path `posts/<slug>/index.html`: relative without a site URL, otherwise after the site URL and exactly one slash |
| Feed.PermalinkInjective | build.js:429 | Distinct slugs give distinct permalinks |
| Feed.ItemLinesShape | build.js:432-441 | An item has six fixed non-empty lines in order, plus one line each for a non-empty description and date |
| Feed.ItemLinesOptional | build.js:437-441 | The description and date lines are present exactly when their texts are non-empty |
| Feed.GuidIsLink | build.js:435-436 | The guid carries the same escaped text as the link |
| Feed.RssItemLink | build.js:428-441 | For a slug-shaped slug and a site URL free of the five escaped characters, a post's link and guid are its permalink, needing no escaping, and the date line is there exactly when the date is set and valid |
| Feed.EscapePlain | build.js:22-24 | `escapeXml` leaves text without the five escaped characters unchanged |
| Feed.RatingTextRoundTrip | build.js:359 | The printed rating `${post.rating}` reads back as the same number of halves |
| Feed.ParseRatingText | build.js:359 | Any text it accepts is exactly the printed rating of the halves it returns, the converse of the round trip |
| Feed.RatingBlockStars | build.js:359 | The rating block is empty exactly without a rating; with one it shows the stars and the rating text |
| FetchCover.ParseWithEndAgrees | fetch-cover.js:53-70 | The copied parser gives build.js's metadata and body, and returns the text unchanged |
| FetchCover.ParseWithoutEnd | fetch-cover.js:54-56 | Without `endIndex` the metadata is empty and the body is the whole text trimmed |
| FetchCover.ParseWithEndIndex | fetch-cover.js:54-69 | `endIndex` is set exactly when the text starts with `---` and a `\n---` follows from position 3 |
| FetchCover.ClosedEnd | fetch-cover.js:55-69 | With the first `\n---` after the opening marker at `end`, `endIndex` is `end + 4`, no earlier marker exists, and the body is the trimmed text after it |
| FetchCover.CoverUrlValid | fetch-cover.js:36-38 | The copied `googleCoverUrl` of a one-line id is a trimmed single-line header value |
| FetchCover.ParseCommandLine | fetch-cover.js:104-115 | No arguments give the usage message; otherwise the first argument is the title and the options are read from the rest |
| FetchCover.OptionsForce | fetch-cover.js:113 | Force is on exactly when `--force` is among the options |
| FetchCover.OptionsSlugLast | fetch-cover.js:114 | The last `--slug=` argument sets the slug to its text after the 7-character prefix |
| FetchCover.OptionsSlugNone | fetch-cover.js:111 | Without `--slug=` the slug stays empty |
| FetchCover.CommandTitle | fetch-cover.js:110-115 | The first argument is the title even when it looks like an option; only later ones are options |
| FetchCover.TargetSlugIs | fetch-cover.js:81 | The target slug is the `--slug` value when non-empty, otherwise `slugify(title)` |
| FetchCover.UpdateCoverMissing | fetch-cover.js:83-85 | A missing post file is an error before any search |
| FetchCover.UpdateCoverSkip | fetch-cover.js:88-91 | A non-empty cover without `--force` stops the tool before any search and any write |
| FetchCover.UpdateCoverNoVolume | fetch-cover.js:93-96 | A search that finds no volume is an error and nothing is written |
| FetchCover.UpdateCoverText | fetch-cover.js:97-99 | The written text is `writeFrontMatter` of the parsed header with `cover` set and of the parsed body |
| FetchCover.UpdateCoverWritten | fetch-cover.js:93-99 | When the post file exists, holds no key starting with `---`, has no cover or `--force` is given, and the search names a non-empty volume id without a newline, reading the written file back gives the same body, `cover` equal to the volume's URL, and every other key with its value and place |
| FetchCover.SetCoverKeys | fetch-cover.js:98 | Setting `meta.cover` changes no other key's value or place |
| FetchCover.SetCoverReadBack | fetch-cover.js:98-99 | Valid parsed metadata with no key starting with `---`, given a cover URL that is a valid header value, reads back exactly as written together with a trimmed body |
| NewReview.ParseArgs | new-review.js:17-26 | The loop that fills the record argument by argument returns the specification `ArgsOf` |
| NewReview.ApplyArgValue | new-review.js:20-22 | An argument sets an option exactly when it starts with that option's prefix, to the text after the prefix |
| NewReview.ArgsFlagLast | new-review.js:20-22 | For `--slug=`, `--cover=` and `--rating=`, the last occurrence gives the value |
| NewReview.ArgsFlagNone | new-review.js:18 | An option no argument names stays `''` |
| NewReview.ArgsTitleFirst | new-review.js:23 | The title is the first non-empty argument that is not an option; later ones are ignored |
| NewReview.ArgsTitleNone | new-review.js:18-23 | Without such an argument the title stays `''` |
| NewReview.SafeSlugIs | new-review.js:33 | The file slug is the given slug when non-empty, otherwise `slugify(title)` |
| NewReview.NewReviewOutcome | new-review.js:58-66 | Without a title only the usage message appears; otherwise the file is named by the slug, and it fails exactly when that file exists |
| NewReview.TemplateWritten | new-review.js:40-52 | The template is the text `writeFrontMatter` writes for the keys `title`, `date`, `summary`, `cover`, `rating`, `tags` in that order and the two section headings |
| NewReview.TemplateParse | new-review.js:40-52 | For a title, date, cover and rating without a newline, build.js's parser reads the six keys in order with the trimmed title, an empty cover and rating 4 by default, and the two `##` lines as body |
| NewReview.TemplateRead | new-review.js:40-52 | For a title, date, cover and rating without a newline, reading the template back gives its entries with trimmed values and its body |
| NewReview.NewReviewCover | new-review.js:44 | A review created without `--cover`, from arguments and a date without a newline, has an empty `cover` entry |
| NewReview.NewReviewNeedsCover | new-review.js:44 | A review created without `--cover`, from arguments and a date without a newline, is one that build.js's cover pass will fill in |

## Left out

- Filesystem and process effects: reading and writing files, `ensureDir`,
  `fs.existsSync`, `process.exit` and `console.*`. `writeFrontMatter` is
  modelled only as the text it builds. A read file, a file that exists and the
  files `ensureCovers` rewrites are parameters or results.
- The network: `httpGetJson`, `searchBook` and `extractIsbn`. The search is a
  `lookup` parameter returning a volume id. A thrown lookup error in
  `ensureCovers` is treated like a failed lookup, because both skip the post.
  In fetch-cover.js an error from `httpGetJson` (an HTTP status of 400 or
  more, a socket error, a body that is not JSON), or a `null` JSON body, on
  which `searchBook` throws when it reads `json.items`, aborts `updateCover`;
  the model folds these into `lookup` returning nothing, so they end as
  `NoVolume`, which also writes nothing.
- String positions: a Dafny `string` is a sequence of Unicode scalar values,
  while JavaScript indexes UTF-16 code units. For text holding a character
  above U+FFFF, the `indexOf` positions and the `endIndex` of
  `FetchCover.ParseWithEnd` are therefore different numbers from fetch-cover.js's,
  though they mark the same place. No string result changes: the patterns
  have no `u` flag and treat a surrogate pair like one character, and nothing
  reads `endIndex`.
- Dates: `formatDate`, `toRssDate`'s formatting, `today()` and `lastBuildDate`.
  These depend on JavaScript `Date` and the locale. The record has no
  `dateLabel` field.
- Posts.Compare: only the comparator is modelled, not the order
  `Array.prototype.sort` produces with it. The comparator is not transitive on
  mixed dated and undated posts, so that order depends on the engine.
- Posts.ClampRating: `Number()`'s grammar for non-blank strings is the parameter
  `parse`. Arithmetic is on reals, so floating-point rounding of `num * 2` is
  not modelled.
- Text.Lower: lower-cases ASCII letters only, not full Unicode case mapping.
- FrontMatter.Meta: entries are kept in insertion order. JavaScript lists
  integer-like keys such as `1` first, in numeric order, and the model does not.
- Prototype keys other than `__proto__` (such as `constructor`) are treated as
  plain keys.
- The HTML and CSS of `renderLayout`, the channel header of `renderRss`, and the
  rest of `renderIndex` and `renderPostPage` (cover image, tags line, the
  empty-list message). These are presentation; only links, optional feed lines
  and the rating block are modelled.
- `loadPosts`' directory listing and its `.md` filter: `LoadPost` takes one
  file name that ends in `.md`.
- `build()`'s sequencing of loading, sorting, enrichment and output, and the
  fatal error for a missing posts directory.
- preview.js is not part of this model. It is a local HTTP file server.
