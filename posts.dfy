/**
 * What build.js derives from one post file: the rating (`clampRating`), its
 * stars (`renderStars`), the post record of `loadPosts`, the cover-enrichment
 * pass of `ensureCovers` and the sort callback of `build`.
 */
module Posts {
  import opened Wrappers
  import opened Text
  import opened Slug
  import opened FrontMatter
  import Markdown

  // ---------------------------------------------------------------------------
  // Ratings
  // ---------------------------------------------------------------------------

  /** A JavaScript number, as far as ratings need one. */
  datatype Num = NaN | PosInfinity | NegInfinity | Finite(x: real)

  /** The values `clampRating` and `renderStars` are called with. */
  datatype JsValue = Undefined | Null | Str(s: string) | Number(n: Num)

  /** `Number(value)`. A blank string is 0 and `null` is 0; the numeric grammar
      for other strings is the parameter `parse`, applied to the trimmed text. */
  function ToNumber(v: JsValue, parse: string -> Num): Num {
    match v
    case Undefined => NaN
    case Null => Finite(0.0)
    case Str(s) => if Trim(s) == "" then Finite(0.0) else parse(Trim(s))
    case Number(n) => n
  }

  /** `MAX_RATING`. */
  const MaxRating: nat := 5

  /** A rating as a count of half stars: `h` stands for `h / 2`. */
  type Halves = h: int | 0 <= h <= 2 * MaxRating

  /** `Math.round(y)`: the nearest integer, a half rounded up. */
  function Round(y: real): (r: int)
    ensures y - 0.5 < r as real <= y + 0.5
  {
    (y + 0.5).Floor
  }

  /** `clampRating(value)`: `null` for NaN, otherwise `Math.round(num * 2) / 2`
      clamped to `[0, MAX_RATING]`, in halves. */
  function ClampRating(v: JsValue, parse: string -> Num): Option<Halves> {
    match ToNumber(v, parse)
    case NaN => None
    case PosInfinity => Some(2 * MaxRating)
    case NegInfinity => Some(0)
    case Finite(x) => Some(ClampHalves(x))
  }

  /** `Math.round(num * 2)` held to `[0, 2 * MAX_RATING]`. */
  function ClampHalves(x: real): Halves {
    var h := Round(2.0 * x);
    if h < 0 then 0 else if h > 2 * MaxRating then 2 * MaxRating else h
  }

  /** The rating is missing exactly when `Number(value)` is NaN. */
  lemma ClampNull(v: JsValue, parse: string -> Num)
    ensures ClampRating(v, parse).None? <==> ToNumber(v, parse).NaN?
    ensures v == Undefined ==> ClampRating(v, parse).None?
    ensures v == Str("") ==> ClampRating(v, parse) == Some(0)
  {
  }

  /** A number within range is rounded to the nearest half, halves going up. */
  lemma ClampNearest(v: JsValue, parse: string -> Num)
    requires ToNumber(v, parse).Finite? && 0.0 <= ToNumber(v, parse).x <= MaxRating as real
    ensures var x := ToNumber(v, parse).x; var h := ClampRating(v, parse).value;
      2.0 * x - 0.5 < h as real <= 2.0 * x + 0.5
  {
    var x := ToNumber(v, parse).x;
    assert ClampRating(v, parse) == Some(ClampHalves(x));
    HalvesNearest(x);
  }

  lemma HalvesNearest(x: real)
    requires 0.0 <= x <= MaxRating as real
    ensures 2.0 * x - 0.5 < ClampHalves(x) as real <= 2.0 * x + 0.5
  {
    var h := Round(2.0 * x);
    assert 0 <= h <= 2 * MaxRating;
  }

  /** Numbers below the range become 0, numbers above it `MAX_RATING`. */
  lemma ClampOutside(v: JsValue, parse: string -> Num)
    requires ToNumber(v, parse).Finite?
    ensures ToNumber(v, parse).x < 0.0 ==> ClampRating(v, parse) == Some(0)
    ensures ToNumber(v, parse).x > MaxRating as real ==> ClampRating(v, parse) == Some(2 * MaxRating)
  {
    var x := ToNumber(v, parse).x;
    assert ClampRating(v, parse) == Some(ClampHalves(x));
    HalvesOutside(x);
  }

  lemma HalvesOutside(x: real)
    ensures x < 0.0 ==> ClampHalves(x) == 0
    ensures x > MaxRating as real ==> ClampHalves(x) == 2 * MaxRating
  {
    var h := Round(2.0 * x);
    assert h as real <= 2.0 * x + 0.5 && 2.0 * x - 0.5 < h as real;
  }

  /** Clamping a clamped rating again changes nothing; `renderStars` does this to the post's rating. */
  lemma ClampStable(h: Halves, parse: string -> Num)
    ensures ClampRating(Number(Finite(h as real / 2.0)), parse) == Some(h)
  {
    var y := 2.0 * (h as real / 2.0);
    assert y == h as real;
    assert Round(y) == h;
  }

  // ---------------------------------------------------------------------------
  // Stars
  // ---------------------------------------------------------------------------

  const FilledStar := "&#9733;"
  const OutlineStar := "&#9734;"

  /** `renderStars(rating)` as written: the whole stars, one filled glyph for a
      half, and outline glyphs up to `MAX_RATING`. */
  function RenderStars(rating: JsValue, parse: string -> Num): string {
    match ClampRating(rating, parse)
    case None => ""
    case Some(h) => StarGlyphs(h)
  }

  /** The glyphs `renderStars` writes for a clamped rating of `h` halves. */
  function StarGlyphs(h: Halves): string {
    var full := h / 2;
    var half := h % 2;
    var empty := MaxRating - full - half;
    Repeat(FilledStar, full) + (if half == 1 then FilledStar else "") + Repeat(OutlineStar, empty)
  }

  /** The stars for a post's rating: nothing without a rating, otherwise
      `ceil(r)` filled glyphs followed by outline glyphs, five in all. */
  function Stars(rating: Option<Halves>): string {
    match rating
    case None => ""
    case Some(h) => Repeat(FilledStar, (h + 1) / 2) + Repeat(OutlineStar, MaxRating - (h + 1) / 2)
  }

  lemma {:induction false} RepeatSnoc(s: string, n: nat)
    ensures Repeat(s, n) + s == Repeat(s, n + 1)
  {
    if n > 0 {
      RepeatSnoc(s, n - 1);
    }
  }

  /** Half a star is written as a filled one. */
  lemma StarGlyphsCeil(h: Halves)
    ensures StarGlyphs(h) == Stars(Some(h))
  {
    assert StarGlyphs(h) == Repeat(FilledStar, h / 2) + (if h % 2 == 1 then FilledStar else "") + Repeat(OutlineStar, MaxRating - h / 2 - h % 2);
    StarsCount(h);
    HalfRoundsUp(FilledStar, OutlineStar, h);
  }

  lemma HalfRoundsUp(f: string, o: string, h: Halves)
    ensures Repeat(f, h / 2) + (if h % 2 == 1 then f else "") + Repeat(o, MaxRating - h / 2 - h % 2)
      == Repeat(f, (h + 1) / 2) + Repeat(o, MaxRating - (h + 1) / 2)
  {
    var full := h / 2;
    assert h == 2 * full + h % 2;
    if h % 2 == 1 {
      assert (h + 1) / 2 == full + 1;
      RepeatSnoc(f, full);
    } else {
      assert (h + 1) / 2 == full;
    }
  }

  /** On a post's rating `renderStars` writes the stars of `Stars`. */
  lemma RenderStarsRating(h: Halves, parse: string -> Num)
    ensures RenderStars(Number(Finite(h as real / 2.0)), parse) == Stars(Some(h))
  {
    ClampStable(h, parse);
    StarGlyphsCeil(h);
  }

  /** `renderStars(null)` does not return `''`: `Number(null)` is 0, so it writes
      five outline stars. */
  lemma RenderStarsNull(parse: string -> Num)
    ensures RenderStars(Null, parse) == Repeat(OutlineStar, MaxRating)
    ensures RenderStars(Null, parse) != Stars(None)
  {
  }

  /** Five glyphs in all: the filled ones, then the outline ones. */
  lemma StarsCount(h: Halves)
    ensures var filled := (h + 1) / 2;
      && 0 <= filled <= MaxRating
      && Stars(Some(h)) == Repeat(FilledStar, filled) + Repeat(OutlineStar, MaxRating - filled)
      && |Stars(Some(h))| == MaxRating * 7
      && (h > 0 <==> filled > 0)
  {
  }

  // ---------------------------------------------------------------------------
  // The post record
  // ---------------------------------------------------------------------------

  /** The fields of the record `loadPosts` builds; the date label is left to the locale. */
  datatype Post = Post(
    file: string, title: string, slug: string, summary: string, date: string,
    meta: Meta, cover: string, rating: Option<Halves>, html: string, body: string)

  /** `a || b` on strings. */
  function Or(a: string, b: string): string {
    if a != "" then a else b
  }

  /** `meta[key] || ''`. */
  function Field(m: Meta, key: string): string {
    Get(m, key).GetOr("")
  }

  /** `path.basename(file, '.md')` for a file name ending in `.md`. */
  function BaseName(file: string): string
    requires EndsWith(file, ".md")
  {
    file[..|file| - 3]
  }

  /** `s.endsWith(suffix)`. */
  predicate EndsWith(s: string, suffix: string) {
    |suffix| <= |s| && s[|s| - |suffix|..] == suffix
  }

  /** `meta.rating`: `undefined` without the key, otherwise the text. */
  function RatingValue(m: Meta): JsValue {
    match Get(m, "rating")
    case None => Undefined
    case Some(s) => Str(s)
  }

  /** The record `loadPosts` makes of one `.md` file. */
  function LoadPost(file: string, raw: string, parse: string -> Num): Post
    requires EndsWith(file, ".md")
  {
    var doc := Parse(raw);
    var meta := doc.meta;
    var title := Or(Field(meta, "title"), BaseName(file));
    Post(
      file, title, Slugify(Or(Field(meta, "slug"), title)), Field(meta, "summary"),
      Field(meta, "date"), meta, Field(meta, "cover"), ClampRating(RatingValue(meta), parse),
      Markdown.ConvertText(doc.body), doc.body)
  }

  /** The slug of a loaded post is slug-shaped, and it is the title's unless the header names one. */
  lemma LoadPostSlug(file: string, raw: string, parse: string -> Num)
    requires EndsWith(file, ".md")
    ensures var p := LoadPost(file, raw, parse);
      && IsSlug(p.slug)
      && (Field(p.meta, "slug") == "" ==> p.slug == Slugify(p.title))
      && (Field(p.meta, "slug") != "" ==> p.slug == Slugify(Field(p.meta, "slug")))
  {
    var p := LoadPost(file, raw, parse);
    SlugifyIsSlug(Or(Field(p.meta, "slug"), p.title));
  }

  /** The title is the header's when it is non-empty, otherwise the file name without `.md`. */
  lemma LoadPostTitle(file: string, raw: string, parse: string -> Num)
    requires EndsWith(file, ".md")
    ensures var p := LoadPost(file, raw, parse);
      && (Field(p.meta, "title") != "" ==> p.title == Field(p.meta, "title"))
      && (Field(p.meta, "title") == "" ==> p.title == BaseName(file))
      && (p.title == "" ==> file == ".md")
  {
  }

  /** The rating is missing exactly when `Number(meta.rating)` is NaN, so always
      when the header has no `rating` key, and never for an empty one. */
  lemma LoadPostRating(file: string, raw: string, parse: string -> Num)
    requires EndsWith(file, ".md")
    ensures var p := LoadPost(file, raw, parse);
      && (p.rating.None? <==> ToNumber(RatingValue(p.meta), parse).NaN?)
      && (Get(p.meta, "rating").None? ==> p.rating.None?)
      && (Get(p.meta, "rating") == Some("") ==> p.rating == Some(0))
  {
    var p := LoadPost(file, raw, parse);
    ClampNull(RatingValue(p.meta), parse);
  }

  /** The header and body of a loaded post are as `parseFrontMatter` produces them. */
  lemma LoadPostDocument(file: string, raw: string, parse: string -> Num)
    requires EndsWith(file, ".md")
    ensures var p := LoadPost(file, raw, parse);
      ValidMeta(p.meta) && Trimmed(p.body) && Parse(raw) == Document(p.meta, p.body)
  {
    ParseValid(raw);
  }

  // ---------------------------------------------------------------------------
  // Cover enrichment
  // ---------------------------------------------------------------------------

  /** `googleCoverUrl(volumeId)`, identical in build.js and fetch-cover.js. */
  function GoogleCoverUrl(volumeId: string): (r: string)
    ensures r == CoverPrefix + volumeId + CoverSuffix
  {
    "https://books.google.com/books/content?id=" + volumeId + "&printsec=frontcover&img=1&zoom=1"
  }

  const CoverPrefix := "https://books.google.com/books/content?id="
  const CoverSuffix := "&printsec=frontcover&img=1&zoom=1"

  /** The cover URL determines the volume id it was built from. */
  lemma CoverUrlInjective(a: string, b: string)
    requires GoogleCoverUrl(a) == GoogleCoverUrl(b)
    ensures a == b
  {
    var n := |CoverPrefix|;
    assert a == GoogleCoverUrl(a)[n..n + |a|];
    assert |a| == |b|;
    assert b == GoogleCoverUrl(b)[n..n + |b|];
  }

  /** The selection rule of `ensureCovers`: the header has a `cover` key and it is empty. */
  predicate NeedsCover(p: Post) {
    KeyIndex(p.meta, "cover") != -1 && p.cover == ""
  }

  /** A loaded post needs a cover exactly when its header says `cover:` with nothing after it. */
  lemma NeedsCoverLoaded(file: string, raw: string, parse: string -> Num)
    requires EndsWith(file, ".md")
    ensures NeedsCover(LoadPost(file, raw, parse)) <==> Get(Parse(raw).meta, "cover") == Some("")
  {
  }

  /** The title `ensureCovers` searches for: `post.meta.title || post.title`. */
  function LookupTitle(p: Post): string {
    Or(Field(p.meta, "title"), p.title)
  }

  /** For a loaded post that is just its title. */
  lemma LookupTitleLoaded(file: string, raw: string, parse: string -> Num)
    requires EndsWith(file, ".md")
    ensures LookupTitle(LoadPost(file, raw, parse)) == LoadPost(file, raw, parse).title
  {
  }

  /** One pass of the `ensureCovers` loop on a post: when it needs a cover and the
      search (the parameter `lookup`; a failed search is `None`) names a volume,
      `post.cover` and `post.meta.cover` become its cover URL. */
  function CoverStep(p: Post, lookup: string -> Option<string>): Post {
    if !NeedsCover(p) then p
    else
      match lookup(LookupTitle(p))
      case None => p
      case Some(id) =>
        if id == "" then p
        else
          var url := GoogleCoverUrl(id);
          p.(cover := url, meta := Set(p.meta, "cover", url))
  }

  /** The file text written for a post whose cover was set, if any. */
  function CoverWrite(p: Post, lookup: string -> Option<string>): seq<(string, string)> {
    var q := CoverStep(p, lookup);
    if q == p then [] else [(p.file, Write(q.meta, q.body))]
  }

  /** A post changes only when it needs a cover and the search names a volume;
      then only its cover changes, to that volume's URL, in place in the header,
      and it no longer needs one. */
  lemma CoverStepEffect(p: Post, lookup: string -> Option<string>)
    ensures var q := CoverStep(p, lookup);
      && (q != p <==> NeedsCover(p) && lookup(LookupTitle(p)).Some? && lookup(LookupTitle(p)).value != "")
      && (q != p ==>
          && q.cover == GoogleCoverUrl(lookup(LookupTitle(p)).value)
          && Get(q.meta, "cover") == Some(q.cover)
          && (forall k :: k != "cover" ==> Get(q.meta, k) == Get(p.meta, k))
          && |q.meta| == |p.meta| && (forall i :: 0 <= i < |p.meta| ==> q.meta[i].0 == p.meta[i].0)
          && q == p.(cover := q.cover, meta := q.meta)
          && !NeedsCover(q))
  {
    var q := CoverStep(p, lookup);
    if NeedsCover(p) && lookup(LookupTitle(p)).Some? && lookup(LookupTitle(p)).value != "" {
      var url := GoogleCoverUrl(lookup(LookupTitle(p)).value);
      assert q.cover == url != p.cover;
      forall k
        ensures Get(q.meta, k) == if k == "cover" then Some(url) else Get(p.meta, k)
      {
        GetSet(p.meta, "cover", url, k);
      }
      GetSet(p.meta, "cover", url, "cover");
      assert KeyIndex(q.meta, "cover") != -1;
    }
  }

  /** Enriching again changes nothing: the pass is idempotent. */
  lemma CoverStepIdempotent(p: Post, lookup: string -> Option<string>)
    ensures CoverStep(CoverStep(p, lookup), lookup) == CoverStep(p, lookup)
  {
    CoverStepEffect(p, lookup);
  }

  /** `ensureCovers(posts)`: each post updated in place, and the header files rewritten. */
  method EnsureCovers(posts: array<Post>, lookup: string -> Option<string>) returns (written: seq<(string, string)>)
    modifies posts
    ensures posts[..] == CoverSteps(old(posts[..]), lookup)
    ensures written == CoverWrites(old(posts[..]), lookup)
  {
    ghost var before := posts[..];
    written := [];
    for i := 0 to posts.Length
      invariant posts[..] == CoverSteps(before[..i], lookup) + before[i..]
      invariant written == CoverWrites(before[..i], lookup)
    {
      var post, w := EnsureCover(posts[i], lookup);
      SnocSteps(before, i, lookup);
      posts[i] := post;
      written := written + w;
    }
    assert before[..posts.Length] == before;
  }

  /** One more pass of the loop: the next post replaced, its file appended. */
  lemma SnocSteps(ps: seq<Post>, i: nat, lookup: string -> Option<string>)
    requires i < |ps|
    ensures (CoverSteps(ps[..i], lookup) + ps[i..])[i := CoverStep(ps[i], lookup)]
      == CoverSteps(ps[..i + 1], lookup) + ps[i + 1..]
    ensures CoverWrites(ps[..i + 1], lookup) == CoverWrites(ps[..i], lookup) + CoverWrite(ps[i], lookup)
  {
    assert ps[..i + 1][..i] == ps[..i];
  }

  /** The body of the `ensureCovers` loop for one post. */
  method EnsureCover(post: Post, lookup: string -> Option<string>) returns (next: Post, written: seq<(string, string)>)
    ensures next == CoverStep(post, lookup)
    ensures written == CoverWrite(post, lookup)
  {
    next := post;
    written := [];
    if KeyIndex(post.meta, "cover") == -1 || post.cover != "" {
      return;
    }
    var title := LookupTitle(post);
    var volumeId := lookup(title);
    if volumeId.None? || volumeId.value == "" {
      return;
    }
    var coverUrl := GoogleCoverUrl(volumeId.value);
    next := next.(cover := coverUrl);
    next := next.(meta := Set(next.meta, "cover", coverUrl));
    assert next.cover != post.cover;
    written := [(next.file, Write(next.meta, next.body))];
  }

  /** The posts after `ensureCovers`. */
  function CoverSteps(ps: seq<Post>, lookup: string -> Option<string>): (r: seq<Post>)
    ensures |r| == |ps|
  {
    if ps == [] then [] else CoverSteps(ps[..|ps| - 1], lookup) + [CoverStep(ps[|ps| - 1], lookup)]
  }

  /** `ensureCovers` treats each post on its own. */
  lemma {:induction false} CoverStepsAt(ps: seq<Post>, lookup: string -> Option<string>, i: nat)
    requires i < |ps|
    ensures CoverSteps(ps, lookup)[i] == CoverStep(ps[i], lookup)
  {
    if i < |ps| - 1 {
      CoverStepsAt(ps[..|ps| - 1], lookup, i);
    }
  }

  /** The files `ensureCovers` rewrites, in order. */
  function CoverWrites(ps: seq<Post>, lookup: string -> Option<string>): seq<(string, string)> {
    if ps == [] then [] else CoverWrites(ps[..|ps| - 1], lookup) + CoverWrite(ps[|ps| - 1], lookup)
  }

  // ---------------------------------------------------------------------------
  // Sort order
  // ---------------------------------------------------------------------------

  /** The sort callback of `build`: newest first when both posts carry a date,
      otherwise by title. Date parsing (`time`, milliseconds, `None` for an
      invalid date) and `localeCompare` (`collate`) are parameters; a NaN
      difference counts as 0, as `Array.prototype.sort` treats it. */
  function Compare(a: Post, b: Post, time: string -> Option<int>, collate: (string, string) -> int): int {
    if a.date != "" && b.date != "" then
      match (time(a.date), time(b.date))
      case (Some(ta), Some(tb)) => tb - ta
      case _ => 0
    else collate(a.title, b.title)
  }

  /** Two dated posts: the newer sorts first. */
  lemma CompareDated(a: Post, b: Post, time: string -> Option<int>, collate: (string, string) -> int)
    requires a.date != "" && b.date != "" && time(a.date).Some? && time(b.date).Some?
    ensures Compare(a, b, time, collate) < 0 <==> time(a.date).value > time(b.date).value
  {
  }

  /** The callback is antisymmetric when `localeCompare` is. */
  lemma CompareAntisymmetric(a: Post, b: Post, time: string -> Option<int>, collate: (string, string) -> int)
    requires collate(a.title, b.title) == -collate(b.title, a.title)
    ensures Compare(a, b, time, collate) == -Compare(b, a, time, collate)
  {
  }

  /** The callback is not transitive on mixed dated and undated posts: an older
      dated post before an undated one before a newer dated one, which sorts
      before the first. */
  lemma CompareCycle(a: Post, b: Post, c: Post, time: string -> Option<int>, collate: (string, string) -> int)
    requires a.date != "" && b.date == "" && c.date != ""
    requires time(a.date) == Some(0) && time(c.date) == Some(1)
    requires collate(a.title, b.title) < 0 && collate(b.title, c.title) < 0
    ensures Compare(a, b, time, collate) < 0 && Compare(b, c, time, collate) < 0 && Compare(c, a, time, collate) < 0
  {
  }
}
