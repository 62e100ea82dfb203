/**
 * The structural decisions of build.js's page and feed composition: the site
 * URL (`SITE_URL`), the permalink of a post in the index and in the feed, the
 * feed URL, the lines of one RSS `<item>` and the rating block of a card.
 * The surrounding HTML and CSS boilerplate is not modelled.
 */
module Feed {
  import opened Wrappers
  import opened Text
  import opened Html
  import opened Slug
  import opened Posts

  // ---------------------------------------------------------------------------
  // Site URL
  // ---------------------------------------------------------------------------

  /** `.replace(/\/+$/, '')`: the trailing run of slashes removed. */
  function StripSlashes(s: string): (r: string)
    ensures |r| <= |s| && r == s[..|r|]
    ensures r == [] || r[|r| - 1] != '/'
    ensures forall i :: |r| <= i < |s| ==> s[i] == '/'
  {
    if s != [] && s[|s| - 1] == '/' then StripSlashes(s[..|s| - 1]) else s
  }

  /** `SITE_URL`: the environment variable (`None` when unset), or `''`, without trailing slashes. */
  function SiteUrl(env: Option<string>): (r: string)
    ensures r == [] || r[|r| - 1] != '/'
  {
    StripSlashes(env.GetOr(""))
  }

  /** Stripping removes exactly the trailing slashes: any split of `s` into a
      part not ending in `/` and a run of slashes is the one it finds. */
  lemma StripSlashesUnique(s: string, r: string)
    requires |r| <= |s| && r == s[..|r|]
    requires r == [] || r[|r| - 1] != '/'
    requires forall i :: |r| <= i < |s| ==> s[i] == '/'
    ensures StripSlashes(s) == r
  {
  }

  /** Slashes appended to the site URL make no difference. */
  lemma SiteUrlSlashes(env: string, n: nat)
    ensures SiteUrl(Some(env + Repeat("/", n))) == SiteUrl(Some(env))
  {
    var s := env + Repeat("/", n);
    var r := StripSlashes(env);
    assert s[..|env|] == env;
    assert forall i :: |env| <= i < |s| ==> s[i] == Repeat("/", n)[i - |env|];
    RepeatChar('/', n);
    StripSlashesUnique(s, r);
  }

  lemma {:induction false} RepeatChar(c: char, n: nat)
    ensures forall i :: 0 <= i < n ==> Repeat([c], n)[i] == c
  {
    if n > 0 {
      RepeatChar(c, n - 1);
    }
  }

  /** Stripping twice is stripping once. */
  lemma SiteUrlIdempotent(env: Option<string>)
    ensures SiteUrl(Some(SiteUrl(env))) == SiteUrl(env)
  {
    var r := SiteUrl(env);
    StripSlashesUnique(r, r);
  }

  // ---------------------------------------------------------------------------
  // Links
  // ---------------------------------------------------------------------------

  /** `FEED_PATH`. */
  const FeedPath := "rss.xml"

  /** `feedAbsoluteUrl()`: empty without a site URL. */
  function FeedAbsoluteUrl(site: string): string {
    if site == "" then "" else site + "/" + FeedPath
  }

  /** The absolute feed URL is empty without a site URL, and otherwise the site
      URL and `rss.xml` joined by exactly one slash. */
  lemma FeedAbsoluteUrlShape(env: Option<string>)
    ensures var base := SiteUrl(env); var u := FeedAbsoluteUrl(base);
      && (base == "" <==> u == "")
      && (base != "" ==> u[..|base|] == base && u[|base| - 1] != '/' && u[|base|..] == "/" + FeedPath)
  {
  }

  /** The path of a post's page below the site root, the link of its index card. */
  function PagePath(slug: string): string {
    "posts/" + slug + "/index.html"
  }

  /** The `link` of a feed item: absolute when a site URL is set, otherwise the relative page path. */
  function Permalink(base: string, slug: string): string {
    if base != "" then base + "/" + PagePath(slug) else PagePath(slug)
  }

  /** The permalink ends in the page path and starts with the site URL, separated by
      exactly one slash; without a site URL it is the index card's link. */
  lemma PermalinkShape(env: Option<string>, slug: string)
    ensures var base := SiteUrl(env); var link := Permalink(base, slug);
      && (base == "" ==> link == PagePath(slug))
      && (base != "" ==> link[..|base|] == base && link[|base|] == '/' && link[|base| - 1] != '/'
                         && link[|base| + 1..] == PagePath(slug))
      && (base != "" ==> FeedAbsoluteUrl(base)[|base|] == '/' && FeedAbsoluteUrl(base)[|base| - 1] != '/')
  {
    var base := SiteUrl(env);
    if base != "" {
      var link := Permalink(base, slug);
      assert link == base + ("/" + PagePath(slug));
    }
  }

  /** Distinct slugs give distinct permalinks. */
  lemma PermalinkInjective(base: string, a: string, b: string)
    requires Permalink(base, a) == Permalink(base, b)
    ensures a == b
  {
    var n := if base != "" then |base| + 1 + 6 else 6;
    assert |a| == |b|;
    assert a == Permalink(base, a)[n..n + |a|];
    assert b == Permalink(base, b)[n..n + |b|];
  }

  /** Text with none of the five escaped characters. */
  predicate Plain(s: string) {
    forall i :: 0 <= i < |s| ==> s[i] !in "&<>\"'"
  }

  lemma {:induction false} EscapeEachPlain(s: string)
    requires Plain(s)
    ensures EscapeEach(s) == s
  {
    if s != [] {
      EscapeEachPlain(s[1..]);
      assert s == [s[0]] + s[1..];
    }
  }

  // ---------------------------------------------------------------------------
  // Feed items
  // ---------------------------------------------------------------------------

  /** `toRssDate(value)`: empty for an empty or invalid date; `utc` is `Date.prototype.toUTCString`
      (`None` for an invalid date). */
  function RssDate(value: string, utc: string -> Option<string>): string {
    if value == "" then "" else utc(value).GetOr("")
  }

  function TitleLine(title: string): string {
    "<title>" + EscapeHtml(title) + "</title>"
  }

  function LinkLine(link: string): string {
    "<link>" + EscapeHtml(link) + "</link>"
  }

  function GuidLine(link: string): string {
    "<guid>" + EscapeHtml(link) + "</guid>"
  }

  function DescriptionLine(description: string): string {
    "<description>" + EscapeHtml(description) + "</description>"
  }

  function ContentLine(html: string): string {
    "<content:encoded><![CDATA[" + html + "]]></content:encoded>"
  }

  function PubDateLine(pubDate: string): string {
    "<pubDate>" + pubDate + "</pubDate>"
  }

  /** The lines of one `<item>` of `renderRss`: the optional lines are written as
      `''` and `filter(Boolean)` drops them. */
  function ItemLines(title: string, link: string, description: string, html: string, pubDate: string): seq<string> {
    NonEmpty([
      "<item>", TitleLine(title), LinkLine(link), GuidLine(link),
      if description != "" then DescriptionLine(description) else "",
      ContentLine(html),
      if pubDate != "" then PubDateLine(pubDate) else "",
      "</item>"])
  }

  /** One `<item>` of `renderRss` for a post. */
  function RssItem(p: Post, base: string, utc: string -> Option<string>): string {
    var link := Permalink(base, p.slug);
    Join(ItemLines(p.title, link, p.summary, p.html, RssDate(p.date, utc)), "\n")
  }

  /** A line that `filter(Boolean)` keeps when it is non-empty. */
  function Optional(x: string): seq<string> {
    if x != "" then [x] else []
  }

  /** `filter(Boolean)` on the eight item lines keeps the six that are never empty
      and the two optional ones when they are not. */
  lemma NonEmptyItem(a: string, b: string, c: string, g: string, d: string, e: string, p: string, z: string)
    requires a != "" && b != "" && c != "" && g != "" && e != "" && z != ""
    ensures NonEmpty([a, b, c, g, d, e, p, z]) == [a, b, c, g] + Optional(d) + [e] + Optional(p) + [z]
  {
    ItemDisplay(a, b, c, g, d, e, p, z);
    NonEmptyNested(a, b, c, g, d, e, p, z);
    ItemFlat(a, b, c, g, Optional(d), e, Optional(p), z);
  }

  lemma ItemFlat(a: string, b: string, c: string, g: string, ds: seq<string>, e: string, ps: seq<string>, z: string)
    ensures [a] + ([b] + ([c] + ([g] + (ds + ([e] + (ps + [z]))))))
      == [a, b, c, g] + ds + [e] + ps + [z]
  {
    assert [a, b, c, g] == [a] + ([b] + ([c] + [g]));
  }

  lemma ItemDisplay(a: string, b: string, c: string, g: string, d: string, e: string, p: string, z: string)
    ensures [a, b, c, g, d, e, p, z] == [a] + ([b] + ([c] + ([g] + ([d] + ([e] + ([p] + [z]))))))
  {
  }

  lemma NonEmptyNested(a: string, b: string, c: string, g: string, d: string, e: string, p: string, z: string)
    requires a != "" && b != "" && c != "" && g != "" && e != "" && z != ""
    ensures NonEmpty([a] + ([b] + ([c] + ([g] + ([d] + ([e] + ([p] + [z])))))))
      == [a] + ([b] + ([c] + ([g] + (Optional(d) + ([e] + (Optional(p) + [z]))))))
  {
    var t := [d] + ([e] + ([p] + [z]));
    NonEmptyTail(d, e, p, z);
    NonEmptyCons(g, t);
    NonEmptyCons(c, [g] + t);
    NonEmptyCons(b, [c] + ([g] + t));
    NonEmptyCons(a, [b] + ([c] + ([g] + t)));
  }

  lemma NonEmptyTail(d: string, e: string, p: string, z: string)
    requires e != "" && z != ""
    ensures NonEmpty([d] + ([e] + ([p] + [z]))) == Optional(d) + ([e] + (Optional(p) + [z]))
  {
    NonEmptyCons(p, [z]);
    NonEmptyCons(z, []);
    NonEmptyCons(e, [p] + [z]);
    NonEmptyCons(d, [e] + ([p] + [z]));
  }

  lemma NonEmptyCons(x: string, t: seq<string>)
    ensures NonEmpty([x] + t) == Optional(x) + NonEmpty(t)
  {
    NonEmptySingle(x);
    NonEmptyAppend([x], t);
  }

  lemma NonEmptySingle(x: string)
    ensures NonEmpty([x]) == Optional(x)
  {
    assert [x][1..] == [];
  }

  /** The item lines with the `filter(Boolean)` resolved. */
  lemma ItemLinesList(title: string, link: string, description: string, html: string, pubDate: string)
    ensures ItemLines(title, link, description, html, pubDate)
      == ["<item>", TitleLine(title), LinkLine(link), GuidLine(link)]
         + Optional(if description != "" then DescriptionLine(description) else "")
         + [ContentLine(html)]
         + Optional(if pubDate != "" then PubDateLine(pubDate) else "")
         + ["</item>"]
  {
    NonEmptyItem("<item>", TitleLine(title), LinkLine(link), GuidLine(link),
      if description != "" then DescriptionLine(description) else "",
      ContentLine(html),
      if pubDate != "" then PubDateLine(pubDate) else "",
      "</item>");
  }

  /** Which lines occur in a list of the item's form. */
  lemma InItem(x: string, a: string, b: string, c: string, g: string, d: string, e: string, p: string, z: string)
    requires x != a && x != b && x != c && x != g && x != e && x != z
    ensures x in [a, b, c, g] + Optional(d) + [e] + Optional(p) + [z] <==> (x == d && d != "") || (x == p && p != "")
  {
  }

  /** The item has the six fixed lines in order, none of them empty, and one more
      line for each of the description and the date that is non-empty. */
  lemma ItemLinesShape(title: string, link: string, description: string, html: string, pubDate: string)
    ensures var ls := ItemLines(title, link, description, html, pubDate);
      && |ls| == 6 + (if description != "" then 1 else 0) + (if pubDate != "" then 1 else 0)
      && ls[0] == "<item>" && ls[|ls| - 1] == "</item>"
      && ls[1] == TitleLine(title) && ls[2] == LinkLine(link) && ls[3] == GuidLine(link)
      && (forall i :: 0 <= i < |ls| ==> ls[i] != "")
  {
    ItemLinesList(title, link, description, html, pubDate);
    ItemListShape("<item>", TitleLine(title), LinkLine(link), GuidLine(link),
      if description != "" then DescriptionLine(description) else "",
      ContentLine(html),
      if pubDate != "" then PubDateLine(pubDate) else "",
      "</item>");
  }

  lemma ItemListShape(a: string, b: string, c: string, g: string, d: string, e: string, p: string, z: string)
    requires a != "" && b != "" && c != "" && g != "" && e != "" && z != ""
    ensures var ls := [a, b, c, g] + Optional(d) + [e] + Optional(p) + [z];
      && |ls| == 6 + (if d != "" then 1 else 0) + (if p != "" then 1 else 0)
      && ls[0] == a && ls[1] == b && ls[2] == c && ls[3] == g && ls[|ls| - 1] == z
      && (forall i :: 0 <= i < |ls| ==> ls[i] != "")
  {
  }

  /** The guid carries the same text as the link: the escaped permalink. */
  lemma GuidIsLink(link: string)
    ensures var l := LinkLine(link); var g := GuidLine(link);
      l[6..|l| - 7] == g[6..|g| - 7] == EscapeHtml(link)
  {
    var l := LinkLine(link);
    var g := GuidLine(link);
    assert l[6..|l| - 7] == EscapeHtml(link);
    assert g[6..|g| - 7] == EscapeHtml(link);
  }

  /** The description and date lines are present exactly when the description
      and the date are non-empty. */
  lemma ItemLinesOptional(title: string, link: string, description: string, html: string, pubDate: string)
    ensures var ls := ItemLines(title, link, description, html, pubDate);
      && (DescriptionLine(description) in ls <==> description != "")
      && (PubDateLine(pubDate) in ls <==> pubDate != "")
  {
    var l := LinkLine(link);
    var g := GuidLine(link);
    var d := if description != "" then DescriptionLine(description) else "";
    var c := ContentLine(html);
    var p := if pubDate != "" then PubDateLine(pubDate) else "";
    ItemLinesList(title, link, description, html, pubDate);
    DescriptionDistinct(description, title, link, html, pubDate);
    InItem(DescriptionLine(description), "<item>", TitleLine(title), l, g, d, c, p, "</item>");
    PubDateDistinct(pubDate, title, link, html);
    InItem(PubDateLine(pubDate), "<item>", TitleLine(title), l, g, d, c, p, "</item>");
  }

  /** The description line is none of the other lines of an item. */
  lemma DescriptionDistinct(description: string, title: string, link: string, html: string, pubDate: string)
    ensures var x := DescriptionLine(description);
      && x != "<item>" && x != "</item>" && x != TitleLine(title) && x != LinkLine(link)
      && x != GuidLine(link) && x != ContentLine(html) && x != PubDateLine(pubDate)
  {
    var x := DescriptionLine(description);
    assert x[1] == 'd';
    assert TitleLine(title)[1] == 't' && LinkLine(link)[1] == 'l' && GuidLine(link)[1] == 'g';
    assert ContentLine(html)[1] == 'c' && PubDateLine(pubDate)[1] == 'p';
  }

  /** The date line is none of the other lines of an item. */
  lemma PubDateDistinct(pubDate: string, title: string, link: string, html: string)
    ensures var x := PubDateLine(pubDate);
      && x != "<item>" && x != "</item>" && x != TitleLine(title) && x != LinkLine(link)
      && x != GuidLine(link) && x != ContentLine(html)
  {
    var x := PubDateLine(pubDate);
    assert x[1] == 'p';
    assert TitleLine(title)[1] == 't' && LinkLine(link)[1] == 'l' && GuidLine(link)[1] == 'g';
    assert ContentLine(html)[1] == 'c';
  }

  lemma PlainAppend(a: string, b: string)
    requires Plain(a) && Plain(b)
    ensures Plain(a + b)
  {
    assert forall i :: |a| <= i < |a + b| ==> (a + b)[i] == b[i - |a|];
  }

  /** `escapeXml` leaves a text without the five escaped characters as it is. */
  lemma EscapePlain(s: string)
    requires Plain(s)
    ensures EscapeHtml(s) == s
  {
    EscapeHtmlIsPerChar(s);
    EscapeEachPlain(s);
  }

  /** A slug's permalink is free of escaped characters when the site URL is. */
  lemma PermalinkPlain(base: string, slug: string)
    requires IsSlug(slug) && Plain(base)
    ensures Plain(Permalink(base, slug))
  {
    assert Plain("posts/") && Plain("/index.html") && Plain("/");
    PlainAppend("posts/", slug);
    PlainAppend("posts/" + slug, "/index.html");
    if base != "" {
      PlainAppend(base, "/");
      PlainAppend(base + "/", PagePath(slug));
      assert Permalink(base, slug) == (base + "/") + PagePath(slug);
    }
  }

  /** A post's item links to its permalink, escaped: for a slug and a site URL
      free of escaped characters the link and guid text is the permalink itself;
      the date line is there exactly when the date is set and valid. */
  lemma RssItemLink(p: Post, base: string, utc: string -> Option<string>)
    requires IsSlug(p.slug) && Plain(base)
    ensures var ls := ItemLines(p.title, Permalink(base, p.slug), p.summary, p.html, RssDate(p.date, utc));
      && |ls| >= 6
      && ls[2] == "<link>" + Permalink(base, p.slug) + "</link>"
      && ls[3] == "<guid>" + Permalink(base, p.slug) + "</guid>"
      && (PubDateLine(RssDate(p.date, utc)) in ls <==> p.date != "" && utc(p.date).Some? && utc(p.date).value != "")
  {
    var link := Permalink(base, p.slug);
    ItemLinesShape(p.title, link, p.summary, p.html, RssDate(p.date, utc));
    ItemLinesOptional(p.title, link, p.summary, p.html, RssDate(p.date, utc));
    PermalinkPlain(base, p.slug);
    EscapePlain(link);
  }

  // ---------------------------------------------------------------------------
  // Ratings on cards and pages
  // ---------------------------------------------------------------------------

  /** `String(h / 2)` for a rating of `h` halves: the whole number, and `.5` for a half. */
  function RatingText(h: Halves): string {
    [DigitChar(h / 2)] + (if h % 2 == 1 then ".5" else "")
  }

  function DigitChar(d: nat): char
    requires d < 10
  {
    "0123456789"[d]
  }

  /** Reads a rating text back as halves; whatever it accepts is the text of
      the rating it returns. */
  function ParseRatingText(t: string): (r: Option<Halves>)
    ensures r.Some? ==> RatingText(r.value) == t
  {
    if |t| == 0 || !('0' <= t[0] <= '5') then None
    else
      var d := (t[0] as int) - ('0' as int);
      if |t| == 1 then Some(2 * d)
      else if t[1..] == ".5" && d < MaxRating then Some(2 * d + 1)
      else None
  }

  /** The rating text names the rating: reading it back gives the halves. */
  lemma RatingTextRoundTrip(h: Halves)
    ensures ParseRatingText(RatingText(h)) == Some(h)
  {
    var t := RatingText(h);
    assert t[0] == DigitChar(h / 2);
    assert (t[0] as int) - ('0' as int) == h / 2;
    if h % 2 == 1 {
      assert t[1..] == ".5";
    }
  }

  /** The rating block of an index card and of a post page: nothing without a
      rating, otherwise `renderStars(post.rating)` and `${post.rating}/5`. The
      rating of a post is already clamped, so `renderStars` clamps it to itself
      and writes `StarGlyphs`. */
  function RatingBlock(rating: Option<Halves>): string {
    match rating
    case None => ""
    case Some(h) =>
      "<div class=\"rating\"><span class=\"stars\">" + StarGlyphs(h)
        + "</span><span class=\"value\">" + RatingText(h) + "/5</span></div>"
  }

  /** The block is empty exactly without a rating; with one it shows `Stars`. */
  lemma RatingBlockStars(rating: Option<Halves>)
    ensures RatingBlock(rating) == "" <==> rating.None?
    ensures rating.Some? ==>
      RatingBlock(rating) == "<div class=\"rating\"><span class=\"stars\">" + Stars(rating)
        + "</span><span class=\"value\">" + RatingText(rating.value) + "/5</span></div>"
  {
    if rating.Some? {
      var h := rating.value;
      assert rating == Some(h);
      StarGlyphsCeil(h);
    }
  }
}
