/**
 * new-review.js: the command-line tool that starts a review from a template.
 * Its `slugify` is a copy of build.js's (Slug.Slugify). Whether the post file
 * already exists and today's date are parameters; the file write is left out.
 */
module NewReview {
  import opened Wrappers
  import opened Text
  import opened Slug
  import opened FrontMatter
  import opened Posts

  // ---------------------------------------------------------------------------
  // parseArgs
  // ---------------------------------------------------------------------------

  /** The record `parseArgs` fills. */
  datatype Args = Args(title: string, slug: string, cover: string, rating: string)

  /** One pass of the `forEach` in `parseArgs`: a `--slug=`, `--cover=` or
      `--rating=` argument sets that field to the text after the prefix, any
      other argument becomes the title while the title is still empty. */
  function ApplyArg(args: Args, arg: string): Args {
    if StartsWith(arg, "--slug=") then args.(slug := arg[7..])
    else if StartsWith(arg, "--cover=") then args.(cover := arg[8..])
    else if StartsWith(arg, "--rating=") then args.(rating := arg[9..])
    else if args.title == "" then args.(title := arg)
    else args
  }

  /** `parseArgs(argv)`: the arguments read from the left, starting with every field `''`. */
  function ArgsOf(argv: seq<string>): Args {
    if argv == [] then Args("", "", "", "")
    else ApplyArg(ArgsOf(argv[..|argv| - 1]), argv[|argv| - 1])
  }

  /** `parseArgs`, filling the record argument by argument. */
  method ParseArgs(argv: seq<string>) returns (args: Args)
    ensures args == ArgsOf(argv)
  {
    args := Args("", "", "", "");
    for i := 0 to |argv|
      invariant args == ArgsOf(argv[..i])
    {
      var arg := argv[i];
      if StartsWith(arg, "--slug=") {
        args := args.(slug := arg[7..]);
      } else if StartsWith(arg, "--cover=") {
        args := args.(cover := arg[8..]);
      } else if StartsWith(arg, "--rating=") {
        args := args.(rating := arg[9..]);
      } else if args.title == "" {
        args := args.(title := arg);
      }
      assert argv[..i + 1][..i] == argv[..i];
    }
    assert argv[..|argv|] == argv;
  }

  /** The three options of `parseArgs`. */
  datatype Flag = SlugFlag | CoverFlag | RatingFlag

  function Prefix(f: Flag): string {
    match f
    case SlugFlag => "--slug="
    case CoverFlag => "--cover="
    case RatingFlag => "--rating="
  }

  function Value(args: Args, f: Flag): string {
    match f
    case SlugFlag => args.slug
    case CoverFlag => args.cover
    case RatingFlag => args.rating
  }

  predicate IsOption(arg: string) {
    StartsWith(arg, "--slug=") || StartsWith(arg, "--cover=") || StartsWith(arg, "--rating=")
  }

  /** An argument sets an option exactly when it starts with that option's prefix;
      the three prefixes exclude each other. */
  lemma ApplyArgValue(args: Args, arg: string, f: Flag)
    ensures Value(ApplyArg(args, arg), f)
      == if StartsWith(arg, Prefix(f)) then arg[|Prefix(f)|..] else Value(args, f)
  {
    if StartsWith(arg, Prefix(f)) {
      assert arg[2] == Prefix(f)[2];
    }
  }

  /** The last argument with an option's prefix gives that option its value. */
  lemma {:induction false} ArgsFlagLast(argv: seq<string>, f: Flag, i: nat)
    requires i < |argv| && StartsWith(argv[i], Prefix(f))
    requires forall j :: i < j < |argv| ==> !StartsWith(argv[j], Prefix(f))
    ensures Value(ArgsOf(argv), f) == argv[i][|Prefix(f)|..]
  {
    var n := |argv| - 1;
    if i < n {
      ArgsFlagLast(argv[..n], f, i);
    }
    ApplyArgValue(ArgsOf(argv[..n]), argv[n], f);
  }

  /** An option no argument names stays `''`. */
  lemma {:induction false} ArgsFlagNone(argv: seq<string>, f: Flag)
    requires forall j :: 0 <= j < |argv| ==> !StartsWith(argv[j], Prefix(f))
    ensures Value(ArgsOf(argv), f) == ""
  {
    if argv != [] {
      var n := |argv| - 1;
      ArgsFlagNone(argv[..n], f);
      ApplyArgValue(ArgsOf(argv[..n]), argv[n], f);
    }
  }

  /** Without a non-empty argument that is not an option the title stays `''`. */
  lemma {:induction false} ArgsTitleNone(argv: seq<string>)
    requires forall j :: 0 <= j < |argv| ==> IsOption(argv[j]) || argv[j] == ""
    ensures ArgsOf(argv).title == ""
  {
    if argv != [] {
      ArgsTitleNone(argv[..|argv| - 1]);
    }
  }

  /** The title is the first non-empty argument that is not an option; later ones are ignored. */
  lemma {:induction false} ArgsTitleFirst(argv: seq<string>, i: nat)
    requires i < |argv| && !IsOption(argv[i]) && argv[i] != ""
    requires forall j :: 0 <= j < i ==> IsOption(argv[j]) || argv[j] == ""
    ensures ArgsOf(argv).title == argv[i]
  {
    var n := |argv| - 1;
    if i < n {
      ArgsTitleFirst(argv[..n], i);
    } else {
      ArgsTitleNone(argv[..n]);
    }
  }

  // ---------------------------------------------------------------------------
  // createTemplate
  // ---------------------------------------------------------------------------

  /** `slug || slugify(title)`. */
  function SafeSlug(args: Args): string {
    Or(args.slug, Slugify(args.title))
  }

  /** The given slug when there is one, otherwise the title's, which is slug-shaped. */
  lemma SafeSlugIs(args: Args)
    ensures args.slug != "" ==> SafeSlug(args) == args.slug
    ensures args.slug == "" ==> SafeSlug(args) == Slugify(args.title) && IsSlug(SafeSlug(args))
  {
    SlugifyIsSlug(args.title);
  }

  const TemplateBody := "## Why I Read It\n\n## Thoughts"
  const Summary := "One-line hook for the review."
  const Tags := "review, book"

  /** The text `createTemplate` writes; `date` is `today()`. */
  function Template(title: string, date: string, cover: string, rating: string): string {
    "---\n"
    + ("title: " + title) + "\n"
    + ("date: " + date) + "\n"
    + ("summary: " + Summary) + "\n"
    + ("cover: " + cover) + "\n"
    + ("rating: " + Or(rating, "4")) + "\n"
    + ("tags: " + Tags)
    + "\n---\n\n"
    + TemplateBody
    + "\n"
  }

  /** The header of the template as entries, in the order written. */
  function TemplateMeta(title: string, date: string, cover: string, rating: string): Meta {
    [("title", title), ("date", date), ("summary", Summary),
     ("cover", cover), ("rating", Or(rating, "4")), ("tags", Tags)]
  }

  lemma JoinSix(a: string, b: string, c: string, d: string, e: string, f: string, sep: string)
    ensures Join([a, b, c, d, e, f], sep) == a + sep + b + sep + c + sep + d + sep + e + sep + f
  {
    var ls := [a, b, c, d, e, f];
    assert Join(ls[4..], sep) == e + sep + f by {
      assert ls[4..][1..] == [f];
    }
    assert Join(ls[3..], sep) == d + sep + Join(ls[4..], sep) by {
      assert ls[3..][1..] == ls[4..];
    }
    assert Join(ls[2..], sep) == c + sep + Join(ls[3..], sep) by {
      assert ls[2..][1..] == ls[3..];
    }
    assert Join(ls[1..], sep) == b + sep + Join(ls[2..], sep) by {
      assert ls[1..][1..] == ls[2..];
    }
  }

  /** What `writeFrontMatter` writes for a header of six entries. */
  lemma WriteSix(m: Meta, body: string)
    requires |m| == 6
    ensures Write(m, body) == "---\n"
      + EntryLine(m[0]) + "\n" + EntryLine(m[1]) + "\n" + EntryLine(m[2]) + "\n"
      + EntryLine(m[3]) + "\n" + EntryLine(m[4]) + "\n" + EntryLine(m[5])
      + "\n---\n\n" + body + "\n"
  {
    var ls := EntryLines(m);
    assert ls == [EntryLine(m[0]), EntryLine(m[1]), EntryLine(m[2]),
                  EntryLine(m[3]), EntryLine(m[4]), EntryLine(m[5])];
    JoinSix(ls[0], ls[1], ls[2], ls[3], ls[4], ls[5], "\n");
  }

  /** The first part of each template line is its key and `: `. */
  lemma TemplateKeys()
    ensures "title: " == "title" + ": " && "date: " == "date" + ": "
    ensures "summary: " == "summary" + ": " && "cover: " == "cover" + ": "
    ensures "rating: " == "rating" + ": " && "tags: " == "tags" + ": "
  {
  }

  /** The template is the text `writeFrontMatter` would write for its header and body. */
  lemma TemplateWritten(title: string, date: string, cover: string, rating: string)
    ensures Template(title, date, cover, rating) == Write(TemplateMeta(title, date, cover, rating), TemplateBody)
  {
    var m := TemplateMeta(title, date, cover, rating);
    WriteSix(m, TemplateBody);
    TemplateKeys();
  }

  /** A non-empty key of lower-case letters is one `writeFrontMatter` can write. */
  lemma LetterKey(k: string)
    requires k != [] && forall i :: 0 <= i < |k| ==> 'a' <= k[i] <= 'z'
    ensures ValidKey(k) && !StartsWith(k, "---")
  {
    assert Lower(k) == k;
  }

  /** Six entries with valid, distinct keys and one-line values can be written. */
  lemma WritableSix(m: Meta)
    requires |m| == 6
    requires forall i :: 0 <= i < 6 ==> ValidKey(m[i].0) && !StartsWith(m[i].0, "---") && '\n' !in m[i].1
    requires forall i, j :: 0 <= i < j < 6 ==> m[i].0 != m[j].0
    ensures Writable(m)
  {
  }

  /** The template's keys are valid, distinct and in a form `writeFrontMatter` can write. */
  lemma TemplateWritable(title: string, date: string, cover: string, rating: string)
    requires '\n' !in title && '\n' !in date && '\n' !in cover && '\n' !in rating
    ensures Writable(TemplateMeta(title, date, cover, rating))
  {
    var m := TemplateMeta(title, date, cover, rating);
    TemplateKeysValid();
    TemplateKeysDistinct();
    assert forall i :: 0 <= i < 6 ==> m[i].0 == TemplateKeyList[i];
    assert '\n' !in Or(rating, "4");
    SummaryOneLine();
    TagsOneLine();
    WritableSix(m);
  }

  lemma SummaryOneLine()
    ensures '\n' !in Summary
  {
  }

  lemma TagsOneLine()
    ensures '\n' !in Tags
  {
  }

  const TemplateKeyList := ["title", "date", "summary", "cover", "rating", "tags"]

  lemma TemplateKeysDistinct()
    ensures forall i, j :: 0 <= i < j < 6 ==> TemplateKeyList[i] != TemplateKeyList[j]
  {
  }

  lemma TemplateKeysValid()
    ensures ValidKey("title") && ValidKey("date") && ValidKey("summary")
    ensures ValidKey("cover") && ValidKey("rating") && ValidKey("tags")
    ensures !StartsWith("title", "---") && !StartsWith("date", "---") && !StartsWith("summary", "---")
    ensures !StartsWith("cover", "---") && !StartsWith("rating", "---") && !StartsWith("tags", "---")
  {
    LetterKey("title");
    LetterKey("date");
    LetterKey("summary");
    LetterKey("cover");
    LetterKey("rating");
    LetterKey("tags");
  }

  /** A text whose first and last characters are not white space is trimmed. */
  lemma TrimmedEnds(s: string, first: char, last: char)
    requires s != [] && s[0] == first && s[|s| - 1] == last
    requires !IsSpace(first) && !IsSpace(last)
    ensures Trimmed(s)
  {
  }

  lemma TemplateTrimmed()
    ensures Trimmed(Summary)
    ensures Trimmed(Tags)
    ensures Trimmed(TemplateBody)
  {
    TrimmedEnds(Summary, 'O', '.');
    TrimmedEnds(Tags, 'r', 'k');
    TrimmedEnds(TemplateBody, '#', 's');
  }

  /** `parseFrontMatter` reads back the template's entries with their values trimmed, and its body. */
  lemma TemplateRead(title: string, date: string, cover: string, rating: string)
    requires '\n' !in title && '\n' !in date && '\n' !in cover && '\n' !in rating
    ensures Parse(Template(title, date, cover, rating))
      == Document(TrimValues(TemplateMeta(title, date, cover, rating)), TemplateBody)
  {
    TemplateWritten(title, date, cover, rating);
    TemplateWritable(title, date, cover, rating);
    TemplateTrimmed();
    ParseWrite(TemplateMeta(title, date, cover, rating), TemplateBody);
  }

  /** Reading the template back with build.js's parser: the six keys in order,
      each value trimmed (the title is the trimmed title), an empty cover and a
      rating of 4 unless given, and the two section headings as body. */
  lemma TemplateParse(title: string, date: string, cover: string, rating: string)
    requires '\n' !in title && '\n' !in date && '\n' !in cover && '\n' !in rating
    ensures var d := Parse(Template(title, date, cover, rating));
      && d.body == TemplateBody && |d.meta| == 6
      && d.meta[0] == ("title", Trim(title))
      && d.meta[1] == ("date", Trim(date))
      && d.meta[2] == ("summary", Summary)
      && d.meta[3] == ("cover", Trim(cover))
      && d.meta[4] == ("rating", Trim(Or(rating, "4")))
      && d.meta[5] == ("tags", Tags)
  {
    var r := Parse(Template(title, date, cover, rating)).meta;
    TemplateRead(title, date, cover, rating);
    ReadSix(r, TemplateMeta(title, date, cover, rating));
    Untrimmed(r);
  }

  /** The six entries read back. */
  lemma ReadSix(r: Meta, m: Meta)
    requires |m| == 6 && r == TrimValues(m)
    ensures |r| == 6
    ensures r[0] == (m[0].0, Trim(m[0].1)) && r[1] == (m[1].0, Trim(m[1].1)) && r[2] == (m[2].0, Trim(m[2].1))
    ensures r[3] == (m[3].0, Trim(m[3].1)) && r[4] == (m[4].0, Trim(m[4].1)) && r[5] == (m[5].0, Trim(m[5].1))
  {
  }

  /** The summary and the tags of the template are trimmed already. */
  lemma Untrimmed(r: Meta)
    requires |r| == 6 && r[2] == ("summary", Trim(Summary)) && r[5] == ("tags", Trim(Tags))
    ensures r[2] == ("summary", Summary) && r[5] == ("tags", Tags)
  {
    TemplateTrimmed();
    TrimOfTrimmed(Summary);
    TrimOfTrimmed(Tags);
  }

  // ---------------------------------------------------------------------------
  // main
  // ---------------------------------------------------------------------------

  /** How the tool ends: the usage message, an existing file, or a new file. */
  datatype Run = Usage | AlreadyExists(slug: string) | Created(slug: string, contents: string)

  /** `main` with `createTemplate`. `present(slug)` says whether `posts/<slug>.md` exists. */
  function NewReview(argv: seq<string>, date: string, present: string -> bool): Run {
    var args := ArgsOf(argv);
    if args.title == "" then Usage
    else
      var slug := SafeSlug(args);
      if present(slug) then AlreadyExists(slug)
      else Created(slug, Template(args.title, date, args.cover, args.rating))
  }

  /** Without a non-empty argument that is not an option the tool only prints its
      usage; otherwise the file is named by the slug, which is slug-shaped unless
      `--slug=` gave one. */
  lemma NewReviewOutcome(argv: seq<string>, date: string, present: string -> bool)
    ensures (forall j :: 0 <= j < |argv| ==> IsOption(argv[j]) || argv[j] == "") ==> NewReview(argv, date, present) == Usage
    ensures var r := NewReview(argv, date, present);
      !r.Usage? ==> r.slug == SafeSlug(ArgsOf(argv)) && (r.AlreadyExists? <==> present(r.slug))
    ensures var r := NewReview(argv, date, present);
      !r.Usage? && ArgsOf(argv).slug == "" ==> IsSlug(r.slug)
  {
    if forall j :: 0 <= j < |argv| ==> IsOption(argv[j]) || argv[j] == "" {
      ArgsTitleNone(argv);
    }
    SafeSlugIs(ArgsOf(argv));
  }

  /** A new review without `--cover` has an empty `cover` entry in its header. */
  lemma NewReviewCover(argv: seq<string>, date: string, present: string -> bool)
    requires forall j :: 0 <= j < |argv| ==> !StartsWith(argv[j], "--cover=")
    requires forall j :: 0 <= j < |argv| ==> '\n' !in argv[j]
    requires '\n' !in date
    requires NewReview(argv, date, present).Created?
    ensures Get(Parse(NewReview(argv, date, present).contents).meta, "cover") == Some("")
  {
    var args := ArgsOf(argv);
    ArgsFlagNone(argv, CoverFlag);
    assert args.cover == "";
    ArgsLines(argv);
    CreatedContents(argv, date, present);
    TemplateCover(args.title, date, args.rating);
  }

  /** What a created review holds. */
  lemma CreatedContents(argv: seq<string>, date: string, present: string -> bool)
    requires NewReview(argv, date, present).Created?
    ensures var args := ArgsOf(argv);
      NewReview(argv, date, present).contents == Template(args.title, date, args.cover, args.rating)
  {
  }

  /** A new review without `--cover` is one that build.js's cover pass will fill in. */
  lemma NewReviewNeedsCover(argv: seq<string>, date: string, present: string -> bool, parse: string -> Num)
    requires forall j :: 0 <= j < |argv| ==> !StartsWith(argv[j], "--cover=")
    requires forall j :: 0 <= j < |argv| ==> '\n' !in argv[j]
    requires '\n' !in date
    requires NewReview(argv, date, present).Created?
    ensures var r := NewReview(argv, date, present);
      NeedsCover(LoadPost(r.slug + ".md", r.contents, parse))
  {
    var r := NewReview(argv, date, present);
    NewReviewCover(argv, date, present);
    assert EndsWith(r.slug + ".md", ".md");
    NeedsCoverLoaded(r.slug + ".md", r.contents, parse);
  }

  /** A template written without a cover has an empty `cover` entry. */
  lemma TemplateCover(title: string, date: string, rating: string)
    requires '\n' !in title && '\n' !in date && '\n' !in rating
    ensures Get(Parse(Template(title, date, "", rating)).meta, "cover") == Some("")
  {
    TemplateParse(title, date, "", rating);
    assert Trim("") == "";
    GetSecond(Parse(Template(title, date, "", rating)).meta);
  }

  /** No field of the record holds a line break when no argument does. */
  lemma {:induction false} ArgsLines(argv: seq<string>)
    requires forall j :: 0 <= j < |argv| ==> '\n' !in argv[j]
    ensures var a := ArgsOf(argv);
      '\n' !in a.title && '\n' !in a.slug && '\n' !in a.cover && '\n' !in a.rating
  {
    if argv != [] {
      var n := |argv| - 1;
      ArgsLines(argv[..n]);
      var arg := argv[n];
      assert forall k :: 0 <= k <= |arg| ==> '\n' !in arg[k..];
    }
  }

  lemma GetSecond(meta: Meta)
    requires |meta| == 6 && meta[0].0 == "title" && meta[1].0 == "date" && meta[2].0 == "summary"
    requires meta[3] == ("cover", "")
    ensures Get(meta, "cover") == Some("")
  {
    assert "title" != "cover" && "date" != "cover" && "summary" != "cover";
    KeyIndexIs(meta, "cover", 3);
  }
}
