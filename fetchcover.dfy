/**
 * fetch-cover.js: the command-line tool that looks a book up and writes its
 * cover URL into the header of the post named by the title or by `--slug`.
 * Its `slugify`, `googleCoverUrl`, `parseFrontMatter` and `writeFrontMatter`
 * are copies of build.js's (Slug.Slugify, Posts.GoogleCoverUrl,
 * FrontMatter.Parse, FrontMatter.Write); its own parser also reports where the
 * header ends. Reading the post file and the book search are parameters.
 */
module FetchCover {
  import opened Wrappers
  import opened Text
  import opened Slug
  import opened FrontMatter
  import opened Posts

  // ---------------------------------------------------------------------------
  // parseFrontMatter with endIndex
  // ---------------------------------------------------------------------------

  /** What fetch-cover.js's `parseFrontMatter` returns: the header and body,
      the position just past the closing marker when there is one, and the text
      it was given. */
  datatype ParsedFile = ParsedFile(meta: Meta, body: string, endIndex: Option<nat>, raw: string)

  /** fetch-cover.js's `parseFrontMatter`: the same branches as build.js's, and
      `endIndex` only when the header is closed. */
  function ParseWithEnd(raw: string): ParsedFile {
    if !StartsWith(raw, "---") then ParsedFile([], Trim(raw), None, raw)
    else
      var end := IndexOf(raw, "\n---", 3);
      if end == -1 then ParsedFile([], Trim(raw), None, raw)
      else WithEnd(raw, end)
  }

  /** The header closed at `end`, as build.js reads it, with the position past the marker. */
  function WithEnd(raw: string, end: int): ParsedFile
    requires 3 <= end && end + 4 <= |raw|
  {
    var doc := Closed(raw, end);
    ParsedFile(doc.meta, doc.body, Some(end + 4), raw)
  }

  /** The header and body are build.js's, and the text comes back unchanged. */
  lemma ParseWithEndAgrees(raw: string)
    ensures ParseWithEnd(raw).raw == raw
    ensures Document(ParseWithEnd(raw).meta, ParseWithEnd(raw).body) == Parse(raw)
  {
  }

  /** Without `endIndex` there is no header and the body is the whole text, trimmed. */
  lemma ParseWithoutEnd(raw: string)
    requires ParseWithEnd(raw).endIndex.None?
    ensures ParseWithEnd(raw).meta == [] && ParseWithEnd(raw).body == Trim(raw)
  {
  }

  /** `endIndex` is there exactly when a closing `\n---` follows the opening
      marker (ClosedEnd says where it lies and what the body is then). */
  lemma ParseWithEndIndex(raw: string)
    ensures ParseWithEnd(raw).endIndex.Some? <==> StartsWith(raw, "---") && IndexOf(raw, "\n---", 3) != -1
  {
  }

  /** With the first closing marker after the opening one at `end`, `endIndex`
      is `end + 4`, just past it, and the body is the trimmed text from there. */
  lemma ClosedEnd(raw: string, end: int)
    requires StartsWith(raw, "---") && end == IndexOf(raw, "\n---", 3) && end != -1
    ensures 3 <= end && end + 4 <= |raw| && raw[end..end + 4] == "\n---"
    ensures ParseWithEnd(raw).endIndex == Some(end + 4)
    ensures ParseWithEnd(raw).body == Trim(raw[end + 4..])
    ensures forall q :: 3 <= q < end ==> !OccursAt(raw, "\n---", q)
  {
    assert ParseWithEnd(raw) == WithEnd(raw, end);
    WithEndBody(raw, end);
  }

  lemma WithEndBody(raw: string, end: int)
    requires 3 <= end && end + 4 <= |raw|
    ensures WithEnd(raw, end).endIndex == Some(end + 4) && WithEnd(raw, end).body == Trim(raw[end + 4..])
  {
  }

  // ---------------------------------------------------------------------------
  // Command line
  // ---------------------------------------------------------------------------

  /** The `opts` record of `main`. */
  datatype Options = Options(slug: string, force: bool)

  /** One pass of the `forEach` over the arguments after the title. */
  function ApplyOption(opts: Options, arg: string): Options {
    if arg == "--force" then opts.(force := true)
    else if StartsWith(arg, "--slug=") then opts.(slug := arg[7..])
    else opts
  }

  /** The options after reading `args` from the left. */
  function OptionsOf(args: seq<string>): Options {
    if args == [] then Options("", false)
    else ApplyOption(OptionsOf(args[..|args| - 1]), args[|args| - 1])
  }

  /** A run of the tool: the title and the options. */
  datatype Command = Command(title: string, opts: Options)

  /** What `main` makes of `process.argv.slice(2)`: nothing (the usage message)
      without arguments, otherwise the first one as the title and the options
      read from the rest. */
  function CommandOf(args: seq<string>): Option<Command> {
    if args == [] then None else Some(Command(args[0], OptionsOf(args[1..])))
  }

  /** The argument handling of `main`, filling `opts` argument by argument. */
  method ParseCommandLine(args: seq<string>) returns (cmd: Option<Command>)
    ensures cmd == CommandOf(args)
  {
    if |args| == 0 {
      return None;
    }
    var title := args[0];
    var rest := args[1..];
    var opts := Options("", false);
    for i := 0 to |rest|
      invariant opts == OptionsOf(rest[..i])
    {
      var arg := rest[i];
      if arg == "--force" {
        opts := opts.(force := true);
      } else if StartsWith(arg, "--slug=") {
        opts := opts.(slug := arg[7..]);
      }
      assert rest[..i + 1][..i] == rest[..i];
    }
    assert rest[..|rest|] == rest;
    cmd := Some(Command(title, opts));
  }

  /** `--force` anywhere among the options turns forcing on; nothing else does. */
  lemma {:induction false} OptionsForce(args: seq<string>)
    ensures OptionsOf(args).force <==> "--force" in args
  {
    if args != [] {
      var init := args[..|args| - 1];
      OptionsForce(init);
      assert args == init + [args[|args| - 1]];
    }
  }

  /** The last `--slug=` argument gives the slug: the text after its seven-character prefix. */
  lemma {:induction false} OptionsSlugLast(args: seq<string>, i: nat)
    requires i < |args| && StartsWith(args[i], "--slug=")
    requires forall j :: i < j < |args| ==> !StartsWith(args[j], "--slug=")
    ensures OptionsOf(args).slug == args[i][7..]
  {
    var n := |args| - 1;
    if i < n {
      OptionsSlugLast(args[..n], i);
    } else {
      assert args[n][2] == 's';
    }
  }

  /** Without a `--slug=` argument the slug stays empty. */
  lemma {:induction false} OptionsSlugNone(args: seq<string>)
    requires forall j :: 0 <= j < |args| ==> !StartsWith(args[j], "--slug=")
    ensures OptionsOf(args).slug == ""
  {
    if args != [] {
      OptionsSlugNone(args[..|args| - 1]);
    }
  }

  /** The first argument is the title even when it looks like an option, and
      only the ones after it are options. */
  lemma CommandTitle(args: seq<string>)
    requires args != []
    ensures CommandOf(args).Some? && CommandOf(args).value.title == args[0]
    ensures CommandOf(args).value.opts.force <==> "--force" in args[1..]
  {
    OptionsForce(args[1..]);
  }

  // ---------------------------------------------------------------------------
  // updateCover
  // ---------------------------------------------------------------------------

  /** The slug of the post to update: `opts.slug || slugify(title)`. */
  function TargetSlug(title: string, opts: Options): string {
    Or(opts.slug, Slugify(title))
  }

  /** The `--slug` value when given, otherwise the title's slug, which is slug-shaped. */
  lemma TargetSlugIs(title: string, opts: Options)
    ensures opts.slug != "" ==> TargetSlug(title, opts) == opts.slug
    ensures opts.slug == "" ==> TargetSlug(title, opts) == Slugify(title) && IsSlug(TargetSlug(title, opts))
  {
    SlugifyIsSlug(title);
  }

  /** How `updateCover` ends: the post file is missing, the cover is already set,
      the search found no volume, or the header was rewritten with the cover. */
  datatype Outcome =
    | NotFound(slug: string)
    | AlreadySet(slug: string, cover: string)
    | NoVolume(query: string)
    | Written(slug: string, text: string, coverUrl: string)

  /** `updateCover(title, opts)`. `read(slug)` is the text of the post file
      `posts/<slug>.md` (`None` when it does not exist); `lookup(query)` is the
      volume id the search finds (`None` when it finds none). */
  function UpdateCover(title: string, opts: Options, read: string -> Option<string>,
                       lookup: string -> Option<string>): Outcome {
    var slug := TargetSlug(title, opts);
    match read(slug)
    case None => NotFound(slug)
    case Some(raw) =>
      var file := ParseWithEnd(raw);
      if Field(file.meta, "cover") != "" && !opts.force then AlreadySet(slug, Field(file.meta, "cover"))
      else
        var query := Or(Field(file.meta, "title"), title);
        match lookup(query)
        case None => NoVolume(query)
        case Some(id) =>
          if id == "" then NoVolume(query)
          else
            var url := GoogleCoverUrl(id);
            Written(slug, Write(Set(file.meta, "cover", url), file.body), url)
  }

  /** A missing post file is an error, reported before anything is read or searched. */
  lemma UpdateCoverMissing(title: string, opts: Options, read: string -> Option<string>,
                           lookup: string -> Option<string>)
    requires read(TargetSlug(title, opts)).None?
    ensures UpdateCover(title, opts, read, lookup) == NotFound(TargetSlug(title, opts))
  {
  }

  /** A set cover without `--force`: the tool stops before searching, whatever the search would say. */
  lemma UpdateCoverSkip(title: string, opts: Options, read: string -> Option<string>,
                        lookup: string -> Option<string>, other: string -> Option<string>)
    requires read(TargetSlug(title, opts)).Some?
    requires Field(Parse(read(TargetSlug(title, opts)).value).meta, "cover") != "" && !opts.force
    ensures UpdateCover(title, opts, read, lookup).AlreadySet?
    ensures UpdateCover(title, opts, read, lookup) == UpdateCover(title, opts, read, other)
  {
  }

  /** A search that names no volume is an error and nothing is written. */
  lemma UpdateCoverNoVolume(title: string, opts: Options, read: string -> Option<string>,
                            lookup: string -> Option<string>)
    requires read(TargetSlug(title, opts)).Some?
    requires var meta := Parse(read(TargetSlug(title, opts)).value).meta;
      && !(Field(meta, "cover") != "" && !opts.force)
      && var r := lookup(Or(Field(meta, "title"), title)); r.None? || r.value == ""
    ensures UpdateCover(title, opts, read, lookup).NoVolume?
  {
  }

  /** The cover URL is a valid header value when the volume id is one line. */
  lemma CoverUrlValid(id: string)
    requires '\n' !in id
    ensures ValidValue(GoogleCoverUrl(id))
  {
    CoverConstants();
    First(CoverPrefix, id + CoverSuffix);
    Last(CoverPrefix + id, CoverSuffix);
    assert GoogleCoverUrl(id) == CoverPrefix + (id + CoverSuffix);
  }

  /** The fixed parts of a cover URL: a single line without white space at its ends. */
  lemma CoverConstants()
    ensures '\n' !in CoverPrefix && '\n' !in CoverSuffix
    ensures CoverPrefix[0] == 'h' && CoverSuffix[|CoverSuffix| - 1] == '1'
  {
    PrefixOneLine();
    SuffixOneLine();
  }

  lemma PrefixOneLine()
    ensures '\n' !in CoverPrefix
  {
  }

  lemma SuffixOneLine()
    ensures '\n' !in CoverSuffix
  {
  }

  /** Setting the cover keeps a parsed header writable. */
  lemma SetCoverWritable(m: Meta, url: string)
    requires ValidMeta(m) && forall e :: e in m ==> !StartsWith(e.0, "---")
    requires ValidValue(url)
    ensures Writable(Set(m, "cover", url)) && ValidMeta(Set(m, "cover", url))
  {
    SetShape(m, "cover", url);
    CoverKeyValid();
  }

  lemma CoverKeyValid()
    ensures ValidKey("cover") && !StartsWith("cover", "---")
  {
    assert Lower("cover") == "cover";
  }

  /** A parsed header with a new cover reads back as written. */
  lemma SetCoverReadBack(m: Meta, body: string, url: string)
    requires ValidMeta(m) && (forall e :: e in m ==> !StartsWith(e.0, "---")) && Trimmed(body)
    requires ValidValue(url)
    ensures Parse(Write(Set(m, "cover", url), body)) == Document(Set(m, "cover", url), body)
  {
    SetCoverWritable(m, url);
    ParseWriteValid(Set(m, "cover", url), body);
  }

  /** Setting the cover changes no other key's value or place. */
  lemma SetCoverKeys(m: Meta, url: string)
    requires UniqueKeys(m)
    ensures var r := Set(m, "cover", url);
      && Get(r, "cover") == Some(url)
      && (forall k :: k != "cover" ==> Get(r, k) == Get(m, k))
      && |r| >= |m|
      && (forall j :: 0 <= j < |m| ==> r[j].0 == m[j].0)
  {
    SetShape(m, "cover", url);
    forall k
      ensures Get(Set(m, "cover", url), k) == if k == "cover" then Some(url) else Get(m, k)
    {
      GetSet(m, "cover", url, k);
    }
  }

  /** The text written when the search names a volume. */
  lemma UpdateCoverText(title: string, opts: Options, read: string -> Option<string>,
                        lookup: string -> Option<string>)
    requires read(TargetSlug(title, opts)).Some?
    requires var meta := Parse(read(TargetSlug(title, opts)).value).meta;
      && !(Field(meta, "cover") != "" && !opts.force)
      && var r := lookup(Or(Field(meta, "title"), title)); r.Some? && r.value != ""
    ensures var before := Parse(read(TargetSlug(title, opts)).value);
      var url := GoogleCoverUrl(lookup(Or(Field(before.meta, "title"), title)).value);
      UpdateCover(title, opts, read, lookup)
        == Written(TargetSlug(title, opts), Write(Set(before.meta, "cover", url), before.body), url)
  {
    ParseWithEndAgrees(read(TargetSlug(title, opts)).value);
  }

  /** When the search names a volume, the file is rewritten so that reading it
      back gives the same body and header except that `cover` is the volume's
      cover URL: every other key keeps its value, in its place. */
  lemma UpdateCoverWritten(title: string, opts: Options, read: string -> Option<string>,
                           lookup: string -> Option<string>)
    requires read(TargetSlug(title, opts)).Some?
    requires var meta := Parse(read(TargetSlug(title, opts)).value).meta;
      && !(Field(meta, "cover") != "" && !opts.force)
      && (forall e :: e in meta ==> !StartsWith(e.0, "---"))
      && var r := lookup(Or(Field(meta, "title"), title)); r.Some? && r.value != "" && '\n' !in r.value
    ensures var before := Parse(read(TargetSlug(title, opts)).value);
      var out := UpdateCover(title, opts, read, lookup);
      && out.Written?
      && out.coverUrl == GoogleCoverUrl(lookup(Or(Field(before.meta, "title"), title)).value)
      && var after := Parse(out.text);
      && after.body == before.body
      && Get(after.meta, "cover") == Some(out.coverUrl)
      && (forall k :: k != "cover" ==> Get(after.meta, k) == Get(before.meta, k))
      && |after.meta| >= |before.meta|
      && (forall j :: 0 <= j < |before.meta| ==> after.meta[j].0 == before.meta[j].0)
  {
    var raw := read(TargetSlug(title, opts)).value;
    var before := Parse(raw);
    var id := lookup(Or(Field(before.meta, "title"), title)).value;
    UpdateCoverText(title, opts, read, lookup);
    ParseValid(raw);
    CoverUrlValid(id);
    SetCoverReadBack(before.meta, before.body, GoogleCoverUrl(id));
    SetCoverKeys(before.meta, GoogleCoverUrl(id));
  }
}
