/**
 * The `---`-delimited header of a post file: `parseFrontMatter` reads the
 * `key: value` lines into an object, `writeFrontMatter` writes an object back.
 * The object is modelled by its entries in insertion order, which is the order
 * `Object.entries` lists string keys in.
 */
module FrontMatter {
  import opened Wrappers
  import opened Text

  /** The `meta` object: its own entries in insertion order. */
  type Meta = seq<(string, string)>

  predicate UniqueKeys(m: Meta) {
    forall i, j :: 0 <= i < j < |m| ==> m[i].0 != m[j].0
  }

  /** The position of the entry with key `k`, or -1 when there is none. */
  function KeyIndex(m: Meta, k: string): (i: int)
    ensures -1 <= i < |m|
    ensures i >= 0 ==> m[i].0 == k
    ensures forall j :: 0 <= j < |m| && (i == -1 || j < i) ==> m[j].0 != k
  {
    if m == [] then -1
    else if m[0].0 == k then 0
    else
      var i := KeyIndex(m[1..], k);
      if i == -1 then -1 else i + 1
  }

  /** `meta[k]`: the value stored under `k`, or `undefined`. */
  function Get(m: Meta, k: string): Option<string> {
    var i := KeyIndex(m, k);
    if i == -1 then None else Some(m[i].1)
  }

  /** `meta[k] = v`: an existing key takes the new value in its place, a new key
      goes after all others. */
  function Set(m: Meta, k: string, v: string): Meta {
    var i := KeyIndex(m, k);
    if i == -1 then m + [(k, v)] else m[i := (k, v)]
  }

  /** `meta[k]` is the value of the one entry with key `k`, and `undefined` exactly when there is none. */
  lemma GetEntry(m: Meta, k: string, v: string)
    requires UniqueKeys(m)
    ensures Get(m, k) == Some(v) <==> (k, v) in m
    ensures Get(m, k) == None <==> forall e :: e in m ==> e.0 != k
  {
    if (k, v) in m {
      var j :| 0 <= j < |m| && m[j] == (k, v);
      assert KeyIndex(m, k) == j;
    }
  }

  lemma KeyIndexIs(m: Meta, k: string, i: int)
    requires -1 <= i < |m| && (i >= 0 ==> m[i].0 == k)
    requires forall j :: 0 <= j < |m| && (i == -1 || j < i) ==> m[j].0 != k
    ensures KeyIndex(m, k) == i
  {
  }

  /** After `meta[k] = v`, `meta[k]` is `v` and every other key reads as before. */
  lemma GetSet(m: Meta, k: string, v: string, k': string)
    ensures Get(Set(m, k, v), k') == if k' == k then Some(v) else Get(m, k')
  {
    var i := KeyIndex(m, k);
    var r := Set(m, k, v);
    var x := KeyIndex(m, k');
    assert forall j :: 0 <= j < |m| ==> r[j].0 == m[j].0;
    if i == -1 {
      if k' == k {
        KeyIndexIs(r, k, |m|);
      } else {
        KeyIndexIs(r, k', x);
      }
    } else {
      KeyIndexIs(r, k', x);
    }
  }

  /** `meta[k] = v` keeps keys distinct and adds no entry but `(k, v)`; a new key
      is appended, an existing one keeps its position. */
  lemma SetShape(m: Meta, k: string, v: string)
    requires UniqueKeys(m)
    ensures var r := Set(m, k, v);
      && UniqueKeys(r)
      && (forall e :: e in r ==> e in m || e == (k, v))
      && ((forall e :: e in m ==> e.0 != k) ==> r == m + [(k, v)])
      && (|r| == |m| || |r| == |m| + 1)
      && forall j :: 0 <= j < |m| ==> r[j].0 == m[j].0
  {
    var i := KeyIndex(m, k);
    var r := Set(m, k, v);
    if i >= 0 {
      assert m[i] in m;
      forall e | e in r
        ensures e in m || e == (k, v)
      {
        var j :| 0 <= j < |r| && r[j] == e;
        if j != i {
          assert e == m[j];
        }
      }
    }
  }

  /** The `forEach` callback on one line: `const [key, ...rest] = line.split(':')`,
      nothing without a key or without a colon, otherwise the lower-cased trimmed
      key and the trimmed remainder re-joined on `:`. Assigning a string to
      `meta['__proto__']` changes nothing in JavaScript, so that key yields nothing. */
  function Entry(line: string): Option<(string, string)> {
    EntryOf(Split(line, ':'))
  }

  /** The entry read off the pieces of a line split on `:`. */
  function EntryOf(parts: seq<string>): Option<(string, string)>
    requires |parts| >= 1
  {
    var key := parts[0];
    var rest := parts[1..];
    if key == "" || |rest| == 0 then None
    else
      var k := Lower(Trim(key));
      if k == "__proto__" then None else Some((k, Trim(Join(rest, ":"))))
  }

  /** The entry of a line, read off its first colon. */
  lemma EntryAtColon(line: string)
    ensures var c := IndexOf(line, ":", 0);
      Entry(line) ==
        if c <= 0 || Lower(Trim(line[..c])) == "__proto__" then None
        else Some((Lower(Trim(line[..c])), Trim(line[c + 1..])))
  {
    var c := IndexOf(line, ":", 0);
    var parts := Split(line, ':');
    SplitFirst(line, ':');
    if c == -1 {
      assert |parts[1..]| == 0;
    } else if c == 0 {
      assert parts[0] == "";
    } else {
      EntryOfParts(parts, line[..c], line[c + 1..]);
    }
  }

  /** The entry of a line split into a non-empty key and at least one more piece. */
  lemma EntryOfParts(parts: seq<string>, key: string, rest: string)
    requires |parts| >= 2 && parts[0] == key && key != "" && Join(parts[1..], ":") == rest
    ensures var k := Lower(Trim(key));
      EntryOf(parts) == if k == "__proto__" then None else Some((k, Trim(rest)))
  {
  }

  /** `.map((line) => line.trim())`. */
  function TrimAll(ls: seq<string>): seq<string> {
    Map(Trim, ls)
  }

  function HeaderLines(header: string): seq<string> {
    NonEmpty(TrimAll(Split(header, '\n')))
  }

  /** Every header line is non-empty, trimmed and a single line. */
  lemma HeaderLinesShape(header: string)
    ensures forall x :: x in HeaderLines(header) ==> x != "" && Trimmed(x) && '\n' !in x
  {
    var parts := Split(header, '\n');
    forall x | x in HeaderLines(header)
      ensures x != "" && Trimmed(x) && '\n' !in x
    {
      var i :| 0 <= i < |parts| && x == TrimAll(parts)[i];
      TrimmedChars(parts[i], '\n');
    }
  }

  lemma TrimAllCons(x: string, tail: seq<string>)
    ensures TrimAll([x] + tail) == [Trim(x)] + TrimAll(tail)
  {
    MapAppend(Trim, [x], tail);
    MapOne(Trim, x);
  }

  lemma TrimAllSnoc(init: seq<string>, x: string)
    ensures TrimAll(init + [x]) == TrimAll(init) + [Trim(x)]
  {
    MapAppend(Trim, init, [x]);
    MapOne(Trim, x);
  }

  lemma TrimAllSameHead(x: string, y: string, tail: seq<string>)
    requires Trim(x) == Trim(y)
    ensures TrimAll([x] + tail) == TrimAll([y] + tail)
  {
    TrimAllCons(x, tail);
    TrimAllCons(y, tail);
  }

  lemma TrimAllSameLast(init: seq<string>, x: string, y: string)
    requires Trim(x) == Trim(y)
    ensures TrimAll(init + [x]) == TrimAll(init + [y])
  {
    TrimAllSnoc(init, x);
    TrimAllSnoc(init, y);
  }

  lemma DropEmptyFirst(tail: seq<string>)
    ensures NonEmpty(TrimAll([""] + tail)) == NonEmpty(TrimAll(tail))
  {
    TrimAllCons("", tail);
    assert Trim("") == "";
    NonEmptyDropEmpty(TrimAll(tail));
  }

  lemma DropEmptyLast(init: seq<string>)
    ensures NonEmpty(TrimAll(init + [""])) == NonEmpty(TrimAll(init))
  {
    assert Trim("") == "";
    assert TrimAll(init + [""]) == TrimAll(init) + [""];
    NonEmptyAppend(TrimAll(init), [""]);
    assert NonEmpty([""]) == [];
  }

  /** A leading white-space character of the header does not change its lines. */
  lemma HeaderLinesDropFirst(s: string)
    requires s != [] && IsSpace(s[0])
    ensures HeaderLines(s) == HeaderLines(s[1..])
  {
    var rest := Split(s[1..], '\n');
    if s[0] == '\n' {
      assert Split(s, '\n') == [""] + rest;
      DropEmptyFirst(rest);
    } else {
      assert Split(s, '\n') == [[s[0]] + rest[0]] + rest[1..];
      TrimConsSpace(s[0], rest[0]);
      TrimAllSameHead([s[0]] + rest[0], rest[0], rest[1..]);
      assert rest == [rest[0]] + rest[1..];
    }
  }

  /** A trailing white-space character of the header does not change its lines. */
  lemma HeaderLinesDropLast(s: string)
    requires s != [] && IsSpace(s[|s| - 1])
    ensures HeaderLines(s) == HeaderLines(s[..|s| - 1])
  {
    var a := s[..|s| - 1];
    var c := s[|s| - 1];
    assert s == a + [c];
    if c == '\n' {
      HeaderLinesNewline(a);
    } else {
      HeaderLinesSpace(a, c);
    }
  }

  lemma HeaderLinesNewline(a: string)
    ensures HeaderLines(a + ['\n']) == HeaderLines(a)
  {
    SplitSnocSep(a, '\n');
    DropEmptyLast(Split(a, '\n'));
  }

  lemma HeaderLinesSpace(a: string, c: char)
    requires IsSpace(c) && c != '\n'
    ensures HeaderLines(a + [c]) == HeaderLines(a)
  {
    var p := Split(a, '\n');
    var n := |p| - 1;
    var q := p[..n] + [p[n] + [c]];
    SplitSnocOther(a, c, '\n');
    assert Split(a + [c], '\n') == q;
    TrimSnocSpace(p[n], c);
    TrimAllSameLast(p[..n], p[n] + [c], p[n]);
    assert p[..n] + [p[n]] == p;
    SameLines(Split(a + [c], '\n'), p);
  }

  /** Pieces that trim alike give the same header lines. */
  lemma SameLines(x: seq<string>, y: seq<string>)
    requires TrimAll(x) == TrimAll(y)
    ensures NonEmpty(TrimAll(x)) == NonEmpty(TrimAll(y))
  {
  }

  lemma {:induction false} HeaderLinesTrimStart(s: string)
    ensures HeaderLines(TrimStart(s)) == HeaderLines(s)
  {
    if s != [] && IsSpace(s[0]) {
      HeaderLinesTrimStart(s[1..]);
      HeaderLinesDropFirst(s);
    }
  }

  lemma {:induction false} HeaderLinesTrimEnd(s: string)
    ensures HeaderLines(TrimEnd(s)) == HeaderLines(s)
  {
    if s != [] && IsSpace(s[|s| - 1]) {
      HeaderLinesTrimEnd(s[..|s| - 1]);
      HeaderLinesDropLast(s);
    }
  }

  /** Trimming the header before splitting it changes none of its lines. */
  lemma HeaderLinesTrim(s: string)
    ensures HeaderLines(Trim(s)) == HeaderLines(s)
  {
    HeaderLinesTrimStart(s);
    HeaderLinesTrimEnd(TrimStart(s));
  }

  /** The entry each header line yields, if any. */
  function Entries(lines: seq<string>): seq<Option<(string, string)>> {
    Map(Entry, lines)
  }

  /** The `forEach` over the header lines, starting from `meta = {}`: each entry
      assigned in turn. */
  function Collect(es: seq<Option<(string, string)>>): Meta
    decreases |es|
  {
    if es == [] then []
    else
      var m := Collect(es[..|es| - 1]);
      match es[|es| - 1]
      case None => m
      case Some(e) => Set(m, e.0, e.1)
  }

  /** What `parseFrontMatter` returns. */
  datatype Document = Document(meta: Meta, body: string)

  /** `parseFrontMatter(raw)`: without an opening `---` or without a later
      `\n---`, no metadata and the trimmed text as body; otherwise the header
      between them read line by line, and the trimmed rest after the closing
      marker as body. */
  function Parse(raw: string): Document {
    if !StartsWith(raw, "---") then Document([], Trim(raw))
    else
      var end := IndexOf(raw, "\n---", 3);
      if end == -1 then Document([], Trim(raw))
      else Closed(raw, end)
  }

  /** The header between the opening marker and the closing one at `end`, read
      line by line, and the trimmed text after the closing marker as body. */
  function Closed(raw: string, end: int): Document
    requires 3 <= end && end + 4 <= |raw|
  {
    Document(Collect(Entries(HeaderLines(Trim(raw[3..end])))), Trim(raw[end + 4..]))
  }

  /** `parseFrontMatter` as the program runs it, assigning into `meta` line by line. */
  method ParseFrontMatter(raw: string) returns (meta: Meta, body: string)
    ensures Document(meta, body) == Parse(raw)
  {
    if !StartsWith(raw, "---") {
      return [], Trim(raw);
    }
    var end := IndexOf(raw, "\n---", 3);
    if end == -1 {
      return [], Trim(raw);
    }
    ParseAt(raw, end);
    var header := Trim(raw[3..end]);
    body := Trim(raw[end + 4..]);
    meta := CollectMeta(HeaderLines(header));
  }

  /** The `forEach` loop over the prepared header lines. */
  method CollectMeta(lines: seq<string>) returns (meta: Meta)
    ensures meta == Collect(Entries(lines))
  {
    meta := [];
    for i := 0 to |lines|
      invariant meta == Collect(Entries(lines[..i]))
    {
      var e := Entry(lines[i]);
      MapPrefix(Entry, lines, i);
      if e.Some? {
        meta := Set(meta, e.value.0, e.value.1);
      }
    }
    assert lines[..|lines|] == lines;
  }

  /** A key as `parseFrontMatter` can produce it. */
  predicate ValidKey(k: string) {
    k != "" && Trimmed(k) && Lower(k) == k && ':' !in k && '\n' !in k && k != "__proto__"
  }

  /** A value as `parseFrontMatter` can produce it. */
  predicate ValidValue(v: string) {
    Trimmed(v) && '\n' !in v
  }

  predicate ValidMeta(m: Meta) {
    UniqueKeys(m) && forall e :: e in m ==> ValidKey(e.0) && ValidValue(e.1)
  }

  /** The text before a line's first colon, as a key. */
  lemma KeyValid(a: string)
    requires a != [] && !IsSpace(a[0]) && ':' !in a && '\n' !in a
    requires Lower(Trim(a)) != "__proto__"
    ensures ValidKey(Lower(Trim(a)))
  {
    TrimFirstChar(a);
    TrimmedChars(a, ':');
    TrimmedChars(a, '\n');
    LowerTrimmed(Trim(a));
    LowerIdempotent(Trim(a));
  }

  /** A trimmed, non-empty header line yields a valid key and value, if any. */
  lemma EntryValid(line: string)
    requires line != "" && Trimmed(line) && '\n' !in line
    ensures Entry(line).Some? ==> ValidKey(Entry(line).value.0) && ValidValue(Entry(line).value.1)
  {
    var c := IndexOf(line, ":", 0);
    EntryAtColon(line);
    if c > 0 && Lower(Trim(line[..c])) != "__proto__" {
      KeyPartValid(line, c);
      ValuePartValid(line, c);
    }
  }

  /** The value read off the text after the first colon is valid. */
  lemma ValuePartValid(line: string, c: nat)
    requires c < |line| && '\n' !in line
    ensures ValidValue(Trim(line[c + 1..]))
  {
    NotInSlice(line, '\n', c + 1, |line|);
    TrimmedChars(line[c + 1..], '\n');
  }

  /** The key read off the text before the first colon is valid. */
  lemma KeyPartValid(line: string, c: nat)
    requires 0 < c <= |line| && !IsSpace(line[0]) && '\n' !in line
    requires forall j :: 0 <= j < c ==> !OccursAt(line, ":", j)
    requires Lower(Trim(line[..c])) != "__proto__"
    ensures ValidKey(Lower(Trim(line[..c])))
  {
    var a := line[..c];
    BeforeFirst(line, ':', c);
    NotInSlice(line, '\n', 0, c);
    assert a[0] == line[0];
    KeyValid(a);
  }

  /** Every entry `parseFrontMatter` produces has a distinct, valid key and a
      valid value, and the body is trimmed. */
  lemma ParseValid(raw: string)
    ensures ValidMeta(Parse(raw).meta) && Trimmed(Parse(raw).body)
  {
    if StartsWith(raw, "---") && IndexOf(raw, "\n---", 3) != -1 {
      var end := IndexOf(raw, "\n---", 3);
      var lines := HeaderLines(Trim(raw[3..end]));
      HeaderLinesShape(Trim(raw[3..end]));
      var es := Entries(lines);
      forall i | 0 <= i < |es| && es[i].Some?
        ensures ValidKey(es[i].value.0) && ValidValue(es[i].value.1)
      {
        assert lines[i] in lines;
        EntryValid(lines[i]);
      }
      CollectValid(es);
    }
  }

  lemma {:induction false} CollectValid(es: seq<Option<(string, string)>>)
    requires forall i :: 0 <= i < |es| && es[i].Some? ==> ValidKey(es[i].value.0) && ValidValue(es[i].value.1)
    ensures ValidMeta(Collect(es))
  {
    if es != [] {
      var n := |es| - 1;
      CollectValid(es[..n]);
      if es[n].Some? {
        SetShape(Collect(es[..n]), es[n].value.0, es[n].value.1);
      }
    }
  }

  /** When the last entry for `k` gives it `v`, `meta[k]` is `v`. */
  lemma {:induction false} LastAssignmentWins(es: seq<Option<(string, string)>>, k: string, v: string, i: nat)
    requires i < |es| && es[i] == Some((k, v))
    requires forall j :: i < j < |es| ==> es[j].None? || es[j].value.0 != k
    ensures Get(Collect(es), k) == Some(v)
  {
    var n := |es| - 1;
    if i < n {
      LastAssignmentWins(es[..n], k, v, i);
    }
    if es[n].Some? {
      GetSet(Collect(es[..n]), es[n].value.0, es[n].value.1, k);
    }
  }

  /** A key no entry assigns is absent from `meta`. */
  lemma {:induction false} NeverAssigned(es: seq<Option<(string, string)>>, k: string)
    requires forall j :: 0 <= j < |es| ==> es[j].None? || es[j].value.0 != k
    ensures Get(Collect(es), k) == None
  {
    if es != [] {
      var n := |es| - 1;
      NeverAssigned(es[..n], k);
      if es[n].Some? {
        GetSet(Collect(es[..n]), es[n].value.0, es[n].value.1, k);
      }
    }
  }

  /** `${key}: ${value}`. */
  function EntryLine(e: (string, string)): string {
    e.0 + ": " + e.1
  }

  function EntryLines(m: Meta): seq<string> {
    seq(|m|, i requires 0 <= i < |m| => EntryLine(m[i]))
  }

  /** The text `writeFrontMatter` stores: the entries one per line between
      `---` markers, a blank line, the body and a final newline. */
  function Write(m: Meta, body: string): string {
    "---\n" + Join(EntryLines(m), "\n") + "\n---\n\n" + body + "\n"
  }

  /** What `writeFrontMatter` can write so that `parseFrontMatter` reads it back:
      distinct valid keys, none starting with the closing marker `---`, and
      values of one line each. */
  predicate Writable(m: Meta) {
    && UniqueKeys(m)
    && forall e :: e in m ==> ValidKey(e.0) && '\n' !in e.1 && !StartsWith(e.0, "---")
  }

  /** The entries with their values trimmed, as reading them back gives them. */
  function TrimValues(m: Meta): (r: Meta)
    ensures |r| == |m| && forall i :: 0 <= i < |m| ==> r[i] == (m[i].0, Trim(m[i].1))
  {
    seq(|m|, i requires 0 <= i < |m| => (m[i].0, Trim(m[i].1)))
  }

  /** Values that are already trimmed stay as they are. */
  lemma TrimValuesValid(m: Meta)
    requires ValidMeta(m)
    ensures TrimValues(m) == m
  {
    forall i | 0 <= i < |m|
      ensures TrimValues(m)[i] == m[i]
    {
      assert m[i] in m;
      TrimOfTrimmed(m[i].1);
    }
  }

  /** The first colon after a colon-free key is the one that follows it. */
  lemma ColonAfterKey(k: string, rest: string)
    requires ':' !in k
    ensures IndexOf(k + ":" + rest, ":", 0) == |k|
  {
    var t := k + ":" + rest;
    forall j | 0 <= j < |k|
      ensures !OccursAt(t, ":", j)
    {
      assert t[j] == k[j];
    }
    assert t[|k|..|k| + 1] == ":";
    IndexOfIs(t, ":", 0, |k|);
  }

  /** A line made of a valid key, a colon and anything yields that key and the trimmed rest. */
  lemma EntryOfKey(k: string, rest: string)
    requires ValidKey(k)
    ensures Entry(k + ":" + rest) == Some((k, Trim(rest)))
  {
    var t := k + ":" + rest;
    ColonAfterKey(k, rest);
    EntryAtColon(t);
    assert t[..|k|] == k;
    assert t[|k| + 1..] == rest;
    TrimOfTrimmed(k);
  }

  /** Reading back a written entry line gives the key and the trimmed value. */
  lemma EntryOfLine(k: string, v: string)
    requires ValidKey(k)
    ensures Entry(Trim(EntryLine((k, v)))) == Some((k, Trim(v)))
  {
    var rest := TrimEntryLine(k, v);
    EntryOfKey(k, rest);
  }

  /** A trimmed entry line is the key, the colon and a rest that trims to the value. */
  lemma TrimEntryLine(k: string, v: string) returns (rest: string)
    requires ValidKey(k)
    ensures Trim(EntryLine((k, v))) == k + ":" + rest && Trim(rest) == Trim(v)
  {
    var a, b := TrimParts(v);
    var w := Trim(v);
    if w == "" {
      rest := "";
      EntryLineBlank(k, a, b);
      assert v == a + b;
    } else {
      rest := " " + a + w;
      EntryLineValue(k, a, w, b);
    }
  }

  lemma EntryLineBlank(k: string, a: string, b: string)
    requires ValidKey(k) && AllSpace(a) && AllSpace(b)
    ensures Trim(EntryLine((k, a + b))) == k + ":" + "" && Trim("") == ""
  {
    AllSpaceAppend(" ", a);
    AllSpaceAppend(" " + a, b);
    assert EntryLine((k, a + b)) == k + ":" + (" " + a + b);
    TrimKeyOnly(k, " " + a + b);
  }

  lemma EntryLineValue(k: string, a: string, w: string, b: string)
    requires ValidKey(k) && AllSpace(a) && AllSpace(b) && Trimmed(w) && w != ""
    ensures Trim(EntryLine((k, a + w + b))) == k + ":" + (" " + a + w)
    ensures Trim(" " + a + w) == w
  {
    AllSpaceAppend(" ", a);
    assert EntryLine((k, a + w + b)) == k + ":" + ((" " + a) + w) + b;
    TrimKeyValue(k, " " + a, w, b);
  }

  lemma AllSpaceAppend(x: string, y: string)
    requires AllSpace(x) && AllSpace(y)
    ensures AllSpace(x + y)
  {
  }

  lemma TrimKeyOnly(k: string, sp: string)
    requires ValidKey(k) && AllSpace(sp)
    ensures Trim(k + ":" + sp) == k + ":" + ""
  {
    assert Trimmed(k + ":");
    assert k + ":" + sp == "" + (k + ":") + sp;
    TrimPadded("", k + ":", sp);
  }

  lemma TrimKeyValue(k: string, sp: string, w: string, b: string)
    requires k != [] && !IsSpace(k[0]) && AllSpace(sp) && AllSpace(b) && Trimmed(w) && w != ""
    ensures Trim(k + ":" + (sp + w) + b) == k + ":" + (sp + w) && Trim(sp + w) == w
  {
    var x := k + ":" + (sp + w);
    First(k, ":");
    First(k + ":", sp + w);
    Last(sp, w);
    Last(k + ":", sp + w);
    TrimSpaceAfter(x, b);
    TrimSpaceBefore(sp, w);
  }

  /** A written entry line: a single line of at least three characters, not starting with `---`. */
  predicate HeaderSafe(l: string) {
    |l| >= 3 && '\n' !in l && !(l[0] == '-' && l[1] == '-' && l[2] == '-')
  }

  lemma EntryLineShape(e: (string, string))
    requires ValidKey(e.0) && '\n' !in e.1 && !StartsWith(e.0, "---")
    ensures HeaderSafe(EntryLine(e))
  {
    var l := EntryLine(e);
    if |e.0| >= 3 {
      assert l[..3] == e.0[..3];
    } else {
      assert l[|e.0|] == ':';
    }
  }

  /** The closing marker `\n---` at position `q`. */
  predicate MarkAt(s: string, q: int) {
    0 <= q && q + 4 <= |s| && s[q] == '\n' && s[q + 1] == '-' && s[q + 2] == '-' && s[q + 3] == '-'
  }

  lemma MarkAtOccurs(s: string, q: int)
    ensures OccursAt(s, "\n---", q) <==> MarkAt(s, q)
  {
    if MarkAt(s, q) {
      assert s[q..q + 4] == "\n---";
    }
  }

  /** The closing marker does not occur in `s`. */
  ghost predicate NoMark(s: string) {
    forall q :: !MarkAt(s, q)
  }

  lemma NoMarkCons(l: string, t: string)
    requires HeaderSafe(l) && NoMark(t)
    ensures NoMark("\n" + l + t)
  {
    var s := "\n" + l + t;
    forall q
      ensures !MarkAt(s, q)
    {
      if 0 < q <= |l| {
        assert s[q] == l[q - 1];
      } else if |l| < q && q + 4 <= |s| {
        var j := q - 1 - |l|;
        assert s[q] == t[j] && s[q + 1] == t[j + 1] && s[q + 2] == t[j + 2] && s[q + 3] == t[j + 3];
        assert !MarkAt(t, j);
      } else if q == 0 {
        assert s[1] == l[0] && s[2] == l[1] && s[3] == l[2];
      }
    }
  }

  /** Written entry lines never contain the closing marker, not even across line breaks. */
  lemma {:induction false} NoMarkInHeader(ls: seq<string>)
    requires forall i :: 0 <= i < |ls| ==> HeaderSafe(ls[i])
    ensures NoMark("\n" + Join(ls, "\n") + "\n--")
  {
    if ls == [] {
      var s := "\n" + Join(ls, "\n") + "\n--";
      assert s == "\n\n--";
      forall q
        ensures !MarkAt(s, q)
      {
      }
    } else if |ls| == 1 {
      var t := "\n--";
      forall q
        ensures !MarkAt(t, q)
      {
      }
      NoMarkCons(ls[0], t);
    } else {
      NoMarkInHeader(ls[1..]);
      assert "\n" + Join(ls, "\n") + "\n--" == "\n" + ls[0] + ("\n" + Join(ls[1..], "\n") + "\n--");
      NoMarkCons(ls[0], "\n" + Join(ls[1..], "\n") + "\n--");
    }
  }

  /** The first `\n---` after the opening marker ends the header, whatever follows
      it on its line: the header is `h` and the rest is the tail `t`. */
  lemma ClosingEnd(h: string, t: string)
    requires NoMark("\n" + h + "\n--")
    ensures var raw := "---\n" + h + "\n---" + t;
      StartsWith(raw, "---") && IndexOf(raw, "\n---", 3) == 4 + |h| &&
      raw[3..4 + |h|] == "\n" + h && raw[4 + |h| + 4..] == t
  {
    var raw := "---\n" + h + "\n---" + t;
    var w := "\n" + h + "\n--";
    assert raw[3..7 + |h|] == w;
    assert MarkAt(raw, 4 + |h|);
    MarkAtOccurs(raw, 4 + |h|);
    forall q | 3 <= q < 4 + |h|
      ensures !OccursAt(raw, "\n---", q)
    {
      MarkAtOccurs(raw, q);
      if MarkAt(raw, q) {
        var j := q - 3;
        assert raw[q] == w[j] && raw[q + 1] == w[j + 1] && raw[q + 2] == w[j + 2] && raw[q + 3] == w[j + 3];
        assert MarkAt(w, j);
      }
    }
    IndexOfIs(raw, "\n---", 3, 4 + |h|);
  }

  /** The closing marker is not a whole-line match: `\n----` or `\n---x` closes the
      header too, and what follows the three dashes, trimmed, is the body. */
  lemma ParseClosing(h: string, t: string)
    requires NoMark("\n" + h + "\n--")
    ensures Parse("---\n" + h + "\n---" + t) == Document(Collect(Entries(HeaderLines(Trim("\n" + h)))), Trim(t))
  {
    ClosingEnd(h, t);
    ParseParts("---\n" + h + "\n---" + t, 4 + |h|, "\n" + h, t);
  }

  /** Without the opening marker, or without a `\n---` from position 3 on, there
      is no metadata and the body is the whole text trimmed. */
  lemma ParseUnclosed(raw: string)
    requires !StartsWith(raw, "---") || forall q :: 3 <= q ==> !OccursAt(raw, "\n---", q)
    ensures Parse(raw) == Document([], Trim(raw))
  {
  }

  /** The header lines of written entries are the trimmed entry lines. */
  lemma WrittenLines(m: Meta)
    requires Writable(m)
    ensures HeaderLines(Join(EntryLines(m), "\n")) == TrimAll(EntryLines(m))
  {
    var ls := EntryLines(m);
    if m == [] {
      assert Split("", '\n') == [""];
      assert NonEmpty(TrimAll([""])) == [];
    } else {
      forall i | 0 <= i < |ls|
        ensures '\n' !in ls[i] && TrimAll(ls)[i] != ""
      {
        assert m[i] in m;
        EntryLineShape(m[i]);
        assert ls[i][0] == m[i].0[0];
        TrimFirstChar(ls[i]);
      }
      SplitJoin(ls, '\n');
    }
  }

  /** Assigning entries with distinct keys in turn rebuilds them in order. */
  lemma {:induction false} CollectDistinct(m: Meta, es: seq<Option<(string, string)>>)
    requires UniqueKeys(m)
    requires |es| == |m| && forall i :: 0 <= i < |m| ==> es[i] == Some(m[i])
    ensures Collect(es) == m
  {
    if m != [] {
      var n := |m| - 1;
      var p := m[..n];
      CollectDistinct(p, es[..n]);
      assert forall e :: e in p ==> e.0 != m[n].0;
      SetShape(p, m[n].0, m[n].1);
      assert p + [m[n]] == m;
    }
  }

  /** Reading back the written entry lines yields the entries with trimmed values. */
  lemma EntriesWritten(m: Meta)
    requires Writable(m)
    ensures var es := Entries(TrimAll(EntryLines(m)));
      |es| == |m| && forall i :: 0 <= i < |m| ==> es[i] == Some(TrimValues(m)[i])
  {
    forall i | 0 <= i < |m|
      ensures Entry(Trim(EntryLine(m[i]))) == Some(TrimValues(m)[i])
    {
      assert m[i] in m;
      EntryOfLine(m[i].0, m[i].1);
    }
  }

  /** The header of a written file, read back: exactly the trimmed entry lines. */
  lemma WrittenHeader(m: Meta)
    requires Writable(m)
    ensures HeaderLines(Trim("\n" + Join(EntryLines(m), "\n"))) == TrimAll(EntryLines(m))
  {
    var h := Join(EntryLines(m), "\n");
    HeaderLinesTrim("\n" + h);
    HeaderLinesDropFirst("\n" + h);
    assert ("\n" + h)[1..] == h;
    WrittenLines(m);
  }

  /** Reading back the entries of a written header. */
  lemma WrittenMeta(m: Meta)
    requires Writable(m)
    ensures Collect(Entries(HeaderLines(Trim("\n" + Join(EntryLines(m), "\n"))))) == TrimValues(m)
  {
    var t := TrimValues(m);
    WrittenHeader(m);
    EntriesWritten(m);
    assert UniqueKeys(t) by {
      assert forall i :: 0 <= i < |m| ==> t[i].0 == m[i].0;
    }
    CollectDistinct(t, Entries(TrimAll(EntryLines(m))));
  }

  /** A file whose closing marker is found at `end`. */
  lemma ParseAt(raw: string, end: nat)
    requires StartsWith(raw, "---") && IndexOf(raw, "\n---", 3) == end
    ensures end + 4 <= |raw| && 3 <= end
    ensures Parse(raw) == Document(Collect(Entries(HeaderLines(Trim(raw[3..end])))), Trim(raw[end + 4..]))
  {
    assert Parse(raw) == Closed(raw, end);
  }

  /** A file whose header is `head` and whose text after the closing marker is `tail`. */
  lemma ParseParts(raw: string, end: nat, head: string, tail: string)
    requires StartsWith(raw, "---") && IndexOf(raw, "\n---", 3) == end
    requires 3 <= end && end + 4 <= |raw| && raw[3..end] == head && raw[end + 4..] == tail
    ensures Parse(raw) == Document(Collect(Entries(HeaderLines(Trim(head)))), Trim(tail))
  {
    ParseAt(raw, end);
  }

  /** Reading a file laid out as `writeFrontMatter` lays it out. */
  lemma ParseLayout(h: string, body: string)
    requires NoMark("\n" + h + "\n--") && Trimmed(body)
    ensures Parse("---\n" + h + "\n---\n\n" + body + "\n") == Document(Collect(Entries(HeaderLines(Trim("\n" + h)))), body)
  {
    assert "---\n" + h + "\n---\n\n" + body + "\n" == "---\n" + h + "\n---" + ("\n\n" + body + "\n");
    ParseClosing(h, "\n\n" + body + "\n");
    LayoutBody(body);
  }

  /** The blank line before the body and the final newline are trimmed away. */
  lemma LayoutBody(body: string)
    requires Trimmed(body)
    ensures Trim("\n\n" + body + "\n") == body
  {
    TrimPadded("\n\n", body, "\n");
  }

  /** `writeFrontMatter` followed by `parseFrontMatter` gives back the entries,
      in order, with their values trimmed, and the body. */
  lemma ParseWrite(m: Meta, body: string)
    requires Writable(m) && Trimmed(body)
    ensures Parse(Write(m, body)) == Document(TrimValues(m), body)
  {
    var ls := EntryLines(m);
    forall i | 0 <= i < |ls|
      ensures HeaderSafe(ls[i])
    {
      assert m[i] in m;
      EntryLineShape(m[i]);
    }
    NoMarkInHeader(ls);
    ParseLayout(Join(ls, "\n"), body);
    WrittenMeta(m);
  }

  /** For entries as `parseFrontMatter` produces them the round trip is exact. */
  lemma ParseWriteValid(m: Meta, body: string)
    requires Writable(m) && ValidMeta(m) && Trimmed(body)
    ensures Parse(Write(m, body)) == Document(m, body)
  {
    ParseWrite(m, body);
    TrimValuesValid(m);
  }

  /** Why `Writable` excludes keys starting with `---`: when the first key does,
      its line is taken for the closing marker and every entry is lost. */
  lemma DashKeyLost(m: Meta, body: string)
    requires m != [] && StartsWith(m[0].0, "---")
    ensures Parse(Write(m, body)).meta == []
  {
    var h := Join(EntryLines(m), "\n");
    DashHeader(m);
    var raw := Write(m, body);
    assert raw[..3] == "---";
    assert raw[3..7] == "\n---" by {
      assert raw[3] == '\n';
      assert raw[4..7] == h[..3];
    }
    EmptyFirst(raw);
  }

  /** A file whose opening marker is followed at once by the closing one has no entries. */
  lemma EmptyFirst(raw: string)
    requires |raw| >= 7 && raw[..3] == "---" && raw[3..7] == "\n---"
    ensures Parse(raw).meta == []
  {
    IndexOfIs(raw, "\n---", 3, 3);
    ParseParts(raw, 3, "", raw[7..]);
    EmptyHeader();
  }

  /** The header of entries whose first key starts with `---` starts with `---` too. */
  lemma DashHeader(m: Meta)
    requires m != [] && StartsWith(m[0].0, "---")
    ensures StartsWith(Join(EntryLines(m), "\n"), "---")
  {
    var ls := EntryLines(m);
    assert ls[0] <= Join(ls, "\n");
    assert m[0].0 <= ls[0];
  }

  /** An empty header has no entries. */
  lemma EmptyHeader()
    ensures Collect(Entries(HeaderLines(Trim("")))) == []
  {
    assert Trim("") == "";
    assert Split("", '\n') == [""];
    assert NonEmpty(TrimAll([""])) == [];
  }
}
