/**
 * markdownToHtml: a line-by-line state machine with two flags (`inList`,
 * `inCode`) and a buffer of pending code lines. The block structure is specified
 * by the pure functions `Step`/`Run`/`Finish` over `State`; the class
 * `BlockWriter` and the method `MarkdownToHtml` do the same work in place, as
 * the closures of build.js's `markdownToHtml` do, and are proved to agree with them.
 */
module Markdown {
  import opened Wrappers
  import opened Text
  import opened Html

  // ---------------------------------------------------------------------------
  // Input preparation and line classification

  /** `markdown.replace(/\r\n/g, '\n')`, scanning left to right. */
  function NormalizeNewlines(s: string): (r: string)
    ensures |r| <= |s|
    ensures '\r' !in s ==> r == s
  {
    if |s| >= 2 && s[0] == '\r' && s[1] == '\n' then "\n" + NormalizeNewlines(s[2..])
    else if s == [] then ""
    else [s[0]] + NormalizeNewlines(s[1..])
  }

  /** The lines the loop walks over. */
  function Lines(markdown: string): seq<string> {
    Split(NormalizeNewlines(markdown), '\n')
  }

  /** End of the white-space run starting at `i` (a greedy `\s*`). */
  function SpaceEnd(s: string, i: nat): (j: nat)
    requires i <= |s|
    ensures i <= j <= |s| && (j == |s| || !IsSpace(s[j]))
    ensures AllSpace(s[i..j])
    decreases |s| - i
  {
    if i < |s| && IsSpace(s[i]) then SpaceEnd(s, i + 1) else i
  }

  lemma {:induction false} SpaceEndIs(s: string, i: nat, j: nat)
    requires i <= j <= |s| && (j == |s| || !IsSpace(s[j]))
    requires forall k :: i <= k < j ==> IsSpace(s[k])
    ensures SpaceEnd(s, i) == j
    decreases j - i
  {
    if i < j {
      SpaceEndIs(s, i + 1, j);
    }
  }

  /** Number of `#` at the start of `s`. */
  function HashCount(s: string): (n: nat)
    ensures n <= |s| && (n == |s| || s[n] != '#')
    ensures forall k :: 0 <= k < n ==> s[k] == '#'
  {
    if s != [] && s[0] == '#' then 1 + HashCount(s[1..]) else 0
  }

  /** `/^```/.test(line.trim())`. */
  predicate IsFence(line: string) {
    StartsWith(Trim(line), "```")
  }

  predicate IsBulletMarker(c: char) {
    c == '-' || c == '*' || c == '+'
  }

  /** `/^\s*[-*+]\s+/`: when it matches, the text left by removing the match.
      The leading run can only be followed by the marker when it is maximal, and
      the greedy `\s+` takes the whole white-space run after it. */
  function BulletText(line: string): (r: Option<string>)
    ensures r.Some? ==> |r.value| < |line| && r.value == line[|line| - |r.value|..]
    ensures r.Some? ==> r.value == [] || !IsSpace(r.value[0])
  {
    var i := SpaceEnd(line, 0);
    if i + 1 < |line| && IsBulletMarker(line[i]) && IsSpace(line[i + 1]) then
      var j := SpaceEnd(line, i + 1);
      Some(line[j..])
    else None
  }

  /** Every line made of indentation, a marker, white space and a text is a bullet
      whose item text is exactly that text. */
  lemma BulletOf(a: string, m: char, b: string, t: string)
    requires AllSpace(a) && IsBulletMarker(m) && AllSpace(b) && b != []
    requires t == [] || !IsSpace(t[0])
    ensures BulletText(a + [m] + b + t) == Some(t)
  {
    var line := a + [m] + b + t;
    var i := |a|;
    var j := |a| + 1 + |b|;
    assert line[i] == m;
    assert !IsSpace(m);
    SpaceEndIs(line, 0, i);
    assert line[i + 1] == b[0];
    forall k | i + 1 <= k < j ensures IsSpace(line[k]) {
      assert line[k] == b[k - i - 1];
    }
    if j < |line| {
      assert line[j] == t[0];
    }
    SpaceEndIs(line, i + 1, j);
    assert line[j..] == t;
  }

  /** The level of a heading line. */
  type Level = n: nat | 1 <= n <= 6 witness 1

  /** `/^(#{1,6})\s+(.*)$/`: the level and the second group. The `#` run must be
      maximal (a shorter one is followed by `#`, not white space); the greedy `\s+`
      takes the whole run after it, and `.*$` then needs the rest of the line to
      hold no line terminator. */
  function HeadingOf(line: string): (r: Option<(Level, string)>)
    ensures r.Some? ==> r.value.0 < |line| && line[..r.value.0] == Repeat("#", r.value.0)
    ensures r.Some? ==> forall k :: 0 <= k < |r.value.1| ==> !IsLineTerminator(r.value.1[k])
    ensures r.Some? ==> r.value.1 == [] || !IsSpace(r.value.1[0])
  {
    var n := HashCount(line);
    if 1 <= n <= 6 && n < |line| && IsSpace(line[n]) then
      var j := SpaceEnd(line, n);
      var rest := line[j..];
      if NoLineTerminator(rest) then
        HashesAre(line, n);
        Some((n as Level, rest))
      else None
    else None
  }

  lemma HashesAre(s: string, n: nat)
    requires n <= |s| && forall k :: 0 <= k < n ==> s[k] == '#'
    ensures s[..n] == Repeat("#", n)
  {
    var r := Repeat("#", n);
    forall k | 0 <= k < n ensures r[k] == '#' {
      RepeatHash(n, k);
    }
  }

  lemma {:induction false} RepeatHash(n: nat, k: nat)
    requires k < n
    ensures Repeat("#", n)[k] == '#'
  {
    if k > 0 {
      RepeatHash(n - 1, k - 1);
    }
  }

  lemma {:induction false} HashCountOf(n: nat, rest: string)
    requires rest == [] || rest[0] != '#'
    ensures HashCount(Repeat("#", n) + rest) == n
  {
    if n > 0 {
      assert (Repeat("#", n) + rest)[1..] == Repeat("#", n - 1) + rest;
    } else {
      assert Repeat("#", n) + rest == rest;
    }
    if n > 0 {
      HashCountOf(n - 1, rest);
    }
  }

  /** A line of one to six `#`, white space and a text without line terminators is a
      heading of that level whose text is exactly that text. */
  lemma HeadingOfForm(n: Level, b: string, t: string)
    requires AllSpace(b) && b != []
    requires t == [] || !IsSpace(t[0])
    requires forall k :: 0 <= k < |t| ==> !IsLineTerminator(t[k])
    ensures HeadingOf(Repeat("#", n) + b + t) == Some((n, t))
  {
    var line := Repeat("#", n) + b + t;
    assert line == Repeat("#", n) + (b + t);
    assert (b + t)[0] == b[0];
    HashCountOf(n, b + t);
    assert line[n] == b[0];
    var j := n + |b|;
    forall k | n <= k < j ensures IsSpace(line[k]) {
      assert line[k] == b[k - n];
    }
    if j < |line| {
      assert line[j] == t[0];
    }
    SpaceEndIs(line, n, j);
    assert line[j..] == t;
  }

  /** The text holds no character that `.` refuses. */
  predicate NoLineTerminator(s: string)
    ensures NoLineTerminator(s) <==> forall k :: 0 <= k < |s| ==> !IsLineTerminator(s[k])
  {
    s == [] || (!IsLineTerminator(s[0]) && NoLineTerminator(s[1..]))
  }

  /** `/^>\s?/`: the line without the marker and one optional white-space character. */
  function QuoteText(line: string): (r: Option<string>)
    ensures r.Some? <==> line != [] && line[0] == '>'
    ensures r.Some? ==> |r.value| < |line| && r.value == line[|line| - |r.value|..]
  {
    if line != [] && line[0] == '>' then
      if |line| > 1 && IsSpace(line[1]) then Some(line[2..]) else Some(line[1..])
    else None
  }

  // ---------------------------------------------------------------------------
  // Blocks and the state machine

  /** What one `html.push` emits. */
  datatype Block =
    | ListOpen
    | ListClose
    | Item(text: string)
    | CodeBlock(code: string)
    | Heading(level: Level, text: string)
    | Quote(text: string)
    | Para(text: string)

  function LevelDigit(n: Level): char {
    ('0' as int + n) as char
  }

  /** The text pushed for a block; inline markup is applied everywhere except in code. */
  function Render(b: Block): string {
    match b
    case ListOpen => "<ul>"
    case ListClose => "</ul>"
    case Item(t) => "<li>" + InlineMarkdown(t) + "</li>"
    case CodeBlock(c) => "<pre><code>" + EscapeHtml(c) + "</code></pre>"
    case Heading(n, t) => "<h" + [LevelDigit(n)] + ">" + InlineMarkdown(t) + "</h" + [LevelDigit(n)] + ">"
    case Quote(t) => "<blockquote>" + InlineMarkdown(t) + "</blockquote>"
    case Para(t) => "<p>" + InlineMarkdown(t) + "</p>"
  }

  function RenderAll(bs: seq<Block>): (r: seq<string>)
    ensures |r| == |bs|
  {
    if bs == [] then [] else RenderAll(bs[..|bs| - 1]) + [Render(bs[|bs| - 1])]
  }

  lemma RenderAllSnoc(bs: seq<Block>, b: Block)
    ensures RenderAll(bs + [b]) == RenderAll(bs) + [Render(b)]
  {
    assert (bs + [b])[..|bs|] == bs;
  }

  datatype State = State(html: seq<Block>, inList: bool, inCode: bool, codeLines: seq<string>)

  const Init := State([], false, false, [])

  function Emit(st: State, b: Block): State {
    st.(html := st.html + [b])
  }

  /** The state after closeList. */
  function ListClosed(st: State): State {
    if st.inList then Emit(st, ListClose).(inList := false) else st
  }

  /** The state after closeCode: the buffered lines, joined, become one code block. */
  function CodeClosed(st: State): State {
    if st.inCode then Emit(st, CodeBlock(Join(st.codeLines, "\n"))).(codeLines := [], inCode := false)
    else st
  }

  function BothClosed(st: State): State {
    CodeClosed(ListClosed(st))
  }

  /** How the loop body treats a line, tested in the order of build.js's
      `markdownToHtml`: fence, bullet, blank, heading, quote, paragraph. (The
      in-code test, which comes between the fence and the bullet test, depends
      on the state: see `Step`.) */
  datatype LineKind = Fence | Bullet(item: string) | Blank | Single(block: Block)

  datatype Line = Line(raw: string, kind: LineKind)

  function Classify(line: string): (k: LineKind)
    ensures k.Fence? <==> IsFence(line)
    ensures k.Blank? ==> Trim(line) == ""
    ensures k.Single? ==> (k.block.Heading? || k.block.Quote? || k.block.Para?) && Trim(line) != ""
  {
    if IsFence(line) then Fence
    else if BulletText(line).Some? then Bullet(BulletText(line).value)
    else if Trim(line) == "" then Blank
    else if HeadingOf(line).Some? then Single(Heading(HeadingOf(line).value.0, Trim(HeadingOf(line).value.1)))
    else if QuoteText(line).Some? then Single(Quote(Trim(QuoteText(line).value)))
    else Single(Para(Trim(line)))
  }

  /** A line with its kind. */
  function ClassifyLine(line: string): Line {
    Line(line, Classify(line))
  }

  function Classified(lines: seq<string>): (r: seq<Line>)
    ensures |r| == |lines| && forall k :: 0 <= k < |lines| ==> r[k] == Line(lines[k], Classify(lines[k]))
  {
    Map(ClassifyLine, lines)
  }

  /** Only headings, quotes and paragraphs are single blocks. */
  predicate WellKinded(line: Line) {
    line.kind.Single? ==> line.kind.block.Heading? || line.kind.block.Quote? || line.kind.block.Para?
  }

  lemma ClassifyFence(line: string)
    requires IsFence(line)
    ensures Classify(line) == Fence
  {
  }

  lemma ClassifyBullet(line: string, t: string)
    requires !IsFence(line) && BulletText(line) == Some(t)
    ensures Classify(line) == Bullet(t)
  {
  }

  lemma ClassifyBlank(line: string)
    requires !IsFence(line) && BulletText(line).None? && Trim(line) == ""
    ensures Classify(line) == Blank
  {
  }

  lemma ClassifyHeading(line: string, n: Level, g: string)
    requires !IsFence(line) && BulletText(line).None? && Trim(line) != ""
    requires HeadingOf(line) == Some((n, g))
    ensures Classify(line) == Single(Heading(n, Trim(g)))
  {
  }

  lemma ClassifyQuote(line: string, q: string)
    requires !IsFence(line) && BulletText(line).None? && Trim(line) != ""
    requires HeadingOf(line).None? && QuoteText(line) == Some(q)
    ensures Classify(line) == Single(Quote(Trim(q)))
  {
  }

  lemma ClassifyPara(line: string)
    requires !IsFence(line) && BulletText(line).None? && Trim(line) != ""
    requires HeadingOf(line).None? && QuoteText(line).None?
    ensures Classify(line) == Single(Para(Trim(line)))
  {
  }

  lemma ClassifiedSnoc(lines: seq<string>, i: nat)
    requires i < |lines|
    ensures Classified(lines[..i + 1]) == Classified(lines[..i]) + [Line(lines[i], Classify(lines[i]))]
  {
    MapPrefix(ClassifyLine, lines, i);
  }

  /** One pass of the loop body. */
  function Step(st: State, line: Line): State {
    if line.kind.Fence? then
      if st.inCode then CodeClosed(st) else ListClosed(st).(inCode := true)
    else if st.inCode then
      st.(codeLines := st.codeLines + [line.raw])
    else if line.kind.Bullet? then
      var withList := if st.inList then st else Emit(CodeClosed(st), ListOpen).(inList := true);
      Emit(withList, Item(line.kind.item))
    else if line.kind.Blank? then
      BothClosed(st)
    else
      Emit(BothClosed(st), line.kind.block)
  }

  function Run(st: State, lines: seq<Line>): State
    decreases |lines|
  {
    if lines == [] then st else Step(Run(st, lines[..|lines| - 1]), lines[|lines| - 1])
  }

  /** The blocks markdownToHtml emits, after the final flush. */
  function Convert(markdown: string): seq<Block> {
    BothClosed(Run(Init, Classified(Lines(markdown)))).html
  }

  /** The text markdownToHtml returns. */
  function ConvertText(markdown: string): string {
    Join(RenderAll(Convert(markdown)), "\n")
  }

  // ---------------------------------------------------------------------------
  // The invariant of the state machine

  /** Scans emitted blocks: `Some(open)` when every `<ul>` is closed before anything
      that is not an item, items occur only inside a list and `open` says whether
      a list is still open at the end; `None` otherwise. */
  function ListScan(bs: seq<Block>): Option<bool>
    decreases |bs|
  {
    if bs == [] then Some(false)
    else
      match ListScan(bs[..|bs| - 1])
      case None => None
      case Some(open) =>
        match bs[|bs| - 1]
        case ListOpen => if open then None else Some(true)
        case ListClose => if open then Some(false) else None
        case Item(_) => if open then Some(true) else None
        case _ => if open then None else Some(false)
  }

  lemma ListScanEmit(bs: seq<Block>, b: Block)
    ensures ListScan(bs + [b]) == match ListScan(bs)
      case None => None
      case Some(open) => (match b
        case ListOpen => if open then None else Some(true)
        case ListClose => if open then Some(false) else None
        case Item(_) => if open then Some(true) else None
        case _ => if open then None else Some(false))
  {
    assert (bs + [b])[..|bs|] == bs;
  }

  /** Never in a list and a code block at once; the buffer is empty outside code;
      the emitted blocks are well nested and agree with `inList`. */
  predicate Inv(st: State) {
    && !(st.inList && st.inCode)
    && (!st.inCode ==> st.codeLines == [])
    && ListScan(st.html) == Some(st.inList)
  }

  lemma ListClosedInv(st: State)
    requires Inv(st)
    ensures Inv(ListClosed(st)) && !ListClosed(st).inList && ListClosed(st).inCode == st.inCode
  {
    if st.inList {
      ListScanEmit(st.html, ListClose);
    }
  }

  lemma CodeClosedInv(st: State)
    requires Inv(st)
    ensures Inv(CodeClosed(st)) && !CodeClosed(st).inCode && CodeClosed(st).inList == st.inList
  {
    if st.inCode {
      ListScanEmit(st.html, CodeBlock(Join(st.codeLines, "\n")));
    }
  }

  lemma BothClosedInv(st: State)
    requires Inv(st)
    ensures Inv(BothClosed(st)) && !BothClosed(st).inList && !BothClosed(st).inCode
  {
    ListClosedInv(st);
    CodeClosedInv(ListClosed(st));
  }

  /** Emitting a non-list block after closing both is well nested. */
  lemma EmitClosedInv(st: State, b: Block)
    requires Inv(st) && !b.ListOpen? && !b.ListClose? && !b.Item?
    ensures Inv(Emit(BothClosed(st), b))
  {
    BothClosedInv(st);
    ListScanEmit(BothClosed(st).html, b);
  }

  /** Every step keeps the invariant. */
  lemma StepInv(st: State, line: Line)
    requires Inv(st) && WellKinded(line)
    ensures Inv(Step(st, line))
  {
    if line.kind.Fence? {
      if st.inCode {
        CodeClosedInv(st);
      } else {
        ListClosedInv(st);
      }
    } else if st.inCode {
    } else if line.kind.Bullet? {
      var withList := if st.inList then st else Emit(CodeClosed(st), ListOpen).(inList := true);
      if !st.inList {
        CodeClosedInv(st);
        ListScanEmit(CodeClosed(st).html, ListOpen);
      }
      assert Inv(withList) && withList.inList;
      ListScanEmit(withList.html, Item(line.kind.item));
    } else if line.kind.Blank? {
      BothClosedInv(st);
    } else {
      EmitClosedInv(st, line.kind.block);
    }
  }

  lemma {:induction false} RunInv(st: State, lines: seq<Line>)
    requires Inv(st) && forall k :: 0 <= k < |lines| ==> WellKinded(lines[k])
    ensures Inv(Run(st, lines))
    decreases |lines|
  {
    if lines != [] {
      RunInv(st, lines[..|lines| - 1]);
      StepInv(Run(st, lines[..|lines| - 1]), lines[|lines| - 1]);
    }
  }

  /** Whatever the input, the lists of the output are balanced: every `<ul>` is
      followed by exactly one `</ul>` before any block that is not an item, items
      occur only inside lists, and nothing is left open. */
  lemma ConvertBalanced(markdown: string)
    ensures ListScan(Convert(markdown)) == Some(false)
  {
    ClassifiedWellKinded(Lines(markdown));
    RunClosed(Classified(Lines(markdown)));
  }

  lemma ClassifiedWellKinded(lines: seq<string>)
    ensures forall k :: 0 <= k < |lines| ==> WellKinded(Classified(lines)[k])
  {
  }

  /** Any run of classified lines from the start, closed at the end, is balanced. */
  lemma RunClosed(lines: seq<Line>)
    requires forall k :: 0 <= k < |lines| ==> WellKinded(lines[k])
    ensures ListScan(BothClosed(Run(Init, lines)).html) == Some(false)
  {
    RunInv(Init, lines);
    BothClosedInv(Run(Init, lines));
  }

  /** A heading, quote or paragraph right after list items first closes the list. */
  lemma SingleClosesList(st: State, line: Line)
    requires Inv(st) && st.inList && line.kind.Single?
    ensures Step(st, line).html == st.html + [ListClose, line.kind.block]
    ensures !Step(st, line).inList && !Step(st, line).inCode
  {
    assert st.html + [ListClose] + [line.kind.block] == st.html + [ListClose, line.kind.block];
  }

  // ---------------------------------------------------------------------------
  // Runs over several lines

  lemma {:induction false} RunAppend(st: State, a: seq<Line>, b: seq<Line>)
    ensures Run(st, a + b) == Run(Run(st, a), b)
    decreases |b|
  {
    if b == [] {
      assert a + b == a;
    } else {
      var n := |b| - 1;
      assert (a + b)[..|a + b| - 1] == a + b[..n];
      assert (a + b)[|a + b| - 1] == b[n];
      RunAppend(st, a, b[..n]);
    }
  }

  lemma RunOne(st: State, line: Line)
    ensures Run(st, [line]) == Step(st, line)
  {
    assert [line][..0] == [];
  }

  lemma ClassifiedAppend(a: seq<string>, b: seq<string>)
    ensures Classified(a + b) == Classified(a) + Classified(b)
  {
    MapAppend(ClassifyLine, a, b);
  }

  function Raws(lines: seq<Line>): (r: seq<string>)
    ensures |r| == |lines| && forall k :: 0 <= k < |lines| ==> r[k] == lines[k].raw
  {
    seq(|lines|, k requires 0 <= k < |lines| => lines[k].raw)
  }

  /** Inside a code block every line that is not a fence, blank or not, is buffered
      verbatim. */
  lemma {:induction false} RunInCode(st: State, body: seq<Line>)
    requires st.inCode
    requires forall k :: 0 <= k < |body| ==> !body[k].kind.Fence?
    ensures Run(st, body) == st.(codeLines := st.codeLines + Raws(body))
    decreases |body|
  {
    if body == [] {
      assert st.codeLines + Raws(body) == st.codeLines;
    } else {
      var n := |body| - 1;
      RunInCode(st, body[..n]);
      assert Raws(body) == Raws(body[..n]) + [body[n].raw];
      assert st.codeLines + Raws(body[..n]) + [body[n].raw] == st.codeLines + Raws(body);
    }
  }

  /** Lines between two fences come out as one code block holding them joined by
      newlines, so HTML-escaped and without inline substitution, after any open
      list has been closed. */
  lemma FencedCode(st: State, open: string, body: seq<string>, close: string)
    requires Inv(st) && !st.inCode
    requires IsFence(open) && IsFence(close)
    requires forall k :: 0 <= k < |body| ==> !IsFence(body[k])
    ensures Run(st, Classified([open] + body + [close]))
         == State(ListClosed(st).html + [CodeBlock(Join(body, "\n"))], false, false, [])
  {
    var ls := Classified(body);
    FenceLines(open, body, close);
    RunFenced(st, Line(open, Classify(open)), ls, Line(close, Classify(close)));
  }

  lemma FenceLines(open: string, body: seq<string>, close: string)
    requires IsFence(open) && IsFence(close)
    requires forall k :: 0 <= k < |body| ==> !IsFence(body[k])
    ensures Classified([open] + body + [close])
         == [Line(open, Classify(open))] + Classified(body) + [Line(close, Classify(close))]
    ensures Classify(open) == Fence && Classify(close) == Fence
    ensures forall k :: 0 <= k < |body| ==> !Classified(body)[k].kind.Fence?
    ensures Raws(Classified(body)) == body
  {
    ClassifiedAppend([open] + body, [close]);
    ClassifiedAppend([open], body);
    ClassifiedOne(open);
    ClassifiedOne(close);
    ClassifyFence(open);
    ClassifyFence(close);
    ClassifiedBody(body);
  }

  lemma ClassifiedOne(line: string)
    ensures Classified([line]) == [Line(line, Classify(line))]
  {
    MapOne(ClassifyLine, line);
  }

  lemma ClassifiedBody(body: seq<string>)
    requires forall k :: 0 <= k < |body| ==> !IsFence(body[k])
    ensures forall k :: 0 <= k < |body| ==> !Classified(body)[k].kind.Fence?
    ensures Raws(Classified(body)) == body
  {
  }

  lemma RunFenced(st: State, o: Line, ls: seq<Line>, c: Line)
    requires Inv(st) && !st.inCode
    requires o.kind.Fence? && c.kind.Fence?
    requires forall k :: 0 <= k < |ls| ==> !ls[k].kind.Fence?
    ensures Run(st, [o] + ls + [c]) == State(ListClosed(st).html + [CodeBlock(Join(Raws(ls), "\n"))], false, false, [])
  {
    var s1 := ListClosed(st).(inCode := true);
    ListClosedInv(st);
    RunOne(st, o);
    RunAppend(st, [o], ls);
    RunInCode(s1, ls);
    assert [] + Raws(ls) == Raws(ls);
    RunAppend(st, [o] + ls, [c]);
    RunOne(Run(st, [o] + ls), c);
  }

  /** A code block renders as its text, HTML-escaped, inside `<pre><code>`. */
  lemma RenderCode(c: string)
    ensures Render(CodeBlock(c)) == "<pre><code>" + EscapeHtml(c) + "</code></pre>"
  {
  }

  /** A heading line is one to six `#`, white space and a text: outside code it
      emits `<hN>` around the trimmed text, N the count of `#`, after closing
      any open list. */
  lemma HeadingLine(st: State, line: string, n: Level, b: string, t: string)
    requires Inv(st) && !st.inCode
    requires line == Repeat("#", n) + b + t
    requires AllSpace(b) && b != [] && (t == [] || !IsSpace(t[0]))
    requires forall k :: 0 <= k < |t| ==> !IsLineTerminator(t[k])
    ensures Step(st, Line(line, Classify(line))) == State(ListClosed(st).html + [Heading(n, Trim(t))], false, false, [])
  {
    HeadingLineClassified(line, n, b, t);
    StepHeadingBlock(st, line, n, t);
  }

  /** A heading block renders as `<hN>` around the inline-processed text. */
  lemma RenderHeading(n: Level, t: string)
    ensures Render(Heading(n, t)) == "<h" + [LevelDigit(n)] + ">" + InlineMarkdown(t) + "</h" + [LevelDigit(n)] + ">"
    ensures LevelDigit(n) in "123456" && LevelDigit(n) as int - '0' as int == n
  {
  }

  lemma HeadingLineClassified(line: string, n: Level, b: string, t: string)
    requires line == Repeat("#", n) + b + t
    requires AllSpace(b) && b != [] && (t == [] || !IsSpace(t[0]))
    requires forall k :: 0 <= k < |t| ==> !IsLineTerminator(t[k])
    ensures Classify(line) == Single(Heading(n, Trim(t)))
  {
    HeadingStartsWithHash(line, n, b, t);
    HeadingOfLine(line, n, b, t);
    HeadingClassified(line, n, t);
  }

  lemma HeadingStartsWithHash(line: string, n: Level, b: string, t: string)
    requires line == Repeat("#", n) + b + t
    ensures line != [] && line[0] == '#'
  {
    RepeatHash(n, 0);
    assert line[0] == Repeat("#", n)[0];
  }

  lemma HeadingOfLine(line: string, n: Level, b: string, t: string)
    requires line == Repeat("#", n) + b + t
    requires AllSpace(b) && b != [] && (t == [] || !IsSpace(t[0]))
    requires forall k :: 0 <= k < |t| ==> !IsLineTerminator(t[k])
    ensures HeadingOf(line) == Some((n, t))
  {
    HeadingOfForm(n, b, t);
  }

  lemma StepHeadingBlock(st: State, line: string, n: Level, t: string)
    requires Inv(st) && !st.inCode
    requires Classify(line) == Single(Heading(n, Trim(t)))
    ensures Step(st, Line(line, Classify(line))) == State(ListClosed(st).html + [Heading(n, Trim(t))], false, false, [])
  {
    ListClosedInv(st);
  }

  lemma HeadingClassified(line: string, n: Level, t: string)
    requires line != [] && line[0] == '#' && HeadingOf(line) == Some((n, t))
    ensures Classify(line) == Single(Heading(n, Trim(t)))
  {
    TrimFirstChar(line);
    assert !IsFence(line) by {
      assert Trim(line)[0] != "```"[0];
    }
    SpaceEnd0(line);
    assert BulletText(line).None?;
    ClassifyHeading(line, n, t);
  }

  lemma SpaceEnd0(s: string)
    requires s != [] && !IsSpace(s[0])
    ensures SpaceEnd(s, 0) == 0
  {
  }

  // ---------------------------------------------------------------------------
  // The imperative form

  /** The locals the closures of markdownToHtml share; `blocks` records which
      block each pushed string renders. */
  class BlockWriter {
    var html: seq<string>
    ghost var blocks: seq<Block>
    var inList: bool
    var inCode: bool
    var codeLines: seq<string>

    ghost function Model(): State
      reads this
    {
      State(blocks, inList, inCode, codeLines)
    }

    ghost predicate Valid()
      reads this
    {
      html == RenderAll(blocks)
    }

    constructor ()
      ensures Valid() && Model() == Init
    {
      html := [];
      blocks := [];
      inList := false;
      inCode := false;
      codeLines := [];
    }

    /** html.push. */
    method Push(b: Block)
      requires Valid()
      modifies this
      ensures Valid() && Model() == Emit(old(Model()), b)
    {
      RenderAllSnoc(blocks, b);
      html := html + [Render(b)];
      blocks := blocks + [b];
    }

    /** closeList. */
    method CloseList()
      requires Valid()
      modifies this
      ensures Valid() && Model() == ListClosed(old(Model()))
    {
      if inList {
        Push(ListClose);
        inList := false;
      }
    }

    /** closeCode; the buffer is emptied in place. */
    method CloseCode()
      requires Valid()
      modifies this
      ensures Valid() && Model() == CodeClosed(old(Model()))
    {
      if inCode {
        Push(CodeBlock(Join(codeLines, "\n")));
        codeLines := [];
        inCode := false;
      }
    }

    /** One pass of the loop body of markdownToHtml. */
    method Feed(line: string)
      requires Valid()
      modifies this
      ensures Valid() && Model() == Step(old(Model()), Line(line, Classify(line)))
    {
      if StartsWith(Trim(line), "```") {
        ClassifyFence(line);
        ToggleCode(Line(line, Fence));
      } else if inCode {
        assert !Classify(line).Fence?;
        BufferCode(Line(line, Classify(line)));
      } else {
        var bullet := BulletText(line);
        if bullet.Some? {
          ClassifyBullet(line, bullet.value);
          AddItem(Line(line, Bullet(bullet.value)));
        } else if Trim(line) == "" {
          ClassifyBlank(line);
          ghost var st := Model();
          CloseList();
          CloseCode();
          assert Model() == Step(st, Line(line, Blank));
        } else {
          var heading := HeadingOf(line);
          var quote := QuoteText(line);
          var b: Block;
          if heading.Some? {
            ClassifyHeading(line, heading.value.0, heading.value.1);
            b := Heading(heading.value.0, Trim(heading.value.1));
          } else if quote.Some? {
            ClassifyQuote(line, quote.value);
            b := Quote(Trim(quote.value));
          } else {
            ClassifyPara(line);
            b := Para(Trim(line));
          }
          AddSingle(Line(line, Single(b)));
        }
      }
    }

    /** A fence opens a code block (closing any list) or closes the open one. */
    method ToggleCode(line: Line)
      requires Valid() && line.kind.Fence?
      modifies this
      ensures Valid() && Model() == Step(old(Model()), line)
    {
      if inCode {
        CloseCode();
      } else {
        CloseList();
        inCode := true;
      }
    }

    method BufferCode(line: Line)
      requires Valid() && !line.kind.Fence? && inCode
      modifies this
      ensures Valid() && Model() == Step(old(Model()), line)
    {
      codeLines := codeLines + [line.raw];
    }

    method AddItem(line: Line)
      requires Valid() && line.kind.Bullet? && !inCode
      modifies this
      ensures Valid() && Model() == Step(old(Model()), line)
    {
      if !inList {
        CloseCode();
        Push(ListOpen);
        inList := true;
      }
      Push(Item(line.kind.item));
    }

    method AddSingle(line: Line)
      requires Valid() && line.kind.Single? && !inCode
      modifies this
      ensures Valid() && Model() == Step(old(Model()), line)
    {
      CloseList();
      CloseCode();
      Push(line.kind.block);
    }
  }

  /** markdownToHtml. */
  method MarkdownToHtml(markdown: string) returns (out: string)
    ensures out == ConvertText(markdown)
  {
    var lines := Split(NormalizeNewlines(markdown), '\n');
    var w := new BlockWriter();
    var i := 0;
    while i < |lines|
      invariant 0 <= i <= |lines|
      invariant w.Valid() && w.Model() == Run(Init, Classified(lines[..i]))
    {
      w.Feed(lines[i]);
      ClassifiedSnoc(lines, i);
      i := i + 1;
    }
    assert lines[..i] == lines;
    w.CloseList();
    w.CloseCode();
    out := Join(w.html, "\n");
  }
}
