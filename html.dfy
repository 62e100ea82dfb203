/**
 * HTML escaping and the inline span substitutions of the markdown renderer
 * (build.js:13-33). Each regular-expression replacement with the `g` flag is a
 * left-to-right scan: at each position the pattern either matches, and the scan
 * resumes after the match, or it does not, and the character is copied.
 */
module Html {
  import opened Text
  import opened Wrappers

  /** `s.replace(/c/g, rep)` for a pattern that is one literal character. */
  function ReplaceChar(s: string, c: char, rep: string): string {
    if s == [] then "" else (if s[0] == c then rep else [s[0]]) + ReplaceChar(s[1..], c, rep)
  }

  /** escapeHtml: five global replacements, `&` first so that no entity is escaped twice. */
  function EscapeHtml(s: string): string {
    var amp := ReplaceChar(s, '&', "&amp;");
    var lt := ReplaceChar(amp, '<', "&lt;");
    var gt := ReplaceChar(lt, '>', "&gt;");
    var quot := ReplaceChar(gt, '"', "&quot;");
    ReplaceChar(quot, '\'', "&#39;")
  }

  /** Reference definition: the entity each character stands for in escaped text. */
  function EscapeChar(c: char): string {
    if c == '&' then "&amp;"
    else if c == '<' then "&lt;"
    else if c == '>' then "&gt;"
    else if c == '"' then "&quot;"
    else if c == '\'' then "&#39;"
    else [c]
  }

  function EscapeEach(s: string): string {
    if s == [] then "" else EscapeChar(s[0]) + EscapeEach(s[1..])
  }

  lemma {:induction false} ReplaceCharAppend(a: string, b: string, c: char, rep: string)
    ensures ReplaceChar(a + b, c, rep) == ReplaceChar(a, c, rep) + ReplaceChar(b, c, rep)
  {
    if a != [] {
      assert (a + b)[1..] == a[1..] + b;
      ReplaceCharAppend(a[1..], b, c, rep);
    } else {
      assert a + b == b;
    }
  }

  lemma {:induction false} ReplaceCharAbsent(s: string, c: char, rep: string)
    requires c !in s
    ensures ReplaceChar(s, c, rep) == s
  {
    if s != [] {
      ReplaceCharAbsent(s[1..], c, rep);
      assert s == [s[0]] + s[1..];
    }
  }

  lemma ReplaceCharSingle(x: char, c: char, rep: string)
    ensures ReplaceChar([x], c, rep) == if x == c then rep else [x]
  {
    assert [x][1..] == [];
  }

  /** The five replacements leave a character alone unless it is one of the five escaped ones. */
  lemma EscapeHtmlChar(c: char)
    ensures EscapeHtml([c]) == EscapeChar(c)
  {
    ReplaceCharSingle(c, '&', "&amp;");
    if c == '&' {
      EscapeChainFrom("&amp;");
    } else {
      ReplaceCharSingle(c, '<', "&lt;");
      if c == '<' {
        EscapeChainFrom2("&lt;");
      } else {
        ReplaceCharSingle(c, '>', "&gt;");
        if c == '>' {
          EscapeChainFrom3("&gt;");
        } else {
          ReplaceCharSingle(c, '"', "&quot;");
          ReplaceCharSingle(c, '\'', "&#39;");
          if c == '"' {
            ReplaceCharAbsent("&quot;", '\'', "&#39;");
          }
        }
      }
    }
  }

  lemma EscapeChainFrom(e: string)
    requires forall c :: c in e ==> c !in "<>\"'"
    ensures ReplaceChar(ReplaceChar(ReplaceChar(ReplaceChar(e, '<', "&lt;"), '>', "&gt;"), '"', "&quot;"), '\'', "&#39;") == e
  {
    ReplaceCharAbsent(e, '<', "&lt;");
    EscapeChainFrom2(e);
  }

  lemma EscapeChainFrom2(e: string)
    requires forall c :: c in e ==> c !in ">\"'"
    ensures ReplaceChar(ReplaceChar(ReplaceChar(e, '>', "&gt;"), '"', "&quot;"), '\'', "&#39;") == e
  {
    ReplaceCharAbsent(e, '>', "&gt;");
    EscapeChainFrom3(e);
  }

  lemma EscapeChainFrom3(e: string)
    requires forall c :: c in e ==> c !in "\"'"
    ensures ReplaceChar(ReplaceChar(e, '"', "&quot;"), '\'', "&#39;") == e
  {
    ReplaceCharAbsent(e, '"', "&quot;");
    ReplaceCharAbsent(e, '\'', "&#39;");
  }

  lemma EscapeHtmlAppend(a: string, b: string)
    ensures EscapeHtml(a + b) == EscapeHtml(a) + EscapeHtml(b)
  {
    var amp := ReplaceChar(a + b, '&', "&amp;");
    ReplaceCharAppend(a, b, '&', "&amp;");
    var a1, b1 := ReplaceChar(a, '&', "&amp;"), ReplaceChar(b, '&', "&amp;");
    ReplaceCharAppend(a1, b1, '<', "&lt;");
    var a2, b2 := ReplaceChar(a1, '<', "&lt;"), ReplaceChar(b1, '<', "&lt;");
    ReplaceCharAppend(a2, b2, '>', "&gt;");
    var a3, b3 := ReplaceChar(a2, '>', "&gt;"), ReplaceChar(b2, '>', "&gt;");
    ReplaceCharAppend(a3, b3, '"', "&quot;");
    var a4, b4 := ReplaceChar(a3, '"', "&quot;"), ReplaceChar(b3, '"', "&quot;");
    ReplaceCharAppend(a4, b4, '\'', "&#39;");
  }

  /** The chain of five replacements is the same as escaping each character on its own. */
  lemma {:induction false} EscapeHtmlIsPerChar(s: string)
    ensures EscapeHtml(s) == EscapeEach(s)
  {
    if s == [] {
      assert EscapeHtml(s) == "";
    } else {
      assert s == [s[0]] + s[1..];
      EscapeHtmlAppend([s[0]], s[1..]);
      EscapeHtmlChar(s[0]);
      EscapeHtmlIsPerChar(s[1..]);
    }
  }

  /** Characters that occur in some entity. */
  predicate InEntity(c: char) {
    c in "&amp;" || c in "&lt;" || c in "&gt;" || c in "&quot;" || c in "&#39;"
  }

  lemma {:induction false} EscapeEachWithout(s: string, c: char)
    requires c !in s && !InEntity(c)
    ensures c !in EscapeEach(s)
  {
    if s != [] {
      EscapeEachWithout(s[1..], c);
    }
  }

  /** Escaped text holds none of the four markup characters, and a character
      that occurs in no entity is in the output only if it was in the input. */
  lemma EscapeHtmlSafe(s: string)
    ensures forall c :: c in "<>\"'" ==> c !in EscapeHtml(s)
    ensures forall c :: !InEntity(c) && c !in s ==> c !in EscapeHtml(s)
  {
    EscapeHtmlIsPerChar(s);
    forall c | c in "<>\"'"
      ensures c !in EscapeEach(s)
    {
      MarkupNotInEscapeEach(s, c);
    }
    forall c | !InEntity(c) && c !in s
      ensures c !in EscapeEach(s)
    {
      EscapeEachWithout(s, c);
    }
  }

  /** A character that is in no entity is in the escaped text only if it was in the text. */
  lemma EscapedWithout(s: string, c: char)
    requires c !in s && !InEntity(c)
    ensures c !in EscapeHtml(s)
  {
    EscapeHtmlIsPerChar(s);
    EscapeEachWithout(s, c);
  }

  lemma NotInEntity()
    ensures !InEntity('`') && !InEntity('*') && !InEntity('[') && !InEntity(']')
  {
  }

  lemma {:induction false} MarkupNotInEscapeEach(s: string, c: char)
    requires c == '<' || c == '>' || c == '"' || c == '\''
    ensures c !in EscapeEach(s)
  {
    if s != [] {
      MarkupNotInEscapeChar(s[0], c);
      MarkupNotInEscapeEach(s[1..], c);
    }
  }

  lemma MarkupNotInEscapeChar(x: char, c: char)
    requires c == '<' || c == '>' || c == '"' || c == '\''
    ensures c !in EscapeChar(x)
  {
  }

  // ---------------------------------------------------------------------------
  // Inline spans

  /** The four substitutions of inlineMarkdown, in the order they are applied. */
  datatype Span = Link | CodeSpan | Strong | Emphasis

  datatype Match = Match(end: nat, replacement: string)

  /** End of the run of characters other than `stop` that starts at `i` (a `[^stop]*` run). */
  function RunEnd(s: string, i: nat, stop: char): (j: nat)
    requires i <= |s|
    ensures i <= j <= |s| && (j == |s| || s[j] == stop)
    ensures forall k :: i <= k < j ==> s[k] != stop
    decreases |s| - i
  {
    if i < |s| && s[i] != stop then RunEnd(s, i + 1, stop) else i
  }

  lemma {:induction false} RunEndIs(s: string, i: nat, stop: char, j: nat)
    requires i <= j <= |s| && (j == |s| || s[j] == stop)
    requires forall k :: i <= k < j ==> s[k] != stop
    ensures RunEnd(s, i, stop) == j
    decreases j - i
  {
    if i < j {
      RunEndIs(s, i + 1, stop, j);
    }
  }

  /** `open`, a non-empty run of characters other than `stop`, then `close` (which begins
      with `stop`): the run's end and the match's end. A shorter run cannot be followed by
      `stop`, so the greedy run is the only candidate the regex engine can accept. */
  function Delimited(s: string, i: nat, open: string, stop: char, close: string): (r: Option<(nat, nat)>)
    requires i <= |s|
    ensures r.Some? ==> i + |open| < r.value.0 && r.value.1 == r.value.0 + |close| <= |s|
  {
    if !OccursAt(s, open, i) then None
    else
      var j := RunEnd(s, i + |open|, stop);
      if j > i + |open| && OccursAt(s, close, j) then Some((j, j + |close|)) else None
  }

  /** The anchor that replaces a link: the escaped url as href, the caption as written. */
  function Anchor(caption: string, url: string): string {
    "<a href=\"" + EscapeHtml(url) + "\">" + caption + "</a>"
  }

  /** The pattern of `span` tried at position `i`, with the text that replaces the match. */
  function MatchAt(span: Span, s: string, i: nat): (r: Option<Match>)
    requires i <= |s|
    ensures r.Some? ==> i < r.value.end <= |s|
  {
    match span
    case Link =>
      // /\[([^\]]+)\]\(([^)]+)\)/ -> <a href="escaped url">caption</a>
      (match Delimited(s, i, "[", ']', "](")
       case None => None
       case Some((j, k)) =>
         match Delimited(s, k, "", ')', ")")
         case None => None
         case Some((j2, k2)) =>
           Some(Match(k2, Anchor(s[i + 1..j], s[k..j2]))))
    case CodeSpan =>
      // /`([^`]+)`/ -> <code>escaped code</code>
      (match Delimited(s, i, "`", '`', "`")
       case None => None
       case Some((j, k)) => Some(Match(k, "<code>" + EscapeHtml(s[i + 1..j]) + "</code>")))
    case Strong =>
      // /\*\*([^*]+)\*\*/ -> <strong>$1</strong>
      (match Delimited(s, i, "**", '*', "**")
       case None => None
       case Some((j, k)) => Some(Match(k, "<strong>" + s[i + 2..j] + "</strong>")))
    case Emphasis =>
      // /\*([^*]+)\*/ -> <em>$1</em>
      (match Delimited(s, i, "*", '*', "*")
       case None => None
       case Some((j, k)) => Some(Match(k, "<em>" + s[i + 1..j] + "</em>")))
  }

  /** A pattern tried at each position of a text: the match there, if any. */
  type Matcher = (string, nat) -> Option<Match>

  /** Every match the matcher finds in `s` ends after its start and within `s`. */
  predicate Advances(f: Matcher, s: string) {
    forall n :: 0 <= n < |s| && f(s, n).Some? ==> n < f(s, n).value.end <= |s|
  }

  /** A global `replace` over `s[i..]`: scanning from the left, each match is
      replaced and the scan resumes after it; other characters are copied. */
  function ReplaceFrom(f: Matcher, s: string, i: nat): string
    requires i <= |s| && Advances(f, s)
    decreases |s| - i
  {
    if i == |s| then ""
    else match f(s, i)
      case Some(m) => m.replacement + ReplaceFrom(f, s, m.end)
      case None => [s[i]] + ReplaceFrom(f, s, i + 1)
  }

  /** The pattern of `span` as a matcher. */
  function Pass(span: Span): Matcher {
    (s: string, i: nat) => if i <= |s| then MatchAt(span, s, i) else None
  }

  lemma PassAdvances(span: Span, s: string)
    ensures Advances(Pass(span), s)
  {
  }

  /** `text.replace(pattern, replacement)` with the global pattern of `span`. */
  function ReplaceAll(span: Span, s: string): string {
    PassAdvances(span, s);
    ReplaceFrom(Pass(span), s, 0)
  }

  /** inlineMarkdown: links, then code spans, then bold, then italics. */
  function InlineMarkdown(text: string): string {
    ReplaceAll(Emphasis, ReplaceAll(Strong, ReplaceAll(CodeSpan, ReplaceAll(Link, text))))
  }

  /** The character every match of `span` starts with. */
  function Opener(span: Span): char {
    match span
    case Link => '['
    case CodeSpan => '`'
    case Strong => '*'
    case Emphasis => '*'
  }

  lemma MatchNeedsOpener(span: Span, s: string, i: nat)
    requires i < |s| && s[i] != Opener(span)
    ensures MatchAt(span, s, i).None?
  {
    match span
    case Link => DelimitedNeedsOpen(s, i, "[", ']', "](");
    case CodeSpan => DelimitedNeedsOpen(s, i, "`", '`', "`");
    case Strong => DelimitedNeedsOpen(s, i, "**", '*', "**");
    case Emphasis => DelimitedNeedsOpen(s, i, "*", '*', "*");
  }

  lemma DelimitedNeedsOpen(s: string, i: nat, open: string, stop: char, close: string)
    requires i < |s| && open != [] && s[i] != open[0]
    ensures Delimited(s, i, open, stop, close).None?
  {
    assert !OccursAt(s, open, i) by {
      if i + |open| <= |s| {
        assert s[i..i + |open|][0] == s[i];
      }
    }
  }

  /** A stretch where the matcher finds nothing is copied unchanged. */
  lemma {:induction false} ReplaceFromPlain(f: Matcher, s: string, i: nat, k: nat)
    requires i <= k <= |s| && Advances(f, s)
    requires forall n :: i <= n < k ==> f(s, n).None?
    ensures ReplaceFrom(f, s, i) == s[i..k] + ReplaceFrom(f, s, k)
    decreases k - i
  {
    if i < k {
      assert f(s, i).None?;
      assert ReplaceFrom(f, s, i) == [s[i]] + ReplaceFrom(f, s, i + 1);
      ReplaceFromPlain(f, s, i + 1, k);
      assert s[i..k] == [s[i]] + s[i + 1..k];
      Assoc([s[i]], s[i + 1..k], ReplaceFrom(f, s, k));
    }
  }

  /** Where `span`'s opening character does not occur, its pattern matches nowhere. */
  lemma PassNone(span: Span, s: string, i: nat, k: nat)
    requires i <= k <= |s|
    requires forall n :: i <= n < k ==> s[n] != Opener(span)
    ensures forall n :: i <= n < k ==> Pass(span)(s, n).None?
  {
    forall n | i <= n < k
      ensures Pass(span)(s, n).None?
    {
      MatchNeedsOpener(span, s, n);
    }
  }

  lemma ReplaceAllPlain(span: Span, s: string)
    requires Opener(span) !in s
    ensures ReplaceAll(span, s) == s
  {
    PassAdvances(span, s);
    PassNone(span, s, 0, |s|);
    ReplaceFromPlain(Pass(span), s, 0, |s|);
    assert s[0..|s|] == s;
  }

  /** Text with no `[`, backtick or `*` passes through inline processing untouched:
      in particular raw HTML in prose is not escaped. */
  lemma InlinePlain(text: string)
    requires '[' !in text && '`' !in text && '*' !in text
    ensures InlineMarkdown(text) == text
  {
    ReplaceAllPlain(Link, text);
    ReplaceAllPlain(CodeSpan, text);
    ReplaceAllPlain(Strong, text);
    ReplaceAllPlain(Emphasis, text);
  }

  /** A delimited stretch written out in full is recognised with the whole of `x` as its run. */
  lemma DelimitedAt(s: string, i: nat, open: string, stop: char, x: string, close: string)
    requires OccursAt(s, open + x + close, i)
    requires x != [] && stop !in x && close != [] && close[0] == stop
    ensures Delimited(s, i, open, stop, close)
         == Some((i + |open| + |x|, i + |open| + |x| + |close|))
    ensures s[i + |open|..i + |open| + |x|] == x
  {
    var w := open + x + close;
    var j := i + |open| + |x|;
    assert s[i..i + |w|] == w;
    forall k | 0 <= k < |w| ensures s[i + k] == w[k] {
      assert s[i + k] == s[i..i + |w|][k];
    }
    assert s[i..i + |open|] == open by {
      forall k | 0 <= k < |open| ensures s[i + k] == open[k] { assert w[k] == open[k]; }
    }
    assert s[i + |open|..j] == x by {
      forall k | 0 <= k < |x| ensures s[i + |open| + k] == x[k] { assert w[|open| + k] == x[k]; }
    }
    assert s[j..j + |close|] == close by {
      forall k | 0 <= k < |close| ensures s[j + k] == close[k] { assert w[|open| + |x| + k] == close[k]; }
    }
    forall k | i + |open| <= k < j
      ensures s[k] != stop
    {
      assert s[k] == x[k - i - |open|];
    }
    assert s[j] == close[0];
    RunEndIs(s, i + |open|, stop, j);
  }

  /** A single match with nothing matched before or after it: only the matched stretch is replaced. */
  lemma ReplaceOnce(f: Matcher, t: string, i: nat, m: Match)
    requires i < |t| && Advances(f, t) && f(t, i) == Some(m)
    requires forall n :: 0 <= n < i ==> f(t, n).None?
    requires forall n :: m.end <= n < |t| ==> f(t, n).None?
    ensures ReplaceFrom(f, t, 0) == t[..i] + m.replacement + t[m.end..]
  {
    ReplaceTail(f, t, i, m);
    ReplaceFromPlain(f, t, 0, i);
    assert t[0..i] == t[..i];
    Assoc(t[..i], m.replacement, t[m.end..]);
  }

  /** From a match with nothing matched after it, the rest is the replacement and the text after the match. */
  lemma ReplaceTail(f: Matcher, t: string, i: nat, m: Match)
    requires i < |t| && Advances(f, t) && f(t, i) == Some(m)
    requires forall n :: m.end <= n < |t| ==> f(t, n).None?
    ensures ReplaceFrom(f, t, i) == m.replacement + t[m.end..]
  {
    assert i < m.end <= |t|;
    ReplaceFromPlain(f, t, m.end, |t|);
    assert t[m.end..|t|] + "" == t[m.end..];
  }

  /** One match of `span` in otherwise plain text: only the matched stretch is replaced. */
  lemma ReplaceAllOnce(span: Span, t: string, i: nat, m: Match)
    requires i < |t| && MatchAt(span, t, i) == Some(m)
    requires Opener(span) !in t[..i] && Opener(span) !in t[m.end..]
    ensures ReplaceAll(span, t) == t[..i] + m.replacement + t[m.end..]
  {
    forall n | 0 <= n < i ensures t[n] != Opener(span) {
      assert t[n] == t[..i][n];
    }
    forall n | m.end <= n < |t| ensures t[n] != Opener(span) {
      assert t[n] == t[m.end..][n - m.end];
    }
    PassAdvances(span, t);
    PassNone(span, t, 0, i);
    PassNone(span, t, m.end, |t|);
    ReplaceOnce(Pass(span), t, i, m);
  }

  lemma StrongPass(a: string, x: string, b: string)
    requires x != [] && '*' !in a && '*' !in x && '*' !in b
    ensures ReplaceAll(Strong, a + "**" + x + "**" + b) == a + ("<strong>" + x + "</strong>") + b
  {
    var t := a + "**" + x + "**" + b;
    var i := |a|;
    var e := i + |x| + 4;
    assert t[i..e] == "**" + x + "**";
    assert t[..i] == a && t[e..] == b;
    DelimitedAt(t, i, "**", '*', x, "**");
    ReplaceAllOnce(Strong, t, i, Match(e, "<strong>" + x + "</strong>"));
  }

  /** `**x**` between plain text becomes a strong element around `x`. */
  lemma InlineStrong(a: string, x: string, b: string)
    requires x != []
    requires forall c :: c in "[`*" ==> c !in a && c !in x && c !in b
    ensures InlineMarkdown(a + "**" + x + "**" + b) == a + "<strong>" + x + "</strong>" + b
  {
    var t := a + "**" + x + "**" + b;
    var u := a + ("<strong>" + x + "</strong>") + b;
    StrongOperands(a, x, b);
    InlineAfterPlainPrefix(t);
    StrongPass(a, x, b);
    ReplaceAllPlain(Emphasis, u);
  }

  lemma StrongOperands(a: string, x: string, b: string)
    requires forall c :: c in "[`*" ==> c !in a && c !in x && c !in b
    ensures '[' !in a + "**" + x + "**" + b && '`' !in a + "**" + x + "**" + b
    ensures '*' !in a + ("<strong>" + x + "</strong>") + b
    ensures a + ("<strong>" + x + "</strong>") + b == a + "<strong>" + x + "</strong>" + b
  {
  }

  /** Text without `[` and backticks is only touched by the bold and italic passes. */
  lemma InlineAfterPlainPrefix(t: string)
    requires '[' !in t && '`' !in t
    ensures InlineMarkdown(t) == ReplaceAll(Emphasis, ReplaceAll(Strong, t))
  {
    ReplaceAllPlain(Link, t);
    ReplaceAllPlain(CodeSpan, t);
  }

  /** The strong pass finds nothing in text where no two `*` are adjacent. */
  lemma StrongNone(t: string)
    requires forall n :: 0 <= n < |t| - 1 && t[n] == '*' ==> t[n + 1] != '*'
    ensures ReplaceAll(Strong, t) == t
  {
    PassAdvances(Strong, t);
    forall n | 0 <= n < |t|
      ensures Pass(Strong)(t, n).None?
    {
      if t[n] == '*' {
        if n + 2 <= |t| {
          assert t[n..n + 2][1] == t[n + 1];
        }
      } else {
        MatchNeedsOpener(Strong, t, n);
      }
    }
    ReplaceFromPlain(Pass(Strong), t, 0, |t|);
    assert t[0..|t|] == t;
  }

  lemma EmphasisPass(a: string, x: string, b: string)
    requires x != [] && '*' !in a && '*' !in x && '*' !in b
    ensures ReplaceAll(Emphasis, a + "*" + x + "*" + b) == a + ("<em>" + x + "</em>") + b
  {
    var t := a + "*" + x + "*" + b;
    var i := |a|;
    var e := i + |x| + 2;
    assert t[i..e] == "*" + x + "*";
    assert t[..i] == a && t[e..] == b;
    DelimitedAt(t, i, "*", '*', x, "*");
    ReplaceAllOnce(Emphasis, t, i, Match(e, "<em>" + x + "</em>"));
  }

  /** Single stars around `x` hold no two adjacent stars. */
  lemma EmphasisNoDouble(a: string, x: string, b: string)
    requires x != [] && '*' !in a && '*' !in x && '*' !in b
    ensures var t := a + "*" + x + "*" + b;
      forall n :: 0 <= n < |t| - 1 && t[n] == '*' ==> t[n + 1] != '*'
  {
    var t := a + "*" + x + "*" + b;
    var j := |a| + 1 + |x|;
    assert forall k :: 0 <= k < |a| ==> t[k] == a[k];
    assert forall k :: |a| < k < j ==> t[k] == x[k - |a| - 1];
    assert forall k :: j < k < |t| ==> t[k] == b[k - j - 1];
    forall n | 0 <= n < |t| - 1 && t[n] == '*'
      ensures t[n + 1] != '*'
    {
      if n == |a| {
        assert t[n + 1] == x[0];
      } else if n == j {
        assert t[n + 1] == b[0];
      }
    }
  }

  /** `*x*` between plain text becomes an em element around `x`; the strong
      pass before it finds no `**` to replace. */
  lemma InlineEmphasis(a: string, x: string, b: string)
    requires x != []
    requires forall c :: c in "[`*" ==> c !in a && c !in x && c !in b
    ensures InlineMarkdown(a + "*" + x + "*" + b) == a + "<em>" + x + "</em>" + b
  {
    var t := a + "*" + x + "*" + b;
    EmphasisOperands(a, x, b);
    InlineAfterPlainPrefix(t);
    EmphasisNoDouble(a, x, b);
    StrongNone(t);
    EmphasisPass(a, x, b);
  }

  lemma EmphasisOperands(a: string, x: string, b: string)
    requires forall c :: c in "[`*" ==> c !in a && c !in x && c !in b
    ensures '[' !in a + "*" + x + "*" + b && '`' !in a + "*" + x + "*" + b
    ensures a + ("<em>" + x + "</em>") + b == a + "<em>" + x + "</em>" + b
  {
  }

  /** The link pattern matches exactly a link written out at `i`. */
  lemma LinkMatch(t: string, i: nat, caption: string, url: string)
    requires OccursAt(t, "[" + caption + "](" + url + ")", i)
    requires caption != [] && url != [] && ']' !in caption && ')' !in url
    ensures MatchAt(Link, t, i) == Some(Match(i + |caption| + |url| + 4, Anchor(caption, url)))
  {
    var p, q := "[" + caption + "](", "" + url + ")";
    assert "[" + caption + "](" + url + ")" == p + q;
    OccursAtSplit(t, p, q, i);
    LinkCaption(t, i, caption);
    LinkUrl(t, i + |p|, url);
  }

  lemma LinkCaption(t: string, i: nat, caption: string)
    requires OccursAt(t, "[" + caption + "](", i) && caption != [] && ']' !in caption
    ensures Delimited(t, i, "[", ']', "](") == Some((i + 1 + |caption|, i + 3 + |caption|))
    ensures t[i + 1..i + 1 + |caption|] == caption
  {
    DelimitedAt(t, i, "[", ']', caption, "](");
  }

  lemma LinkUrl(t: string, k: nat, url: string)
    requires OccursAt(t, "" + url + ")", k) && url != [] && ')' !in url
    ensures Delimited(t, k, "", ')', ")") == Some((k + |url|, k + |url| + 1))
    ensures t[k..k + |url|] == url
  {
    DelimitedAt(t, k, "", ')', url, ")");
  }

  /** The link pass on one link in text with no other `[`. */
  lemma LinkPass(a: string, caption: string, url: string, b: string)
    requires caption != [] && url != [] && ']' !in caption && ')' !in url && '[' !in a && '[' !in b
    ensures ReplaceAll(Link, a + "[" + caption + "](" + url + ")" + b) == a + Anchor(caption, url) + b
  {
    var w := "[" + caption + "](" + url + ")";
    var t := a + w + b;
    var e := |a| + |w|;
    assert a + "[" + caption + "](" + url + ")" + b == t;
    Between(a, w, b);
    LinkMatch(t, |a|, caption, url);
    assert t[..|a|] == a && t[e..] == b;
    ReplaceAllOnce(Link, t, |a|, Match(e, Anchor(caption, url)));
  }

  /** `[caption](url)` between plain text becomes an anchor whose href is the
      escaped url and whose text is the caption as written. */
  lemma InlineLink(a: string, caption: string, url: string, b: string)
    requires caption != [] && url != []
    requires forall c :: c in "[`*" ==> c !in a && c !in b
    requires forall c :: c in "]`*" ==> c !in caption
    requires forall c :: c in ")`*" ==> c !in url
    ensures InlineMarkdown(a + "[" + caption + "](" + url + ")" + b)
         == a + "<a href=\"" + EscapeHtml(url) + "\">" + caption + "</a>" + b
  {
    LinkPass(a, caption, url, b);
    NotInEntity();
    EscapedWithout(url, '`');
    EscapedWithout(url, '*');
    LinkOperands(a, caption, EscapeHtml(url), b);
    InlineAfterPass(Link, a + "[" + caption + "](" + url + ")" + b, a + Anchor(caption, url) + b);
  }

  lemma LinkOperands(a: string, caption: string, e: string, b: string)
    requires forall c :: c in "`*" ==> c !in a && c !in caption && c !in e && c !in b
    ensures '`' !in a + ("<a href=\"" + e + "\">" + caption + "</a>") + b
    ensures '*' !in a + ("<a href=\"" + e + "\">" + caption + "</a>") + b
    ensures a + ("<a href=\"" + e + "\">" + caption + "</a>") + b == a + "<a href=\"" + e + "\">" + caption + "</a>" + b
  {
  }

  /** After the link pass (or after a link pass that changed nothing and the code
      pass), text without backticks and `*` is left alone. */
  lemma InlineAfterPass(span: Span, t: string, u: string)
    requires span == Link || span == CodeSpan
    requires span == Link ==> ReplaceAll(Link, t) == u
    requires span == CodeSpan ==> '[' !in t && ReplaceAll(CodeSpan, t) == u
    requires '`' !in u && '*' !in u
    ensures InlineMarkdown(t) == u
  {
    if span == CodeSpan {
      ReplaceAllPlain(Link, t);
    }
    ReplaceAllPlain(CodeSpan, u);
    ReplaceAllPlain(Strong, u);
    ReplaceAllPlain(Emphasis, u);
  }

  /** The code-span pass on one code span in text with no other backtick. */
  lemma CodePass(a: string, code: string, b: string)
    requires code != [] && '`' !in code && '`' !in a && '`' !in b
    ensures ReplaceAll(CodeSpan, a + "`" + code + "`" + b) == a + ("<code>" + EscapeHtml(code) + "</code>") + b
  {
    var t := a + "`" + code + "`" + b;
    var i := |a|;
    var e := i + |code| + 2;
    assert t[i..e] == "`" + code + "`";
    assert t[..i] == a && t[e..] == b;
    DelimitedAt(t, i, "`", '`', code, "`");
    var u := "<code>" + EscapeHtml(code) + "</code>";
    assert MatchAt(CodeSpan, t, i) == Some(Match(e, u));
    ReplaceAllOnce(CodeSpan, t, i, Match(e, u));
  }

  /** A code span between plain text becomes `<code>` around its HTML-escaped content. */
  lemma InlineCode(a: string, code: string, b: string)
    requires code != []
    requires forall c :: c in "[`*" ==> c !in a && c !in code && c !in b
    ensures InlineMarkdown(a + "`" + code + "`" + b) == a + "<code>" + EscapeHtml(code) + "</code>" + b
  {
    CodePass(a, code, b);
    NotInEntity();
    EscapedWithout(code, '*');
    EscapedWithout(code, '`');
    CodeOperands(a, code, EscapeHtml(code), b);
    InlineAfterPass(CodeSpan, a + "`" + code + "`" + b, a + ("<code>" + EscapeHtml(code) + "</code>") + b);
  }

  lemma CodeOperands(a: string, code: string, e: string, b: string)
    requires forall c :: c in "[`*" ==> c !in a && c !in code && c !in b
    requires '*' !in e && '`' !in e
    ensures '[' !in a + "`" + code + "`" + b
    ensures '`' !in a + ("<code>" + e + "</code>") + b && '*' !in a + ("<code>" + e + "</code>") + b
    ensures a + ("<code>" + e + "</code>") + b == a + "<code>" + e + "</code>" + b
  {
  }
}
