/**
 * The JavaScript string built-ins the site generator relies on, stated over
 * `seq<char>`: `trim`, ASCII `toLowerCase`, `startsWith`, `indexOf`, `split` on
 * one character, `join`, `repeat`, and the `\s` character class.
 */
module Text {

  /** A code point of the JavaScript WhiteSpace or LineTerminator productions:
      exactly what `String.prototype.trim` strips and what the regex class `\s` matches. */
  predicate IsSpace(c: char) {
    || c == '\t' || c == '\n' || c == '\U{B}' || c == '\U{C}' || c == '\r' || c == ' '
    || c == '\U{A0}' || c == '\U{1680}' || ('\U{2000}' <= c <= '\U{200A}')
    || c == '\U{2028}' || c == '\U{2029}' || c == '\U{202F}' || c == '\U{205F}'
    || c == '\U{3000}' || c == '\U{FEFF}'
  }

  /** The characters the regex `.` does not match. */
  predicate IsLineTerminator(c: char) {
    c == '\n' || c == '\r' || c == '\U{2028}' || c == '\U{2029}'
  }

  predicate AllSpace(s: string) {
    forall i :: 0 <= i < |s| ==> IsSpace(s[i])
  }

  /** No white space at either end. */
  predicate Trimmed(s: string) {
    s == [] || (!IsSpace(s[0]) && !IsSpace(s[|s| - 1]))
  }

  function TrimStart(s: string): (r: string)
    ensures |r| <= |s| && r == s[|s| - |r|..]
    ensures r == [] || !IsSpace(r[0])
  {
    if s != [] && IsSpace(s[0]) then TrimStart(s[1..]) else s
  }

  /** What `TrimStart` drops is white space. */
  lemma {:induction false} TrimStartDrops(s: string)
    ensures AllSpace(s[..|s| - |TrimStart(s)|])
    decreases |s|
  {
    if s != [] && IsSpace(s[0]) {
      TrimStartDrops(s[1..]);
      var k := |s| - |TrimStart(s)|;
      assert s[..k] == [s[0]] + s[1..][..k - 1];
    }
  }

  function TrimEnd(s: string): (r: string)
    ensures |r| <= |s| && r == s[..|r|]
    ensures r == [] || !IsSpace(r[|r| - 1])
  {
    if s != [] && IsSpace(s[|s| - 1]) then TrimEnd(s[..|s| - 1]) else s
  }

  /** What `TrimEnd` drops is white space. */
  lemma {:induction false} TrimEndDrops(s: string)
    ensures AllSpace(s[|TrimEnd(s)|..])
    decreases |s|
  {
    if s != [] && IsSpace(s[|s| - 1]) {
      var n := |s| - 1;
      TrimEndDrops(s[..n]);
      var k := |TrimEnd(s)|;
      assert s[k..] == s[..n][k..] + [s[n]];
    }
  }

  /** `s.trim()`. */
  function Trim(s: string): (r: string)
    ensures Trimmed(r) && |r| <= |s|
  {
    TrimEnd(TrimStart(s))
  }

  /** `trim` keeps a middle stretch of the text. */
  lemma TrimSlice(s: string)
    ensures var n := |s| - |TrimStart(s)|; n + |Trim(s)| <= |s| && Trim(s) == s[n..n + |Trim(s)|]
  {
    var t := TrimStart(s);
    var r := TrimEnd(t);
    var n := |s| - |t|;
    assert t == s[n..];
    assert r == t[..|r|];
    forall k | 0 <= k < |r| ensures r[k] == s[n + k] {
      assert r[k] == t[k];
    }
  }

  /** `trim` keeps a middle stretch of the text, so it adds no character. */
  lemma TrimmedChars(s: string, c: char)
    requires c !in s
    ensures c !in Trim(s)
  {
    TrimSlice(s);
    var n := |s| - |TrimStart(s)|;
    NotInSlice(s, c, n, n + |Trim(s)|);
  }

  /** Trimming a text that is already trimmed changes nothing. */
  lemma TrimOfTrimmed(s: string)
    requires Trimmed(s)
    ensures Trim(s) == s
  {
  }

  lemma {:induction false} TrimStartOfSpaces(a: string, s: string)
    requires AllSpace(a)
    ensures TrimStart(a + s) == TrimStart(s)
    decreases |a|
  {
    if a != [] {
      assert (a + s)[0] == a[0] && IsSpace(a[0]);
      assert (a + s)[1..] == a[1..] + s;
      TrimStartOfSpaces(a[1..], s);
    } else {
      assert a + s == s;
    }
  }

  lemma {:induction false} TrimEndOfSpaces(s: string, b: string)
    requires AllSpace(b)
    ensures TrimEnd(s + b) == TrimEnd(s)
    decreases |b|
  {
    if b != [] {
      var n := |b| - 1;
      assert (s + b)[|s + b| - 1] == b[n] && IsSpace(b[n]);
      assert (s + b)[..|s + b| - 1] == s + b[..n];
      TrimEndOfSpaces(s, b[..n]);
    } else {
      assert s + b == s;
    }
  }

  /** White space around a trimmed text is exactly what `trim` removes. */
  lemma {:induction false} TrimPadded(a: string, s: string, b: string)
    requires AllSpace(a) && AllSpace(b) && Trimmed(s)
    ensures Trim(a + s + b) == s
  {
    assert a + s + b == a + (s + b);
    TrimStartOfSpaces(a, s + b);
    if s == [] {
      assert s + b == b + [];
      TrimStartOfSpaces(b, []);
      assert TrimStart(a + s + b) == [];
    } else {
      assert (s + b)[0] == s[0];
      assert TrimStart(a + s + b) == s + b;
      TrimEndOfSpaces(s, b);
      assert TrimEnd(s) == s;
    }
  }

  /** White space after a trimmed text is what `trim` removes. */
  lemma TrimSpaceAfter(x: string, b: string)
    requires Trimmed(x) && AllSpace(b)
    ensures Trim(x + b) == x
  {
    assert x + b == "" + x + b;
    TrimPadded("", x, b);
  }

  /** White space before a trimmed text is what `trim` removes. */
  lemma TrimSpaceBefore(a: string, s: string)
    requires AllSpace(a) && Trimmed(s)
    ensures Trim(a + s) == s
  {
    assert a + s == a + s + "";
    TrimPadded(a, s, "");
  }

  lemma NotInSlice<T>(s: seq<T>, x: T, i: nat, j: nat)
    requires x !in s && i <= j <= |s|
    ensures x !in s[i..j]
  {
    forall k | 0 <= k < j - i
      ensures s[i..j][k] != x
    {
      assert s[i..j][k] == s[i + k];
    }
  }

  lemma Assoc<T>(a: seq<T>, b: seq<T>, c: seq<T>)
    ensures a + (b + c) == a + b + c
  {
  }

  lemma Between<T>(a: seq<T>, w: seq<T>, b: seq<T>)
    ensures (a + w + b)[|a|..|a| + |w|] == w
  {
    var t := a + w + b;
    forall k | 0 <= k < |w| ensures t[|a|..|a| + |w|][k] == w[k] {
      assert t[|a| + k] == w[k];
    }
  }

  /** Where `p + q` occurs, `p` occurs and `q` occurs right after it. */
  lemma OccursAtSplit(s: string, p: string, q: string, i: int)
    requires OccursAt(s, p + q, i)
    ensures OccursAt(s, p, i) && OccursAt(s, q, i + |p|)
  {
    forall k | 0 <= k < |p| ensures s[i..i + |p|][k] == p[k] {
      assert s[i + k] == s[i..i + |p + q|][k] == (p + q)[k];
    }
    forall k | 0 <= k < |q| ensures s[i + |p|..i + |p| + |q|][k] == q[k] {
      assert s[i + |p| + k] == s[i..i + |p + q|][|p| + k] == (p + q)[|p| + k];
    }
  }

  lemma First<T>(a: seq<T>, b: seq<T>)
    requires a != []
    ensures (a + b)[0] == a[0]
  {
  }

  lemma Last<T>(a: seq<T>, b: seq<T>)
    requires b != []
    ensures (a + b)[|a + b| - 1] == b[|b| - 1]
  {
  }

  /** A text is its trimmed self with white space around it. */
  lemma TrimParts(s: string) returns (a: string, b: string)
    ensures AllSpace(a) && AllSpace(b) && s == a + Trim(s) + b
  {
    var t := TrimStart(s);
    var r := TrimEnd(t);
    a := s[..|s| - |t|];
    b := t[|r|..];
    TrimStartDrops(s);
    TrimEndDrops(t);
    Middle(s, t, r);
  }

  /** A suffix of `s` with a prefix of that suffix cut out of `s`. */
  lemma Middle<T>(s: seq<T>, t: seq<T>, r: seq<T>)
    requires |t| <= |s| && t == s[|s| - |t|..]
    requires |r| <= |t| && r == t[..|r|]
    ensures s == s[..|s| - |t|] + r + t[|r|..]
  {
    assert s == s[..|s| - |t|] + t;
    assert t == r + t[|r|..];
  }

  /** ASCII upper-case letters become lower-case; everything else is kept. */
  function LowerChar(c: char): char {
    if 'A' <= c <= 'Z' then (c as int + 32) as char else c
  }

  /** `s.toLowerCase()`, restricted to ASCII letters. */
  function Lower(s: string): (r: string)
    ensures |r| == |s| && forall i :: 0 <= i < |s| ==> r[i] == LowerChar(s[i])
  {
    seq(|s|, i requires 0 <= i < |s| => LowerChar(s[i]))
  }

  /** `xs.map(f)`. */
  function Map<T, U>(f: T -> U, xs: seq<T>): (r: seq<U>)
    ensures |r| == |xs| && forall i :: 0 <= i < |xs| ==> r[i] == f(xs[i])
  {
    seq(|xs|, i requires 0 <= i < |xs| => f(xs[i]))
  }

  /** Mapping distributes over concatenation. */
  lemma MapAppend<T, U>(f: T -> U, a: seq<T>, b: seq<T>)
    ensures Map(f, a + b) == Map(f, a) + Map(f, b)
  {
    var u := Map(f, a + b);
    var w := Map(f, a) + Map(f, b);
    forall i | 0 <= i < |u|
      ensures u[i] == w[i]
    {
      if i < |a| {
        assert (a + b)[i] == a[i];
      } else {
        assert (a + b)[i] == b[i - |a|];
      }
    }
  }

  lemma MapOne<T, U>(f: T -> U, x: T)
    ensures Map(f, [x]) == [f(x)]
  {
  }

  /** The map of a prefix one longer is the map of the prefix plus one element. */
  lemma MapPrefix<T, U>(f: T -> U, xs: seq<T>, i: nat)
    requires i < |xs|
    ensures Map(f, xs[..i + 1]) == Map(f, xs[..i]) + [f(xs[i])]
  {
    assert xs[..i + 1] == xs[..i] + [xs[i]];
    MapAppend(f, xs[..i], [xs[i]]);
    MapOne(f, xs[i]);
  }

  /** `s.startsWith(p)`. */
  predicate StartsWith(s: string, p: string) {
    p <= s
  }

  /** `s` holds `p` at position `k`. */
  predicate OccursAt(s: string, p: string, k: int) {
    0 <= k && k + |p| <= |s| && s[k..k + |p|] == p
  }

  /** `s.indexOf(p, from)`: the first position at or after `from` where `p` occurs, or -1. */
  function IndexOf(s: string, p: string, from: nat): (r: int)
    ensures r == -1 || (from <= r && OccursAt(s, p, r))
    ensures forall k :: from <= k && (r == -1 || k < r) ==> !OccursAt(s, p, k)
    decreases |s| - from
  {
    if from + |p| > |s| then -1
    else if s[from..from + |p|] == p then from
    else IndexOf(s, p, from + 1)
  }

  /** `s.split(c)` for a one-character separator: never empty, `""` splits into `[""]`. */
  function Split(s: string, c: char): (r: seq<string>)
    ensures |r| >= 1
    ensures forall k :: 0 <= k < |r| ==> c !in r[k]
  {
    if s == [] then [""]
    else if s[0] == c then [""] + Split(s[1..], c)
    else
      var rest := Split(s[1..], c);
      [[s[0]] + rest[0]] + rest[1..]
  }

  /** `parts.join(sep)`. */
  function Join(parts: seq<string>, sep: string): string {
    if |parts| == 0 then ""
    else if |parts| == 1 then parts[0]
    else parts[0] + sep + Join(parts[1..], sep)
  }

  /** `s.repeat(n)`. */
  function Repeat(s: string, n: nat): (r: string)
    ensures |r| == n * |s|
  {
    if n == 0 then "" else s + Repeat(s, n - 1)
  }

  /** Joining the pieces of a split gives back the text. */
  lemma {:induction false} JoinSplit(s: string, c: char)
    ensures Join(Split(s, c), [c]) == s
  {
    if s == [] {
    } else if s[0] == c {
      JoinSplit(s[1..], c);
    } else {
      var rest := Split(s[1..], c);
      JoinSplit(s[1..], c);
      if |rest| > 1 {
        assert Join(rest, [c]) == rest[0] + [c] + Join(rest[1..], [c]);
        assert [[s[0]] + rest[0]] + rest[1..] == [[s[0]] + rest[0]] + rest[1..];
      }
      assert s == [s[0]] + s[1..];
    }
  }

  lemma {:induction false} SplitWithout(s: string, c: char)
    requires c !in s
    ensures Split(s, c) == [s]
  {
    if s != [] {
      SplitWithout(s[1..], c);
      assert s == [s[0]] + s[1..];
    }
  }

  /** A split stops at the first separator. */
  lemma {:induction false} SplitAtFirst(a: string, c: char, b: string)
    requires c !in a
    ensures Split(a + [c] + b, c) == [a] + Split(b, c)
  {
    if a == [] {
      assert a + [c] + b == [c] + b;
      assert ([c] + b)[1..] == b;
    } else {
      assert (a + [c] + b)[1..] == a[1..] + [c] + b;
      SplitAtFirst(a[1..], c, b);
      assert a == [a[0]] + a[1..];
    }
  }

  /** A prefix of a text ending before its first occurrence of `c` holds no `c`. */
  lemma BeforeFirst(line: string, c: char, n: nat)
    requires n <= |line| && forall j :: 0 <= j < n ==> !OccursAt(line, [c], j)
    ensures c !in line[..n]
  {
    forall j | 0 <= j < n
      ensures line[..n][j] != c
    {
      assert !OccursAt(line, [c], j);
    }
  }

  /** The first piece of a split is the text before the first separator, and the
      other pieces joined back are the text after it. */
  lemma SplitFirst(s: string, c: char)
    ensures var i := IndexOf(s, [c], 0);
      var parts := Split(s, c);
      if i == -1 then parts == [s]
      else |parts| >= 2 && parts[0] == s[..i] && Join(parts[1..], [c]) == s[i + 1..]
  {
    var i := IndexOf(s, [c], 0);
    if i == -1 {
      BeforeFirst(s, c, |s|);
      assert s[..|s|] == s;
      SplitWithout(s, c);
    } else {
      var a := s[..i];
      var b := s[i + 1..];
      BeforeFirst(s, c, i);
      assert s[i..i + 1] == [c];
      assert s == a + [c] + b;
      SplitAtFirst(a, c, b);
      JoinSplit(b, c);
    }
  }

  /** Splitting the join of separator-free parts gives back the parts. */
  lemma {:induction false} SplitJoin(parts: seq<string>, c: char)
    requires |parts| >= 1
    requires forall k :: 0 <= k < |parts| ==> c !in parts[k]
    ensures Split(Join(parts, [c]), c) == parts
  {
    if |parts| == 1 {
      SplitWithout(parts[0], c);
    } else {
      SplitJoin(parts[1..], c);
      SplitAtFirst(parts[0], c, Join(parts[1..], [c]));
      assert parts == [parts[0]] + parts[1..];
    }
  }

  /** A character outside every part and outside the separator is outside the join. */
  lemma {:induction false} NotInJoin(parts: seq<string>, sep: string, c: char)
    requires c !in sep
    requires forall k :: 0 <= k < |parts| ==> c !in parts[k]
    ensures c !in Join(parts, sep)
  {
    if |parts| > 1 {
      NotInJoin(parts[1..], sep, c);
    }
  }

  /** A white-space character in front of a text disappears under `trim`. */
  lemma TrimConsSpace(c: char, x: string)
    requires IsSpace(c)
    ensures Trim([c] + x) == Trim(x)
  {
    TrimStartOfSpaces([c], x);
  }

  lemma {:induction false} TrimStartAppend(x: string, y: string)
    requires TrimStart(x) != []
    ensures TrimStart(x + y) == TrimStart(x) + y
  {
    assert (x + y)[0] == x[0];
    if IsSpace(x[0]) {
      assert TrimStart(x) == TrimStart(x[1..]);
      assert (x + y)[1..] == x[1..] + y;
      TrimStartAppend(x[1..], y);
    } else {
      assert TrimStart(x) == x;
    }
  }

  /** A white-space character after a text disappears under `trim`. */
  lemma TrimSnocSpace(x: string, c: char)
    requires IsSpace(c)
    ensures Trim(x + [c]) == Trim(x)
  {
    if TrimStart(x) == [] {
      assert AllSpace(x) by {
        TrimStartDrops(x);
        assert x[..|x| - |TrimStart(x)|] == x;
      }
      TrimStartOfSpaces(x, [c]);
      TrimStartOfSpaces([c], []);
      assert [c] + [] == [c];
    } else {
      TrimStartAppend(x, [c]);
      TrimEndOfSpaces(TrimStart(x), [c]);
    }
  }

  lemma {:induction false} JoinSnoc(p: seq<string>, x: string, sep: string)
    requires |p| >= 1
    ensures Join(p + [x], sep) == Join(p, sep) + sep + x
  {
    if |p| == 1 {
      assert p + [x] == [p[0], x];
    } else {
      assert (p + [x])[1..] == p[1..] + [x];
      JoinSnoc(p[1..], x, sep);
    }
  }

  /** Splitting a text extended by one character. */
  lemma SplitSnoc(a: string, c: char, sep: char)
    ensures var p := Split(a, sep);
      Split(a + [c], sep) == if c == sep then p + [""] else p[..|p| - 1] + [p[|p| - 1] + [c]]
  {
    if c == sep {
      SplitSnocSep(a, sep);
    } else {
      SplitSnocOther(a, c, sep);
    }
  }

  lemma SplitSnocSep(a: string, sep: char)
    ensures Split(a + [sep], sep) == Split(a, sep) + [""]
  {
    var p := Split(a, sep);
    JoinSplit(a, sep);
    JoinSnoc(p, "", [sep]);
    assert a + [sep] == Join(p + [""], [sep]);
    SplitJoin(p + [""], sep);
  }

  lemma SplitSnocOther(a: string, c: char, sep: char)
    requires c != sep
    ensures var p := Split(a, sep);
      Split(a + [c], sep) == p[..|p| - 1] + [p[|p| - 1] + [c]]
  {
    var p := Split(a, sep);
    var n := |p| - 1;
    JoinSplit(a, sep);
    var q := p[..n] + [p[n] + [c]];
    JoinExtendLast(p, c, [sep]);
    assert forall k :: 0 <= k < |q| ==> sep !in q[k] by {
      assert forall k :: 0 <= k < n ==> q[k] == p[k];
    }
    SplitJoin(q, sep);
  }

  /** Extending the last part extends the joined text. */
  lemma JoinExtendLast(p: seq<string>, c: char, sep: string)
    requires |p| >= 1
    ensures Join(p[..|p| - 1] + [p[|p| - 1] + [c]], sep) == Join(p, sep) + [c]
  {
    var n := |p| - 1;
    if n > 0 {
      assert p == p[..n] + [p[n]];
      JoinSnoc(p[..n], p[n], sep);
      JoinSnoc(p[..n], p[n] + [c], sep);
    }
  }

  /** Trimming a text that starts with a non-space character keeps that character first. */
  lemma TrimFirstChar(s: string)
    requires s != [] && !IsSpace(s[0])
    ensures Trim(s) != [] && Trim(s)[0] == s[0]
  {
    assert TrimStart(s) == s;
    var r := TrimEnd(s);
    TrimEndDrops(s);
  }

  /** `indexOf` finds the first occurrence at or after `from`. */
  lemma IndexOfIs(s: string, p: string, from: nat, q: nat)
    requires from <= q && OccursAt(s, p, q)
    requires forall j :: from <= j < q ==> !OccursAt(s, p, j)
    ensures IndexOf(s, p, from) == q
  {
  }

  /** ASCII lower-casing maps white space to white space and nothing else to it. */
  lemma LowerSpace(c: char)
    ensures IsSpace(LowerChar(c)) == IsSpace(c)
  {
  }

  lemma LowerIdempotent(s: string)
    ensures Lower(Lower(s)) == Lower(s)
  {
  }

  lemma LowerTrimmed(s: string)
    requires Trimmed(s)
    ensures Trimmed(Lower(s))
  {
    if s != [] {
      LowerSpace(s[0]);
      LowerSpace(s[|s| - 1]);
    }
  }

  /** `.filter(Boolean)` on strings: drops the empty ones. */
  function NonEmpty(ls: seq<string>): (r: seq<string>)
    ensures forall x :: x in r ==> x in ls && x != ""
    ensures (forall i :: 0 <= i < |ls| ==> ls[i] != "") ==> r == ls
  {
    if ls == [] then []
    else
      var t := NonEmpty(ls[1..]);
      assert forall x :: x in t ==> x in ls;
      assert ls == [ls[0]] + ls[1..];
      (if ls[0] == "" then [] else [ls[0]]) + t
  }

  /** An empty first line is dropped. */
  lemma NonEmptyDropEmpty(t: seq<string>)
    ensures NonEmpty([""] + t) == NonEmpty(t)
  {
    var s := [""] + t;
    assert s[1..] == t;
  }

  lemma {:induction false} NonEmptyAppend(a: seq<string>, b: seq<string>)
    ensures NonEmpty(a + b) == NonEmpty(a) + NonEmpty(b)
  {
    if a != [] {
      var h: seq<string> := if a[0] == "" then [] else [a[0]];
      assert (a + b)[0] == a[0];
      assert (a + b)[1..] == a[1..] + b;
      assert NonEmpty(a + b) == h + NonEmpty(a[1..] + b);
      assert NonEmpty(a) == h + NonEmpty(a[1..]);
      NonEmptyAppend(a[1..], b);
    } else {
      assert a + b == b;
    }
  }
}
