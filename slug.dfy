/**
 * `slugify`, which turns a title into the file and URL name of a post. The
 * three scripts carry character-for-character identical copies of it
 * (build.js, fetch-cover.js, new-review.js); this module is the one model of all three.
 */
module Slug {
  import opened Text

  /** A character the pattern `[a-z0-9]` matches. */
  predicate IsAlnum(c: char) {
    'a' <= c <= 'z' || '0' <= c <= '9'
  }

  predicate SlugChar(c: char) {
    IsAlnum(c) || c == '-'
  }

  predicate NoDoubleHyphen(s: string) {
    forall i :: 0 <= i < |s| - 1 ==> !(s[i] == '-' && s[i + 1] == '-')
  }

  /** What a slug looks like: non-empty, over `[a-z0-9-]`, no hyphen at either
      end and no two hyphens in a row. */
  predicate IsSlug(s: string) {
    && s != []
    && (forall i :: 0 <= i < |s| ==> SlugChar(s[i]))
    && s[0] != '-' && s[|s| - 1] != '-'
    && NoDoubleHyphen(s)
  }

  /** The letters and digits of `s`, in order. */
  function Alnums(s: string): string {
    if s == [] then [] else (if IsAlnum(s[0]) then [s[0]] else []) + Alnums(s[1..])
  }

  /** One maximal run of characters outside `[a-z0-9]` at the front of `s`, removed. */
  function SkipRun(s: string): (r: string)
    ensures |r| <= |s| && r == s[|s| - |r|..]
    ensures r == [] || IsAlnum(r[0])
    ensures forall i :: 0 <= i < |s| - |r| ==> !IsAlnum(s[i])
  {
    if s != [] && !IsAlnum(s[0]) then
      var r := SkipRun(s[1..]);
      assert forall i :: 0 < i < |s| ==> s[i] == s[1..][i - 1];
      r
    else s
  }

  /** `.replace(/[^a-z0-9]+/g, '-')`: each maximal run of characters outside
      `[a-z0-9]` becomes a single hyphen. */
  function Collapse(s: string): (r: string)
    ensures forall i :: 0 <= i < |r| ==> SlugChar(r[i])
    ensures NoDoubleHyphen(r)
    ensures s == [] ==> r == []
    ensures s != [] && IsAlnum(s[0]) ==> r != [] && r[0] == s[0]
    decreases |s|
  {
    if s == [] then []
    else if IsAlnum(s[0]) then [s[0]] + Collapse(s[1..])
    else "-" + Collapse(SkipRun(s[1..]))
  }

  /** The leading run of hyphens, removed. */
  function DropLeading(s: string): (r: string)
    ensures |r| <= |s| && r == s[|s| - |r|..]
    ensures r == [] || r[0] != '-'
    ensures forall i :: 0 <= i < |s| - |r| ==> s[i] == '-'
  {
    if s != [] && s[0] == '-' then DropLeading(s[1..]) else s
  }

  /** The trailing run of hyphens, removed. */
  function DropTrailing(s: string): (r: string)
    ensures |r| <= |s| && r == s[..|r|]
    ensures r == [] || r[|r| - 1] != '-'
    ensures forall i :: |r| <= i < |s| ==> s[i] == '-'
  {
    if s != [] && s[|s| - 1] == '-' then DropTrailing(s[..|s| - 1]) else s
  }

  /** `.replace(/^-+|-+$/g, '')`: the leading and the trailing run of hyphens, removed. */
  function StripHyphens(s: string): string {
    DropTrailing(DropLeading(s))
  }

  /** `slugify(value)`. */
  function Slugify(value: string): string {
    var s := StripHyphens(Collapse(Lower(value)));
    if s == "" then "post" else s
  }

  lemma {:induction false} AlnumsAppend(a: string, b: string)
    ensures Alnums(a + b) == Alnums(a) + Alnums(b)
  {
    if a != [] {
      assert (a + b)[0] == a[0];
      assert (a + b)[1..] == a[1..] + b;
      AlnumsAppend(a[1..], b);
    } else {
      assert a + b == b;
    }
  }

  lemma {:induction false} AlnumsNone(s: string)
    requires forall i :: 0 <= i < |s| ==> !IsAlnum(s[i])
    ensures Alnums(s) == []
  {
    if s != [] {
      AlnumsNone(s[1..]);
    }
  }

  lemma AlnumsSkip(s: string)
    ensures Alnums(SkipRun(s)) == Alnums(s)
  {
    var r := SkipRun(s);
    var d := s[..|s| - |r|];
    assert s == d + r;
    AlnumsAppend(d, r);
    AlnumsNone(d);
  }

  /** Collapsing runs keeps every letter and digit, in order. */
  lemma {:induction false} AlnumsCollapse(s: string)
    ensures Alnums(Collapse(s)) == Alnums(s)
    decreases |s|
  {
    if s != [] {
      if IsAlnum(s[0]) {
        AlnumsCollapse(s[1..]);
        AlnumsAppend([s[0]], Collapse(s[1..]));
      } else {
        AlnumsCollapse(SkipRun(s[1..]));
        AlnumsSkip(s[1..]);
        AlnumsAppend("-", Collapse(SkipRun(s[1..])));
      }
    }
  }

  lemma AlnumsDropLeading(s: string)
    ensures Alnums(DropLeading(s)) == Alnums(s)
  {
    var t := DropLeading(s);
    var d := s[..|s| - |t|];
    assert s == d + t;
    assert forall i :: 0 <= i < |d| ==> d[i] == s[i] == '-';
    AlnumsAppend(d, t);
    AlnumsNone(d);
  }

  lemma AlnumsDropTrailing(s: string)
    ensures Alnums(DropTrailing(s)) == Alnums(s)
  {
    var u := DropTrailing(s);
    var e := s[|u|..];
    assert s == u + e;
    assert forall i :: 0 <= i < |e| ==> e[i] == s[|u| + i] == '-';
    AlnumsAppend(u, e);
    AlnumsNone(e);
  }

  /** Removing hyphens at the ends keeps every letter and digit, in order. */
  lemma AlnumsStrip(s: string)
    ensures Alnums(StripHyphens(s)) == Alnums(s)
  {
    AlnumsDropLeading(s);
    AlnumsDropTrailing(DropLeading(s));
  }

  /** A piece of a text over `[a-z0-9-]` without double hyphens is one too. */
  lemma SliceShape(s: string, a: nat, b: nat)
    requires a <= b <= |s|
    requires forall i :: 0 <= i < |s| ==> SlugChar(s[i])
    requires NoDoubleHyphen(s)
    ensures forall i :: 0 <= i < b - a ==> SlugChar(s[a..b][i])
    ensures NoDoubleHyphen(s[a..b])
  {
    assert forall i :: 0 <= i < b - a ==> s[a..b][i] == s[a + i];
  }

  /** The ends stripped off a collapsed text leave a slug or nothing. */
  lemma StripShape(s: string)
    requires forall i :: 0 <= i < |s| ==> SlugChar(s[i])
    requires NoDoubleHyphen(s)
    ensures StripHyphens(s) == [] || IsSlug(StripHyphens(s))
  {
    var t := DropLeading(s);
    SliceShape(s, |s| - |t|, |s|);
    var u := DropTrailing(t);
    SliceShape(t, 0, |u|);
    if u != [] {
      assert u[0] == t[0];
    }
  }

  /** `slugify` always yields a slug. */
  lemma SlugifyIsSlug(value: string)
    ensures IsSlug(Slugify(value))
  {
    StripShape(Collapse(Lower(value)));
    PostIsSlug();
  }

  lemma PostIsSlug()
    ensures IsSlug("post")
  {
    var p := "post";
    assert forall i :: 0 <= i < |p| ==> IsAlnum(p[i]);
  }

  /** The slug keeps exactly the letters and digits of the lower-cased value, in
      order, when there are any. */
  lemma SlugifyKeeps(value: string)
    requires Alnums(Lower(value)) != []
    ensures Alnums(Slugify(value)) == Alnums(Lower(value))
  {
    var c := Collapse(Lower(value));
    AlnumsCollapse(Lower(value));
    AlnumsStrip(c);
  }

  /** A value with no letter or digit, the empty one included, becomes `post`. */
  lemma SlugifyPost(value: string)
    requires Alnums(Lower(value)) == []
    ensures Slugify(value) == "post"
  {
    var c := Collapse(Lower(value));
    var s := StripHyphens(c);
    AlnumsCollapse(Lower(value));
    AlnumsStrip(c);
    StripShape(c);
  }

  /** Collapsing leaves a text over `[a-z0-9-]` without double hyphens as it is. */
  lemma {:induction false} CollapseFixed(s: string)
    requires forall i :: 0 <= i < |s| ==> SlugChar(s[i])
    requires NoDoubleHyphen(s)
    ensures Collapse(s) == s
  {
    if s != [] {
      var t := s[1..];
      assert forall i :: 0 <= i < |t| ==> t[i] == s[i + 1];
      CollapseFixed(t);
      if !IsAlnum(s[0]) {
        assert t == [] || IsAlnum(t[0]);
        assert SkipRun(t) == t;
      }
      assert s == [s[0]] + t;
    }
  }

  /** A slug is its own slug. */
  lemma SlugFixed(s: string)
    requires IsSlug(s)
    ensures Slugify(s) == s
  {
    assert Lower(s) == s;
    CollapseFixed(s);
  }

  /** Slugifying twice changes nothing. */
  lemma SlugifyIdempotent(value: string)
    ensures Slugify(Slugify(value)) == Slugify(value)
  {
    SlugifyIsSlug(value);
    SlugFixed(Slugify(value));
  }
}
