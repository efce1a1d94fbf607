/** `slugify`: the post slug made from an SEO title. Lower-case the
    stripped title, replace every run of characters outside the slug class
    by one hyphen, collapse hyphen runs, strip hyphens at both ends and keep
    at most 90 characters. */
module Slug {
  import opened Text

  const MaxSlugLength: nat := 90

  /** The regular expression class `\w`, on ASCII. */
  predicate IsWordChar(c: char) {
    ('a' <= c <= 'z') || ('A' <= c <= 'Z') || ('0' <= c <= '9') || c == '_'
  }

  /** The range `一-龥` of the slug class. */
  predicate IsHan(c: char) {
    '一' <= c <= '龥'
  }

  /** The slug class `[\w\-一-龥]`. */
  predicate Allowed(c: char) {
    IsWordChar(c) || c == '-' || IsHan(c)
  }

  predicate Disallowed(c: char) {
    !Allowed(c)
  }

  predicate IsHyphen(c: char) {
    c == '-'
  }

  /** No two hyphens are adjacent. */
  predicate NoDoubleHyphen(s: string) {
    forall i :: 0 < i < |s| ==> !(s[i - 1] == '-' && s[i] == '-')
  }

  /** Every character is already lower case. */
  predicate Lowered(s: string) {
    forall i :: 0 <= i < |s| ==> LowerChar(s[i]) == s[i]
  }

  /** `re.sub(r"[^\w\-一-龥]+", "-", s)`: each maximal run of characters
      outside the class becomes a single hyphen. */
  function ReplaceRuns(s: string): string
    decreases |s|
  {
    if s == [] then []
    else if Allowed(s[0]) then [s[0]] + ReplaceRuns(s[1..])
    else "-" + ReplaceRuns(TrimLeft(s[1..], Disallowed))
  }

  /** `re.sub(r"-{2,}", "-", s)`: each maximal run of hyphens becomes one. */
  function Collapse(s: string): string
    decreases |s|
  {
    if s == [] then []
    else if s[0] == '-' then "-" + Collapse(TrimLeft(s[1..], IsHyphen))
    else [s[0]] + Collapse(s[1..])
  }

  /** `slugify(text)`. */
  function Slugify(text: string): (r: string)
    ensures |r| <= MaxSlugLength
  {
    PyPrefix(StripBy(Collapse(ReplaceRuns(Lower(Strip(text)))), IsHyphen), MaxSlugLength)
  }

  /** A slug character: in the slug class and lower case. */
  predicate SlugChar(c: char) {
    Allowed(c) && LowerChar(c) == c
  }

  /** `ReplaceRuns` turns a lower-case string into slug characters. */
  lemma {:induction false} ReplaceRunsChars(s: string)
    requires Lowered(s)
    ensures AllOf(ReplaceRuns(s), SlugChar)
    decreases |s|
  {
    if s == [] {
    } else if Allowed(s[0]) {
      SliceShape(s, 1, |s|);
      ReplaceRunsChars(s[1..]);
      ConsChars(s[0], ReplaceRuns(s[1..]));
    } else {
      var rest := TrimLeft(s[1..], Disallowed);
      SliceShape(s, |s| - |rest|, |s|);
      assert rest == s[|s| - |rest|..];
      ReplaceRunsChars(rest);
      ConsChars('-', ReplaceRuns(rest));
    }
  }

  lemma {:induction false} ConsChars(c: char, y: string)
    requires SlugChar(c) && AllOf(y, SlugChar)
    ensures AllOf([c] + y, SlugChar)
  {
    assert forall i :: 0 < i < |[c] + y| ==> ([c] + y)[i] == y[i - 1];
  }

  /** `Collapse` keeps the first character of its input. */
  lemma {:induction false} CollapseFirst(s: string)
    requires s != []
    ensures Collapse(s) != [] && Collapse(s)[0] == s[0]
  {
  }

  /** `Collapse` leaves no two hyphens adjacent. */
  lemma {:induction false} CollapseSingle(s: string)
    ensures NoDoubleHyphen(Collapse(s))
    decreases |s|
  {
    if s == [] {
    } else if s[0] == '-' {
      var rest := TrimLeft(s[1..], IsHyphen);
      CollapseSingle(rest);
      if rest != [] {
        CollapseFirst(rest);
      }
      ConsSingle('-', Collapse(rest));
    } else {
      CollapseSingle(s[1..]);
      ConsSingle(s[0], Collapse(s[1..]));
    }
  }

  lemma {:induction false} ConsSingle(c: char, y: string)
    requires NoDoubleHyphen(y) && (y == [] || c != '-' || y[0] != '-')
    ensures NoDoubleHyphen([c] + y)
  {
    assert forall i :: 0 < i < |[c] + y| ==> ([c] + y)[i] == y[i - 1];
  }

  /** `Collapse` keeps slug characters slug characters. */
  lemma {:induction false} CollapseChars(s: string)
    requires AllOf(s, SlugChar)
    ensures AllOf(Collapse(s), SlugChar)
    decreases |s|
  {
    if s == [] {
    } else if s[0] == '-' {
      var rest := TrimLeft(s[1..], IsHyphen);
      assert rest == s[|s| - |rest|..];
      SliceShape(s, |s| - |rest|, |s|);
      CollapseChars(rest);
      ConsChars('-', Collapse(rest));
    } else {
      SliceShape(s, 1, |s|);
      CollapseChars(s[1..]);
      ConsChars(s[0], Collapse(s[1..]));
    }
  }

  /** A string without adjacent hyphens is left as it is. */
  lemma {:induction false} CollapseKeepsSingle(s: string)
    requires NoDoubleHyphen(s)
    ensures Collapse(s) == s
    decreases |s|
  {
    if s != [] {
      var rest := s[1..];
      SliceShape(s, 1, |s|);
      CollapseKeepsSingle(rest);
      if s[0] == '-' {
        HyphenNotDoubled(s);
        assert TrimLeft(rest, IsHyphen) == rest;
      }
      assert [s[0]] + rest == s;
    }
  }

  /** After a hyphen, a string without adjacent hyphens goes on with
      something else. */
  lemma {:induction false} HyphenNotDoubled(s: string)
    requires NoDoubleHyphen(s) && s != [] && s[0] == '-'
    ensures s[1..] == [] || s[1..][0] != '-'
  {
    if |s| > 1 {
      assert !(s[0] == '-' && s[1] == '-');
    }
  }

  /** A contiguous piece of a string keeps its per-character and
      adjacent-pair properties. */
  lemma {:induction false} SliceShape(s: string, a: nat, b: nat)
    requires a <= b <= |s|
    ensures NoDoubleHyphen(s) ==> NoDoubleHyphen(s[a..b])
    ensures AllOf(s, SlugChar) ==> AllOf(s[a..b], SlugChar)
    ensures Lowered(s) ==> Lowered(s[a..b])
  {
    var t := s[a..b];
    assert forall i :: 0 <= i < |t| ==> t[i] == s[a + i];
  }

  /** `StripBy` gives a contiguous piece of its input. */
  lemma {:induction false} StripByIsSlice(s: string, drop: char -> bool) returns (a: nat, b: nat)
    ensures a <= b <= |s| && StripBy(s, drop) == s[a..b]
  {
    var l := TrimLeft(s, drop);
    a := |s| - |l|;
    b := a + |TrimRight(l, drop)|;
    assert l == s[a..];
    assert TrimRight(l, drop) == l[..b - a];
    assert s[a..][..b - a] == s[a..b];
  }

  /** The shape of every slug: at most 90 characters, all in the slug class
      and lower case, no two adjacent hyphens, and no leading hyphen. */
  lemma {:induction false} SlugifyShape(text: string)
    ensures |Slugify(text)| <= MaxSlugLength
    ensures AllOf(Slugify(text), SlugChar)
    ensures NoDoubleHyphen(Slugify(text))
    ensures Slugify(text) == [] || Slugify(text)[0] != '-'
  {
    var col := Collapse(ReplaceRuns(Lower(Strip(text))));
    CleanedShape(text);
    var str := StripBy(col, IsHyphen);
    var a, b := StripByIsSlice(col, IsHyphen);
    SliceShape(col, a, b);
    var r := Slugify(text);
    SliceShape(str, 0, |r|);
    assert r == str[0..|r|];
  }

  /** Before hyphen stripping and truncation: slug characters without
      adjacent hyphens. */
  lemma {:induction false} CleanedShape(text: string)
    ensures AllOf(Collapse(ReplaceRuns(Lower(Strip(text)))), SlugChar)
    ensures NoDoubleHyphen(Collapse(ReplaceRuns(Lower(Strip(text)))))
  {
    LowerIsLowered(Strip(text));
    CleanedShapeOf(Lower(Strip(text)));
  }

  lemma {:induction false} LowerIsLowered(s: string)
    ensures Lowered(Lower(s))
  {
  }

  /** Replacing and collapsing a lower-case string gives slug characters
      without adjacent hyphens. */
  lemma {:induction false} CleanedShapeOf(low: string)
    requires Lowered(low)
    ensures AllOf(Collapse(ReplaceRuns(low)), SlugChar)
    ensures NoDoubleHyphen(Collapse(ReplaceRuns(low)))
  {
    ReplaceRunsChars(low);
    CollapseChars(ReplaceRuns(low));
    CollapseSingle(ReplaceRuns(low));
  }

  /** White space is outside the slug class, so a slug has none at its
      ends. */
  lemma {:induction false} AllowedIsNotSpace(s: string)
    requires AllOf(s, SlugChar)
    ensures Trimmed(s, IsSpace)
  {
  }

  lemma {:induction false} LowerOfSlugChars(s: string)
    requires AllOf(s, SlugChar)
    ensures Lower(s) == s
  {
  }

  lemma {:induction false} ReplaceRunsKeepsSlug(s: string)
    requires AllOf(s, SlugChar)
    ensures ReplaceRuns(s) == s
    decreases |s|
  {
    if s != [] {
      SliceShape(s, 1, |s|);
      ReplaceRunsKeepsSlug(s[1..]);
      assert [s[0]] + s[1..] == s;
    }
  }

  /** Slugifying a slug that does not end in a hyphen gives it back. (A slug
      cut to 90 characters can end in a hyphen, which a second pass would
      strip.) */
  lemma {:induction false} SlugifyIdempotent(text: string)
    requires Slugify(text) == [] || Slugify(text)[|Slugify(text)| - 1] != '-'
    ensures Slugify(Slugify(text)) == Slugify(text)
  {
    SlugifyShape(text);
    SlugIsFixed(Slugify(text));
  }

  /** A string of at most 90 slug characters without adjacent hyphens and
      without a hyphen at either end is its own slug. */
  lemma {:induction false} SlugIsFixed(r: string)
    requires |r| <= MaxSlugLength && AllOf(r, SlugChar) && NoDoubleHyphen(r)
    requires Trimmed(r, IsHyphen)
    ensures Slugify(r) == r
  {
    AllowedIsNotSpace(r);
    StripByOfTrimmed(r, IsSpace);
    LowerOfSlugChars(r);
    ReplaceRunsKeepsSlug(r);
    CollapseKeepsSingle(r);
    StripByOfTrimmed(r, IsHyphen);
    SlugifyOfFixedSteps(r);
  }

  /** `Slugify` leaves `r` alone when each of its steps does. */
  lemma {:induction false} SlugifyOfFixedSteps(r: string)
    requires |r| <= MaxSlugLength
    requires Strip(r) == r && Lower(r) == r && ReplaceRuns(r) == r && Collapse(r) == r
    requires StripBy(r, IsHyphen) == r
    ensures Slugify(r) == r
  {
  }
}
