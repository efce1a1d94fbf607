/** String primitives the poster relies on, stated with Python's meaning:
    `str.strip`, `str.find`, `str.startswith`/`endswith`, `str.lower`,
    `sep.join`, slicing `s[:n]` and `str(n)`. */
module Text {

  datatype Option<T> = None | Some(value: T)

  /** Python's `str.isspace` set: the characters `str.strip()` removes. */
  predicate IsSpace(c: char) {
    ('\t' <= c <= '\r') || ('\U{1c}' <= c <= '\U{1f}') || c == ' '
    || c == '\U{85}' || c == '\U{a0}' || c == '\U{1680}'
    || ('\U{2000}' <= c <= '\U{200a}') || c == '\U{2028}' || c == '\U{2029}'
    || c == '\U{202f}' || c == '\U{205f}' || c == '\U{3000}'
  }

  predicate AllOf(s: string, drop: char -> bool) {
    forall i :: 0 <= i < |s| ==> drop(s[i])
  }

  /** Neither end of `s` is a character that `drop` selects. */
  predicate Trimmed(s: string, drop: char -> bool) {
    s == [] || (!drop(s[0]) && !drop(s[|s| - 1]))
  }

  /** Removes the longest prefix of `drop` characters. */
  function TrimLeft(s: string, drop: char -> bool): (r: string)
    ensures |r| <= |s| && r == s[|s| - |r|..]
    ensures r != [] ==> !drop(r[0])
    decreases |s|
  {
    if s != [] && drop(s[0]) then TrimLeft(s[1..], drop) else s
  }

  /** Removes the longest suffix of `drop` characters. */
  function TrimRight(s: string, drop: char -> bool): (r: string)
    ensures |r| <= |s| && r == s[..|r|]
    ensures r != [] ==> !drop(r[|r| - 1])
    decreases |s|
  {
    if s != [] && drop(s[|s| - 1]) then TrimRight(s[..|s| - 1], drop) else s
  }

  /** Python's `s.strip(chars)` for the character class `drop`. */
  function StripBy(s: string, drop: char -> bool): (r: string)
    ensures Trimmed(r, drop)
    ensures |r| <= |s|
  {
    TrimRight(TrimLeft(s, drop), drop)
  }

  /** Python's `s.strip()`. */
  function Strip(s: string): (r: string)
    ensures Trimmed(r, IsSpace)
  {
    StripBy(s, IsSpace)
  }

  /** Every character `TrimLeft` removes is a `drop` character. */
  lemma {:induction false} TrimLeftDrops(s: string, drop: char -> bool)
    ensures forall i :: 0 <= i < |s| - |TrimLeft(s, drop)| ==> drop(s[i])
    decreases |s|
  {
    if s != [] && drop(s[0]) {
      TrimLeftDrops(s[1..], drop);
      assert forall i :: 1 <= i < |s| ==> s[i] == s[1..][i - 1];
    }
  }

  /** Every character `TrimRight` removes is a `drop` character. */
  lemma {:induction false} TrimRightDrops(s: string, drop: char -> bool)
    ensures forall i :: |TrimRight(s, drop)| <= i < |s| ==> drop(s[i])
    decreases |s|
  {
    if s != [] && drop(s[|s| - 1]) {
      TrimRightDrops(s[..|s| - 1], drop);
      assert forall i :: 0 <= i < |s| - 1 ==> s[i] == s[..|s| - 1][i];
    }
  }

  /** What `TrimLeft` removes is a run of `drop` characters. */
  lemma {:induction false} TrimLeftSplit(s: string, drop: char -> bool) returns (w: string)
    ensures s == w + TrimLeft(s, drop) && AllOf(w, drop)
  {
    var k := |s| - |TrimLeft(s, drop)|;
    w := s[..k];
    TrimLeftDrops(s, drop);
    assert forall i :: 0 <= i < |w| ==> w[i] == s[i];
    assert s == s[..k] + s[k..];
  }

  /** What `TrimRight` removes is a run of `drop` characters. */
  lemma {:induction false} TrimRightSplit(s: string, drop: char -> bool) returns (w: string)
    ensures s == TrimRight(s, drop) + w && AllOf(w, drop)
  {
    var k := |TrimRight(s, drop)|;
    w := s[k..];
    TrimRightDrops(s, drop);
    assert forall i :: 0 <= i < |w| ==> w[i] == s[k + i];
    assert s == s[..k] + s[k..];
  }

  /** Whatever `StripBy` removes is a run of `drop` characters at each end. */
  lemma {:induction false} StripByDecompose(s: string, drop: char -> bool) returns (w1: string, w2: string)
    ensures s == w1 + StripBy(s, drop) + w2
    ensures AllOf(w1, drop) && AllOf(w2, drop)
  {
    var l := TrimLeft(s, drop);
    var r := TrimRight(l, drop);
    w1 := TrimLeftSplit(s, drop);
    w2 := TrimRightSplit(l, drop);
    assert StripBy(s, drop) == r;
    Regroup3(w1, r, w2);
  }

  lemma {:induction false} Regroup3(a: string, b: string, c: string)
    ensures a + (b + c) == a + b + c
  {
  }

  lemma {:induction false} TrimLeftPadded(w: string, x: string, drop: char -> bool)
    requires AllOf(w, drop) && (x == [] || !drop(x[0]))
    ensures TrimLeft(w + x, drop) == x
    decreases |w|
  {
    if w != [] {
      assert (w + x)[1..] == w[1..] + x;
      TrimLeftPadded(w[1..], x, drop);
    } else {
      assert w + x == x;
    }
  }

  lemma {:induction false} TrimRightPadded(x: string, w: string, drop: char -> bool)
    requires AllOf(w, drop) && (x == [] || !drop(x[|x| - 1]))
    ensures TrimRight(x + w, drop) == x
    decreases |w|
  {
    if w != [] {
      var w' := w[..|w| - 1];
      assert (x + w)[..|x + w| - 1] == x + w';
      assert (x + w)[|x + w| - 1] == w[|w| - 1];
      TrimRightPadded(x, w', drop);
    } else {
      assert x + w == x;
    }
  }

  /** Stripping is determined by its result: padding a trimmed string with
      `drop` characters on both sides and stripping gives it back. */
  lemma {:induction false} StripByPadded(w1: string, x: string, w2: string, drop: char -> bool)
    requires AllOf(w1, drop) && AllOf(w2, drop) && Trimmed(x, drop)
    ensures StripBy(w1 + x + w2, drop) == x
  {
    if x == [] {
      assert w1 + x + w2 == w1 + w2;
      TrimLeftPadded(w1 + w2, [], drop);
      assert w1 + w2 + [] == w1 + w2;
      TrimRightPadded([], [], drop);
    } else {
      assert w1 + x + w2 == w1 + (x + w2);
      TrimLeftPadded(w1, x + w2, drop);
      TrimRightPadded(x, w2, drop);
    }
  }

  /** A string with no `drop` character at either end is its own strip. */
  lemma {:induction false} StripByOfTrimmed(s: string, drop: char -> bool)
    requires Trimmed(s, drop)
    ensures StripBy(s, drop) == s
  {
    assert [] + s + [] == s;
    StripByPadded([], s, [], drop);
  }

  /** Stripping twice is stripping once. */
  lemma {:induction false} StripByIdempotent(s: string, drop: char -> bool)
    ensures StripBy(StripBy(s, drop), drop) == StripBy(s, drop)
  {
    StripByOfTrimmed(StripBy(s, drop), drop);
  }

  /** Trimming the right end never cuts into a prefix `q` whose last
      character is kept. */
  lemma {:induction false} TrimRightKeepsPrefix(s: string, q: string, drop: char -> bool)
    requires StartsWith(s, q) && q != [] && !drop(q[|q| - 1])
    ensures StartsWith(TrimRight(s, drop), q)
  {
    var r := TrimRight(s, drop);
    var w := TrimRightSplit(s, drop);
    assert forall k :: |r| <= k < |s| ==> s[k] == w[k - |r|];
    assert s[|q| - 1] == q[|q| - 1];
    assert |q| <= |r|;
    assert r[..|q|] == s[..|q|];
  }

  predicate OccursAt(t: string, p: string, i: int) {
    0 <= i && i + |p| <= |t| && t[i..i + |p|] == p
  }

  /** `i` is the first position at or after `from` where `p` occurs in `t`. */
  ghost predicate IsFirst(t: string, p: string, from: int, i: int) {
    from <= i && OccursAt(t, p, i) && forall j :: from <= j < i ==> !OccursAt(t, p, j)
  }

  /** `p` occurs nowhere in `t` at or after `from`. */
  ghost predicate Absent(t: string, p: string, from: int) {
    forall j :: from <= j ==> !OccursAt(t, p, j)
  }

  /** Python's `t.find(p, from)`, with `None` for -1. */
  function Find(t: string, p: string, from: nat): (r: Option<nat>)
    ensures r.Some? ==> from <= r.value && r.value + |p| <= |t|
    decreases |t| - from
  {
    if from + |p| > |t| then None
    else if t[from..from + |p|] == p then Some(from)
    else Find(t, p, from + 1)
  }

  /** `Find` answers with the first occurrence at or after `from`, and with
      `None` exactly when there is none. */
  lemma {:induction false} FindSound(t: string, p: string, from: nat)
    ensures Find(t, p, from).Some? ==> IsFirst(t, p, from, Find(t, p, from).value)
    ensures Find(t, p, from).None? ==> Absent(t, p, from)
    decreases |t| - from
  {
    if from + |p| > |t| {
    } else if t[from..from + |p|] == p {
    } else {
      FindSound(t, p, from + 1);
    }
  }

  /** `Find` returns the first occurrence whenever there is one... */
  lemma {:induction false} FindFirst(t: string, p: string, from: nat, i: nat)
    requires IsFirst(t, p, from, i)
    ensures Find(t, p, from) == Some(i)
  {
    FindSound(t, p, from);
  }

  /** ...and nothing when there is none. */
  lemma {:induction false} FindAbsent(t: string, p: string, from: nat)
    requires Absent(t, p, from)
    ensures Find(t, p, from) == None
  {
    FindSound(t, p, from);
  }

  /** Python's `p in t`. */
  predicate Contains(t: string, p: string) {
    Find(t, p, 0).Some?
  }

  predicate StartsWith(s: string, p: string) {
    |p| <= |s| && s[..|p|] == p
  }

  /** A string that starts with `p + q` starts with `p`. */
  lemma {:induction false} StartsWithLonger(s: string, p: string, q: string)
    ensures StartsWith(s, p + q) ==> StartsWith(s, p)
  {
    if StartsWith(s, p + q) {
      assert s[..|p|] == (p + q)[..|p|];
    }
  }

  predicate EndsWith(s: string, p: string) {
    |p| <= |s| && s[|s| - |p|..] == p
  }

  /** `x` occurs in `a + x + b` right after `a`. */
  lemma {:induction false} OccursInMiddle(a: string, x: string, b: string)
    ensures OccursAt(a + x + b, x, |a|)
  {
    assert (a + x + b)[|a|..|a| + |x|] == x;
  }

  lemma {:induction false} StartsWithConcat(a: string, b: string)
    ensures StartsWith(a + b, a)
  {
    assert (a + b)[..|a|] == a;
  }

  lemma {:induction false} EndsWithConcat(a: string, b: string)
    ensures EndsWith(a + b, b)
  {
    assert (a + b)[|a + b| - |b|..] == b;
  }

  /** Python's `str.lower()` on ASCII letters. */
  function LowerChar(c: char): char {
    if 'A' <= c <= 'Z' then (c as int + 32) as char else c
  }

  function Lower(s: string): (r: string)
    ensures |r| == |s|
    ensures forall i :: 0 <= i < |s| ==> r[i] == LowerChar(s[i])
  {
    seq(|s|, i requires 0 <= i < |s| => LowerChar(s[i]))
  }

  /** Python's slice `s[:n]`, including a negative `n`, which counts from the end. */
  function PyPrefix<T>(s: seq<T>, n: int): (r: seq<T>)
    ensures r <= s
    ensures 0 <= n ==> |r| == if n < |s| then n else |s|
    ensures n < 0 ==> |r| == if |s| + n > 0 then |s| + n else 0
  {
    if n >= |s| then s
    else if n >= 0 then s[..n]
    else if |s| + n > 0 then s[..|s| + n]
    else []
  }

  /** Python's `sep.join(xs)`. */
  function Join(sep: string, xs: seq<string>): (r: string)
    decreases |xs|
  {
    if xs == [] then ""
    else if |xs| == 1 then xs[0]
    else xs[0] + sep + Join(sep, xs[1..])
  }

  /** Python's `s.split(c)` for a one-character separator. */
  function Split(s: string, c: char): (r: seq<string>)
    ensures |r| >= 1
    decreases |s|
  {
    if s == [] then [""]
    else if s[0] == c then [""] + Split(s[1..], c)
    else var rest := Split(s[1..], c); [[s[0]] + rest[0]] + rest[1..]
  }

  lemma {:induction false} SplitNoSeparator(x: string, c: char)
    requires c !in x
    ensures Split(x, c) == [x]
    decreases |x|
  {
    if x != [] {
      SplitNoSeparator(x[1..], c);
      assert [x[0]] + x[1..] == x;
    }
  }

  lemma {:induction false} SplitAppend(x: string, c: char, y: string)
    requires c !in x
    ensures Split(x + [c] + y, c) == [x] + Split(y, c)
    decreases |x|
  {
    if x == [] {
      assert x + [c] + y == [c] + y;
      assert ([c] + y)[1..] == y;
    } else {
      assert (x + [c] + y)[1..] == x[1..] + [c] + y;
      SplitAppend(x[1..], c, y);
      assert [x[0]] + x[1..] == x;
    }
  }

  /** Joining non-empty lists on a character none of their items contains
      can be undone by splitting on that character. */
  lemma {:induction false} SplitJoin(xs: seq<string>, c: char)
    requires xs != []
    requires forall i :: 0 <= i < |xs| ==> c !in xs[i]
    ensures Split(Join([c], xs), c) == xs
    decreases |xs|
  {
    if |xs| == 1 {
      SplitNoSeparator(xs[0], c);
    } else {
      SplitJoin(xs[1..], c);
      SplitAppend(xs[0], c, Join([c], xs[1..]));
      assert [xs[0]] + xs[1..] == xs;
    }
  }

  function DigitChar(d: nat): char
    requires d < 10
  {
    ('0' as int + d) as char
  }

  /** Python's `str(n)` for a natural number. */
  function NatToString(n: nat): (r: string)
    ensures |r| >= 1
    ensures forall i :: 0 <= i < |r| ==> '0' <= r[i] <= '9'
    ensures n < 10 ==> r == [DigitChar(n)]
  {
    if n < 10 then [DigitChar(n)] else NatToString(n / 10) + [DigitChar(n % 10)]
  }
}
