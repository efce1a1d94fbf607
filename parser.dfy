/** The marker-based reader of the generated text: the four fields
    `SEO_TITLE:`, `SEO_DESC:`, `SEO_KEYWORD:` and `ARTICLE:`, and the
    removal of Markdown code fences that precedes it. */
module ResponseParser {
  import opened Text

  const TitleMarker: string := "SEO_TITLE:"
  const DescMarker: string := "SEO_DESC:"
  const KeywordMarker: string := "SEO_KEYWORD:"
  const ArticleMarker: string := "ARTICLE:"

  /** The fields read from one response, each already stripped. */
  datatype Parsed = Parsed(title: string, desc: string, keyword: string, article: string)

  /** Python's `text[start_idx:end_idx].strip()` pieces of `extract_between`:
      the text after the first `startMarker`, up to the first `endMarker`
      after it or to the end; "" without `startMarker`. */
  function ExtractBetween(text: string, startMarker: string, endMarker: string): (r: string)
    ensures Trimmed(r, IsSpace)
  {
    var piece := PieceBetween(text, startMarker, endMarker);
    if piece.None? then "" else Strip(piece.value)
  }

  /** The unstripped piece `ExtractBetween` reads, when the start marker
      occurs. */
  function PieceBetween(text: string, startMarker: string, endMarker: string): Option<string> {
    var start := Find(text, startMarker, 0);
    if start.None? then None
    else
      var s := start.value + |startMarker|;
      var end := Find(text, endMarker, s);
      if end.None? then Some(text[s..]) else Some(text[s..end.value])
  }

  /** The text after the first `marker`, stripped; "" without it. */
  function ExtractAfter(text: string, marker: string): (r: string)
    ensures Trimmed(r, IsSpace)
  {
    var at := Find(text, marker, 0);
    if at.None? then "" else Strip(text[at.value + |marker|..])
  }

  // The two lemmas below read the extractors off `Find`'s answers; the
  // lemmas after them state the same in terms of first occurrences.

  lemma {:induction false} PieceFoundBoth(text: string, startMarker: string, endMarker: string, i: nat, j: nat)
    requires Find(text, startMarker, 0) == Some(i)
    requires Find(text, endMarker, i + |startMarker|) == Some(j)
    ensures i + |startMarker| <= j <= |text|
    ensures PieceBetween(text, startMarker, endMarker) == Some(text[i + |startMarker|..j])
  {
  }

  lemma {:induction false} PieceFoundNoEnd(text: string, startMarker: string, endMarker: string, i: nat)
    requires Find(text, startMarker, 0) == Some(i)
    requires Find(text, endMarker, i + |startMarker|) == None
    ensures i + |startMarker| <= |text|
    ensures PieceBetween(text, startMarker, endMarker) == Some(text[i + |startMarker|..])
  {
  }

  lemma {:induction false} BetweenFoundBoth(text: string, startMarker: string, endMarker: string, i: nat, j: nat)
    requires Find(text, startMarker, 0) == Some(i)
    requires Find(text, endMarker, i + |startMarker|) == Some(j)
    ensures i + |startMarker| <= j <= |text|
    ensures ExtractBetween(text, startMarker, endMarker) == Strip(text[i + |startMarker|..j])
  {
    PieceFoundBoth(text, startMarker, endMarker, i, j);
  }

  lemma {:induction false} BetweenFoundNoEnd(text: string, startMarker: string, endMarker: string, i: nat)
    requires Find(text, startMarker, 0) == Some(i)
    requires Find(text, endMarker, i + |startMarker|) == None
    ensures i + |startMarker| <= |text|
    ensures ExtractBetween(text, startMarker, endMarker) == Strip(text[i + |startMarker|..])
  {
    PieceFoundNoEnd(text, startMarker, endMarker, i);
  }

  lemma {:induction false} AfterFound(text: string, marker: string, i: nat)
    requires Find(text, marker, 0) == Some(i)
    ensures ExtractAfter(text, marker) == Strip(text[i + |marker|..])
  {
  }

  /** `ExtractBetween` gives "" when the start marker does not occur. */
  lemma {:induction false} BetweenWithoutStart(text: string, startMarker: string, endMarker: string)
    requires Absent(text, startMarker, 0)
    ensures ExtractBetween(text, startMarker, endMarker) == ""
  {
    FindAbsent(text, startMarker, 0);
  }

  /** With a start marker first at `i` and no end marker after it,
      `ExtractBetween` gives the stripped rest of the text. */
  lemma {:induction false} BetweenWithoutEnd(text: string, startMarker: string, endMarker: string, i: nat)
    requires IsFirst(text, startMarker, 0, i)
    requires Absent(text, endMarker, i + |startMarker|)
    ensures ExtractBetween(text, startMarker, endMarker) == Strip(text[i + |startMarker|..])
  {
    FindFirst(text, startMarker, 0, i);
    FindAbsent(text, endMarker, i + |startMarker|);
    BetweenFoundNoEnd(text, startMarker, endMarker, i);
  }

  /** With a start marker first at `i` and the first end marker after it
      at `j`, `ExtractBetween` gives the stripped text between the two. */
  lemma {:induction false} BetweenBothMarkers(text: string, startMarker: string, endMarker: string, i: nat, j: nat)
    requires IsFirst(text, startMarker, 0, i)
    requires IsFirst(text, endMarker, i + |startMarker|, j)
    ensures ExtractBetween(text, startMarker, endMarker) == Strip(text[i + |startMarker|..j])
  {
    FindFirst(text, startMarker, 0, i);
    FindFirst(text, endMarker, i + |startMarker|, j);
    BetweenFoundBoth(text, startMarker, endMarker, i, j);
  }

  /** `ExtractAfter` gives "" without the marker, and otherwise the
      stripped text after its first occurrence. */
  lemma {:induction false} AfterWithoutMarker(text: string, marker: string)
    requires Absent(text, marker, 0)
    ensures ExtractAfter(text, marker) == ""
  {
    FindAbsent(text, marker, 0);
  }

  lemma {:induction false} AfterFirstMarker(text: string, marker: string, i: nat)
    requires IsFirst(text, marker, 0, i)
    ensures ExtractAfter(text, marker) == Strip(text[i + |marker|..])
  {
    FindFirst(text, marker, 0, i);
    AfterFound(text, marker, i);
  }

  /** One header field as the code reads it: between its marker and the
      next one, and, when that is empty, everything after its marker. */
  function Field(text: string, marker: string, next: string): (r: string)
    ensures Trimmed(r, IsSpace)
  {
    var between := ExtractBetween(text, marker, next);
    if between != "" then between else ExtractAfter(text, marker)
  }

  // The readers below take the four markers as parameters `tm`, `dm`,
  // `km` and `am` (title, description, keyword, article), in the order
  // the prompt asks for them; the response's own markers are the constants
  // above.

  /** The reader of `parse_gemini_output`, the fallback included; every
      field it returns is stripped. */
  function ReadAsWritten(text: string, tm: string, dm: string, km: string, am: string): (p: Parsed)
    ensures Trimmed(p.title, IsSpace) && Trimmed(p.desc, IsSpace)
    ensures Trimmed(p.keyword, IsSpace) && Trimmed(p.article, IsSpace)
  {
    Parsed(Field(text, tm, dm), Field(text, dm, km), Field(text, km, am), ExtractAfter(text, am))
  }

  /** The same reader with the fallback removed: each header field is only
      the text between its marker and the next. */
  function ReadIntended(text: string, tm: string, dm: string, km: string, am: string): (p: Parsed)
    ensures Trimmed(p.title, IsSpace) && Trimmed(p.desc, IsSpace)
    ensures Trimmed(p.keyword, IsSpace) && Trimmed(p.article, IsSpace)
  {
    Parsed(
      ExtractBetween(text, tm, dm),
      ExtractBetween(text, dm, km),
      ExtractBetween(text, km, am),
      ExtractAfter(text, am))
  }

  /** `parse_gemini_output` as written. */
  function ParseOutput(text: string): Parsed {
    ReadAsWritten(text, TitleMarker, DescMarker, KeywordMarker, ArticleMarker)
  }

  /** The corrected reader (see the finding in README). */
  function ParseIntended(text: string): Parsed {
    ReadIntended(text, TitleMarker, DescMarker, KeywordMarker, ArticleMarker)
  }

  /** Stripping the fields again changes nothing: the final `.strip()`
      calls of `parse_gemini_output` are no-ops. */
  lemma {:induction false} FieldsStayStripped(text: string)
    ensures Strip(ParseOutput(text).title) == ParseOutput(text).title
    ensures Strip(ParseOutput(text).desc) == ParseOutput(text).desc
    ensures Strip(ParseOutput(text).keyword) == ParseOutput(text).keyword
    ensures Strip(ParseOutput(text).article) == ParseOutput(text).article
  {
    var p := ParseOutput(text);
    StripByOfTrimmed(p.title, IsSpace);
    StripByOfTrimmed(p.desc, IsSpace);
    StripByOfTrimmed(p.keyword, IsSpace);
    StripByOfTrimmed(p.article, IsSpace);
  }

  /** A first occurrence from 0 is also the first occurrence from any
      earlier starting point. */
  lemma {:induction false} FirstFromLater(t: string, p: string, i: int, from: int)
    requires IsFirst(t, p, 0, i) && 0 <= from <= i
    ensures IsFirst(t, p, from, i)
  {
  }

  /** The four markers first occur in `text`, in order, at `i1` .. `i4`. */
  ghost predicate MarkedAt(text: string, tm: string, dm: string, km: string, am: string,
                           i1: nat, i2: nat, i3: nat, i4: nat) {
    && IsFirst(text, tm, 0, i1)
    && IsFirst(text, dm, 0, i2) && i1 + |tm| <= i2
    && IsFirst(text, km, 0, i3) && i2 + |dm| <= i3
    && IsFirst(text, am, 0, i4) && i3 + |km| <= i4
  }

  /** A text whose markers first occur in order is read by the corrected
      reader as the stripped pieces between consecutive markers, and the
      article as everything after the article marker. */
  lemma {:induction false} IntendedReadsMarkedText(text: string, tm: string, dm: string, km: string, am: string,
                                                   i1: nat, i2: nat, i3: nat, i4: nat)
    requires MarkedAt(text, tm, dm, km, am, i1, i2, i3, i4)
    ensures ReadIntended(text, tm, dm, km, am) == Parsed(
      Strip(text[i1 + |tm|..i2]),
      Strip(text[i2 + |dm|..i3]),
      Strip(text[i3 + |km|..i4]),
      Strip(text[i4 + |am|..]))
  {
    FieldBetweenMarkers(text, tm, dm, i1, i2);
    FieldBetweenMarkers(text, dm, km, i2, i3);
    FieldBetweenMarkers(text, km, am, i3, i4);
    AfterFirstMarker(text, am, i4);
  }

  /** The same for the response's own markers. */
  lemma {:induction false} ParseReadsMarkedText(text: string, i1: nat, i2: nat, i3: nat, i4: nat)
    requires MarkedAt(text, TitleMarker, DescMarker, KeywordMarker, ArticleMarker, i1, i2, i3, i4)
    ensures ParseIntended(text).title == Strip(text[i1 + |TitleMarker|..i2])
    ensures ParseIntended(text).desc == Strip(text[i2 + |DescMarker|..i3])
    ensures ParseIntended(text).keyword == Strip(text[i3 + |KeywordMarker|..i4])
    ensures ParseIntended(text).article == Strip(text[i4 + |ArticleMarker|..])
  {
    IntendedReadsMarkedText(text, TitleMarker, DescMarker, KeywordMarker, ArticleMarker, i1, i2, i3, i4);
  }

  /** The code as written reads the title and the article of such a text
      the same way as long as the title piece is not empty. */
  lemma {:induction false} AsWrittenReadsMarkedTitle(text: string, tm: string, dm: string, km: string, am: string,
                                                     i1: nat, i2: nat, i3: nat, i4: nat)
    requires MarkedAt(text, tm, dm, km, am, i1, i2, i3, i4)
    requires Strip(text[i1 + |tm|..i2]) != ""
    ensures ReadAsWritten(text, tm, dm, km, am).title == Strip(text[i1 + |tm|..i2])
    ensures ReadAsWritten(text, tm, dm, km, am).article == Strip(text[i4 + |am|..])
  {
    FieldBetweenMarkers(text, tm, dm, i1, i2);
    FilledField(text, tm, dm);
    AfterFirstMarker(text, am, i4);
  }

  /** A field whose piece is filled is that piece. */
  lemma {:induction false} FilledField(text: string, marker: string, next: string)
    requires ExtractBetween(text, marker, next) != ""
    ensures Field(text, marker, next) == ExtractBetween(text, marker, next)
  {
  }

  /** The same for the response's own markers. */
  lemma {:induction false} OutputReadsMarkedText(text: string, i1: nat, i2: nat, i3: nat, i4: nat)
    requires MarkedAt(text, TitleMarker, DescMarker, KeywordMarker, ArticleMarker, i1, i2, i3, i4)
    requires Strip(text[i1 + |TitleMarker|..i2]) != ""
    ensures ParseOutput(text).title == Strip(text[i1 + |TitleMarker|..i2])
    ensures ParseOutput(text).article == Strip(text[i4 + |ArticleMarker|..])
  {
    AsWrittenReadsMarkedTitle(text, TitleMarker, DescMarker, KeywordMarker, ArticleMarker, i1, i2, i3, i4);
  }

  /** One field of a text whose markers first occur in order. */
  lemma {:induction false} FieldBetweenMarkers(text: string, marker: string, next: string, i: nat, j: nat)
    requires IsFirst(text, marker, 0, i)
    requires IsFirst(text, next, 0, j) && i + |marker| <= j
    ensures ExtractBetween(text, marker, next) == Strip(text[i + |marker|..j])
  {
    FirstFromLater(text, next, j, i + |marker|);
    BetweenBothMarkers(text, marker, next, i, j);
  }

  /** The code as written reads such a text the same way as long as no
      header piece is empty. */
  lemma {:induction false} AsWrittenReadsFilledText(text: string, tm: string, dm: string, km: string, am: string,
                                                    i1: nat, i2: nat, i3: nat, i4: nat)
    requires MarkedAt(text, tm, dm, km, am, i1, i2, i3, i4)
    requires Strip(text[i1 + |tm|..i2]) != ""
    requires Strip(text[i2 + |dm|..i3]) != ""
    requires Strip(text[i3 + |km|..i4]) != ""
    ensures ReadAsWritten(text, tm, dm, km, am) == ReadIntended(text, tm, dm, km, am)
  {
    IntendedReadsMarkedText(text, tm, dm, km, am, i1, i2, i3, i4);
    ReadersAgreeOnFilledFields(text, tm, dm, km, am);
  }

  /** The two readers differ only on a header field that is empty. */
  lemma {:induction false} ReadersAgreeOnFilledFields(text: string, tm: string, dm: string, km: string, am: string)
    requires ReadIntended(text, tm, dm, km, am).title != ""
    requires ReadIntended(text, tm, dm, km, am).desc != ""
    requires ReadIntended(text, tm, dm, km, am).keyword != ""
    ensures ReadAsWritten(text, tm, dm, km, am) == ReadIntended(text, tm, dm, km, am)
  {
  }

  /** As written: a field whose marker is followed only by white space up
      to the next marker is read as everything after its marker, so it
      starts with the next marker (and holds the rest of the response). */
  lemma {:induction false} EmptyFieldSwallowsRest(text: string, marker: string, next: string, i: nat, j: nat)
    requires next != [] && !IsSpace(next[0]) && !IsSpace(next[|next| - 1])
    requires IsFirst(text, marker, 0, i)
    requires IsFirst(text, next, i + |marker|, j)
    requires AllOf(text[i + |marker|..j], IsSpace)
    ensures Field(text, marker, next) == Strip(text[j..])
    ensures StartsWith(Field(text, marker, next), next)
  {
    var gap := text[i + |marker|..j];
    var rest := text[j..];
    BetweenEmptyGap(text, marker, next, i, j);
    FindFirst(text, marker, 0, i);
    AfterGapThenRest(text, marker, i, j);
    OccursStartsWith(text, next, j);
    StripOfGapThenWord(gap, rest, next);
  }

  /** The piece between the markers is white space only, so it reads as "". */
  lemma {:induction false} BetweenEmptyGap(text: string, marker: string, next: string, i: nat, j: nat)
    requires IsFirst(text, marker, 0, i)
    requires IsFirst(text, next, i + |marker|, j)
    requires AllOf(text[i + |marker|..j], IsSpace)
    ensures ExtractBetween(text, marker, next) == ""
  {
    BetweenBothMarkers(text, marker, next, i, j);
    EmptyGap(text[i + |marker|..j]);
  }

  /** What follows the marker, cut at `j`. */
  lemma {:induction false} AfterGapThenRest(text: string, marker: string, i: nat, j: nat)
    requires Find(text, marker, 0) == Some(i)
    requires i + |marker| <= j <= |text|
    ensures ExtractAfter(text, marker) == Strip(text[i + |marker|..j] + text[j..])
  {
    AfterFound(text, marker, i);
    SplitSlice(text, i + |marker|, j);
  }

  lemma {:induction false} SplitSlice(t: string, k: nat, j: nat)
    requires k <= j <= |t|
    ensures t[k..] == t[k..j] + t[j..]
  {
  }

  /** The text from an occurrence of `p` on starts with `p`. */
  lemma {:induction false} OccursStartsWith(t: string, p: string, j: int)
    requires OccursAt(t, p, j)
    ensures StartsWith(t[j..], p)
  {
    assert t[j..][..|p|] == t[j..j + |p|];
  }

  /** A string of white space strips to "". */
  lemma {:induction false} EmptyGap(gap: string)
    requires AllOf(gap, IsSpace)
    ensures Strip(gap) == ""
  {
    assert [] + [] + gap == gap;
    StripByPadded([], [], gap, IsSpace);
  }

  /** White space followed by a text that starts with the word `next`
      strips to something that still starts with `next`. */
  lemma {:induction false} StripOfGapThenWord(gap: string, rest: string, next: string)
    requires AllOf(gap, IsSpace)
    requires next != [] && !IsSpace(next[0]) && !IsSpace(next[|next| - 1])
    requires StartsWith(rest, next)
    ensures Strip(gap + rest) == Strip(rest)
    ensures StartsWith(Strip(rest), next)
  {
    assert rest[0] == next[0];
    TrimLeftPadded(gap, rest, IsSpace);
    assert [] + rest == rest;
    TrimLeftPadded([], rest, IsSpace);
    TrimRightKeepsPrefix(rest, next, IsSpace);
  }

  /** Concretely: an empty description makes the code as written take the
      keyword marker, the keyword and the whole article as description. */
  lemma {:induction false} EmptyDescriptionSwallowsRest(text: string, i: nat, j: nat)
    requires IsFirst(text, DescMarker, 0, i)
    requires IsFirst(text, KeywordMarker, i + |DescMarker|, j)
    requires AllOf(text[i + |DescMarker|..j], IsSpace)
    ensures StartsWith(ParseOutput(text).desc, KeywordMarker)
  {
    EmptyFieldSwallowsRest(text, DescMarker, KeywordMarker, i, j);
  }

  /** Corrected: the same text gives an empty description, so the default
      description applies. */
  lemma {:induction false} EmptyDescriptionStaysEmpty(text: string, i: nat, j: nat)
    requires IsFirst(text, DescMarker, 0, i)
    requires IsFirst(text, KeywordMarker, i + |DescMarker|, j)
    requires AllOf(text[i + |DescMarker|..j], IsSpace)
    ensures ParseIntended(text).desc == ""
  {
    BetweenBothMarkers(text, DescMarker, KeywordMarker, i, j);
    EmptyGap(text[i + |DescMarker|..j]);
  }

  /** `c` without a leading `p`, when it has one. */
  function DropPrefix(c: string, p: string): (r: string)
    ensures StartsWith(c, p) ==> c == p + r
    ensures !StartsWith(c, p) ==> r == c
  {
    if StartsWith(c, p) then c[|p|..] else c
  }

  /** `c` without a trailing `p`, when it has one. */
  function DropSuffix(c: string, p: string): (r: string)
    ensures EndsWith(c, p) ==> c == r + p
    ensures !EndsWith(c, p) ==> r == c
  {
    if EndsWith(c, p) then c[..|c| - |p|] else c
  }

  const JsonFence: string := "```json"
  const Fence: string := "```"

  /** The fence removal in front of the reader: strip, drop a leading
      "```json", then a leading "```", then a trailing "```", strip again. */
  function StripFences(text: string): (r: string)
    ensures Trimmed(r, IsSpace)
  {
    Strip(Unfence(Strip(text)))
  }

  /** The three fence removals between the two strips. */
  function Unfence(c: string): (r: string)
    ensures |r| <= |c|
  {
    DropSuffix(DropPrefix(DropPrefix(c, JsonFence), Fence), Fence)
  }

  /** A response with no fence at either end only loses its surrounding
      white space. */
  lemma {:induction false} NoFenceUnchanged(text: string)
    requires !StartsWith(Strip(text), Fence) && !EndsWith(Strip(text), Fence)
    ensures StripFences(text) == Strip(text)
  {
    StartsWithLonger(Strip(text), Fence, "json");
    assert Fence + "json" == JsonFence;
    StripByIdempotent(text, IsSpace);
  }

  /** `p + x` does start with `p`, and dropping it leaves `x`. */
  lemma {:induction false} DropPrefixOf(p: string, x: string)
    ensures DropPrefix(p + x, p) == x
  {
    assert (p + x)[..|p|] == p;
  }

  lemma {:induction false} DropSuffixOf(x: string, p: string)
    ensures DropSuffix(x + p, p) == x
  {
    assert (x + p)[|x + p| - |p|..] == p;
  }

  /** A string whose first character differs from `p`'s first has no
      prefix `p`. */
  lemma {:induction false} DropPrefixMismatch(c: string, p: string)
    requires c != [] && p != [] && c[0] != p[0]
    ensures DropPrefix(c, p) == c
  {
  }

  /** A fenced text with white space around it strips to the fenced text. */
  lemma {:induction false} StripAroundFence(w1: string, body: string, w2: string, open: string)
    requires AllOf(w1, IsSpace) && AllOf(w2, IsSpace)
    requires open != [] && open[0] == '`'
    ensures Strip(w1 + (open + body + Fence) + w2) == open + body + Fence
  {
    var fenced := open + body + Fence;
    assert fenced[0] == '`' && fenced[|fenced| - 1] == '`';
    StripByPadded(w1, fenced, w2, IsSpace);
  }

  lemma {:induction false} UnfenceJson(body: string)
    requires body != [] && body[0] != '`'
    ensures Unfence(JsonFence + body + Fence) == body
  {
    assert JsonFence + body + Fence == JsonFence + (body + Fence);
    DropPrefixOf(JsonFence, body + Fence);
    DropPrefixMismatch(body + Fence, Fence);
    DropSuffixOf(body, Fence);
  }

  lemma {:induction false} UnfencePlain(body: string)
    requires body != [] && body[0] != '`' && body[0] != 'j'
    ensures Unfence(Fence + body + Fence) == body
  {
    var fenced := Fence + body + Fence;
    assert !StartsWith(fenced, JsonFence) by {
      assert fenced[3] == body[0];
      assert JsonFence[3] == 'j';
    }
    assert fenced == Fence + (body + Fence);
    DropPrefixOf(Fence, body + Fence);
    DropSuffixOf(body, Fence);
  }

  /** A body wrapped in a "```json" fence, with any white space around, is
      unwrapped to the stripped body. */
  lemma {:induction false} JsonFenceUnwrapped(w1: string, body: string, w2: string)
    requires AllOf(w1, IsSpace) && AllOf(w2, IsSpace)
    requires body != [] && body[0] != '`'
    ensures StripFences(w1 + JsonFence + body + Fence + w2) == Strip(body)
  {
    assert w1 + JsonFence + body + Fence + w2 == w1 + (JsonFence + body + Fence) + w2;
    StripAroundFence(w1, body, w2, JsonFence);
    UnfenceJson(body);
  }

  /** The same for a plain "```" fence around a body that starts with
      neither a backtick nor "j". */
  lemma {:induction false} PlainFenceUnwrapped(w1: string, body: string, w2: string)
    requires AllOf(w1, IsSpace) && AllOf(w2, IsSpace)
    requires body != [] && body[0] != '`' && body[0] != 'j'
    ensures StripFences(w1 + Fence + body + Fence + w2) == Strip(body)
  {
    assert w1 + Fence + body + Fence + w2 == w1 + (Fence + body + Fence) + w2;
    StripAroundFence(w1, body, w2, Fence);
    UnfencePlain(body);
  }

  /** Only one leading "```json" is removed: a second one behind white
      space survives the final strip. */
  lemma {:induction false} SecondFenceSurvives(w: string, x: string)
    requires w != [] && AllOf(w, IsSpace)
    requires x != [] && !IsSpace(x[|x| - 1]) && x[|x| - 1] != '`'
    ensures StartsWith(StripFences(JsonFence + w + JsonFence + x), JsonFence)
  {
    var t := JsonFence + w + JsonFence + x;
    var u := w + JsonFence + x;
    var v := JsonFence + x;
    assert t == JsonFence + u && u == w + v + [];
    assert t[0] == '`' && t[|t| - 1] == x[|x| - 1];
    StripByOfTrimmed(t, IsSpace);
    UnfenceSecond(w, x);
    assert v[0] == '`' && v[|v| - 1] == x[|x| - 1];
    StripByPadded(w, v, [], IsSpace);
    StartsWithConcat(JsonFence, x);
  }

  /** The removals take off the first "```json" and nothing else. */
  lemma {:induction false} UnfenceSecond(w: string, x: string)
    requires w != [] && IsSpace(w[0])
    requires x != [] && x[|x| - 1] != '`'
    ensures Unfence(JsonFence + w + JsonFence + x) == w + JsonFence + x
  {
    var u := w + JsonFence + x;
    assert JsonFence + w + JsonFence + x == JsonFence + u;
    DropPrefixOf(JsonFence, u);
    assert u[0] == w[0];
    DropPrefixMismatch(u, Fence);
    assert u[|u| - 1] == x[|x| - 1];
  }
}
