/** `gemini_generate_article` after the request: reading the text out of
    the reply envelope, removing code fences, reading the four fields,
    rejecting a reply without title or article, filling the default
    description and focus keyword, and assembling the post body. */
module Generator {
  import opened Text
  import opened ResponseParser
  import opened Html

  /** The settings the generator reads from the environment. */
  datatype Settings = Settings(
    brand: string,
    siteName: string,
    brandSuffix: string,
    tags: seq<string>,
    defaultKeywords: seq<string>)

  /** The object the generator returns. */
  datatype Article = Article(
    seoTitle: string,
    metaDesc: string,
    content: string,
    tags: seq<string>,
    references: seq<string>,
    focusKeyword: string)

  /** One element of `parts`; `text` is absent when the key is missing. */
  datatype Part = Part(text: Option<string>)

  /** One element of `candidates`; `parts` is absent when the candidate has
      no `content` or its content has no `parts`. */
  datatype Candidate = Candidate(parts: Option<seq<Part>>)

  /** The reply to the generation request: `Failed` when the request raised
      (timeout, connection or encoding error), otherwise its status code and
      the `candidates` list (absent when the key is missing). */
  datatype GenReply = Failed | Reply(status: int, candidates: Option<seq<Candidate>>)

  const DescriptionFiller: string := " 健康懶人包 - "
  const MaxDefaultKeywords: nat := 3

  /** The text of the reply: the first part of the first candidate, or
      `None` on each of the error paths. */
  function ReplyText(reply: GenReply): (r: Option<string>)
    ensures r.Some? ==> reply.Reply? && reply.status == 200
  {
    if reply.Failed? || reply.status != 200 then None
    else if reply.candidates.None? || reply.candidates.value == [] then None
    else
      var parts := reply.candidates.value[0].parts;
      if parts.None? || parts.value == [] then None
      else parts.value[0].text
  }

  /** The description used when the reply has none. */
  function DefaultDescription(keyword: string, suffix: string): string {
    keyword + DescriptionFiller + suffix
  }

  /** The focus keyword used when the reply has none: the first three
      default keywords joined by commas. */
  function DefaultFocusKeyword(defaults: seq<string>): string {
    Join([','], PyPrefix(defaults, MaxDefaultKeywords))
  }

  /** Validation and defaults applied to the parsed fields. */
  function Finish(s: Settings, keyword: string, refs: seq<string>, p: Parsed): Option<Article> {
    if p.title == "" || p.article == "" then None
    else
      var desc := if p.desc != "" then p.desc else DefaultDescription(keyword, s.brandSuffix);
      var focus := if p.keyword != "" then p.keyword else DefaultFocusKeyword(s.defaultKeywords);
      Some(Article(p.title, desc, AssembleHtml(p.article, refs, s.brand, s.siteName, s.tags),
                   s.defaultKeywords, refs, focus))
  }

  /** `gemini_generate_article` after the request: the fields are read by
      `parse_gemini_output` as written. */
  function GenerateArticle(s: Settings, keyword: string, refs: seq<string>, reply: GenReply): Option<Article> {
    var text := ReplyText(reply);
    if text.None? then None else Finish(s, keyword, refs, ParseOutput(StripFences(text.value)))
  }

  /** The same generator with the corrected field reader (see the finding
      in README). */
  function GenerateIntended(s: Settings, keyword: string, refs: seq<string>, reply: GenReply): Option<Article> {
    var text := ReplyText(reply);
    if text.None? then None else Finish(s, keyword, refs, ParseIntended(StripFences(text.value)))
  }

  /** A reply is rejected exactly when its text is missing or its title or
      article, as read by the code, is empty. */
  lemma {:induction false} GenerateRejects(s: Settings, keyword: string, refs: seq<string>, reply: GenReply)
    ensures GenerateArticle(s, keyword, refs, reply).None? <==>
      ReplyText(reply).None?
      || ParseOutput(StripFences(ReplyText(reply).value)).title == ""
      || ParseOutput(StripFences(ReplyText(reply).value)).article == ""
  {
  }

  /** The corrected generator rejects a reply on the same condition, with
      the corrected reader. */
  lemma {:induction false} IntendedRejects(s: Settings, keyword: string, refs: seq<string>, reply: GenReply)
    ensures GenerateIntended(s, keyword, refs, reply).None? <==>
      ReplyText(reply).None?
      || ParseIntended(StripFences(ReplyText(reply).value)).title == ""
      || ParseIntended(StripFences(ReplyText(reply).value)).article == ""
  {
  }

  /** The two generators agree on every reply whose header fields are all
      filled. */
  lemma {:induction false} GeneratorsAgreeOnFilledFields(s: Settings, keyword: string, refs: seq<string>, reply: GenReply)
    requires ReplyText(reply).Some?
    requires var p := ParseIntended(StripFences(ReplyText(reply).value));
      p.title != "" && p.desc != "" && p.keyword != ""
    ensures GenerateArticle(s, keyword, refs, reply) == GenerateIntended(s, keyword, refs, reply)
  {
    var t := StripFences(ReplyText(reply).value);
    ReadersAgreeOnFilledFields(t, TitleMarker, DescMarker, KeywordMarker, ArticleMarker);
    assert ParseOutput(t) == ParseIntended(t);
    SameParse(s, keyword, refs, reply, ParseOutput(t), ParseIntended(t));
  }

  lemma {:induction false} SameParse(s: Settings, keyword: string, refs: seq<string>, reply: GenReply,
                                     p: Parsed, q: Parsed)
    requires ReplyText(reply).Some?
    requires p == ParseOutput(StripFences(ReplyText(reply).value))
    requires q == ParseIntended(StripFences(ReplyText(reply).value))
    requires p == q
    ensures GenerateArticle(s, keyword, refs, reply) == GenerateIntended(s, keyword, refs, reply)
  {
  }

  /** What an accepted reply yields: its title, its description or the
      default one, its keyword or the default one, the post body built from
      its article, the default keywords as tags and the references. */
  lemma {:induction false} FinishFields(s: Settings, keyword: string, refs: seq<string>, p: Parsed)
    requires p.title != "" && p.article != ""
    ensures Finish(s, keyword, refs, p).Some?
    ensures Finish(s, keyword, refs, p).value.seoTitle == p.title
    ensures p.desc != "" ==> Finish(s, keyword, refs, p).value.metaDesc == p.desc
    ensures p.desc == "" ==> Finish(s, keyword, refs, p).value.metaDesc == DefaultDescription(keyword, s.brandSuffix)
    ensures p.keyword != "" ==> Finish(s, keyword, refs, p).value.focusKeyword == p.keyword
    ensures p.keyword == "" ==> Finish(s, keyword, refs, p).value.focusKeyword == DefaultFocusKeyword(s.defaultKeywords)
    ensures StartsWith(Finish(s, keyword, refs, p).value.content, p.article)
    ensures EndsWith(Finish(s, keyword, refs, p).value.content, Signature(s.brand, s.siteName))
    ensures Finish(s, keyword, refs, p).value.tags == s.defaultKeywords
    ensures Finish(s, keyword, refs, p).value.references == refs
  {
    AssembleLayout(p.article, refs, s.brand, s.siteName, s.tags);
  }

  /** An accepted article always has a title, a description and a body, so
      the completeness check the main loop makes afterwards never fails. */
  lemma {:induction false} GeneratedIsComplete(s: Settings, keyword: string, refs: seq<string>, reply: GenReply)
    requires GenerateArticle(s, keyword, refs, reply).Some?
    ensures GenerateArticle(s, keyword, refs, reply).value.seoTitle != ""
    ensures GenerateArticle(s, keyword, refs, reply).value.content != ""
    ensures GenerateArticle(s, keyword, refs, reply).value.metaDesc != ""
    ensures Strip(GenerateArticle(s, keyword, refs, reply).value.seoTitle)
         == GenerateArticle(s, keyword, refs, reply).value.seoTitle
  {
    var p := ParseOutput(StripFences(ReplyText(reply).value));
    FinishFields(s, keyword, refs, p);
    StripByOfTrimmed(p.title, IsSpace);
  }

  /** The default focus keyword lists at most three default keywords, and
      splitting it on commas gives them back (keywords come from a comma
      split, so none contains a comma). */
  lemma {:induction false} DefaultFocusKeywordReadBack(defaults: seq<string>)
    requires defaults != []
    requires forall i :: 0 <= i < |defaults| ==> ',' !in defaults[i]
    ensures Split(DefaultFocusKeyword(defaults), ',') == PyPrefix(defaults, MaxDefaultKeywords)
    ensures |Split(DefaultFocusKeyword(defaults), ',')| <= MaxDefaultKeywords
  {
    var first := PyPrefix(defaults, MaxDefaultKeywords);
    assert forall i :: 0 <= i < |first| ==> first[i] == defaults[i];
    SplitJoin(first, ',');
  }

  /** A reply whose fence-stripped text has the markers first occurring in
      order, with a non-empty title and article between them, is accepted
      with that title and article. */
  lemma {:induction false} MarkedResponseAccepted(s: Settings, keyword: string, refs: seq<string>, reply: GenReply,
                                                  i1: nat, i2: nat, i3: nat, i4: nat)
    requires ReplyText(reply).Some?
    requires MarkedAt(StripFences(ReplyText(reply).value), TitleMarker, DescMarker, KeywordMarker, ArticleMarker,
                      i1, i2, i3, i4)
    requires var t := StripFences(ReplyText(reply).value);
      Strip(t[i1 + |TitleMarker|..i2]) != "" && Strip(t[i4 + |ArticleMarker|..]) != ""
    ensures GenerateArticle(s, keyword, refs, reply).Some?
    ensures var t := StripFences(ReplyText(reply).value);
      && GenerateArticle(s, keyword, refs, reply).value.seoTitle == Strip(t[i1 + |TitleMarker|..i2])
      && StartsWith(GenerateArticle(s, keyword, refs, reply).value.content, Strip(t[i4 + |ArticleMarker|..]))
  {
    var t := StripFences(ReplyText(reply).value);
    OutputReadsMarkedText(t, i1, i2, i3, i4);
    ReadAccepted(s, keyword, refs, reply, Strip(t[i1 + |TitleMarker|..i2]), Strip(t[i4 + |ArticleMarker|..]));
  }

  /** A reply whose title and article, as read, are filled is accepted with
      them. */
  lemma {:induction false} ReadAccepted(s: Settings, keyword: string, refs: seq<string>, reply: GenReply,
                                        title: string, article: string)
    requires ReplyText(reply).Some?
    requires ParseOutput(StripFences(ReplyText(reply).value)).title == title && title != ""
    requires ParseOutput(StripFences(ReplyText(reply).value)).article == article && article != ""
    ensures GenerateArticle(s, keyword, refs, reply).Some?
    ensures GenerateArticle(s, keyword, refs, reply).value.seoTitle == title
    ensures StartsWith(GenerateArticle(s, keyword, refs, reply).value.content, article)
  {
    var p := ParseOutput(StripFences(ReplyText(reply).value));
    GenerateFinishes(s, keyword, refs, reply, p);
    FinishFields(s, keyword, refs, p);
  }

  /** A reply with a text is generated from the fields read from it. */
  lemma {:induction false} GenerateFinishes(s: Settings, keyword: string, refs: seq<string>, reply: GenReply, p: Parsed)
    requires ReplyText(reply).Some?
    requires p == ParseOutput(StripFences(ReplyText(reply).value))
    ensures GenerateArticle(s, keyword, refs, reply) == Finish(s, keyword, refs, p)
  {
  }
}
