/** The WordPress side: the slug lookup of `wp_post_exists_by_slug`, the
    slug de-duplication loop of `main`, and the payload and single retry of
    `safe_publish_to_wp`. Replies of the site are inputs. */
module WordPress {
  import opened Text

  // ----- Slug lookup ---------------------------------------------------

  /** The reply to a slug search: `LookupFailed` when the request or the
      decoding of its body raised, otherwise the status code and the `slug`
      of each returned item (absent when the item has none). */
  datatype LookupReply = LookupFailed | Lookup(status: int, slugs: seq<Option<string>>)

  /** Whether the reply shows a post with exactly this slug; `None` when
      the lookup raised. */
  function Taken(reply: LookupReply, slug: string): Option<bool> {
    if reply.LookupFailed? then None
    else Some(reply.status == 200 && exists i :: 0 <= i < |reply.slugs| && reply.slugs[i] == Some(slug))
  }

  /** `wp_post_exists_by_slug` after the request: false on a status other
      than 200, true as soon as an item's slug equals `slug` exactly. */
  method PostExistsBySlug(reply: LookupReply, slug: string) returns (r: Option<bool>)
    ensures r == Taken(reply, slug)
  {
    if reply.LookupFailed? {
      return None;
    }
    if reply.status != 200 {
      return Some(false);
    }
    var i := 0;
    while i < |reply.slugs|
      invariant 0 <= i <= |reply.slugs|
      invariant forall k :: 0 <= k < i ==> reply.slugs[k] != Some(slug)
    {
      if reply.slugs[i] == Some(slug) {
        return Some(true);
      }
      i := i + 1;
    }
    return Some(false);
  }

  // ----- Slug de-duplication -------------------------------------------

  const MaxSlugTries: nat := 5

  /** The slug tried after `k` collisions: each try appends `-k` to the
      previous candidate, so the suffixes accumulate. */
  function Candidate(base: string, k: nat): string {
    if k == 0 then base else Candidate(base, k - 1) + "-" + NatToString(k)
  }

  /** The outcome of the loop: a lookup raised, or the chosen slug and the
      number of collisions seen. */
  datatype SlugChoice = LookupRaised | Chosen(slug: string, tries: nat)

  /** The loop from `k` collisions on: the lookup comes first, so a
      sixth lookup is made even after five collisions. */
  function SlugSearch(base: string, lookup: string -> LookupReply, k: nat): SlugChoice
    requires k <= MaxSlugTries
    decreases MaxSlugTries - k
  {
    var c := Candidate(base, k);
    var taken := Taken(lookup(c), c);
    if taken.None? then LookupRaised
    else if !taken.value || k == MaxSlugTries then Chosen(c, k)
    else SlugSearch(base, lookup, k + 1)
  }

  /** The slug loop of `main`. */
  method UniqueSlug(base: string, lookup: string -> LookupReply) returns (choice: SlugChoice)
    ensures choice == SlugSearch(base, lookup, 0)
  {
    var slug := base;
    var tries := 0;
    var taken := PostExistsBySlug(lookup(slug), slug);
    while taken.Some? && taken.value && tries < MaxSlugTries
      invariant 0 <= tries <= MaxSlugTries
      invariant slug == Candidate(base, tries)
      invariant taken == Taken(lookup(slug), slug)
      invariant SlugSearch(base, lookup, 0) == SlugSearch(base, lookup, tries)
      decreases MaxSlugTries - tries
    {
      tries := tries + 1;
      slug := slug + "-" + NatToString(tries);
      taken := PostExistsBySlug(lookup(slug), slug);
    }
    if taken.None? {
      return LookupRaised;
    }
    return Chosen(slug, tries);
  }

  /** What the loop promises: at most five collisions; every candidate
      before the chosen one was taken; the chosen one is free unless five
      collisions were reached; and a raised lookup stops the loop. */
  lemma {:induction false} SlugSearchChoice(base: string, lookup: string -> LookupReply, k: nat)
    requires k <= MaxSlugTries
    requires forall j :: 0 <= j < k ==> Taken(lookup(Candidate(base, j)), Candidate(base, j)) == Some(true)
    ensures SlugSearch(base, lookup, k).Chosen? ==>
      var t := SlugSearch(base, lookup, k).tries;
      && k <= t <= MaxSlugTries
      && SlugSearch(base, lookup, k).slug == Candidate(base, t)
      && (forall j :: 0 <= j < t ==> Taken(lookup(Candidate(base, j)), Candidate(base, j)) == Some(true))
      && (t < MaxSlugTries ==> Taken(lookup(Candidate(base, t)), Candidate(base, t)) == Some(false))
    ensures SlugSearch(base, lookup, k).LookupRaised? ==>
      exists t :: k <= t <= MaxSlugTries && Taken(lookup(Candidate(base, t)), Candidate(base, t)).None?
    decreases MaxSlugTries - k
  {
    var c := Candidate(base, k);
    var taken := Taken(lookup(c), c);
    if taken.Some? && taken.value && k < MaxSlugTries {
      SlugSearchChoice(base, lookup, k + 1);
    }
  }

  /** After three collisions the slug is `base-1-2-3`, not `base-3`. */
  lemma {:induction false} CandidateAccumulates(base: string)
    ensures Candidate(base, 3) == base + "-1-2-3"
    ensures Candidate(base, MaxSlugTries) == base + "-1-2-3-4-5"
  {
    assert NatToString(1) == "1" && NatToString(2) == "2" && NatToString(3) == "3";
    assert NatToString(4) == "4" && NatToString(5) == "5";
    assert Candidate(base, 1) == base + "-1";
    assert Candidate(base, 2) == base + "-1-2";
    assert Candidate(base, 3) == base + "-1-2-3";
    assert Candidate(base, 4) == base + "-1-2-3-4";
  }

  /** A base slug taken on the first three tries and free on the fourth
      gives `base-1-2-3`. */
  lemma {:induction false} FreeOnFourthTry(base: string, lookup: string -> LookupReply)
    requires forall j :: 0 <= j < 3 ==> Taken(lookup(Candidate(base, j)), Candidate(base, j)) == Some(true)
    requires Taken(lookup(Candidate(base, 3)), Candidate(base, 3)) == Some(false)
    ensures SlugSearch(base, lookup, 0) == Chosen(base + "-1-2-3", 3)
  {
    assert SlugSearch(base, lookup, 0) == SlugSearch(base, lookup, 1);
    assert SlugSearch(base, lookup, 1) == SlugSearch(base, lookup, 2);
    assert SlugSearch(base, lookup, 2) == SlugSearch(base, lookup, 3);
    CandidateAccumulates(base);
  }

  /** Candidates grow by two characters per try up to the ninth, so no two
      of the five tries coincide. */
  lemma {:induction false} CandidateLength(base: string, k: nat)
    requires k <= 9
    ensures |Candidate(base, k)| == |base| + 2 * k
    ensures StartsWith(Candidate(base, k), base)
  {
    if k > 0 {
      CandidateLength(base, k - 1);
      var prev := Candidate(base, k - 1);
      assert Candidate(base, k) == prev + ("-" + NatToString(k));
      StartsWithConcat(prev, "-" + NatToString(k));
      assert Candidate(base, k)[..|base|] == prev[..|base|];
    }
  }

  // ----- Payload -----------------------------------------------------

  /** A JSON value of the payload: a string, a list of integers, or an
      object with string values. */
  datatype Value = Str(s: string) | Ints(xs: seq<int>) | Fields(m: map<string, string>)

  type Payload = map<string, Value>

  const MaxExcerptLength: nat := 150
  const MetaKey: string := "meta"
  const CategoriesKey: string := "categories"
  const YoastTitle: string := "_yoast_wpseo_title"
  const YoastDesc: string := "_yoast_wpseo_metadesc"
  const YoastFocus: string := "_yoast_wpseo_focuskw"

  /** The payload of `safe_publish_to_wp`: the post fields, the category
      when one is configured, and the SEO fields, with the focus keyword
      only when there is one. */
  function PayloadOf(title: string, content: string, metaDesc: string, slug: string,
                     focusKeyword: string, categoryId: int): Payload
  {
    var post := map[
      "title" := Str(title),
      "content" := Str(content),
      "status" := Str("publish"),
      "slug" := Str(slug),
      "excerpt" := Str(PyPrefix(metaDesc, MaxExcerptLength))];
    var withCategory := if categoryId > 0 then post[CategoriesKey := Ints([categoryId])] else post;
    var meta := map[YoastTitle := title, YoastDesc := metaDesc];
    withCategory[MetaKey := Fields(if focusKeyword != "" then meta[YoastFocus := focusKeyword] else meta)]
  }

  /** The payload built step by step, as `safe_publish_to_wp` does. */
  method BuildPayload(title: string, content: string, metaDesc: string, slug: string,
                      focusKeyword: string, categoryId: int) returns (payload: Payload)
    ensures payload == PayloadOf(title, content, metaDesc, slug, focusKeyword, categoryId)
  {
    payload := map[
      "title" := Str(title),
      "content" := Str(content),
      "status" := Str("publish"),
      "slug" := Str(slug),
      "excerpt" := Str(PyPrefix(metaDesc, MaxExcerptLength))];
    if categoryId > 0 {
      payload := payload[CategoriesKey := Ints([categoryId])];
    }
    var meta := map[YoastTitle := title, YoastDesc := metaDesc];
    if focusKeyword != "" {
      meta := meta[YoastFocus := focusKeyword];
    }
    payload := payload[MetaKey := Fields(meta)];
  }

  /** What the payload holds: exactly the post fields, the category iff
      one is configured, and the SEO fields; the excerpt is the first 150
      characters of the description; the focus keyword is sent iff it is
      not empty. */
  lemma {:induction false} PayloadShape(title: string, content: string, metaDesc: string, slug: string,
                                        focusKeyword: string, categoryId: int)
    ensures var p := PayloadOf(title, content, metaDesc, slug, focusKeyword, categoryId);
      && p.Keys == {"title", "content", "status", "slug", "excerpt", MetaKey}
                   + (if categoryId > 0 then {CategoriesKey} else {})
      && p["title"] == Str(title) && p["content"] == Str(content)
      && p["status"] == Str("publish") && p["slug"] == Str(slug)
      && p["excerpt"] == Str(PyPrefix(metaDesc, MaxExcerptLength))
      && |p["excerpt"].s| <= MaxExcerptLength
      && (categoryId > 0 ==> p[CategoriesKey] == Ints([categoryId]))
      && p[MetaKey].Fields?
      && p[MetaKey].m.Keys == {YoastTitle, YoastDesc} + (if focusKeyword != "" then {YoastFocus} else {})
      && p[MetaKey].m[YoastTitle] == title && p[MetaKey].m[YoastDesc] == metaDesc
      && (focusKeyword != "" ==> p[MetaKey].m[YoastFocus] == focusKeyword)
  {
  }

  // ----- Publishing ----------------------------------------------------

  /** The reply to a POST: `PostFailed` when the request raised, otherwise
      its status code, its body text, and whether the body decodes to a
      non-empty JSON object (the value `safe_publish_to_wp` returns). */
  datatype PostReply = PostFailed | Posted(status: int, text: string, decodes: bool)

  const Created: int := 201
  const Forbidden: int := 403

  /** A 403 whose lower-cased body mentions "meta" or "forbidden": the site
      refuses the SEO fields. */
  predicate MetaRefused(reply: PostReply) {
    reply.Posted? && reply.status == Forbidden
    && (Contains(Lower(reply.text), "meta") || Contains(Lower(reply.text), "forbidden"))
  }

  /** A created post whose reply decodes to a truthy object; any other
      outcome makes `safe_publish_to_wp` return nothing useful. */
  predicate Accepted(reply: PostReply) {
    reply.Posted? && reply.status == Created && reply.decodes
  }

  /** `safe_publish_to_wp` after the payload is built: post it; on a refusal
      of the SEO fields post it once more without `meta`. Returns whether
      the post was created and the payloads sent, in order. */
  method SafePublish(payload: Payload, server: Payload -> PostReply) returns (ok: bool, sent: seq<Payload>)
    ensures 1 <= |sent| <= 2 && sent[0] == payload
    ensures |sent| == 2 <==> MetaRefused(server(payload))
    ensures |sent| == 2 ==> sent[1] == payload - {MetaKey}
    ensures ok <==> Accepted(server(sent[|sent| - 1]))
    ensures ok == PublishSucceeds(payload, server)
  {
    var body := payload;
    sent := [body];
    var r := server(body);
    if MetaRefused(r) {
      body := body - {MetaKey};
      sent := sent + [body];
      r := server(body);
    }
    ok := Accepted(r);
  }

  /** The retry carries everything but the SEO fields, unchanged. */
  lemma {:induction false} RetryKeepsFields(payload: Payload, key: string)
    requires key in payload && key != MetaKey
    ensures key in payload - {MetaKey} && (payload - {MetaKey})[key] == payload[key]
    ensures MetaKey !in payload - {MetaKey}
  {
  }

  /** A publish without a refusal of the SEO fields succeeds exactly when
      the first reply is 201; after a refusal, exactly when the retry is. */
  lemma {:induction false} PublishOutcome(payload: Payload, server: Payload -> PostReply)
    ensures !MetaRefused(server(payload)) ==> (PublishSucceeds(payload, server) <==> Accepted(server(payload)))
    ensures MetaRefused(server(payload)) ==>
      (PublishSucceeds(payload, server) <==> Accepted(server(payload - {MetaKey})))
    ensures MetaRefused(server(payload)) ==> !Accepted(server(payload))
  {
  }

  /** The outcome of `SafePublish`, as a function. */
  predicate PublishSucceeds(payload: Payload, server: Payload -> PostReply) {
    if MetaRefused(server(payload)) then Accepted(server(payload - {MetaKey}))
    else Accepted(server(payload))
  }
}
