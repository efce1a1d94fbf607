/** `main`: for each of the first `POSTS_PER_DAY` keywords, find fresh
    references (or fall back to fixed ones), generate the article, pick a
    free slug and publish, counting successes and failures and growing the
    list of used references. The outside services are a `World` of
    replies. */
module Orchestrator {
  import opened Text
  import References
  import Generator
  import Slug
  import WordPress

  /** The replies of the services, each a function of what is asked. */
  datatype World = World(
    search: string -> References.SearchReply,
    generate: (string, seq<string>) -> Generator.GenReply,
    lookup: string -> WordPress.LookupReply,
    server: WordPress.Payload -> WordPress.PostReply)

  /** The configuration `main` reads from the environment. */
  datatype Config = Config(settings: Generator.Settings, categoryId: int, postsPerDay: int)

  /** The references used when the search finds no fresh link. */
  const FallbackReferences: seq<string> :=
    ["https://www.healthline.com", "https://pubmed.ncbi.nlm.nih.gov", "https://www.webmd.com"]
  const FallbackCount: int := 2

  /** The outcome of one keyword: whether it was published, and the used
      references afterwards. */
  datatype Outcome = Outcome(published: bool, used: seq<string>)

  /** The counters and used references after some keywords. */
  datatype Tally = Tally(success: nat, failure: nat, used: seq<string>)

  /** The references handed to the generator. */
  function GenerationRefs(found: seq<string>): seq<string> {
    if found == [] then PyPrefix(FallbackReferences, FallbackCount) else found
  }

  /** Whether an article with these references reaches the site: it is
      generated and complete, its slug lookups do not raise, and the post
      is created. */
  predicate Publishes(w: World, c: Config, keyword: string, refs: seq<string>) {
    var art := Generator.GenerateArticle(c.settings, keyword, refs, w.generate(keyword, refs));
    if art.None? || art.value.seoTitle == "" || art.value.content == "" then false
    else
      var title := Strip(art.value.seoTitle);
      var choice := WordPress.SlugSearch(Slug.Slugify(title), w.lookup, 0);
      if choice.LookupRaised? then false
      else WordPress.PublishSucceeds(
        WordPress.PayloadOf(title, art.value.content, Strip(art.value.metaDesc), choice.slug,
                            art.value.focusKeyword, c.categoryId),
        w.server)
  }

  /** One pass of the loop body. Fresh references are recorded as used
      before generation, so they stay used whatever happens next. */
  function ProcessKeyword(w: World, c: Config, keyword: string, used: seq<string>): Outcome {
    var found := References.SelectedLinks(w.search(keyword), used);
    Outcome(Publishes(w, c, keyword, GenerationRefs(found)), used + found)
  }

  /** The loop over `keywords`, from `used0`: each keyword in turn, each
      seeing the used references the earlier ones left. */
  function RunOver(w: World, c: Config, keywords: seq<string>, used0: seq<string>): Tally
    decreases |keywords|
  {
    if keywords == [] then Tally(0, 0, used0)
    else
      var before := RunOver(w, c, keywords[..|keywords| - 1], used0);
      var o := ProcessKeyword(w, c, keywords[|keywords| - 1], before.used);
      if o.published then Tally(before.success + 1, before.failure, o.used)
      else Tally(before.success, before.failure + 1, o.used)
  }

  /** The keywords `main` works on. */
  function DailyKeywords(c: Config, keywords: seq<string>): seq<string> {
    PyPrefix(keywords, c.postsPerDay)
  }

  /** The loop body; `continue` and the exception handler both end in a
      failure. */
  method ProcessOne(w: World, c: Config, keyword: string, used: seq<string>)
    returns (published: bool, usedAfter: seq<string>)
    ensures Outcome(published, usedAfter) == ProcessKeyword(w, c, keyword, used)
  {
    var refs := References.GetReferenceLinks(w.search(keyword), used);
    usedAfter := used;
    if refs == [] {
      refs := PyPrefix(FallbackReferences, FallbackCount);
    } else {
      usedAfter := usedAfter + refs;
    }
    published := PublishArticle(w, c, keyword, refs);
  }

  /** The loop body from the generation on. */
  method PublishArticle(w: World, c: Config, keyword: string, refs: seq<string>) returns (published: bool)
    ensures published == Publishes(w, c, keyword, refs)
  {
    var art := Generator.GenerateArticle(c.settings, keyword, refs, w.generate(keyword, refs));
    if art.None? || art.value.seoTitle == "" || art.value.content == "" {
      return false;
    }
    var title := Strip(art.value.seoTitle);
    var desc := Strip(art.value.metaDesc);
    var choice := WordPress.UniqueSlug(Slug.Slugify(title), w.lookup);
    if choice.LookupRaised? {
      return false;
    }
    var payload := WordPress.BuildPayload(title, art.value.content, desc, choice.slug,
                                          art.value.focusKeyword, c.categoryId);
    var sent;
    published, sent := WordPress.SafePublish(payload, w.server);
  }

  /** `main`'s loop, with its two counters and the used references. */
  method Run(w: World, c: Config, keywords: seq<string>, used0: seq<string>)
    returns (success: nat, failure: nat, used: seq<string>)
    ensures Tally(success, failure, used) == RunOver(w, c, DailyKeywords(c, keywords), used0)
  {
    var daily := DailyKeywords(c, keywords);
    success, failure, used := 0, 0, used0;
    for i := 0 to |daily|
      invariant Tally(success, failure, used) == RunOver(w, c, daily[..i], used0)
    {
      success, failure, used := CountOne(w, c, daily, i, used0, success, failure, used);
    }
    assert daily[..|daily|] == daily;
  }

  /** One turn of the loop: the `i`-th keyword processed and counted. */
  method CountOne(w: World, c: Config, daily: seq<string>, i: nat, ghost used0: seq<string>,
                  success: nat, failure: nat, used: seq<string>)
    returns (success': nat, failure': nat, used': seq<string>)
    requires i < |daily|
    requires Tally(success, failure, used) == RunOver(w, c, daily[..i], used0)
    ensures Tally(success', failure', used') == RunOver(w, c, daily[..i + 1], used0)
  {
    assert daily[..i + 1][..i] == daily[..i];
    ghost var step := ProcessKeyword(w, c, daily[i], used);
    var published;
    published, used' := ProcessOne(w, c, daily[i], used);
    assert published == step.published && used' == step.used;
    if published {
      success', failure' := success + 1, failure;
    } else {
      success', failure' := success, failure + 1;
    }
  }

  /** Every keyword worked on is counted exactly once. */
  lemma {:induction false} EveryKeywordCounted(w: World, c: Config, keywords: seq<string>, used0: seq<string>)
    ensures RunOver(w, c, keywords, used0).success + RunOver(w, c, keywords, used0).failure == |keywords|
    decreases |keywords|
  {
    if keywords != [] {
      EveryKeywordCounted(w, c, keywords[..|keywords| - 1], used0);
    }
  }

  /** At most `POSTS_PER_DAY` keywords are worked on, all of them if there
      are fewer, and in their given order. */
  lemma {:induction false} DailyKeywordsBound(c: Config, keywords: seq<string>)
    requires c.postsPerDay >= 0
    ensures |DailyKeywords(c, keywords)| == if c.postsPerDay < |keywords| then c.postsPerDay else |keywords|
    ensures DailyKeywords(c, keywords) <= keywords
  {
  }

  /** The used references only grow: the old list stays a prefix, and each
      added reference is a non-empty link that was not used at the start;
      at most two are added per keyword. */
  lemma {:induction false} UsedGrows(w: World, c: Config, keywords: seq<string>, used0: seq<string>)
    ensures used0 <= RunOver(w, c, keywords, used0).used
    ensures |RunOver(w, c, keywords, used0).used| <= |used0| + References.MaxReferences * |keywords|
    ensures forall k :: |used0| <= k < |RunOver(w, c, keywords, used0).used| ==>
      RunOver(w, c, keywords, used0).used[k] != "" && RunOver(w, c, keywords, used0).used[k] !in used0
    decreases |keywords|
  {
    if keywords != [] {
      var init := keywords[..|keywords| - 1];
      UsedGrows(w, c, init, used0);
      var before := RunOver(w, c, init, used0).used;
      var found := References.SelectedLinks(w.search(keywords[|keywords| - 1]), before);
      SelectedLinksFresh(w.search(keywords[|keywords| - 1]), before);
      AppendFresh(used0, before, found);
    }
  }

  /** The links a search step hands on are non-empty, new, and at most two. */
  lemma {:induction false} SelectedLinksFresh(reply: References.SearchReply, used: seq<string>)
    ensures |References.SelectedLinks(reply, used)| <= References.MaxReferences
    ensures forall k :: 0 <= k < |References.SelectedLinks(reply, used)| ==>
      References.SelectedLinks(reply, used)[k] != "" && References.SelectedLinks(reply, used)[k] !in used
  {
    if reply.SearchReply? && reply.status == 200 {
      References.FreshLinksSound(reply.items, used);
    }
  }

  lemma {:induction false} AppendFresh(used0: seq<string>, before: seq<string>, found: seq<string>)
    requires used0 <= before
    requires forall k :: |used0| <= k < |before| ==> before[k] != "" && before[k] !in used0
    requires forall k :: 0 <= k < |found| ==> found[k] != "" && found[k] !in before
    ensures used0 <= before + found
    ensures forall k :: |used0| <= k < |before + found| ==> (before + found)[k] != "" && (before + found)[k] !in used0
  {
    assert forall x :: x in used0 ==> x in before;
  }

  /** A keyword whose search finds fresh links is generated with exactly
      those links and records them as used; one whose search finds none is
      generated with the first two fallback references and records
      nothing. */
  lemma {:induction false} ReferencesHandedOn(w: World, c: Config, keyword: string, used: seq<string>)
    ensures var found := References.SelectedLinks(w.search(keyword), used);
      && (found != [] ==> GenerationRefs(found) == found
                          && ProcessKeyword(w, c, keyword, used).used == used + found)
      && (found == [] ==> GenerationRefs(found) == ["https://www.healthline.com", "https://pubmed.ncbi.nlm.nih.gov"]
                          && ProcessKeyword(w, c, keyword, used).used == used)
  {
    var found := References.SelectedLinks(w.search(keyword), used);
    if found == [] {
      assert used + found == used;
    }
  }

  /** A published keyword had a generated article, lookups that did not
      raise, and a post the site created, with or without the SEO fields. */
  lemma {:induction false} PublishedMeansCreated(w: World, c: Config, keyword: string, refs: seq<string>)
    requires Publishes(w, c, keyword, refs)
    ensures Generator.GenerateArticle(c.settings, keyword, refs, w.generate(keyword, refs)).Some?
    ensures var art := Generator.GenerateArticle(c.settings, keyword, refs, w.generate(keyword, refs)).value;
      WordPress.SlugSearch(Slug.Slugify(Strip(art.seoTitle)), w.lookup, 0).Chosen?
    ensures var art := Generator.GenerateArticle(c.settings, keyword, refs, w.generate(keyword, refs)).value;
      var choice := WordPress.SlugSearch(Slug.Slugify(Strip(art.seoTitle)), w.lookup, 0);
      WordPress.PublishSucceeds(
        WordPress.PayloadOf(Strip(art.seoTitle), art.content, Strip(art.metaDesc), choice.slug,
                            art.focusKeyword, c.categoryId),
        w.server)
  {
  }
}
