# wp-ai-auto-poster, modelled in Dafny

`app.py` is a daily job that writes health articles and posts them to a
WordPress site. For each of the first `POSTS_PER_DAY` keywords it:

1. asks a web search for reference links and keeps up to two links not used
   before;
2. asks a language model for an article in a marker format
   (`SEO_TITLE:`, `SEO_DESC:`, `SEO_KEYWORD:`, `ARTICLE:`);
3. strips Markdown code fences and reads the four fields, rejecting a reply
   without title or article and filling a default description and focus
   keyword;
4. assembles the post body (article, reference list, tag line,
   signature);
5. derives a slug from the title and de-duplicates it against the site
   (at most five suffixes);
6. posts the article. If the site refuses the SEO (`meta`) fields, it posts
   once more without them.
7. counts successes and failures and records the used references.

The model covers that decision layer. Every outside service is an input:

- `References.SearchReply` is the search result;
- `Generator.GenReply` is the language model's reply envelope;
- `WordPress.LookupReply` is a slug search;
- `WordPress.PostReply` is a post request.

`Orchestrator.World` bundles them as functions of the request.

Files and modules:

| file | module | models |
|---|---|---|
| `text.dfy` | `Text` | Python's `str.strip`, `str.find`, ASCII `lower`, slicing `[:n]`, `join`/`split`, integer formatting |
| `parser.dfy` | `ResponseParser` | `extract_between`, `extract_after`, `parse_gemini_output`, the fence removal |
| `slug.dfy` | `Slug` | `slugify` |
| `html.dfy` | `Html` | `assemble_html` |
| `generator.dfy` | `Generator` | `gemini_generate_article` after the request |
| `references.dfy` | `References` | `get_reference_links` after the request |
| `wordpress.dfy` | `WordPress` | `wp_post_exists_by_slug`, the slug loop of `main`, `safe_publish_to_wp` |
| `orchestrator.dfy` | `Orchestrator` | the keyword loop of `main` |

The imperative parts are methods with loops or state updates, each proved
against a function that specifies it:

| method | specification function |
|---|---|
| `References.GetReferenceLinks` (the `for item in items` loop) | `SelectedLinks` |
| `WordPress.PostExistsBySlug` | `Taken` |
| `WordPress.UniqueSlug` (the `while` loop over `slug` and `tries`) | `SlugSearch` |
| `WordPress.BuildPayload` (the dict updates) | `PayloadOf` |
| `WordPress.SafePublish` (the `pop("meta")` retry) | `PublishSucceeds` |
| `Orchestrator.Run`, `CountOne`, `ProcessOne`, `PublishArticle` (the counters and `used_refs.extend`) | `RunOver` and `ProcessKeyword` |

The parsing, slug, HTML and default rules are functions with lemmas.

Three behaviours of the code that are easy to misread:

- **Slug suffixes accumulate.** The loop `slug = f"{slug}-{tries}"` appends
  to the previous candidate. A slug taken on tries 0 to 2 and free on try 3
  becomes `base-1-2-3`, not `base-3` (`WordPress.CandidateAccumulates`,
  `WordPress.FreeOnFourthTry`).
- **A sixth lookup is made.** The loop condition looks the slug up before it
  tests `tries < 5`, so after five collisions the slug is looked up a sixth
  time. A raise on that sixth lookup fails the keyword.
- **The retry condition is broad.** The code posts again without `meta` after
  any 403 whose lower-cased body contains "meta" **or** "forbidden", not only
  after a refusal that names a `meta` field.

## Model

| member | source | states |
|---|---|---|
| Text.Strip | app.py:117 | the result has no white space (Python's `str.isspace` set) at either end |
| Text.StripBy | app.py:119 | stripping by any drop predicate, as `strip("-")` does: the result has no dropped character at either end and is no longer than the input |
| Text.StripByPadded | app.py:117 | stripping a string padded with white space on both sides gives back the unpadded string, when that string has no white space at either end |
| Text.StripByIdempotent | app.py:275 | stripping twice is stripping once |
| Text.StripByOfTrimmed | app.py:117 | stripping a string with no strippable character at either end leaves it unchanged |
| Text.Join | app.py:298 | `sep.join(xs)`: the parts with the separator between consecutive ones; `Text.SplitJoin` splits it back |
| Text.Find | app.py:89-94 | a found position lies at or after the start and the pattern fits in the text there |
| Text.FindSound | app.py:89-94 | `find` returns the first occurrence at or after the start, and -1 (`None`) exactly when there is none |
| Text.Lower | app.py:117 | lower-casing keeps the length and maps each character on its own |
| Text.PyPrefix | app.py:120 | slicing `[:n]` gives a prefix of length `min(n, len)`, and Python's length for negative `n` |
| Text.SplitJoin | app.py:298 | splitting a comma-join on the comma gives back the parts, when no part contains a comma |
| Text.NatToString | app.py:515 | the decimal text of a number is non-empty and made of digits; a number below 10 is one digit |
| ResponseParser.ExtractBetween | app.py:87-101 | the result is stripped |
| ResponseParser.BetweenWithoutStart | app.py:90-92 | without the start marker the result is "" |
| ResponseParser.BetweenWithoutEnd | app.py:93-97 | with the start marker first at `i` and no end marker after it, the result is the stripped rest of the text after the start marker |
| ResponseParser.BetweenBothMarkers | app.py:93-101 | with the start marker first at `i` and the end marker first after it at `j`, the result is the stripped text between them |
| ResponseParser.AfterWithoutMarker | app.py:103-108 | without the marker `extract_after` gives "" |
| ResponseParser.AfterFirstMarker | app.py:103-109 | with the marker first at `i`, `extract_after` gives the stripped text after it |
| ResponseParser.ExtractAfter | app.py:103-111 | the text after the marker is stripped |
| ResponseParser.Field | app.py:56-68 | a header field as written (piece, else everything after its marker) is stripped |
| ResponseParser.ReadAsWritten | app.py:52-81 | every field `parse_gemini_output` returns is stripped |
| ResponseParser.ParseOutput | app.py:52-85 | `parse_gemini_output` as written: the reader with fall-backs applied to the four markers of the response format; its `except` branch is unreachable, since nothing in the body raises on a string |
| ResponseParser.ReadIntended | app.py:56-71 | the corrected reader, which takes each header field only from between its marker and the next, returns stripped fields |
| ResponseParser.ParseIntended | app.py:56-71 | the corrected reader applied to the four markers of the response format |
| ResponseParser.FieldsStayStripped | app.py:74-77 | the final `.strip()` calls change nothing |
| ResponseParser.IntendedReadsMarkedText | app.py:56-71 | with all four markers first occurring in order, the corrected reader returns the stripped pieces between consecutive markers and everything after `ARTICLE:` |
| ResponseParser.ParseReadsMarkedText | app.py:56-71 | the same for the response's own four markers |
| ResponseParser.AsWrittenReadsFilledText | app.py:56-71 | the code as written reads such a text the same way whenever no header piece is empty |
| ResponseParser.FilledField | app.py:56-68 | when the piece between a marker and the next is non-empty, the field as written is that piece: the fall-back is not used |
| ResponseParser.AsWrittenReadsMarkedTitle | app.py:56-71 | with the four markers first occurring in order and a non-empty title piece, the reader as written returns the stripped title piece and the stripped text after the article marker, whatever the other pieces hold |
| ResponseParser.OutputReadsMarkedText | app.py:52-81 | the same for `parse_gemini_output` on the response's own markers |
| ResponseParser.ReadersAgreeOnFilledFields | app.py:56-68 | the reader as written and the corrected one differ only when a header field is empty |
| ResponseParser.EmptyFieldSwallowsRest | app.py:56-68 | as written, a header field followed only by white space up to the next marker is read as everything after its marker, starting with the next marker |
| ResponseParser.EmptyDescriptionSwallowsRest | app.py:61-63 | as written, an empty description is read as text that starts with `SEO_KEYWORD:` |
| ResponseParser.EmptyDescriptionStaysEmpty | app.py:61-63 | corrected, the same text gives an empty description, so the default applies |
| ResponseParser.DropPrefix | app.py:268-271 | when `c` starts with `p` the result is what follows `p`; otherwise `c` is unchanged |
| ResponseParser.DropSuffix | app.py:272-273 | when `c` ends with `p` the result is what precedes `p`; otherwise `c` is unchanged |
| ResponseParser.Unfence | app.py:268-273 | the three removals never make the text longer |
| ResponseParser.StripFences | app.py:267-275 | the cleaned text is stripped |
| ResponseParser.NoFenceUnchanged | app.py:267-275 | a response with no fence at either end only loses its surrounding white space |
| ResponseParser.JsonFenceUnwrapped | app.py:267-275 | a body wrapped in "```json" … "```", with white space around, becomes the stripped body |
| ResponseParser.PlainFenceUnwrapped | app.py:270-275 | the same for a plain "```" fence |
| ResponseParser.SecondFenceSurvives | app.py:268-275 | only one leading "```json" is removed: a second one behind white space is still at the start of the result |
| Slug.Slugify | app.py:116-120 | a slug has at most 90 characters (the `[:90]` cut) |
| Slug.SlugifyShape | app.py:116-120 | a slug has at most 90 characters, all lower-case word characters, hyphens or in 一..龥, no two adjacent hyphens, and no leading hyphen |
| Slug.CleanedShape | app.py:117-119 | before the end strip, the text is made of slug characters without adjacent hyphens |
| Slug.ReplaceRuns | app.py:118 | `re.sub(r"[^\w\-一-龥]+", "-", …)`: each maximal run of characters outside the class becomes one hyphen; `Slug.ReplaceRunsChars` states what it leaves |
| Slug.ReplaceRunsChars | app.py:118 | replacing the runs outside the class by hyphens leaves only slug characters in a lower-cased text |
| Slug.Collapse | app.py:119 | `re.sub(r"-{2,}", "-", …)`: each run of hyphens becomes one; `Slug.CollapseChars` states what it keeps |
| Slug.CollapseChars | app.py:119 | collapsing hyphen runs keeps slug characters |
| Slug.SlugIsFixed | app.py:116-120 | a string already of slug shape, at most 90 long, without hyphens at the ends, is its own slug |
| Slug.SlugifyIdempotent | app.py:116-120 | a slug that does not end in a hyphen after the cut to 90 is its own slug |
| Html.RefBlock | app.py:414-417 | the reference block is empty exactly when there are no references |
| Html.TagBlock | app.py:419-421 | the tag line is empty exactly when there are no tags |
| Html.AssembleHtml | app.py:413-424 | the post body: the article, then the reference block, the tag line and the signature, in that order; its layout is stated by `Html.AssembleLayout` |
| Html.AssembleLayout | app.py:413-424 | the post starts with the article and ends with the signature; without references and tags the two are adjacent |
| Html.RefItem | app.py:416 | one list item: the reference as the link target and as the link text |
| Html.ListItems | app.py:416 | the items of the references joined in order; `Html.ListItemsAt` places each one |
| Html.ListItemsAt | app.py:416 | the list holds one item per reference, in order: the `k`-th item follows the items of the earlier references |
| Html.ReferenceLinked | app.py:415-417 | each reference appears in the post as a link at a known position after the article |
| Html.TagsReadBack | app.py:420-421 | the tags joined by "、" split back into the tags |
| Html.Signature | app.py:423 | the signature line around the brand and the site; `Html.SignatureNames` states what it names |
| Html.SignatureNames | app.py:423 | the signature names the brand and then the site |
| Generator.DefaultDescription | app.py:292-294 | the description used when the reply has none: the keyword, the filler text and the brand suffix; `Generator.FinishFields` states where it applies |
| Generator.DefaultFocusKeyword | app.py:297-298 | the first three default keywords joined by commas; `Generator.DefaultFocusKeywordReadBack` reads them back |
| Generator.Finish | app.py:282-312 | the checks after parsing: a missing title or article rejects; otherwise the default description and focus keyword fill empty fields and the body is assembled; its properties are stated by `Generator.FinishFields` |
| Generator.GenerateArticle | app.py:265-321 | `gemini_generate_article` after the request: the reply text, the fence removal, `parse_gemini_output` as written (`ResponseParser.ParseOutput`) and then `Generator.Finish`; its properties are stated by `Generator.GenerateRejects`, `Generator.ReadAccepted` and `Generator.MarkedResponseAccepted` |
| Generator.GenerateIntended | app.py:265-321 | the same pipeline with the corrected reader `ResponseParser.ParseIntended` |
| Generator.ReplyText | app.py:226-244 | a text is read only from a 200 reply |
| Generator.GenerateRejects | app.py:279-285 | generation yields nothing exactly when the reply text is missing or the title or article read by `parse_gemini_output` as written is empty |
| Generator.IntendedRejects | app.py:279-285 | with the corrected reader, generation yields nothing exactly when the reply text is missing or the title or article it reads is empty |
| Generator.GeneratorsAgreeOnFilledFields | app.py:279-312 | when the corrected reader finds a non-empty title, description and keyword, the generator as written gives the same article as the corrected one |
| Generator.FinishFields | app.py:282-312 | an accepted reply yields its title and its description (or the default description), its keyword (or the default keyword), a body that starts with the article and ends with the signature, the default keywords as tags and the references |
| Generator.GeneratedIsComplete | app.py:282-312 | an accepted article has a title, a description and a body, and its title is stripped, so the completeness check of the loop never fails |
| Generator.DefaultFocusKeywordReadBack | app.py:297-298 | the default focus keyword holds at most three of the default keywords, and splitting it on commas gives them back |
| Generator.MarkedResponseAccepted | app.py:265-302 | a cleaned response whose four markers first occur in order, with a non-empty title piece and article piece, is accepted by the generator as written, with the stripped title piece as title and a body that starts with the stripped text after `ARTICLE:`, whatever the description and keyword pieces hold |
| Generator.ReadAccepted | app.py:279-302 | a reply whose title and article, as read by `parse_gemini_output` as written, are non-empty is accepted with that title and a body that starts with that article |
| References.FreshLinks | app.py:160-167 | the link filter: the items' links that are non-empty and not used, in order; stated by `References.FreshLinksSound`, `FreshLinksComplete` and `FreshLinksInOrder` |
| References.SelectedLinks | app.py:150-170 | at most two links are handed on (the `[:2]` cut) |
| References.GetReferenceLinks | app.py:150-170 | the loop returns the selected links; at most two, each non-empty and not used before |
| References.FreshLinksSound | app.py:160-164 | every kept link is non-empty and not in the used list |
| References.FreshLinksComplete | app.py:160-164 | every item with a fresh link is kept |
| References.FreshLinksInOrder | app.py:160-167 | the kept links come from strictly increasing item positions, so they are in result order |
| References.SelectedLinksFromSuccess | app.py:150-153 | links are handed on only after a 200 reply, and they are a prefix of the fresh links |
| WordPress.Taken | app.py:326-334 | the lookup as a function: `None` on a raise, otherwise true exactly when the status is 200 and some returned item has exactly this slug |
| WordPress.PostExistsBySlug | app.py:326-334 | the check is true exactly when some returned item's slug equals the candidate exactly; it is false on a status other than 200; a raise is `None` |
| WordPress.Candidate | app.py:512-515 | the slug after `k` collisions: the previous candidate followed by `-k` |
| WordPress.SlugSearch | app.py:511-515 | the loop as a function: look up the candidate, stop on a raise, a free slug or the fifth collision, otherwise try the next candidate |
| WordPress.UniqueSlug | app.py:511-515 | the loop gives the choice of the specification function: a raised lookup, or the slug and number of collisions |
| WordPress.SlugSearchChoice | app.py:511-515 | at most five collisions; every candidate before the chosen one was taken; the chosen one is free unless five were reached; a raised lookup came from one of the candidates |
| WordPress.CandidateAccumulates | app.py:513-515 | after three collisions the slug is `base-1-2-3`, after five `base-1-2-3-4-5` |
| WordPress.FreeOnFourthTry | app.py:511-515 | a base taken on tries 0 to 2 and free on try 3 gives `base-1-2-3` |
| WordPress.CandidateLength | app.py:515 | each try adds two characters, up to the ninth, and keeps the base as prefix |
| WordPress.PayloadOf | app.py:340-363 | the payload as a function: the post fields, `categories` for a positive category, and `meta` with the focus keyword only when there is one |
| WordPress.BuildPayload | app.py:340-363 | the updates in order build the payload of the specification function |
| WordPress.PayloadShape | app.py:340-363 | the payload has exactly the post fields and `meta`, plus `categories` exactly when the category is positive; the excerpt is the description's first 150 characters; the focus keyword is sent exactly when it is not empty |
| WordPress.MetaRefused | app.py:370 | the retry condition: a 403 whose lower-cased body contains "meta" or "forbidden"; `WordPress.SafePublish` posts twice exactly when it holds of the first reply |
| WordPress.Accepted | app.py:377-389 | a created post: a 201 whose body decodes; `WordPress.SafePublish` succeeds exactly when it holds of the last reply |
| WordPress.PublishSucceeds | app.py:365-394 | the publish outcome as a function: after a `meta` refusal the retry's acceptance, otherwise the first reply's |
| WordPress.SafePublish | app.py:365-404 | one or two posts; the second exactly after a 403 whose lower-cased body contains "meta" or "forbidden", carrying the payload without `meta`; success exactly when the last reply is a 201 that decodes |
| WordPress.RetryKeepsFields | app.py:374-375 | the retry carries every other field unchanged and no `meta` |
| WordPress.PublishOutcome | app.py:365-394 | without a refusal, success is the first reply's; after a refusal it is the retry's, and the refused first post never counts as created |
| Orchestrator.GenerationRefs | app.py:469-477 | the references handed to the generator: the fresh links, or the first two fallback links when there are none; stated by `Orchestrator.ReferencesHandedOn` |
| Orchestrator.DailyKeywords | app.py:463 | the keywords worked on, `KEYWORDS[:POSTS_PER_DAY]`; stated by `Orchestrator.DailyKeywordsBound` |
| Orchestrator.Publishes | app.py:483-533 | whether a keyword reaches the site: its article is generated and complete, its slug lookups do not raise and `PublishSucceeds` holds of its payload |
| Orchestrator.ProcessKeyword | app.py:466-537 | one pass of the loop body: the fresh references are recorded as used before generation, and the keyword is published exactly when `Publishes` holds |
| Orchestrator.RunOver | app.py:460-537 | the loop as a function: each keyword in turn, each seeing the used references the earlier ones left, counted as a success or a failure |
| Orchestrator.PublishArticle | app.py:483-533 | generation, the completeness check, the strips, the slug loop, the payload and the publish give the outcome of the specification function |
| Orchestrator.ProcessOne | app.py:466-537 | one keyword's outcome and the used references afterwards follow the specification function |
| Orchestrator.CountOne | app.py:463-537 | one more keyword advances the counters and the used list as the loop specification says |
| Orchestrator.Run | app.py:457-537 | the counters and the used list after the loop are those of the loop specification over the first `POSTS_PER_DAY` keywords |
| Orchestrator.EveryKeywordCounted | app.py:460-537 | every keyword worked on counts once, as a success or a failure |
| Orchestrator.DailyKeywordsBound | app.py:463 | at most `POSTS_PER_DAY` keywords are worked on (all when fewer), in order |
| Orchestrator.UsedGrows | app.py:468-481 | the used list only grows: the old list stays a prefix, each added link is non-empty and was not used at the start, and at most two are added per keyword |
| Orchestrator.ReferencesHandedOn | app.py:468-481 | fresh links are handed to the generator and recorded; without them the first two fallback links are handed on and nothing is recorded |
| Orchestrator.PublishedMeansCreated | app.py:483-528 | a published keyword had a generated article, slug lookups that did not raise, and a post of its payload that the site created, directly or on the retry without `meta` |

## Left out

- HTTP requests, their timeouts and exception handling. Search,
  generation, slug lookup and post replies are inputs. A raised request is
  one constructor of each reply type. A raise that reaches `main`'s
  handler is a failure of that keyword.
- A service asked the same request twice answers the same, since each
  service is a function of its request.
- The prompt text (app.py:189-213) and the request bodies and headers.
  The model has no URL escaping, in particular no `quote()` of the slug
  (app.py:327).
- Logging, the short-article warning (app.py:288-289), the short-title
  warning (app.py:507-508), `random.shuffle` and `time.sleep`. The keywords are taken in the order
  they are given.
- Loading the environment and `.env` file (app.py:6-32). Settings are
  parameters, and keyword lists are given already split.
- `check_env_vars` only logs and is not modelled.
- `wp_publish` is an unused wrapper that drops the focus keyword, and is not
  modelled.
- `wordpress-yoast-setup.php` is not part of this model. It only registers
  hooks.
- `load_used_refs` and `save_used_refs` (app.py:122-130) are not modelled.
  The used list is a parameter and its file is not modelled.
- Orchestrator.ProcessOne: a `save_used_refs` that raises ends the keyword
  as a failure before generation (app.py:481). The model assumes the write
  succeeds.
- Python's Unicode `\w` is modelled as the ASCII word characters plus the
  range 一..龥.
- Python's `str.lower` is modelled as ASCII lower-casing.
- Python's `str.strip` uses the exact white-space set of `str.isspace`.
- Slug.SlugifyIdempotent: stated only for slugs that do not end in a
  hyphen after the cut to 90 characters. A cut that lands right after a
  hyphen leaves a trailing hyphen that a second `slugify` strips.
- Generator.ReplyText: the JSON shapes of the reply are reduced to present
  or absent keys and lists. A key holding a value of the wrong type is not
  modelled.
- References.GetReferenceLinks: search items are reduced to an optional
  `link` string. A link of another JSON type is not modelled.
- WordPress.SafePublish: `PostReply.decodes` stands for the reply body
  decoding to a non-empty JSON object. A body that fails to decode makes the
  code return `None`, and an empty object is falsy in `main`.
- Orchestrator.DailyKeywordsBound: stated for a non-negative
  `POSTS_PER_DAY`. A negative one drops keywords from the end, as Python
  slicing does; `Text.PyPrefix` models that case.
- A link found twice in the same search is kept twice, as in the code.

## Findings

| source | as written | input that shows it | evidently intended | confidence | as-written member | corrected member |
|---|---|---|---|---|---|---|
| app.py:61-63 | when the text between `SEO_DESC:` and `SEO_KEYWORD:` is empty, the fallback `extract_after` returns everything after `SEO_DESC:`. That text includes the `SEO_KEYWORD:` line and the whole article, and it becomes the meta description. The title and keyword fallbacks at app.py:56-58 and app.py:66-68 behave the same way. | `"SEO_TITLE: T\nSEO_DESC:\nSEO_KEYWORD: k\nARTICLE: body"` gives the description `"SEO_KEYWORD: k\nARTICLE: body"` | an empty description stays empty, so the default description of app.py:292-294 applies. The fallback adds nothing otherwise: when the end marker is missing, `extract_between` already returns the rest of the text. | not executed | ResponseParser.EmptyDescriptionSwallowsRest | ResponseParser.EmptyDescriptionStaysEmpty |

The generator `Generator.GenerateArticle` reads the fields with
`ResponseParser.ParseOutput`, the reader as written, as app.py:279 does, so
the orchestrator and its lemmas describe the code as written.
`Generator.GenerateIntended` is the same pipeline with the corrected reader
`ResponseParser.ParseIntended`. `ResponseParser.ReadersAgreeOnFilledFields`
shows that the two readers differ only on an empty header field, and
`Generator.GeneratorsAgreeOnFilledFields` carries that over to the two
generators.
