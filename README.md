# MangaDex chapter feed, branch resolution and locale text selection

A Dafny model of the core of the MangaDex parser (`MangaDexParser.kt`).

- **Feed aggregation** (`feed.dfy`).
  - `loadChapters(mangaId, offset, limit)` requests one page of a manga's chapter feed. It clamps the page to the 10 000-item ceiling of the API and builds the feed URL. When the server answers `result != "ok"`, it raises the joined error details with the URL.
  - `loadChapters(mangaId)` loads a first page of 120 items. When that page does not already hold the declared total, it works out how many 500-item tail pages remain below the ceiling, loads them and concatenates everything in page order.
  - The method `Feed.LoadChapters` is proved against the function `Feed.Aggregate`. It also returns the requests it sent, proved equal to `Feed.Requests`.
- **Branch resolution** (`branches.dfy`).
  - `mapChapters(list)` makes one ordered pass over the feed items. It skips externally hosted chapters and places each other item on a branch: the display name of its language, or that name with a `" (n)"` suffix when the plain branch already holds a chapter with the same declared number. It then resolves the item's number and name and keeps the chapter when the list builder accepts its id.
  - `Branches.MapChapters` is the loop. It is written with the dedup index and a `ChaptersListBuilder` object, and is proved equal to the fold `Branches.Resolve`.
  - The properties are proved about `Resolve`: distinct ids, distinct (branch, declared number) slots, feed order, and that nothing served is dropped. A pigeonhole argument shows when the branch probe always succeeds.
- **Locale text selection** (`locales.dfy`).
  - `selectByLocale` picks the text of a multi-locale JSON object. For each preferred locale it tries the language code, then the full tag. Then it tries `"en"`, then the object's first value if that value is a string.
  - The loop `Locales.SelectByLocale` is proved equal to `Locales.Selected`, which is characterised as a ranked lookup.
- **Listing mappings** (`listing.dfy`). The sort order becomes an `order[...]` clause, and the `status` attribute becomes a publication state.
- **Shared helpers.** `text.dfy` holds decimal text, suffix removal and `joinToString`. `wrappers.dfy` holds `Option` and `Result`.

These external behaviours are parameters of the model:
- The HTTP call and JSON parsing are an oracle `fetch` from (offset, clamped limit) to the server's reply.
- Locale display names, `generateUid`, `Float.toString` and date parsing are the function fields of `Branches.Env`.

## Model

| member | source | states |
|---|---|---|
| Feed.PageRequest | src/main/kotlin/org/koitharu/kotatsu/parsers/site/all/MangaDexParser.kt:229-234 | No request is made exactly when the offset is at or past 10 000; otherwise the limit becomes `min(limit, 10000 - offset)`, so `offset + limit <= 10000` |
| Feed.LoadPage | src/main/kotlin/org/koitharu/kotatsu/parsers/site/all/MangaDexParser.kt:229-231 | An offset at or past the ceiling returns an empty page declaring a total of 10 000 without asking the server |
| Feed.FeedUrl | src/main/kotlin/org/koitharu/kotatsu/parsers/site/all/MangaDexParser.kt:235-247 | The feed URL starts with `https://api.<domain>/manga/<id>/feed?limit=` and ends with the four content-rating filters |
| Feed.FeedUrlDeterminesRequest | src/main/kotlin/org/koitharu/kotatsu/parsers/site/all/MangaDexParser.kt:235-247 | The feed URL determines the request: two (limit, offset) pairs with the same URL are equal |
| Feed.Interpret | src/main/kotlin/org/koitharu/kotatsu/parsers/site/all/MangaDexParser.kt:248-259 | A reply is a page exactly when `result == "ok"`, with `data` (empty when missing) and `total`; otherwise the error carries the details joined by newlines and the request URL; transport failures pass through |
| Feed.CeilPages | src/main/kotlin/org/koitharu/kotatsu/parsers/site/all/MangaDexParser.kt:214 | `toIntUp(left / 500f)` for a non-negative count `left` is the least n with `left <= 500 n`, that is `500 (n - 1) < left <= 500 n` |
| Feed.TailCount | src/main/kotlin/org/koitharu/kotatsu/parsers/site/all/MangaDexParser.kt:213-214 | The tail page count is the ceiling of `(min(total, 10000) - firstSize) / 500` |
| Feed.TailOffsetsBelowCeiling | src/main/kotlin/org/koitharu/kotatsu/parsers/site/all/MangaDexParser.kt:213-219 | Every tail page offset `p * 500 + firstSize` is below `min(total, 10000)`, so no tail page takes the early empty exit, and its request is the clamped 500-item page |
| Feed.TailOffsetsContiguous | src/main/kotlin/org/koitharu/kotatsu/parsers/site/all/MangaDexParser.kt:216-219 | Tail offsets strictly increase and each page starts where the previous page's request ends |
| Feed.TailPages | src/main/kotlin/org/koitharu/kotatsu/parsers/site/all/MangaDexParser.kt:216-221 | One result per page index, result p being the page loaded at offset `p * 500 + firstSize` |
| Feed.TailRequests | src/main/kotlin/org/koitharu/kotatsu/parsers/site/all/MangaDexParser.kt:216-219 | Request p of the tail is the one for page p |
| Feed.Merge | src/main/kotlin/org/koitharu/kotatsu/parsers/site/all/MangaDexParser.kt:221-225 | The merge succeeds exactly when every page succeeded, and then is the first page's items followed by every page's items in page-index order |
| Feed.MergeReportsFirstFailure | src/main/kotlin/org/koitharu/kotatsu/parsers/site/all/MangaDexParser.kt:221 | A failed merge reports the error of the lowest-indexed failed page |
| Feed.MergeFailureSticks | src/main/kotlin/org/koitharu/kotatsu/parsers/site/all/MangaDexParser.kt:221 | Once some prefix of the pages fails, later pages do not change the outcome |
| Feed.LoadChapters | src/main/kotlin/org/koitharu/kotatsu/parsers/site/all/MangaDexParser.kt:207-227 | The loader's result is `Aggregate` and the requests it sends, in order, are `Requests` |
| Feed.LaunchTail | src/main/kotlin/org/koitharu/kotatsu/parsers/site/all/MangaDexParser.kt:216-221 | Launching the tail yields exactly the tail pages and their requests, indexed by page |
| Feed.LoadTailPage | src/main/kotlin/org/koitharu/kotatsu/parsers/site/all/MangaDexParser.kt:217-219 | Tail page p is `loadChapters(mangaId, p * 500 + firstSize, 500)` and sends that page's clamped request |
| Feed.AwaitAll | src/main/kotlin/org/koitharu/kotatsu/parsers/site/all/MangaDexParser.kt:221-225 | Appending the awaited pages to the first page's items gives `Merge` |
| Feed.FirstPageSuffices | src/main/kotlin/org/koitharu/kotatsu/parsers/site/all/MangaDexParser.kt:208-211 | When the first page holds at least the declared total, the result is that page's items and no other request is sent |
| Feed.TailRequestsLayout | src/main/kotlin/org/koitharu/kotatsu/parsers/site/all/MangaDexParser.kt:213-219 | After a short first page, request p + 1 is tail page p's request |
| Feed.ThousandItemsTakeThreeRequests | src/main/kotlin/org/koitharu/kotatsu/parsers/site/all/MangaDexParser.kt:208-219 | A full first page declaring 1000 items leads to the requests (0, 120), (120, 500), (620, 500) |
| Feed.HonestPage | src/main/kotlin/org/koitharu/kotatsu/parsers/site/all/MangaDexParser.kt:229-253 | A server answering each request with the matching slice of the feed returns, for an offset below the clamped length, the next slice |
| Feed.HonestFirstPage | src/main/kotlin/org/koitharu/kotatsu/parsers/site/all/MangaDexParser.kt:208 | Such a server's first page is the first 120 items with the true total |
| Feed.HonestTailPages | src/main/kotlin/org/koitharu/kotatsu/parsers/site/all/MangaDexParser.kt:216-219 | Such a server's tail page p is the slice at offset `p * 500 + 120` |
| Feed.ContiguousPagesFlatten | src/main/kotlin/org/koitharu/kotatsu/parsers/site/all/MangaDexParser.kt:223-225 | Pages holding consecutive slices of the feed concatenate to the run of the feed they cover |
| Feed.HonestTail | src/main/kotlin/org/koitharu/kotatsu/parsers/site/all/MangaDexParser.kt:212-225 | Past a full first page, such a server's tail completes the feed up to the ceiling |
| Feed.HonestFeedAggregatesInOrder | src/main/kotlin/org/koitharu/kotatsu/parsers/site/all/MangaDexParser.kt:207-227 | Against such a server the aggregate is the feed itself, cut at 10 000 items, in order |
| Feed.BoundedPagesFlatten | src/main/kotlin/org/koitharu/kotatsu/parsers/site/all/MangaDexParser.kt:216-225 | Pages each within their request's limit hold together at most what the ceiling leaves after the first page |
| Feed.BoundedTail | src/main/kotlin/org/koitharu/kotatsu/parsers/site/all/MangaDexParser.kt:213-225 | A server that never returns more than asked for fills the tail with at most `10000 - firstSize` items |
| Feed.BoundedServerNeverNegativeCount | src/main/kotlin/org/koitharu/kotatsu/parsers/site/all/MangaDexParser.kt:209-214 | Against a server that never returns more than asked for, the count left after a short first page is positive, so the aggregate never fails on a negative page count |
| Feed.CeilingBoundsAggregate | src/main/kotlin/org/koitharu/kotatsu/parsers/site/all/MangaDexParser.kt:45 | Whatever total such a server declares, the aggregate never exceeds 10 000 items |
| Text.IntText | src/main/kotlin/org/koitharu/kotatsu/parsers/site/all/MangaDexParser.kt:242-244 | `Int.toString` starts with '-' exactly for a negative number, and the rest is a non-empty run of digits whose decimal value is the number's magnitude |
| Text.NatTextValue | src/main/kotlin/org/koitharu/kotatsu/parsers/site/all/MangaDexParser.kt:242-244 | Reading the decimal text of a natural number back as digits gives the number |
| Text.IntTextInjective | src/main/kotlin/org/koitharu/kotatsu/parsers/site/all/MangaDexParser.kt:242-244 | The decimal text of an `Int` in the URL determines the number |
| Text.Join | src/main/kotlin/org/koitharu/kotatsu/parsers/site/all/MangaDexParser.kt:255-257 | Joining no error details gives the empty message, and a single detail is the message itself |
| Text.JoinLayout | src/main/kotlin/org/koitharu/kotatsu/parsers/site/all/MangaDexParser.kt:255-257 | For any number of details, the message is every detail in order with one separator between each two neighbours and nothing else: detail i starts after the details before it and one separator each |
| Text.RemoveSuffix | src/main/kotlin/org/koitharu/kotatsu/parsers/site/all/MangaDexParser.kt:289 | `removeSuffix` drops the suffix exactly when the text ends with it (what remains, followed by the suffix, is the text) and otherwise returns the text unchanged |
| Text.RemoveAppendedSuffix | src/main/kotlin/org/koitharu/kotatsu/parsers/site/all/MangaDexParser.kt:289 | Removing ".0" from a text that ends with it gives back the text before it |
| Branches.FirstFree | src/main/kotlin/org/koitharu/kotatsu/parsers/site/all/MangaDexParser.kt:282-285 | A probe result is a usable candidate: non-null and with no chapter at this declared number |
| Branches.FirstFreeIsFirstUsable | src/main/kotlin/org/koitharu/kotatsu/parsers/site/all/MangaDexParser.kt:282-285 | The branch is the first usable candidate among `lc`, "lc (1)", "lc (2)", … below the list size, and the probe fails exactly when none of them is usable |
| Branches.ResolvedNumber | src/main/kotlin/org/koitharu/kotatsu/parsers/site/all/MangaDexParser.kt:290 | A positive declared number truncates to the integer below it; otherwise the number is the branch's size plus one, and 0 exactly when the branch is not in the index |
| Branches.Scanlator | src/main/kotlin/org/koitharu/kotatsu/parsers/site/all/MangaDexParser.kt:280-281 | The group name is kept exactly when present and not blank |
| Branches.ChaptersListBuilder.constructor | src/main/kotlin/org/koitharu/kotatsu/parsers/site/all/MangaDexParser.kt:268 | A new builder is empty |
| Branches.ChaptersListBuilder.Add | src/main/kotlin/org/koitharu/kotatsu/parsers/site/all/MangaDexParser.kt:297 | `add` accepts exactly a chapter whose id is new, appending it, and otherwise leaves the list as it was |
| Branches.StepEffect | src/main/kotlin/org/koitharu/kotatsu/parsers/site/all/MangaDexParser.kt:273-299 | An externally hosted item changes nothing; any other step keeps the state or appends one chapter, and the index changes exactly when the builder accepted |
| Branches.AcceptPreservesWellFormed | src/main/kotlin/org/koitharu/kotatsu/parsers/site/all/MangaDexParser.kt:297-298 | Recording an accepted chapter in a free slot keeps the invariant |
| Branches.StepPreservesWellFormed | src/main/kotlin/org/koitharu/kotatsu/parsers/site/all/MangaDexParser.kt:270-299 | One iteration keeps the invariant: served origins in order, distinct ids, each chapter in its slot, at most one holder per accepted chapter at each number |
| Branches.RunWellFormed | src/main/kotlin/org/koitharu/kotatsu/parsers/site/all/MangaDexParser.kt:270-300 | Every state the loop reaches satisfies the invariant |
| Branches.RunFailureSticks | src/main/kotlin/org/koitharu/kotatsu/parsers/site/all/MangaDexParser.kt:282-285 | The exception ends the pass: later items do not change the outcome |
| Branches.MapChapters | src/main/kotlin/org/koitharu/kotatsu/parsers/site/all/MangaDexParser.kt:262-302 | The loop, with its builder and dedup index, returns `Resolve` |
| Branches.ResolvedIdsDistinct | src/main/kotlin/org/koitharu/kotatsu/parsers/site/all/MangaDexParser.kt:297 | No two resulting chapters share an id |
| Branches.ResolvedFromServedItemsInOrder | src/main/kotlin/org/koitharu/kotatsu/parsers/site/all/MangaDexParser.kt:270-275 | Each resulting chapter comes from a served item whose id is its url, and chapters keep the feed order |
| Branches.ResolvedSlotsDistinct | src/main/kotlin/org/koitharu/kotatsu/parsers/site/all/MangaDexParser.kt:282-298 | No two resulting chapters share both a branch and a declared number |
| Branches.RunCoversServedItems | src/main/kotlin/org/koitharu/kotatsu/parsers/site/all/MangaDexParser.kt:270-299 | After k items, every served item among them has its uid among the kept ids |
| Branches.ResolvedCoversServedItems | src/main/kotlin/org/koitharu/kotatsu/parsers/site/all/MangaDexParser.kt:270-301 | Nothing served is dropped except as a repeated id |
| Branches.AllExternalYieldsNothing | src/main/kotlin/org/koitharu/kotatsu/parsers/site/all/MangaDexParser.kt:273-275 | A list of externally hosted chapters leaves the index and the builder empty |
| Branches.CandidateTextInjective | src/main/kotlin/org/koitharu/kotatsu/parsers/site/all/MangaDexParser.kt:283 | Different candidate indices give different branch names |
| Branches.ProbeTextsCount | src/main/kotlin/org/koitharu/kotatsu/parsers/site/all/MangaDexParser.kt:282-283 | Candidates lo … n-1 name n - lo different branches |
| Branches.NoFreeBranchMeansManyHolders | src/main/kotlin/org/koitharu/kotatsu/parsers/site/all/MangaDexParser.kt:282-285 | A failed probe means at least (list size, one fewer for a null name) branches already hold this declared number |
| Branches.StepSucceeds | src/main/kotlin/org/koitharu/kotatsu/parsers/site/all/MangaDexParser.kt:282-285 | The probe on item k succeeds when it has more candidates than k (k + 1 for an item without language) |
| Branches.RunSucceeds | src/main/kotlin/org/koitharu/kotatsu/parsers/site/all/MangaDexParser.kt:270-299 | The pass succeeds when each item has such a margin |
| Branches.ResolveSucceedsWhenLanguagesPresent | src/main/kotlin/org/koitharu/kotatsu/parsers/site/all/MangaDexParser.kt:282-285 | When every item names its language, `list.indices` always holds a free branch and the pass never throws |
| Branches.SingleItemWithoutLanguageFails | src/main/kotlin/org/koitharu/kotatsu/parsers/site/all/MangaDexParser.kt:282-285 | A one-item list whose item has no language throws: candidate 0 is null and there is no other |
| Branches.ResolveWithSpareProbe | src/main/kotlin/org/koitharu/kotatsu/parsers/site/all/MangaDexParser.kt:282 | With one more candidate than items, the pass never throws, keeps distinct ids and represents every served item |
| Branches.SpareProbeAgrees | src/main/kotlin/org/koitharu/kotatsu/parsers/site/all/MangaDexParser.kt:282-285 | The spare candidate changes nothing for any input the code as written resolves |
| Branches.TwoItemsOfOneLanguage | src/main/kotlin/org/koitharu/kotatsu/parsers/site/all/MangaDexParser.kt:282-298 | Of two served items in one language, the second stays on the language's branch unless the first holds its declared number, and then moves to "L (1)" |
| Branches.SameNumberMovesToNumberedBranch | src/main/kotlin/org/koitharu/kotatsu/parsers/site/all/MangaDexParser.kt:282-285 | Two English chapters numbered 5 land on "English" and "English (1)" |
| Branches.UnnumberedItemsSpreadOverBranches | src/main/kotlin/org/koitharu/kotatsu/parsers/site/all/MangaDexParser.kt:282-290 | Two English chapters without a number land on "English" and "English (1)", both numbered 0 |
| Branches.UnnumberedItemFollowsBranchSize | src/main/kotlin/org/koitharu/kotatsu/parsers/site/all/MangaDexParser.kt:290 | An unnumbered chapter after chapter 1 of its branch is numbered 2 |
| Branches.ResolvedNumbersMayRepeat | src/main/kotlin/org/koitharu/kotatsu/parsers/site/all/MangaDexParser.kt:290 | Declared 1.2 and 1.5 share a branch and both resolve to 1 |
| Branches.ChapterName | src/main/kotlin/org/koitharu/kotatsu/parsers/site/all/MangaDexParser.kt:288-289 | A non-empty title is the name; otherwise the name is "Chapter #" followed by the number's text, without its trailing ".0" when it has one |
| Branches.ChapterNameOfIntegralNumber | src/main/kotlin/org/koitharu/kotatsu/parsers/site/all/MangaDexParser.kt:288-289 | Without a title, an integral number n gives the name "Chapter #n" |
| Locales.LookupFindsMember | src/main/kotlin/org/koitharu/kotatsu/parsers/site/all/MangaDexParser.kt:201 | A lookup finds the first member with the key, and nothing exactly when no member has it |
| Locales.GetStringOrNull | src/main/kotlin/org/koitharu/kotatsu/parsers/site/all/MangaDexParser.kt:201 | A text is returned only for a member named by the key, and then is non-empty; when the first such member is non-null with non-empty text, that text is returned |
| Locales.GetStringOrNullOfFirstMember | src/main/kotlin/org/koitharu/kotatsu/parsers/site/all/MangaDexParser.kt:201-202 | The first member named by the key decides: its text when it is non-null and non-empty, otherwise nothing |
| Locales.GetStringOrNullFromMember | src/main/kotlin/org/koitharu/kotatsu/parsers/site/all/MangaDexParser.kt:201 | A text found under a key is the non-empty text of a non-null member with that key |
| Locales.FirstValue | src/main/kotlin/org/koitharu/kotatsu/parsers/site/all/MangaDexParser.kt:204 | The last fallback is the first value exactly when that value is a string |
| Locales.FirstPresentIsFirstHit | src/main/kotlin/org/koitharu/kotatsu/parsers/site/all/MangaDexParser.kt:200-204 | The ranked lookup returns the text of the first key that has one, and nothing exactly when no key has one |
| Locales.SelectByLocale | src/main/kotlin/org/koitharu/kotatsu/parsers/site/all/MangaDexParser.kt:198-205 | The loop with its early returns computes `Selected` |
| Locales.EarliestPreferenceWins | src/main/kotlin/org/koitharu/kotatsu/parsers/site/all/MangaDexParser.kt:200-202 | The earliest-ranked preference with a text wins, its language code before its full tag |
| Locales.FallbackBeforeFirstValue | src/main/kotlin/org/koitharu/kotatsu/parsers/site/all/MangaDexParser.kt:204 | With no preferred text, "en" is used, and only then the first value |
| Locales.SelectedAbsentIff | src/main/kotlin/org/koitharu/kotatsu/parsers/site/all/MangaDexParser.kt:198-205 | The result is absent exactly when no ranked key and not "en" has a text and the first value is not a string |
| Locales.SelectedComesFromObject | src/main/kotlin/org/koitharu/kotatsu/parsers/site/all/MangaDexParser.kt:198-205 | A selected text is the text of one of the object's members |
| Locales.PreferredLocaleExample | src/main/kotlin/org/koitharu/kotatsu/parsers/site/all/MangaDexParser.kt:200-204 | `{"en": "Foo", "ja": "Baz"}` gives "Baz" to a Japanese-first reader and "Foo" with no preference |
| Locales.NullFirstValueGivesNothing | src/main/kotlin/org/koitharu/kotatsu/parsers/site/all/MangaDexParser.kt:204 | A null first member leaves the text absent even when a later member has one |
| Locales.EmptyObjectGivesNothing | src/main/kotlin/org/koitharu/kotatsu/parsers/site/all/MangaDexParser.kt:198-205 | An empty object gives no text |
| Listing.OrderClause | src/main/kotlin/org/koitharu/kotatsu/parsers/site/all/MangaDexParser.kt:89-98 | Each offered order's clause reads back as that order, and any other order gets the popularity clause |
| Listing.OrderOfClause | src/main/kotlin/org/koitharu/kotatsu/parsers/site/all/MangaDexParser.kt:89-98 | A clause is read back only as one of the offered sort orders |
| Listing.OfferedClausesDistinct | src/main/kotlin/org/koitharu/kotatsu/parsers/site/all/MangaDexParser.kt:55-60 | The four offered orders have four different clauses, and an unlisted order sorts as popularity does |
| Listing.StateOfStatus | src/main/kotlin/org/koitharu/kotatsu/parsers/site/all/MangaDexParser.kt:135-139 | A state is known exactly for "ongoing" and "completed" |
| Listing.StatusRoundTrip | src/main/kotlin/org/koitharu/kotatsu/parsers/site/all/MangaDexParser.kt:135-139 | A state's own status text reads back as that state, and a recognised status is the text of the state it reads as |

In four places the code does less than one would expect, and the model follows the code:
- **Unnumbered chapters.** One would expect the chapters of a branch that have no number to be numbered 1..N. In the code, the dedup index is keyed by the *declared* number, so a second unnumbered chapter of the same language collides and moves to "L (1)". There it is the branch's first chapter and is numbered 0. See `Branches.UnnumberedItemsSpreadOverBranches`.
- **Repeated numbers.** One would expect no two chapters of a branch to share a number. The code only keeps *declared* numbers apart; resolved numbers can repeat (`Branches.ResolvedNumbersMayRepeat`). What the code does guarantee is `Branches.ResolvedSlotsDistinct`.
- **First value.** One would expect the last fallback to be the first value present. The code takes the first value only when it is a string (`Locales.NullFirstValueGivesNothing`).
- **One bad item.** One would expect one malformed item never to abort the pass. An item without a language can make the branch probe throw (see Findings).

## Left out

- HTTP and JSON parsing are not modelled. The server is an oracle from the request (offset, clamped limit) to a reply. `Feed.FeedUrlDeterminesRequest` shows that the request and the URL determine each other. Missing JSON fields (`getString`, `getInt`) are not modelled as errors.
- Concurrency is not modelled: `coroutineScope`, `async` and the parallelism limit of 3. Tail pages are loaded in page-index order.
- Feed.Requests: lists every tail request even when a tail page fails. In the code, a failing page cancels its `coroutineScope`, so pages still queued behind the parallelism limit may never send their request.
- Feed.Merge: when several tail pages fail, the model reports the lowest-indexed failure (`Feed.MergeReportsFirstFailure`). `awaitAll` reports whichever page fails first in time, and the model has no timing.
- Integers are unbounded. Within the ceiling no offset or count comes near the `Int` range. The `Float` quotient `left / 500f` is not always exact (9880 / 500 is not a `Float`), but for counts this far below 2^24 its rounding never moves the ceiling.
- Feed.CeilPages: `toIntUp` is not part of this model. It is taken to be the mathematical ceiling. A `toIntUp` that truncates toward zero and then adds one agrees for every non-negative count, but may differ for a negative count (it gives 0 for -1.5, where the ceiling is -1), so the model's `NegativePageCount` outcome may not be what the code does. A negative count needs a first page of more than 10 000 items, which a server that never returns more than asked for cannot produce (`Feed.BoundedServerNeverNegativeCount`).
- Feed.Aggregate: the result list is allocated with the declared total as its capacity, not clamped to the ceiling. An inflated total (near `Int.MAX_VALUE`) can therefore exhaust memory before the merge, even though every request stays under the ceiling. The model has no allocation and does not capture this failure.
- Branches.ResolvedNumber: declared chapter numbers are exact reals. `Float` rounding, `-0.0`/`NaN` map keys, and the saturation of `Float.toInt()` beyond `Int.MAX_VALUE` are not modelled.
- Branches.ChapterNameOfIntegralNumber: `Float.toString` is a parameter. The name rule is proved only for integral numbers printed as "n.0".
- Locale display names and `toTitleCase`, `generateUid` and date parsing (`SimpleDateFormat.tryParse`) are parameters (`Branches.Env`).
- `ChaptersListBuilder` is not part of this model. It is taken to be an ordered list that accepts a chapter exactly when its id is new. Its capacity argument has no effect.
- `getStringOrNull` is not part of this model. It is taken to give nothing for a missing member, a JSON null or an empty text, and otherwise the member's text. The iteration order of a JSON object is the order of the members in the model.
- Branches.IsWhitespace: Kotlin's `isBlank` is modelled by the list of code points for which `Char.isWhitespace` holds.
- These are not modelled:
  - `getDetails`, `getPages`, `getTags` and `firstStringValue`;
  - the listing URL and the `Manga` record built in `getList`, beyond the sort clause and the status mapping;
  - the site-adapter classes (Tukangkomik, ManhwalistParser, HManhwa, Manhwax, Kanzenin, Stkissmanga), which only set constants on base classes that are not part of this model.
- Branches.MapChapters follows the code as written, throwing where the code throws. The corrected probe is the separate function `Branches.ResolveWithSpareProbe`.

## Findings

| source | as written | input that shows it | evidently intended | confidence | as-written member | corrected member |
|---|---|---|---|---|---|---|
| src/main/kotlin/org/koitharu/kotatsu/parsers/site/all/MangaDexParser.kt:282-285 | Branch candidates are `list.indices`. For an item without a language, candidate 0 is `null` and is skipped, leaving only `list.size - 1` real candidates, so `firstNotNullOf` can throw `NoSuchElementException` | A one-item list whose item has no `translatedLanguage` | Every served item gets a branch, as it always does for items with a language (`Branches.ResolveSucceedsWhenLanguagesPresent`) | medium, not executed | Branches.SingleItemWithoutLanguageFails | Branches.ResolveWithSpareProbe |
